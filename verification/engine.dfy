/** The composition state machine of the input method (engine.cpp): a
    preedit buffer the user types romaji into, which a conversion request
    turns into a list of candidates to choose from. */
module Engine {
  import opened Common
  import ImeClient

  // ---------------------------------------------------------------------
  // Keys and the candidate list
  // ---------------------------------------------------------------------

  /** The keys the state machine tells apart. `Simple` is any key fcitx calls
      simple (a printable character), carrying the character it types. The
      space bar is checked before `isSimple` in both modes, so it is always
      `Space` and `Simple(' ')` does not stand for any event. */
  datatype Key = BackSpace | Return | Space | Up | Down | Simple(sym: char) | Other

  /** A key event as fcitx delivers it: the key, whether it is a release, and
      the modifier state (0 when no modifier is held). */
  datatype KeyEvent = KeyEvent(key: Key, isRelease: bool, states: nat)

  /** The candidate list shown in the input panel: the candidates in the order
      the converter gave them, and the index of the selected one (-1 before
      anything is selected). */
  datatype CandidateList = CandidateList(items: seq<string>, cursor: int)

  /** `nextCandidate`: from no selection to the first candidate, then one
      forward, wrapping from the last to the first. An empty list has nothing
      to select. */
  function NextCursor(n: nat, c: int): (r: int)
    ensures n == 0 ==> r == c
    ensures n > 0 ==> 0 <= r < n
    ensures n > 0 && c < 0 ==> r == 0
  {
    if n == 0 then c else if c < 0 || c + 1 >= n then 0 else c + 1
  }

  /** `prevCandidate`: from no selection to the last candidate, then one
      back, wrapping from the first to the last. */
  function PrevCursor(n: nat, c: int): (r: int)
    ensures n == 0 ==> r == c
    ensures n > 0 ==> 0 <= r < n
    ensures n > 0 && c < 0 ==> r == n - 1
  {
    if n == 0 then c else if c <= 0 || c > n then n - 1 else c - 1
  }

  /** Stepping back undoes stepping forward and the other way round, for a
      selection on the list. */
  lemma CursorStepsInverse(n: nat, c: int)
    requires 0 <= c < n
    ensures PrevCursor(n, NextCursor(n, c)) == c
    ensures NextCursor(n, PrevCursor(n, c)) == c
  {
  }

  /** The selection after `k` forward steps. */
  function Forward(n: nat, c: int, k: nat): int
    decreases k
  {
    if k == 0 then c else Forward(n, NextCursor(n, c), k - 1)
  }

  lemma {:induction false} ForwardAdd(n: nat, c: int, a: nat, b: nat)
    ensures Forward(n, c, a + b) == Forward(n, Forward(n, c, a), b)
    decreases a
  {
    if a > 0 {
      ForwardAdd(n, NextCursor(n, c), a - 1, b);
    }
  }

  /** Before the end of the list, `k` steps move the selection `k` places on. */
  lemma {:induction false} ForwardNoWrap(n: nat, c: int, k: nat)
    requires 0 <= c && c + k < n
    ensures Forward(n, c, k) == c + k
    decreases k
  {
    if k > 0 {
      ForwardNoWrap(n, c + 1, k - 1);
    }
  }

  /** A full round of forward steps comes back to the selection it started from. */
  lemma ForwardFullRound(n: nat, c: int)
    requires 0 <= c < n
    ensures Forward(n, c, n) == c
  {
    ForwardAdd(n, c, n - 1 - c, c + 1);
    ForwardNoWrap(n, c, n - 1 - c);
    ForwardAdd(n, n - 1, 1, c);
    assert Forward(n, n - 1, 1) == 0;
    ForwardNoWrap(n, 0, c);
  }

  // ---------------------------------------------------------------------
  // The state machine as a function of the session
  // ---------------------------------------------------------------------

  /** `is_converting_` false: editing the buffer; true: reviewing candidates. */
  datatype Mode = Editing | Reviewing(list: CandidateList)

  /** What the input context shows: the buffer's text and the mode. */
  datatype Session = Session(buffer: string, mode: Mode)

  const Initial: Session := Session([], Editing)

  /** What one key event does: the new session, whether the event was
      consumed (`filterAndAccept`), the text committed to the application, and
      the message sent to the converter, if any. */
  datatype Outcome = Outcome(next: Session, accepted: bool, commit: Option<string>, request: Option<string>)

  /** Every reachable session: while reviewing, the buffer is not empty and
      the cursor is -1 on an empty list and on the list otherwise. */
  ghost predicate Wf(s: Session) {
    s.mode.Reviewing? ==>
      && s.buffer != []
      && (s.mode.list.items == [] ==> s.mode.list.cursor == -1)
      && (s.mode.list.items != [] ==> 0 <= s.mode.list.cursor < |s.mode.list.items|)
  }

  /** While reviewing, some candidate is selected. */
  ghost predicate Ready(s: Session) {
    s.mode.Reviewing? ==> 0 <= s.mode.list.cursor < |s.mode.list.items|
  }

  /** `candidate(cursorIndex())` needs a selected candidate; Return and a
      simple key read it while reviewing. */
  predicate Committable(s: Session, key: Key) {
    s.mode.Reviewing? && (key.Return? || key.Simple?) ==> 0 <= s.mode.list.cursor < |s.mode.list.items|
  }

  /** `buffer_.type(sym)` followed by the transliteration of the whole buffer:
      a non-empty transliteration replaces the buffer. */
  function TypeKey(buffer: string, sym: char, translit: string -> string): (r: string)
    ensures r != []
    ensures translit(buffer + [sym]) == [] ==> r == buffer + [sym]
    ensures translit(buffer + [sym]) != [] ==> r == translit(buffer + [sym])
  {
    var s := buffer + [sym];
    var t := translit(s);
    if t != [] then t else s
  }

  /** A new candidate list with the one forward step applied. */
  function FreshList(items: seq<string>): CandidateList {
    CandidateList(items, NextCursor(|items|, -1))
  }

  /** `keyEventWhenNotConverting`. */
  function StepEditing(buffer: string, key: Key, convert: string -> ImeClient.SendMessageResponse,
                       translit: string -> string): (o: Outcome)
    // the service is asked only on Space with something typed, and for the buffer
    ensures o.request.Some? <==> key.Space? && buffer != []
    ensures o.request.Some? ==> o.request == Some(buffer)
    // only Return commits, only with something typed, the buffer, and clears it
    ensures o.commit.Some? <==> key.Return? && buffer != []
    ensures o.commit.Some? ==> o.commit == Some(buffer) && o.next == Session([], Editing)
    // the buffer is kept unless a key edits it
    ensures !key.BackSpace? && !key.Return? && !key.Simple? ==> o.next.buffer == buffer
  {
    var same := Outcome(Session(buffer, Editing), false, None, None);
    match key
    case BackSpace =>
      if buffer != [] then Outcome(Session(buffer[..|buffer| - 1], Editing), true, None, None) else same
    case Return =>
      if buffer != [] then Outcome(Session([], Editing), true, Some(buffer), None) else same
    case Space =>
      if buffer == [] then same
      else
        var response := convert(buffer);
        if response.isSuccess then
          Outcome(Session(buffer, Reviewing(FreshList(response.candidates))), true, None, Some(buffer))
        else
          Outcome(Session(buffer, Editing), false, None, Some(buffer))
    case Simple(sym) =>
      Outcome(Session(TypeKey(buffer, sym, translit), Editing), true, None, None)
    case _ => same
  }

  /** `keyEventWhenConverting`. */
  function StepReviewing(buffer: string, list: CandidateList, key: Key, translit: string -> string): (o: Outcome)
    requires (key.Return? || key.Simple?) ==> 0 <= list.cursor < |list.items|
    // the service is never asked while reviewing
    ensures o.request.None?
    // Return and a simple key commit the selected candidate and leave reviewing
    ensures o.commit.Some? <==> key.Return? || key.Simple?
    ensures key.Return? || key.Simple? ==> o.commit == Some(list.items[list.cursor]) && o.next.mode.Editing?
    // only a key the mode does not handle is passed on
    ensures !o.accepted <==> key.Other?
  {
    var n := |list.items|;
    match key
    case BackSpace =>
      Outcome(Session(buffer, Editing), true, None, None)
    case Up =>
      Outcome(Session(buffer, Reviewing(list.(cursor := PrevCursor(n, list.cursor)))), true, None, None)
    case Space =>
      Outcome(Session(buffer, Reviewing(list.(cursor := NextCursor(n, list.cursor)))), true, None, None)
    case Down =>
      Outcome(Session(buffer, Reviewing(list.(cursor := NextCursor(n, list.cursor)))), true, None, None)
    case Return =>
      Outcome(Session([], Editing), true, Some(list.items[list.cursor]), None)
    case Simple(sym) =>
      Outcome(Session(TypeKey([], sym, translit), Editing), true, Some(list.items[list.cursor]), None)
    case Other =>
      Outcome(Session(buffer, Reviewing(list)), false, None, None)
  }

  /** `ChatGPTState::keyEvent`: dispatch on the mode. */
  function Step(s: Session, key: Key, convert: string -> ImeClient.SendMessageResponse,
                translit: string -> string): Outcome
    requires Committable(s, key)
  {
    match s.mode
    case Editing => StepEditing(s.buffer, key, convert, translit)
    case Reviewing(list) => StepReviewing(s.buffer, list, key, translit)
  }

  datatype Style = Underline | HighLight

  /** The preedit shown after an event: the text, its format, and the cursor
      position when the client draws the preedit itself. */
  datatype Preedit = Preedit(text: string, style: Style, cursor: Option<nat>)

  /** The preedit rendering at the end of both `keyEvent*` methods. */
  function Render(s: Session, clientPreedit: bool): (p: Preedit)
    ensures p.text == s.buffer
    ensures p.style == HighLight <==> s.mode.Reviewing?
    ensures p.style == Underline <==> s.mode.Editing?
    ensures clientPreedit <==> p.cursor == Some(|s.buffer|)
    ensures !clientPreedit <==> p.cursor.None?
  {
    Preedit(s.buffer, if s.mode.Reviewing? then HighLight else Underline,
            if clientPreedit then Some(|s.buffer|) else None)
  }

  // ---------------------------------------------------------------------
  // The state object
  // ---------------------------------------------------------------------

  /** `ChatGPTState`, one per input context. `panel` stands for the candidate
      list of the context's input panel, which the state sets, moves and
      resets; `translit` is `convert_to_hiragana`. */
  class ChatGptState {
    var buffer: string
    var isConverting: bool
    var panel: Option<CandidateList>
    const translit: string -> string

    /** The fields agree with a well-formed session: a candidate list is shown
        exactly while converting. */
    ghost predicate Valid()
      reads this
    {
      && (isConverting <==> panel.Some?)
      && Wf(if isConverting then Session(buffer, Reviewing(panel.value)) else Session(buffer, Editing))
    }

    ghost function Abs(): Session
      reads this
      requires Valid()
    {
      if isConverting then Session(buffer, Reviewing(panel.value)) else Session(buffer, Editing)
    }

    constructor(translit: string -> string)
      ensures Valid() && Abs() == Initial
      ensures this.translit == translit
    {
      buffer := [];
      isConverting := false;
      panel := None;
      this.translit := translit;
    }

    /** `ChatGPTState::reset`: clears the buffer and leaves converting mode;
        the input panel is the caller's to reset. */
    method Reset()
      modifies this
      ensures buffer == [] && !isConverting && panel == old(panel)
    {
      buffer := [];
      isConverting := false;
    }

    /** `inputPanel().reset()`: the candidate list goes away. */
    method ResetPanel()
      modifies this
      ensures panel == None && buffer == old(buffer) && isConverting == old(isConverting)
    {
      panel := None;
    }

    /** `buffer_.type(sym)` followed by the transliteration of the buffer. */
    method TypeSym(sym: char)
      modifies this
      ensures buffer == TypeKey(old(buffer), sym, translit)
      ensures isConverting == old(isConverting) && panel == old(panel)
    {
      buffer := buffer + [sym];
      var s := buffer;
      var t := translit(s);
      if t != [] {
        buffer := [];
        buffer := buffer + t;
      }
    }

    method KeyEventWhenNotConverting(key: Key, convert: string -> ImeClient.SendMessageResponse, clientPreedit: bool)
      returns (accepted: bool, commit: Option<string>, request: Option<string>, preedit: Preedit)
      requires Valid() && !isConverting
      modifies this
      ensures Valid()
      ensures var o := StepEditing(old(buffer), key, convert, translit);
              Abs() == o.next && accepted == o.accepted && commit == o.commit && request == o.request
      ensures preedit == Render(Abs(), clientPreedit)
    {
      accepted, commit, request := false, None, None;
      match key {
        case BackSpace =>
          if buffer != [] {
            buffer := buffer[..|buffer| - 1];
            accepted := true;
          }
        case Return =>
          if buffer != [] {
            commit := Some(buffer);
            Reset();
            ResetPanel();
            accepted := true;
          }
        case Space =>
          if buffer != [] {
            request := Some(buffer);
            var response := convert(buffer);
            if response.isSuccess {
              var list := CandidateList(response.candidates, -1);
              list := list.(cursor := NextCursor(|list.items|, list.cursor));
              panel := Some(list);
              isConverting := true;
              accepted := true;
            }
          }
        case Simple(sym) =>
          TypeSym(sym);
          accepted := true;
        case Up =>
        case Down =>
        case Other =>
      }
      preedit := Preedit(buffer, if isConverting then HighLight else Underline,
                         if clientPreedit then Some(|buffer|) else None);
    }

    method KeyEventWhenConverting(key: Key, convert: string -> ImeClient.SendMessageResponse, clientPreedit: bool)
      returns (accepted: bool, commit: Option<string>, request: Option<string>, preedit: Preedit)
      requires Valid() && isConverting && Committable(Abs(), key)
      modifies this
      ensures Valid()
      ensures var o := StepReviewing(old(buffer), old(panel).value, key, translit);
              Abs() == o.next && accepted == o.accepted && commit == o.commit && request == o.request
      ensures preedit == Render(Abs(), clientPreedit)
    {
      accepted, commit, request := false, None, None;
      var candidates := panel.value;
      var n := |candidates.items|;
      match key {
        case BackSpace =>
          ResetPanel();
          isConverting := false;
          accepted := true;
        case Up =>
          panel := Some(candidates.(cursor := PrevCursor(n, candidates.cursor)));
          accepted := true;
        case Space =>
          panel := Some(candidates.(cursor := NextCursor(n, candidates.cursor)));
          accepted := true;
        case Down =>
          panel := Some(candidates.(cursor := NextCursor(n, candidates.cursor)));
          accepted := true;
        case Return =>
          commit := Some(candidates.items[candidates.cursor]);
          Reset();
          ResetPanel();
          isConverting := false;
          accepted := true;
        case Simple(sym) =>
          commit := Some(candidates.items[candidates.cursor]);
          Reset();
          ResetPanel();
          TypeSym(sym);
          isConverting := false;
          accepted := true;
        case Other =>
      }
      preedit := Preedit(buffer, if isConverting then HighLight else Underline,
                         if clientPreedit then Some(|buffer|) else None);
    }

    /** `ChatGPTState::keyEvent`: one step of the state machine, rendered. */
    method KeyEvent(key: Key, convert: string -> ImeClient.SendMessageResponse, clientPreedit: bool)
      returns (accepted: bool, commit: Option<string>, request: Option<string>, preedit: Preedit)
      requires Valid() && Committable(Abs(), key)
      modifies this
      ensures Valid()
      ensures var o := Step(old(Abs()), key, convert, translit);
              Abs() == o.next && accepted == o.accepted && commit == o.commit && request == o.request
      ensures preedit == Render(Abs(), clientPreedit)
    {
      if isConverting {
        accepted, commit, request, preedit := KeyEventWhenConverting(key, convert, clientPreedit);
      } else {
        accepted, commit, request, preedit := KeyEventWhenNotConverting(key, convert, clientPreedit);
      }
    }
  }

  /** `ChatGPTEngine::keyEvent`: releases and keys pressed with a modifier are
      left to the application and never reach the state; anything else is
      handed to the input context's state. `preedit` is `None` when nothing
      was rendered. */
  method EngineKeyEvent(state: ChatGptState, event: KeyEvent,
                        convert: string -> ImeClient.SendMessageResponse, clientPreedit: bool)
    returns (accepted: bool, commit: Option<string>, request: Option<string>, preedit: Option<Preedit>)
    requires state.Valid()
    requires !event.isRelease && event.states == 0 ==> Committable(state.Abs(), event.key)
    modifies state
    ensures state.Valid()
    ensures event.isRelease || event.states != 0 ==>
              && unchanged(state) && !accepted && commit.None? && request.None? && preedit.None?
    ensures !event.isRelease && event.states == 0 ==>
              var o := Step(old(state.Abs()), event.key, convert, state.translit);
              && state.Abs() == o.next && accepted == o.accepted && commit == o.commit
              && request == o.request && preedit == Some(Render(state.Abs(), clientPreedit))
  {
    if event.isRelease || event.states != 0 {
      return false, None, None, None;
    }
    var p;
    accepted, commit, request, p := state.KeyEvent(event.key, convert, clientPreedit);
    preedit := Some(p);
  }

  /** `ChatGPTEngine::reset`: the state is reset and so is the input panel,
      which brings the context back to the initial session. */
  method EngineReset(state: ChatGptState)
    modifies state
    ensures state.Valid() && state.Abs() == Initial
  {
    state.Reset();
    state.ResetPanel();
  }

  // ---------------------------------------------------------------------
  // Properties of the state machine
  // ---------------------------------------------------------------------

  /** Every step keeps the session well formed. */
  lemma StepPreservesWf(s: Session, key: Key, convert: string -> ImeClient.SendMessageResponse,
                        translit: string -> string)
    requires Wf(s) && Committable(s, key)
    ensures Wf(Step(s, key, convert, translit).next)
  {
  }

  /** A session where a candidate is selected can take any key. */
  lemma ReadyCommittable(s: Session, key: Key)
    requires Ready(s)
    ensures Committable(s, key)
  {
  }

  /** Every step keeps a candidate selected, except a conversion that
      succeeds with no candidates at all. */
  lemma StepPreservesReady(s: Session, key: Key, convert: string -> ImeClient.SendMessageResponse,
                           translit: string -> string)
    requires Wf(s) && Ready(s)
    requires !(s.mode.Editing? && key.Space? && s.buffer != []
               && convert(s.buffer).isSuccess && convert(s.buffer).candidates == [])
    ensures Ready(Step(s, key, convert, translit).next)
  {
  }

  /** The exception: a successful conversion with no candidates enters
      reviewing with nothing selected, and Return then has no candidate to
      commit (`candidate(cursorIndex())` on an empty list). */
  lemma EmptySuccessLeavesNothingSelected(buffer: string, convert: string -> ImeClient.SendMessageResponse,
                                          translit: string -> string)
    requires buffer != [] && convert(buffer).isSuccess && convert(buffer).candidates == []
    ensures var o := Step(Session(buffer, Editing), Space, convert, translit);
            && o.accepted && o.next.mode.Reviewing? && o.next.mode.list == CandidateList([], -1)
            && !Ready(o.next) && !Committable(o.next, Return)
  {
  }

  /** The converter is consulted only when a request is made: otherwise any
      other converter gives the same outcome. */
  lemma NoRequestNoConverter(s: Session, key: Key, c1: string -> ImeClient.SendMessageResponse,
                             c2: string -> ImeClient.SendMessageResponse, translit: string -> string)
    requires Committable(s, key)
    requires Step(s, key, c1, translit).request.None?
    ensures Step(s, key, c1, translit) == Step(s, key, c2, translit)
  {
  }

  /** A request is made exactly for Space on a non-empty buffer while
      editing, and it carries the buffer. */
  lemma RequestOnlyOnSpace(s: Session, key: Key, convert: string -> ImeClient.SendMessageResponse,
                           translit: string -> string)
    requires Committable(s, key)
    ensures var o := Step(s, key, convert, translit);
            && (o.request.Some? <==> s.mode.Editing? && key.Space? && s.buffer != [])
            && (o.request.Some? ==> o.request.value == s.buffer)
  {
  }

  /** Text is committed exactly on Return with a non-empty buffer while
      editing (the buffer), and on Return or a simple key while reviewing
      (the selected candidate). */
  lemma CommitCases(s: Session, key: Key, convert: string -> ImeClient.SendMessageResponse,
                    translit: string -> string)
    requires Committable(s, key)
    ensures var o := Step(s, key, convert, translit);
            && (o.commit.Some? <==>
                  (s.mode.Editing? && key.Return? && s.buffer != [])
                  || (s.mode.Reviewing? && (key.Return? || key.Simple?)))
            && (o.commit.Some? && s.mode.Editing? ==> o.commit.value == s.buffer)
            && (o.commit.Some? && s.mode.Reviewing? ==> o.commit.value == s.mode.list.items[s.mode.list.cursor])
            && (o.commit.Some? ==> o.next.mode.Editing?)
  {
  }

  /** Editing, BackSpace: a non-empty buffer loses exactly its last character;
      an empty one stays as it is and the key is not consumed. */
  lemma EditingBackSpace(buffer: string, convert: string -> ImeClient.SendMessageResponse,
                         translit: string -> string)
    ensures var o := Step(Session(buffer, Editing), BackSpace, convert, translit);
            && o.next.mode.Editing? && o.commit.None? && o.request.None?
            && (o.accepted <==> buffer != [])
            && (buffer != [] ==> o.next.buffer + [buffer[|buffer| - 1]] == buffer)
            && (buffer == [] ==> o.next.buffer == [])
  {
  }

  /** Editing, Return: a non-empty buffer is committed as it is and the
      session starts over; an empty one does nothing. */
  lemma EditingReturn(buffer: string, convert: string -> ImeClient.SendMessageResponse,
                      translit: string -> string)
    ensures var o := Step(Session(buffer, Editing), Return, convert, translit);
            && (buffer != [] ==> o == Outcome(Initial, true, Some(buffer), None))
            && (buffer == [] ==> o == Outcome(Initial, false, None, None))
  {
  }

  /** Editing, Space: no buffer, no request; a failure changes nothing and
      is not consumed; a success shows the candidates in the order given with
      the first one selected. */
  lemma EditingSpace(buffer: string, convert: string -> ImeClient.SendMessageResponse,
                     translit: string -> string)
    ensures var o := Step(Session(buffer, Editing), Space, convert, translit);
            && (buffer == [] ==> o == Outcome(Session(buffer, Editing), false, None, None))
            && (buffer != [] && !convert(buffer).isSuccess ==>
                  o == Outcome(Session(buffer, Editing), false, None, Some(buffer)))
            && (buffer != [] && convert(buffer).isSuccess ==>
                  && o.accepted && o.next.buffer == buffer && o.next.mode.Reviewing?
                  && o.next.mode.list.items == convert(buffer).candidates
                  && o.next.mode.list.cursor == NextCursor(|convert(buffer).candidates|, -1)
                  && (convert(buffer).candidates != [] ==> o.next.mode.list.cursor == 0))
  {
  }

  /** Editing, a simple key: the character is appended, and the buffer is
      replaced by the transliteration of the result when that is not empty. */
  lemma EditingSimple(buffer: string, sym: char, convert: string -> ImeClient.SendMessageResponse,
                      translit: string -> string)
    ensures var o := Step(Session(buffer, Editing), Simple(sym), convert, translit);
            && o.accepted && o.commit.None? && o.request.None? && o.next.mode.Editing?
            && (translit(buffer + [sym]) == [] ==> o.next.buffer == buffer + [sym])
            && (translit(buffer + [sym]) != [] ==> o.next.buffer == translit(buffer + [sym]))
  {
  }

  /** Typing a character that does not transliterate and erasing it gives
      the buffer back. */
  lemma TypeThenErase(buffer: string, sym: char, convert: string -> ImeClient.SendMessageResponse,
                      translit: string -> string)
    requires translit(buffer + [sym]) == []
    ensures var s1 := Step(Session(buffer, Editing), Simple(sym), convert, translit).next;
            Step(s1, BackSpace, convert, translit).next == Session(buffer, Editing)
  {
    var s1 := Step(Session(buffer, Editing), Simple(sym), convert, translit).next;
    assert s1.buffer == buffer + [sym];
    assert s1.buffer[..|s1.buffer| - 1] == buffer;
  }

  /** Keys the editing mode does not handle change nothing and are not
      consumed; neither is an unhandled key while reviewing. */
  lemma IgnoredKeys(s: Session, key: Key, convert: string -> ImeClient.SendMessageResponse,
                    translit: string -> string)
    requires (s.mode.Editing? && (key.Up? || key.Down? || key.Other?)) || (s.mode.Reviewing? && key.Other?)
    ensures Step(s, key, convert, translit) == Outcome(s, false, None, None)
  {
  }

  /** Reviewing, BackSpace: from any reviewing session, whatever the list
      and the selection (none included), the panel is dropped and editing
      resumes on the same buffer. */
  lemma ReviewingBackSpace(buffer: string, list: CandidateList,
                           convert: string -> ImeClient.SendMessageResponse, translit: string -> string)
    ensures Step(Session(buffer, Reviewing(list)), BackSpace, convert, translit)
      == Outcome(Session(buffer, Editing), true, None, None)
  {
  }

  /** Converting and cancelling brings back the session converted from. */
  lemma ConvertThenCancel(buffer: string, convert: string -> ImeClient.SendMessageResponse,
                          translit: string -> string)
    requires buffer != [] && convert(buffer).isSuccess
    ensures var s1 := Step(Session(buffer, Editing), Space, convert, translit).next;
            && s1.mode.Reviewing?
            && Step(s1, BackSpace, convert, translit) == Outcome(Session(buffer, Editing), true, None, None)
  {
    var s1 := Step(Session(buffer, Editing), Space, convert, translit).next;
    ReviewingBackSpace(buffer, s1.mode.list, convert, translit);
  }

  /** Reviewing, Up, Down or Space: only the selection moves; the buffer and
      the candidates stay, and Up undoes Down (or Space) and the other way
      round. */
  lemma ReviewingNavigation(buffer: string, list: CandidateList, key: Key,
                            convert: string -> ImeClient.SendMessageResponse, translit: string -> string)
    requires key.Up? || key.Down? || key.Space?
    requires Wf(Session(buffer, Reviewing(list)))
    ensures var s := Session(buffer, Reviewing(list));
            var o := Step(s, key, convert, translit);
            var back := if key.Up? then Down else Up;
            && o.accepted && o.commit.None? && o.request.None?
            && o.next.buffer == buffer && o.next.mode.Reviewing? && o.next.mode.list.items == list.items
            && Wf(o.next)
            && Step(o.next, back, convert, translit).next == s
  {
    if list.items != [] {
      CursorStepsInverse(|list.items|, list.cursor);
    }
  }

  /** Reviewing, Return: the selected candidate is committed and the session
      starts over. Reviewing, a simple key: the same commit, and the buffer
      then holds only the typed character (transliterated). */
  lemma ReviewingCommit(buffer: string, list: CandidateList, sym: char,
                        convert: string -> ImeClient.SendMessageResponse, translit: string -> string)
    requires 0 <= list.cursor < |list.items|
    ensures var s := Session(buffer, Reviewing(list));
            var selected := list.items[list.cursor];
            && Step(s, Return, convert, translit) == Outcome(Initial, true, Some(selected), None)
            && Step(s, Simple(sym), convert, translit) ==
                 Step(Initial, Simple(sym), convert, translit).(commit := Some(selected))
  {
  }

  /** A whole conversion: typing "k" and "a" (which transliterate to か),
      converting, moving down once and committing gives the second
      candidate, and the session is back at the start. */
  lemma ConvertAndPickSecond()
    ensures var translit := (s: string) => if s == "ka" then "か" else "";
            var convert := (m: string) => ImeClient.SendMessageResponse(true, ["蚊", "可", "課"], "");
            var s1 := Step(Initial, Simple('k'), convert, translit);
            var s2 := Step(s1.next, Simple('a'), convert, translit);
            var s3 := Step(s2.next, Space, convert, translit);
            var s4 := Step(s3.next, Down, convert, translit);
            && s2.next == Session("か", Editing)
            && s3.request == Some("か")
            && s3.next.mode.Reviewing? && Committable(s4.next, Return)
            && Step(s4.next, Return, convert, translit) == Outcome(Initial, true, Some("可"), None)
  {
    var translit := (s: string) => if s == "ka" then "か" else "";
    assert translit("k") == "";
    assert [] + ['k'] == "k";
    assert "k" + ['a'] == "ka";
  }
}
