/** The conversion service's side of the exchange with the language model
    (openai/client.go): the random token that frames the text, the framing
    of the user request, and the check of the framed reply. */
module OpenAIClient {
  import opened Common
  import opened Text

  const TokenLength: nat := 10

  /** The characters a token is drawn from: the 62 characters of `charSet`,
      in the same order. */
  const CharSet: string := LowerLetters + UpperLetters + Digits

  const LowerLetters: string := "abcdefghijklmnopqrstuvwxyz"
  const UpperLetters: string := "ABCDEFGHIJKLMNOPQRSTUVWXYZ"
  const Digits: string := "0123456789"

  predicate IsAlnum(c: char) {
    ('a' <= c <= 'z') || ('A' <= c <= 'Z') || ('0' <= c <= '9')
  }

  /** A token as `generateRandomToken` makes them. */
  ghost predicate IsToken(t: string) {
    |t| == TokenLength && forall i :: 0 <= i < |t| ==> t[i] in CharSet
  }

  /** `n` consecutive ASCII characters from `lo` on. */
  function Span(lo: char, n: nat): (r: string)
    requires lo as int + n <= 0x80
    ensures |r| == n && forall k :: 0 <= k < n ==> r[k] as int == lo as int + k
  {
    seq(n, k requires 0 <= k < n => (lo as int + k) as char)
  }

  lemma LowerSpan() ensures Span('a', 26) == LowerLetters {}
  lemma UpperSpan() ensures Span('A', 26) == UpperLetters {}
  lemma DigitSpan() ensures Span('0', 10) == Digits {}

  /** The character set is the three runs of letters and digits. */
  lemma CharSetSpans()
    ensures CharSet == Span('a', 26) + Span('A', 26) + Span('0', 10)
  {
    LowerSpan();
    UpperSpan();
    DigitSpan();
  }

  /** The character set holds the 26 lower-case letters, the 26 upper-case
      letters and the 10 digits, each once, and nothing else. */
  lemma CharSetAlnum()
    ensures |CharSet| == 62
    ensures forall i :: 0 <= i < |CharSet| ==> IsAlnum(CharSet[i])
    ensures forall c :: IsAlnum(c) ==> c in CharSet
    ensures forall i, j :: 0 <= i < j < |CharSet| ==> CharSet[i] != CharSet[j]
  {
    CharSetSpans();
    var cs := Span('a', 26) + Span('A', 26) + Span('0', 10);
    forall i | 0 <= i < 62
      ensures cs[i] as int == if i < 26 then 'a' as int + i else if i < 52 then 'A' as int + i - 26 else '0' as int + i - 52
    {
      if i < 26 {
        assert cs[i] == Span('a', 26)[i];
      } else if i < 52 {
        assert cs[i] == Span('A', 26)[i - 26];
      } else {
        assert cs[i] == Span('0', 10)[i - 52];
      }
    }
    forall c | IsAlnum(c) ensures c in cs {
      var i := if 'a' <= c <= 'z' then c as int - 'a' as int
               else if 'A' <= c <= 'Z' then 26 + c as int - 'A' as int
               else 52 + c as int - '0' as int;
      assert cs[i] == c;
    }
  }

  /** Whitespace, as Go's `unicode.IsSpace` has it, is never alphanumeric. */
  lemma AlnumNotSpace(c: char)
    requires IsAlnum(c)
    ensures c !in GoSpace
  {
  }

  /** `generateRandomToken`: ten characters, each picked from the set; the
      pick (`rand.Intn`) is an arbitrary choice here. */
  method GenerateRandomToken() returns (token: string)
    ensures IsToken(token)
    ensures forall i :: 0 <= i < |token| ==> IsAlnum(token[i])
  {
    var length := 10;
    var charSetLength := |CharSet|;
    var result := new char[length];
    ghost var picks: seq<int> := [];
    for i := 0 to length
      invariant |picks| == i
      invariant forall j :: 0 <= j < i ==> 0 <= picks[j] < |CharSet| && result[j] == CharSet[picks[j]]
    {
      var k :| 0 <= k < charSetLength;
      result[i] := CharSet[k];
      picks := picks + [k];
    }
    token := result[..];
    PickedToken(token, picks);
    TokenAlnum(token);
  }

  /** Ten characters, each at some position of the set, make a token. */
  lemma PickedToken(t: string, picks: seq<int>)
    requires |t| == |picks| == TokenLength
    requires forall j :: 0 <= j < |t| ==> 0 <= picks[j] < |CharSet| && t[j] == CharSet[picks[j]]
    ensures IsToken(t)
  {
  }

  /** Every character of a token is a letter or a digit. */
  lemma TokenAlnum(t: string)
    requires IsToken(t)
    ensures forall i :: 0 <= i < |t| ==> IsAlnum(t[i])
  {
    CharSetAlnum();
  }

  /** A text that neither starts nor ends with whitespace. */
  predicate SolidEnds(t: string) {
    t != [] && t[0] !in GoSpace && t[|t| - 1] !in GoSpace
  }

  /** A token neither starts nor ends with whitespace. */
  lemma TokenEndsNotSpace(t: string)
    requires IsToken(t)
    ensures SolidEnds(t)
  {
    TokenAlnum(t);
    AlnumNotSpace(t[0]);
    AlnumNotSpace(t[|t| - 1]);
  }

  /** The token at both ends of a text keeps its ends solid. */
  lemma FramedSolid(token: string, j: string)
    requires SolidEnds(token)
    ensures SolidEnds(token + j + token)
  {
    var x := token + j + token;
    assert x[0] == token[0] && x[|x| - 1] == token[|token| - 1];
  }

  predicate HasSuffix(s: string, suffix: string) {
    |suffix| <= |s| && s[|s| - |suffix|..] == suffix
  }

  /** A text with the token at the front and, after it, at the back is the
      token, a middle and the token. */
  lemma Framed(s: string, token: string)
    requires token <= s && HasSuffix(s[|token|..], token)
    ensures 2 * |token| <= |s|
    ensures s[|token|..][..|s| - 2 * |token|] == s[|token|..|s| - |token|]
    ensures s == token + s[|token|..|s| - |token|] + token
  {
    var rest := s[|token|..];
    assert s == token + rest;
    assert rest == rest[..|rest| - |token|] + token;
  }

  /** The two framing checks of `parseReply` on the trimmed reply: the token
      must be in front, and again at the back of what follows it; the result
      is what is left between the two. */
  function Unframe(s: string, token: string): (r: Option<string>)
    ensures r.Some? <==> token <= s && HasSuffix(s[|token|..], token)
    ensures r.Some? ==> 2 * |token| <= |s| && s == token + r.value + token
  {
    if !(token <= s) then None
    else
      var rest := s[|token|..];
      if !HasSuffix(rest, token) then None
      else
        Framed(s, token);
        Some(rest[..|rest| - |token|])
  }

  /** Framing undone: a text made of the token, a middle and the token gives
      back exactly that middle. */
  lemma UnframeFramed(token: string, j: string)
    ensures Unframe(token + j + token, token) == Some(j)
  {
    FramePieces(token, j);
  }

  /** The token is in front of a framed text, at the back of what follows it,
      and what is between is the middle. */
  lemma FramePieces(token: string, j: string)
    ensures var s := token + j + token;
            && token <= s
            && HasSuffix(s[|token|..], token)
            && s[|token|..][..|s[|token|..]| - |token|] == j
  {
    var s := token + j + token;
    var rest := j + token;
    assert s == token + rest;
    assert s[|token|..] == rest;
    assert rest[|rest| - |token|..] == token;
    assert rest[..|rest| - |token|] == j;
  }

  /** `parseReply`: trim the reply, strip the token from the front and then
      from the back, and decode what is left (`decode` stands for the JSON
      decoder reading the `candidates` field; `None` is a decode error). Every
      failure reports the reply as it came, untrimmed. */
  function ParseReply(originalReply: string, token: string, decode: string -> Option<seq<string>>)
    : (r: Result<seq<string>, string>)
    ensures r.Err? ==> r.error == "invalid response: " + originalReply
    ensures r.Ok? ==>
      var s := Trim(originalReply, GoSpace);
      && 2 * |token| <= |s|
      && exists middle :: s == token + middle + token && decode(middle) == Some(r.value)
  {
    var invalid := Err("invalid response: " + originalReply);
    match Unframe(Trim(originalReply, GoSpace), token)
    case None => invalid
    case Some(middle) =>
      match decode(middle)
      case None => invalid
      case Some(candidates) => Ok(candidates)
  }

  /** A reply that, once trimmed, is the token, some text `j` and the token
      again is decoded from exactly `j`. */
  lemma ParseReplyFramed(originalReply: string, token: string, j: string, decode: string -> Option<seq<string>>)
    requires Trim(originalReply, GoSpace) == token + j + token
    ensures ParseReply(originalReply, token, decode) ==
      match decode(j)
      case None => Err("invalid response: " + originalReply)
      case Some(candidates) => Ok(candidates)
  {
    UnframeFramed(token, j);
  }

  /** A trimmed reply that does not start with the token is rejected. */
  lemma ParseReplyNeedsPrefix(originalReply: string, token: string, decode: string -> Option<seq<string>>)
    requires !(token <= Trim(originalReply, GoSpace))
    ensures ParseReply(originalReply, token, decode) == Err("invalid response: " + originalReply)
  {
  }

  /** A trimmed reply with the token in front but not again at the end of
      what follows it is rejected. */
  lemma ParseReplyNeedsSuffix(originalReply: string, token: string, decode: string -> Option<seq<string>>)
    requires var s := Trim(originalReply, GoSpace); token <= s && !HasSuffix(s[|token|..], token)
    ensures ParseReply(originalReply, token, decode) == Err("invalid response: " + originalReply)
  {
  }

  /** A trimmed reply shorter than two tokens, the token alone among them,
      is rejected. */
  lemma ParseReplyRejectsShort(originalReply: string, token: string, decode: string -> Option<seq<string>>)
    requires token != [] && |Trim(originalReply, GoSpace)| < 2 * |token|
    ensures ParseReply(originalReply, token, decode).Err?
  {
  }

  /** Whitespace around a framed reply makes no difference. */
  lemma ParseReplyIgnoresPadding(pre: string, token: string, j: string, post: string,
                                 decode: string -> Option<seq<string>>)
    requires SolidEnds(token) && AllIn(pre, GoSpace) && AllIn(post, GoSpace)
    ensures var reply := pre + token + j + token + post;
            ParseReply(reply, token, decode) ==
              match decode(j)
              case None => Err("invalid response: " + reply)
              case Some(candidates) => Ok(candidates)
  {
    PaddedTrim(pre, token, j, post);
    ParseReplyFramed(pre + token + j + token + post, token, j, decode);
  }

  /** Trimming a framed text with whitespace around it leaves the framed text. */
  lemma PaddedTrim(pre: string, token: string, j: string, post: string)
    requires SolidEnds(token) && AllIn(pre, GoSpace) && AllIn(post, GoSpace)
    ensures Trim(pre + token + j + token + post, GoSpace) == token + j + token
  {
    var x := token + j + token;
    FramedSolid(token, j);
    assert pre + token + j + token + post == pre + x + post;
    TrimPadded(pre, x, post, GoSpace);
  }

  /** The user message sent to the model: `chatRequestTemplate` filled with
      the token, the message and the token, then trimmed. */
  function RequestContent(token: string, message: string): string {
    Trim("\n" + token + "\n" + message + "\n" + token + "\n", GoSpace)
  }

  /** The trim only removes the template's outer newlines: the content is the
      token, the message and the token on lines of their own, whatever the
      message. */
  lemma RequestContentFramed(token: string, message: string)
    requires SolidEnds(token)
    ensures RequestContent(token, message) == token + "\n" + message + "\n" + token
  {
    var j := "\n" + message + "\n";
    assert "\n" + token + "\n" + message + "\n" + token + "\n" == "\n" + token + j + token + "\n";
    assert token + j + token == token + "\n" + message + "\n" + token;
    PaddedTrim("\n", token, j, "\n");
  }

  /** A reply framed the way the request is framed is accepted, and what is
      decoded is the text between the two tokens. */
  lemma FramingRoundTrip(token: string, j: string, decode: string -> Option<seq<string>>)
    requires SolidEnds(token)
    ensures var reply := RequestContent(token, j);
            ParseReply(reply, token, decode) ==
              match decode("\n" + j + "\n")
              case None => Err("invalid response: " + reply)
              case Some(candidates) => Ok(candidates)
  {
    RequestContentAsFrame(token, j);
    TrimFramedReply(token, "\n" + j + "\n");
    ParseReplyFramed(RequestContent(token, j), token, "\n" + j + "\n", decode);
  }

  /** The request content is the token, the message between two newlines,
      and the token. */
  lemma RequestContentAsFrame(token: string, j: string)
    requires SolidEnds(token)
    ensures RequestContent(token, j) == token + ("\n" + j + "\n") + token
  {
    RequestContentFramed(token, j);
    Regroup(token, "\n", j, "\n", token);
  }

  lemma Regroup(a: string, b: string, c: string, d: string, e: string)
    ensures a + b + c + d + e == a + (b + c + d) + e
  {
  }

  /** A framed text has nothing to trim. */
  lemma TrimFramedReply(token: string, j: string)
    requires SolidEnds(token)
    ensures Trim(token + j + token, GoSpace) == token + j + token
  {
    assert [] + token + j + token + [] == token + j + token;
    PaddedTrim([], token, j, []);
  }

  /** The end of `PostTextCompletion`: the reply text, trimmed, is the one
      and only candidate. */
  function TextCompletionCandidates(reply: string): (r: seq<string>)
    ensures |r| == 1
    ensures IsTrimAt(r[0], reply, GoSpace, FindFirstNotOf(reply, GoSpace, 0))
    ensures r[0] == [] <==> AllIn(reply, GoSpace)
  {
    [Trim(reply, GoSpace)]
  }
}
