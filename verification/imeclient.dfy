/** The client side of the conversion protocol (imeclient.cpp): the request
    the engine writes to the local service, and the hand-rolled parser for the
    HTTP/1.1-shaped response it reads back. Characters stand for bytes. */
module ImeClient {
  import opened Common
  import opened Text
  import opened CLib

  // ---------------------------------------------------------------------
  // Line splitting (convert_lines)
  // ---------------------------------------------------------------------

  /** A CR LF pair starts at index `i` of `s`. */
  predicate CrlfAt(s: string, i: int) {
    0 <= i && i + 1 < |s| && s[i] == '\r' && s[i + 1] == '\n'
  }

  ghost predicate NoCrlf(s: string) {
    forall i :: 0 <= i < |s| ==> !CrlfAt(s, i)
  }

  /** `strstr(s + i, "\r\n")`: the first CR LF at or after `i`, or `|s|`
      (standing for a null result) when there is none. */
  function FirstCrlf(s: string, i: nat): (r: nat)
    requires i <= |s|
    ensures i <= r <= |s|
    ensures r < |s| ==> CrlfAt(s, r)
    ensures forall j :: i <= j < r ==> !CrlfAt(s, j)
    decreases |s| - i
  {
    if i + 1 >= |s| then |s| else if CrlfAt(s, i) then i else FirstCrlf(s, i + 1)
  }

  /** The lines of `s`: the pieces between CR LF separators. */
  function Split(s: string): (r: seq<string>)
    ensures |r| >= 1
    decreases |s|
  {
    var i := FirstCrlf(s, 0);
    if i == |s| then [s] else [s[..i]] + Split(s[i + 2..])
  }

  /** The lines put back together, a CR LF between each two. */
  function Join(ls: seq<string>): string
    requires |ls| >= 1
  {
    if |ls| == 1 then ls[0] else ls[0] + "\r\n" + Join(ls[1..])
  }

  /** The number of positions at which a CR LF starts. */
  function CountCrlf(s: string): nat {
    if s == [] then 0 else (if CrlfAt(s, 0) then 1 else 0) + CountCrlf(s[1..])
  }

  lemma {:induction false} JoinSplit(s: string)
    ensures Join(Split(s)) == s
    decreases |s|
  {
    var i := FirstCrlf(s, 0);
    if i < |s| {
      JoinSplit(s[i + 2..]);
      assert s == s[..i] + "\r\n" + s[i + 2..];
    }
  }

  lemma {:induction false} SplitNoCrlf(s: string)
    ensures forall k :: 0 <= k < |Split(s)| ==> NoCrlf(Split(s)[k])
    decreases |s|
  {
    var i := FirstCrlf(s, 0);
    if i < |s| {
      SplitNoCrlf(s[i + 2..]);
      assert forall j :: 0 <= j < i ==> !CrlfAt(s[..i], j) by {
        forall j | 0 <= j < i ensures !CrlfAt(s[..i], j) {
          assert !CrlfAt(s, j);
        }
      }
      assert forall k :: 1 <= k < |Split(s)| ==> Split(s)[k] == Split(s[i + 2..])[k - 1];
    }
  }

  /** Skipping a stretch with no CR LF in it does not change the count. */
  lemma {:induction false} CountSkip(s: string, q: nat)
    requires q <= |s|
    requires forall j :: 0 <= j < q ==> !CrlfAt(s, j)
    ensures CountCrlf(s) == CountCrlf(s[q..])
    decreases q
  {
    if q > 0 {
      assert !CrlfAt(s, 0);
      forall j | 0 <= j < q - 1 ensures !CrlfAt(s[1..], j) {
        assert !CrlfAt(s, j + 1);
      }
      CountSkip(s[1..], q - 1);
      assert s[1..][q - 1..] == s[q..];
    }
  }

  lemma {:induction false} SplitCount(s: string)
    ensures |Split(s)| == CountCrlf(s) + 1
    decreases |s|
  {
    var i := FirstCrlf(s, 0);
    CountSkip(s, i);
    if i < |s| {
      var t := s[i..];
      assert CrlfAt(t, 0) && !CrlfAt(t[1..], 0);
      assert t[1..][1..] == s[i + 2..];
      SplitCount(s[i + 2..]);
    } else {
      assert s[i..] == [];
    }
  }

  /** Every line is at most as long as the text it was cut from. */
  lemma {:induction false} SplitLineBound(s: string)
    ensures forall k :: 0 <= k < |Split(s)| ==> |Split(s)[k]| <= |s|
    decreases |s|
  {
    var i := FirstCrlf(s, 0);
    if i < |s| {
      SplitLineBound(s[i + 2..]);
      assert forall k :: 1 <= k < |Split(s)| ==> Split(s)[k] == Split(s[i + 2..])[k - 1];
    }
  }

  /** A line with no CR LF, a CR LF, then anything: the line comes first. */
  lemma SplitCons(a: string, b: string)
    requires NoCrlf(a)
    ensures Split(a + "\r\n" + b) == [a] + Split(b)
  {
    var s := a + "\r\n" + b;
    forall j | 0 <= j < |a| ensures !CrlfAt(s, j) {
      if j + 1 < |a| { assert !CrlfAt(a, j); }
    }
    assert CrlfAt(s, |a|);
    assert FirstCrlf(s, 0) == |a|;
    assert s[..|a|] == a && s[|a| + 2..] == b;
  }

  lemma SplitSingle(a: string)
    requires NoCrlf(a)
    ensures Split(a) == [a]
  {
  }

  /** Splitting undoes joining, for lines that hold no CR LF. */
  lemma {:induction false} SplitJoin(ls: seq<string>)
    requires |ls| >= 1
    requires forall k :: 0 <= k < |ls| ==> NoCrlf(ls[k])
    ensures Split(Join(ls)) == ls
  {
    if |ls| == 1 {
      SplitSingle(ls[0]);
    } else {
      assert NoCrlf(ls[0]);
      SplitJoin(ls[1..]);
      SplitCons(ls[0], Join(ls[1..]));
    }
  }

  /** `FirstCrlf` is determined by what its contract says about it. */
  lemma FirstCrlfUnique(s: string, i: nat, r: nat)
    requires i <= r <= |s|
    requires r < |s| ==> CrlfAt(s, r)
    requires forall j :: i <= j < r ==> !CrlfAt(s, j)
    ensures FirstCrlf(s, i) == r
  {
  }

  /** The lines of `s` from index `i` on, found by searching `s` itself
      rather than a copy of its tail. */
  function SplitFrom(s: string, i: nat): (r: seq<string>)
    requires i <= |s|
    decreases |s| - i
  {
    var j := FirstCrlf(s, i);
    if j == |s| then [s[i..]] else [s[i..j]] + SplitFrom(s, j + 2)
  }

  /** Searching a tail from its start is searching the whole from where the
      tail begins. */
  lemma FirstCrlfTail(s: string, i: nat)
    requires i <= |s|
    ensures FirstCrlf(s[i..], 0) == FirstCrlf(s, i) - i
  {
    var t := s[i..];
    var j := FirstCrlf(s, i);
    forall k | 0 <= k < j - i
      ensures !CrlfAt(t, k)
    {
      assert !CrlfAt(s, i + k);
    }
    if j < |s| {
      assert CrlfAt(s, j);
      assert t[j - i] == s[j] && t[j - i + 1] == s[j + 1];
    }
    FirstCrlfUnique(t, 0, j - i);
  }

  /** One unfolding of `Split` at a CR LF. */
  lemma SplitAt(t: string, k: nat)
    requires k == FirstCrlf(t, 0) && k < |t|
    ensures k + 2 <= |t| && Split(t) == [t[..k]] + Split(t[k + 2..])
  {
  }

  /** One unfolding of `SplitFrom` at a CR LF. */
  lemma SplitFromAt(s: string, i: nat, j: nat)
    requires i <= |s| && j == FirstCrlf(s, i) && j < |s|
    ensures j + 2 <= |s| && SplitFrom(s, i) == [s[i..j]] + SplitFrom(s, j + 2)
  {
  }

  /** Searching from `i` finds the lines of the tail from `i`. */
  lemma {:induction false} SplitFromTail(s: string, i: nat)
    requires i <= |s|
    ensures SplitFrom(s, i) == Split(s[i..])
    decreases |s| - i
  {
    var j := FirstCrlf(s, i);
    FirstCrlfTail(s, i);
    if j < |s| {
      SplitFromTail(s, j + 2);
      SplitFromTailStep(s, i, j);
    } else {
      assert Split(s[i..]) == [s[i..]];
    }
  }

  lemma SplitFromTailStep(s: string, i: nat, j: nat)
    requires i <= j < |s| && j == FirstCrlf(s, i) && FirstCrlf(s[i..], 0) == j - i
    requires SplitFrom(s, j + 2) == Split(s[j + 2..])
    ensures SplitFrom(s, i) == Split(s[i..])
  {
    var t := s[i..];
    SplitAt(t, j - i);
    SplitFromAt(s, i, j);
    assert t[..j - i] == s[i..j];
    assert t[j - i + 2..] == s[j + 2..];
  }

  /** `convert_lines`: walks the C string in `bs` and cuts it into lines at
      every CR LF. */
  method ConvertLines(bs: seq<char>) returns (res: seq<string>)
    ensures res == Split(CString(bs))
    ensures Join(res) == CString(bs)
    ensures forall k :: 0 <= k < |res| ==> NoCrlf(res[k])
    ensures |res| == CountCrlf(CString(bs)) + 1
  {
    var c := CString(bs);
    res := WalkLines(c);
    SplitFromTail(c, 0);
    assert c[0..] == c;
    JoinSplit(c);
    SplitNoCrlf(c);
    SplitCount(c);
  }

  /** The two loops of `convert_lines` over the text of the C string: the
      outer one starts a line, the inner one copies characters up to the
      next CR LF or the end, and the CR LF is stepped over. */
  method WalkLines(c: string) returns (res: seq<string>)
    ensures res == SplitFrom(c, 0)
  {
    res := [];
    var p := 0;
    while true
      invariant 0 <= p <= |c|
      invariant res + SplitFrom(c, p) == SplitFrom(c, 0)
      decreases |c| - p
    {
      var nl := FirstCrlf(c, p);
      SplitFromStep(c, p, res);
      var s;
      s, p := CopyLine(c, p, nl);
      res := res + [s];
      if p == |c| {
        break;
      }
      p := p + 2;
    }
  }

  /** What one round of the outer loop relies on: the line from `p` runs to
      the next CR LF, or to the end when there is none. */
  lemma SplitFromStep(c: string, p: nat, res: seq<string>)
    requires p <= |c|
    ensures var nl := FirstCrlf(c, p);
            && (nl == |c| ==> res + SplitFrom(c, p) == res + [c[p..nl]])
            && (nl < |c| ==> nl + 2 <= |c| && res + SplitFrom(c, p) == (res + [c[p..nl]]) + SplitFrom(c, nl + 2))
  {
    var nl := FirstCrlf(c, p);
    if nl < |c| {
      SplitFromAt(c, p, nl);
      Regroup(res, [c[p..nl]], SplitFrom(c, nl + 2));
    } else {
      assert c[p..] == c[p..nl];
    }
  }

  lemma Regroup<T>(a: seq<T>, b: seq<T>, c: seq<T>)
    ensures a + (b + c) == (a + b) + c
  {
  }

  /** The inner loop of `convert_lines`: copy characters from `start` until
      the CR LF at `nl` or the terminating NUL, whichever comes first. */
  method CopyLine(c: string, start: nat, nl: nat) returns (s: string, p: nat)
    requires start <= nl <= |c|
    ensures p == nl && s == c[start..nl]
  {
    p := start;
    s := "";
    while p != nl && p < |c|
      invariant start <= p <= nl
      invariant s == c[start..p]
      decreases nl - p
    {
      assert c[start..p + 1] == c[start..p] + [c[p]];
      s := s + [c[p]];
      p := p + 1;
    }
  }

  // ---------------------------------------------------------------------
  // Status line and header fields
  // ---------------------------------------------------------------------

  datatype StatusLine = StatusLine(version: string, code: int, reason: string)

  /** `parse_status_line`. The version runs up to the first space, the status
      code text up to the second, the reason phrase is the rest. A missing
      space makes `find` return npos, and npos + 1 wraps to 0, so the next
      piece starts over at the beginning of the line. `std::stoi` throwing on
      the code text is the only way to fail. */
  function ParseStatusLine(line: string): (r: Result<StatusLine, string>)
    ensures r.Ok? ==> IntMin <= r.value.code <= IntMax
  {
    var pos := Find(line, ' ', 0);
    var version := Substr(line, 0, SizeSub(pos, 0));
    var cur := SizeAdd(pos, 1);
    var pos2 := Find(line, ' ', cur);
    var codeText := Substr(line, cur, SizeSub(pos2, cur));
    var cur2 := SizeAdd(pos2, 1);
    var reason := Substr(line, cur2, NPOS);
    match Stoi(codeText)
    case Err(e) => Err(e)
    case Ok(code) => Ok(StatusLine(version, code, reason))
  }

  /** Two spaces: version, code and reason are the three pieces they cut, and
      the reason phrase keeps any further spaces. */
  lemma StatusLineTwoSpaces(line: string, i: nat, j: nat)
    requires |line| < NPOS
    requires i < j < |line| && line[i] == ' ' && line[j] == ' '
    requires ' ' !in line[..i] && ' ' !in line[i + 1..j]
    ensures ParseStatusLine(line).Err? <==> Stoi(line[i + 1..j]).Err?
    ensures ParseStatusLine(line).Ok? ==>
      ParseStatusLine(line).value == StatusLine(line[..i], Stoi(line[i + 1..j]).value, line[j + 1..])
  {
    forall k | 0 <= k < i ensures line[k] != ' ' {
      assert line[k] == line[..i][k];
    }
    forall k | i + 1 <= k < j ensures line[k] != ' ' {
      assert line[k] == line[i + 1..j][k - i - 1];
    }
    FindAt(line, ' ', 0, i);
    FindAt(line, ' ', i + 1, j);
    StatusLineCut(line, i, j);
  }

  /** With the two `find`s landing on `i` and `j`, the three `substr`s are the
      plain slices around them. */
  lemma StatusLineCut(line: string, i: nat, j: nat)
    requires i < j < |line| < NPOS
    requires Find(line, ' ', 0) == i && Find(line, ' ', i + 1) == j
    ensures ParseStatusLine(line) ==
      match Stoi(line[i + 1..j])
      case Err(e) => Err(e)
      case Ok(code) => Ok(StatusLine(line[..i], code, line[j + 1..]))
  {
    assert Substr(line, 0, SizeSub(i, 0)) == line[..i];
    assert Substr(line, SizeAdd(i, 1), SizeSub(j, SizeAdd(i, 1))) == line[i + 1..j];
    assert Substr(line, SizeAdd(j, 1), NPOS) == line[j + 1..];
  }

  /** One space: the code is everything after it, and since the second
      `find` returns npos, the reason phrase is the whole line. */
  lemma StatusLineOneSpace(line: string, i: nat)
    requires |line| < NPOS
    requires i < |line| && line[i] == ' '
    requires ' ' !in line[..i] && ' ' !in line[i + 1..]
    ensures ParseStatusLine(line).Err? <==> Stoi(line[i + 1..]).Err?
    ensures ParseStatusLine(line).Ok? ==>
      ParseStatusLine(line).value == StatusLine(line[..i], Stoi(line[i + 1..]).value, line)
  {
    forall k | 0 <= k < i ensures line[k] != ' ' {
      assert line[k] == line[..i][k];
    }
    forall k | i + 1 <= k < |line| ensures line[k] != ' ' {
      assert line[k] == line[i + 1..][k - i - 1];
    }
    FindAt(line, ' ', 0, i);
    FindNone(line, ' ', i + 1);
    assert Substr(line, 0, SizeSub(i, 0)) == line[..i];
    assert Substr(line, SizeAdd(i, 1), SizeSub(NPOS, SizeAdd(i, 1))) == line[i + 1..];
    assert SizeAdd(NPOS, 1) == 0;
    assert Substr(line, 0, NPOS) == line;
  }

  /** No space at all: version, code text and reason are each the whole line. */
  lemma StatusLineNoSpace(line: string)
    requires |line| < NPOS
    requires ' ' !in line
    ensures ParseStatusLine(line).Err? <==> Stoi(line).Err?
    ensures ParseStatusLine(line).Ok? ==>
      ParseStatusLine(line).value == StatusLine(line, Stoi(line).value, line)
  {
    FindNone(line, ' ', 0);
    assert SizeAdd(NPOS, 1) == 0;
    assert Substr(line, 0, SizeSub(NPOS, 0)) == line;
    assert Substr(line, 0, NPOS) == line;
  }

  /** A status line written as the status-line of RFC 9112 (section 4),
      version SP code SP reason, is read back as written. */
  lemma StatusLineRoundTrip(version: string, code: nat, reason: string)
    requires ' ' !in version && code <= IntMax
    requires |version| + |reason| + 12 < NPOS
    ensures ParseStatusLine(version + " " + Decimal(code) + " " + reason)
      == Ok(StatusLine(version, code, reason))
  {
    DecimalWord(code);
    StatusLineOfPieces(version, Decimal(code), reason, code);
  }

  /** The decimal text of a code is a short word without spaces that `stoi`
      reads back. */
  lemma DecimalWord(code: nat)
    requires code <= IntMax
    ensures |Decimal(code)| <= 10 && ' ' !in Decimal(code) && Stoi(Decimal(code)) == Ok(code)
  {
    var d := Decimal(code);
    DecimalShort(code);
    forall k | 0 <= k < |d| ensures d[k] != ' ' { assert IsDigit(d[k]); }
    StoiDecimal(code);
  }

  /** A version and a code text without spaces, joined to a reason phrase by
      single spaces, parse back into the version, the code and the phrase. */
  lemma StatusLineOfPieces(version: string, d: string, reason: string, code: int)
    requires ' ' !in version && ' ' !in d && Stoi(d) == Ok(code)
    requires |version| + |d| + |reason| + 2 < NPOS
    ensures ParseStatusLine(version + " " + d + " " + reason) == Ok(StatusLine(version, code, reason))
  {
    var line := version + " " + d + " " + reason;
    var i, j := |version|, |version| + 1 + |d|;
    StatusLinePieces(version, d, reason);
    assert line[..i] == version;
    assert line[i + 1..j] == d;
    assert line[j + 1..] == reason;
    StatusLineTwoSpaces(line, i, j);
  }

  /** Where the pieces of a status line sit once it is written out. */
  lemma StatusLinePieces(version: string, d: string, reason: string)
    ensures var line := version + " " + d + " " + reason;
            var i, j := |version|, |version| + 1 + |d|;
            && line[i] == ' ' && line[j] == ' '
            && line[..i] == version && line[i + 1..j] == d && line[j + 1..] == reason
  {
    var line := version + " " + d + " " + reason;
    var i, j := |version|, |version| + 1 + |d|;
    var t2 := " " + reason;
    var t1 := d + t2;
    assert line == version + (" " + t1);
    assert line[..i] == version;
    assert line[i + 1..] == t1;
    assert line[i + 1..j] == t1[..|d|] == d;
    assert line[j + 1..] == t2[1..] == reason;
  }

  /** Values up to `IntMax` need at most ten digits. */
  lemma {:induction false} DecimalShort(n: nat)
    requires n <= IntMax
    ensures |Decimal(n)| <= 10
  {
    DecimalLength(n, 10);
  }

  lemma {:induction false} DecimalLength(n: nat, k: nat)
    requires n < Power10(k)
    ensures |Decimal(n)| <= k || k == 0
  {
    if n >= 10 && k > 0 {
      DecimalLength(n / 10, k - 1);
    }
  }

  function Power10(k: nat): nat {
    if k == 0 then 1 else 10 * Power10(k - 1)
  }

  /** The key of a header line and its value before trimming: split at the
      first colon; with no colon, `find` returns npos, the key is the whole
      line and, npos + 1 wrapping to 0, so is the value. */
  function SplitHeader(line: string): (kv: (string, string))
    ensures |line| < NPOS && ':' in line ==> line == kv.0 + ":" + kv.1 && ':' !in kv.0
    ensures |line| < NPOS && ':' !in line ==> kv.0 == line && kv.1 == line
  {
    var sep := Find(line, ':', 0);
    if sep != NPOS then
      assert line == line[..sep] + ":" + line[sep + 1..];
      assert forall k :: 0 <= k < sep ==> line[..sep][k] == line[k];
      (Substr(line, 0, sep), Substr(line, SizeAdd(sep, 1), NPOS))
    else
      assert SizeAdd(sep, 1) == 0;
      (Substr(line, 0, sep), Substr(line, SizeAdd(sep, 1), NPOS))
  }

  /** A header written as key, colon, value is split back into that key
      and that value. */
  lemma SplitHeaderRoundTrip(key: string, value: string)
    requires ':' !in key && |key| + |value| < NPOS
    ensures SplitHeader(key + ":" + value) == (key, value)
  {
    var line := key + ":" + value;
    assert line[|key|] == ':';
    var kv := SplitHeader(line);
    assert line == kv.0 + ":" + kv.1 && ':' !in kv.0;
    assert |kv.0| == |key|;
    assert kv.0 == line[..|key|] == key;
    assert kv.1 == line[|key| + 1..] == value;
  }

  function HeaderKey(line: string): string {
    SplitHeader(line).0
  }

  /** The value of a header line, with the white space around it trimmed. */
  function HeaderValue(line: string): (v: string)
    ensures v != [] ==> v[0] !in CSpace && v[|v| - 1] !in CSpace
    ensures IsTrimAt(v, SplitHeader(line).1, CSpace, FindFirstNotOf(SplitHeader(line).1, CSpace, 0))
    ensures v == [] <==> AllIn(SplitHeader(line).1, CSpace)
  {
    Trim(SplitHeader(line).1, CSpace)
  }

  /** `parse_header`: store the trimmed value under the key, replacing any
      earlier value for the same key. */
  function ParseHeader(line: string, headers: map<string, string>): (r: map<string, string>)
    ensures HeaderKey(line) in r && r[HeaderKey(line)] == HeaderValue(line)
    ensures forall k :: k != HeaderKey(line) ==> (k in r <==> k in headers)
    ensures forall k :: k != HeaderKey(line) && k in headers ==> r[k] == headers[k]
  {
    headers[HeaderKey(line) := HeaderValue(line)]
  }

  /** The header map built from `ls` in order. */
  function HeadersOf(ls: seq<string>): map<string, string> {
    if ls == [] then map[] else ParseHeader(ls[|ls| - 1], HeadersOf(ls[..|ls| - 1]))
  }

  /** The last line with a given key decides its value. */
  lemma {:induction false} HeaderLastWins(ls: seq<string>, j: nat)
    requires j < |ls|
    requires forall k :: j < k < |ls| ==> HeaderKey(ls[k]) != HeaderKey(ls[j])
    ensures HeaderKey(ls[j]) in HeadersOf(ls)
    ensures HeadersOf(ls)[HeaderKey(ls[j])] == HeaderValue(ls[j])
  {
    if j < |ls| - 1 {
      var init := ls[..|ls| - 1];
      assert init[j] == ls[j];
      forall k | j < k < |init| ensures HeaderKey(init[k]) != HeaderKey(init[j]) {
        assert init[k] == ls[k];
      }
      HeaderLastWins(init, j);
    }
  }

  /** A key that no line carries is not in the map. */
  lemma {:induction false} HeaderAbsent(ls: seq<string>, key: string)
    requires forall k :: 0 <= k < |ls| ==> HeaderKey(ls[k]) != key
    ensures key !in HeadersOf(ls)
  {
    if ls != [] {
      var init := ls[..|ls| - 1];
      assert forall k :: 0 <= k < |init| ==> init[k] == ls[k];
      HeaderAbsent(init, key);
    }
  }

  // ---------------------------------------------------------------------
  // The response as a whole (parse_http_response)
  // ---------------------------------------------------------------------

  datatype HttpResponse = HttpResponse(
    httpVersion: string,
    statusCode: int,
    reasonPhrase: string,
    headers: map<string, string>,
    body: string)

  /** The first empty line at or after index `i`, or `|lines|` if none. */
  function HeaderEnd(lines: seq<string>, i: nat): (k: nat)
    requires i <= |lines|
    ensures i <= k <= |lines|
    ensures k < |lines| ==> lines[k] == ""
    ensures forall j :: i <= j < k ==> lines[j] != ""
    decreases |lines| - i
  {
    if i == |lines| || lines[i] == "" then i else HeaderEnd(lines, i + 1)
  }

  /** The lines run together, with nothing between them. */
  function Concat(ls: seq<string>): string {
    if ls == [] then "" else Concat(ls[..|ls| - 1]) + ls[|ls| - 1]
  }

  /** The body: every line after the first empty one, with the CR LF pairs
      dropped; nothing when there is no empty line. */
  function BodyOf(lines: seq<string>): string
    requires |lines| >= 1
  {
    var k := HeaderEnd(lines, 1);
    if k < |lines| then Concat(lines[k + 1..]) else ""
  }

  /** A response laid out as a status line, header lines, an empty line and
      more lines: the headers are read from exactly the header lines, and the
      body is the lines after the empty one, joined with nothing between. */
  lemma HeaderBlock(status: string, hs: seq<string>, rest: seq<string>)
    requires forall k :: 0 <= k < |hs| ==> hs[k] != ""
    ensures var lines := [status] + hs + [""] + rest;
            && HeaderEnd(lines, 1) == |hs| + 1
            && lines[1..HeaderEnd(lines, 1)] == hs
            && BodyOf(lines) == Concat(rest)
  {
    var lines := [status] + hs + [""] + rest;
    forall j | 1 <= j < |hs| + 1
      ensures lines[j] != ""
    {
      assert lines[j] == hs[j - 1];
    }
    assert lines[|hs| + 1] == "";
    assert lines[|hs| + 2..] == rest;
  }

  /** Without an empty line every line after the status line is a header
      line and the body is empty. */
  lemma NoBlankNoBody(lines: seq<string>)
    requires |lines| >= 1
    requires forall k :: 1 <= k < |lines| ==> lines[k] != ""
    ensures HeaderEnd(lines, 1) == |lines|
    ensures BodyOf(lines) == ""
  {
  }

  /** Line `i` ends the header block when it is the first empty line. */
  lemma HeaderEndAt(lines: seq<string>, i: nat)
    requires |lines| >= 1 && 1 <= i <= HeaderEnd(lines, 1)
    requires i == |lines| || lines[i] == ""
    ensures i == HeaderEnd(lines, 1)
  {
  }

  lemma HeadersStep(lines: seq<string>, i: nat)
    requires 1 <= i < |lines|
    ensures HeadersOf(lines[1..i + 1]) == ParseHeader(lines[i], HeadersOf(lines[1..i]))
  {
    assert lines[1..i + 1][..i - 1] == lines[1..i];
  }

  lemma ConcatStep(lines: seq<string>, from: nat, i: nat)
    requires from <= i < |lines|
    ensures Concat(lines[from..i + 1]) == Concat(lines[from..i]) + lines[i]
  {
    assert lines[from..i + 1][..i - from] == lines[from..i];
  }

  /** The header loop of `parse_http_response`: from line 1 up to the first
      empty line, each line goes through `parse_header`. */
  method ReadHeaders(lines: seq<string>) returns (headers: map<string, string>, i: nat)
    requires |lines| >= 1
    ensures i == HeaderEnd(lines, 1)
    ensures headers == HeadersOf(lines[1..i])
  {
    headers := map[];
    i := 1;
    while i < |lines|
      invariant 1 <= i <= HeaderEnd(lines, 1)
      invariant headers == HeadersOf(lines[1..i])
    {
      if lines[i] == "" {
        break;
      }
      HeadersStep(lines, i);
      headers := ParseHeader(lines[i], headers);
      i := i + 1;
    }
    HeaderEndAt(lines, i);
  }

  /** The body loop of `parse_http_response`: every line from `from` on,
      appended with nothing between them. */
  method ReadBody(lines: seq<string>, from: nat) returns (body: string)
    ensures body == if from <= |lines| then Concat(lines[from..]) else ""
  {
    body := "";
    var i := from;
    while i < |lines|
      invariant from <= i
      invariant from <= |lines| ==> i <= |lines| && body == Concat(lines[from..i])
      invariant from > |lines| ==> body == ""
    {
      ConcatStep(lines, from, i);
      body := body + lines[i];
      i := i + 1;
    }
    if from <= |lines| {
      assert lines[from..i] == lines[from..];
    }
  }

  /** `parse_http_response`: the status line from line 0, header fields from
      line 1 up to the first empty line, the body from the lines after it. */
  method ParseHttpResponse(raw: seq<char>) returns (r: Result<HttpResponse, string>)
    ensures var lines := Split(CString(raw));
            var st := ParseStatusLine(lines[0]);
            && (r.Err? <==> st.Err?)
            && (r.Ok? ==> r.value == HttpResponse(st.value.version, st.value.code, st.value.reason,
                                                  HeadersOf(lines[1..HeaderEnd(lines, 1)]), BodyOf(lines)))
  {
    var lines := ConvertLines(raw);
    var st := ParseStatusLine(lines[0]);
    if st.Err? {
      return Err(st.error);
    }
    var headers, i := ReadHeaders(lines);
    var body := ReadBody(lines, i + 1);
    r := Ok(HttpResponse(st.value.version, st.value.code, st.value.reason, headers, body));
  }

  // ---------------------------------------------------------------------
  // The request (send_message)
  // ---------------------------------------------------------------------

  /** The request body the template produces: `%s` copies the message up to
      its first NUL, if any. */
  function RequestBody(message: string): string {
    "{\"message\": \"" + CString(message) + "\"}"
  }

  /** The request as `sprintf` writes it: the request line, the three header
      lines, the empty line and the body, each followed by CR LF but the
      last. The Content-Length field is `15 + message.size()` printed with
      `%d`. */
  function FormatRequest(message: string): string {
    Join(RequestTemplateLines(message))
  }

  function RequestTemplateLines(message: string): seq<string> {
    ["POST /chat HTTP/1.1",
     Field("Host", "chatgpt-ime"),
     Field("Content-Length", Decimal(15 + |message|)),
     Field("Content-Type", "application/json"),
     "",
     RequestBody(message)]
  }

  /** A header line of the request template: key, colon, space, value. */
  function Field(key: string, value: string): string {
    key + ": " + value
  }

  /** The Content-Length the request declares is the body's true length
      exactly when the message holds no NUL. */
  lemma ContentLengthExact(message: string)
    ensures |RequestBody(message)| == 15 + |message| <==> '\0' !in message
  {
  }

  lemma NoCrNoCrlf(a: string)
    requires '\r' !in a
    ensures NoCrlf(a)
  {
  }

  lemma NoCrlfConcat(a: string, b: string)
    requires NoCrlf(a) && NoCrlf(b)
    requires a == [] || b == [] || a[|a| - 1] != '\r' || b[0] != '\n'
    ensures NoCrlf(a + b)
  {
    var s := a + b;
    forall i | 0 <= i < |s| ensures !CrlfAt(s, i) {
      if i + 1 < |a| {
        assert !CrlfAt(a, i);
      } else if i >= |a| {
        assert !CrlfAt(b, i - |a|);
      }
    }
  }

  lemma {:induction false} NoCrlfPrefix(a: string, n: nat)
    requires n <= |a| && NoCrlf(a)
    ensures NoCrlf(a[..n])
  {
    forall i | 0 <= i < n ensures !CrlfAt(a[..n], i) {
      assert !CrlfAt(a, i);
    }
  }

  lemma RequestBodyNoCrlf(message: string)
    requires NoCrlf(message)
    ensures NoCrlf(RequestBody(message))
  {
    var c := CString(message);
    NoCrlfPrefix(message, |c|);
    NoCrNoCrlf("{\"message\": \"");
    NoCrNoCrlf("\"}");
    NoCrlfConcat("{\"message\": \"", c);
    NoCrlfConcat("{\"message\": \"" + c, "\"}");
  }

  lemma RequestHeadNoCrlf(d: string)
    requires AllDigits(d)
    ensures NoCrlf("POST /chat HTTP/1.1") && NoCrlf(Field("Host", "chatgpt-ime"))
    ensures NoCrlf(Field("Content-Length", d)) && NoCrlf(Field("Content-Type", "application/json")) && NoCrlf("")
  {
    NoCrNoCrlf("POST /chat HTTP/1.1");
    NoCrNoCrlf(Field("Host", "chatgpt-ime"));
    NoCrNoCrlf(Field("Content-Type", "application/json"));
    assert '\r' !in d by {
      forall k | 0 <= k < |d| ensures d[k] != '\r' { assert IsDigit(d[k]); }
    }
    NoCrNoCrlf(Field("Content-Length", d));
  }

  /** The lines of the request, for a message with no CR LF. */
  lemma RequestLines(message: string)
    requires NoCrlf(message)
    ensures Split(FormatRequest(message)) == RequestTemplateLines(message)
  {
    var ls := RequestTemplateLines(message);
    RequestBodyNoCrlf(message);
    RequestHeadNoCrlf(Decimal(15 + |message|));
    assert forall k :: 0 <= k < |ls| ==> NoCrlf(ls[k]);
    SplitJoin(ls);
  }

  /** A header line written as key, colon, space, value gives back that key
      and that value, when the value has no blank at either end. */
  lemma HeaderLineReadsBack(key: string, value: string)
    requires ':' !in key && |key| + |value| + 1 < NPOS
    requires value != [] && value[0] !in CSpace && value[|value| - 1] !in CSpace
    ensures HeaderKey(Field(key, value)) == key
    ensures HeaderValue(Field(key, value)) == value
  {
    assert key + ": " + value == key + ":" + (" " + value);
    SplitHeaderRoundTrip(key, " " + value);
    TrimPadded(" ", value, "", CSpace);
    assert " " + value + "" == " " + value;
  }

  /** Three header lines with distinct keys give a map of exactly those
      three fields. */
  lemma HeadersOfThree(l1: string, l2: string, l3: string,
                       k1: string, v1: string, k2: string, v2: string, k3: string, v3: string)
    requires k1 != k2 && k1 != k3 && k2 != k3
    requires HeaderKey(l1) == k1 && HeaderValue(l1) == v1
    requires HeaderKey(l2) == k2 && HeaderValue(l2) == v2
    requires HeaderKey(l3) == k3 && HeaderValue(l3) == v3
    ensures HeadersOf([l1, l2, l3]) == map[k1 := v1, k2 := v2, k3 := v3]
  {
    var ls := [l1, l2, l3];
    assert ls[..2] == [l1, l2] && [l1, l2][..1] == [l1] && [l1][..0] == [];
    assert HeadersOf([l1]) == map[k1 := v1];
    assert HeadersOf([l1, l2]) == map[k1 := v1, k2 := v2];
  }

  /** A request line, three non-empty header lines, the empty line and a
      body line: the header block is lines 1 to 3 and the body is the last
      line. */
  lemma SixLineShape(lines: seq<string>, a0: string, a1: string, a2: string, a3: string, b: string)
    requires lines == [a0, a1, a2, a3, "", b]
    requires a1 != "" && a2 != "" && a3 != ""
    ensures HeaderEnd(lines, 1) == 4
    ensures lines[1..4] == [a1, a2, a3]
    ensures BodyOf(lines) == b
  {
    assert lines[4] == "" && lines[3] != "" && lines[2] != "" && lines[1] != "";
    assert HeaderEnd(lines, 4) == 4;
    assert HeaderEnd(lines, 3) == 4;
    assert HeaderEnd(lines, 2) == 4;
    assert lines[5..] == [b];
    assert Concat([b]) == Concat([]) + b;
  }

  lemma HostField()
    ensures HeaderKey(Field("Host", "chatgpt-ime")) == "Host"
    ensures HeaderValue(Field("Host", "chatgpt-ime")) == "chatgpt-ime"
  {
    HeaderLineReadsBack("Host", "chatgpt-ime");
  }

  lemma ContentLengthField(d: string)
    requires d != [] && AllDigits(d) && |d| <= 20
    ensures HeaderKey(Field("Content-Length", d)) == "Content-Length"
    ensures HeaderValue(Field("Content-Length", d)) == d
  {
    assert IsDigit(d[0]) && IsDigit(d[|d| - 1]);
    HeaderLineReadsBack("Content-Length", d);
  }

  lemma ContentTypeField()
    ensures HeaderKey(Field("Content-Type", "application/json")) == "Content-Type"
    ensures HeaderValue(Field("Content-Type", "application/json")) == "application/json"
  {
    HeaderLineReadsBack("Content-Type", "application/json");
  }

  /** Read with this file's own line, header and body parsers, the request
      shows its request line, its three header fields with the values
      written, and the body; and the Content-Length field, read with
      `stoi`, is the body's length. This needs a message with no NUL (see
      `ContentLengthExact`) and no CR LF (which would cut the body). */
  lemma RequestReadsBack(message: string)
    requires '\0' !in message && NoCrlf(message)
    requires |message| <= IntMax - 15
    ensures var lines := Split(FormatRequest(message));
            var h := HeadersOf(lines[1..HeaderEnd(lines, 1)]);
            && lines[0] == "POST /chat HTTP/1.1"
            && h == map["Host" := "chatgpt-ime",
                        "Content-Length" := Decimal(15 + |message|),
                        "Content-Type" := "application/json"]
            && BodyOf(lines) == RequestBody(message)
            && Stoi(h["Content-Length"]) == Ok(|BodyOf(lines)|)
  {
    var d := Decimal(15 + |message|);
    assert |d| <= 10 by { DecimalShort(15 + |message|); }
    RequestLines(message);
    SixLineShape(Split(FormatRequest(message)), "POST /chat HTTP/1.1",
                 Field("Host", "chatgpt-ime"), Field("Content-Length", d), Field("Content-Type", "application/json"),
                 RequestBody(message));
    RequestHeaderFields(d);
    ContentLengthOfBody(message);
  }

  /** The three header lines of the request read back as the three fields. */
  lemma RequestHeaderFields(d: string)
    requires d != [] && AllDigits(d) && |d| <= 20
    ensures HeadersOf([Field("Host", "chatgpt-ime"), Field("Content-Length", d), Field("Content-Type", "application/json")])
      == map["Host" := "chatgpt-ime", "Content-Length" := d, "Content-Type" := "application/json"]
  {
    HostField();
    ContentLengthField(d);
    ContentTypeField();
    HeadersOfThree(Field("Host", "chatgpt-ime"), Field("Content-Length", d), Field("Content-Type", "application/json"),
                   "Host", "chatgpt-ime", "Content-Length", d, "Content-Type", "application/json");
  }

  /** For a message without NUL, the Content-Length text reads back as the
      length of the body. */
  lemma ContentLengthOfBody(message: string)
    requires '\0' !in message && |message| <= IntMax - 15
    ensures Stoi(Decimal(15 + |message|)) == Ok(|RequestBody(message)|)
  {
    CStringNoNul(message);
    StoiDecimal(15 + |message|);
  }

  // ---------------------------------------------------------------------
  // The reply (send_message)
  // ---------------------------------------------------------------------

  /** What `nlohmann::json::parse` and a field lookup give for a body: `None`
      when the body does not parse; a field is `None` when it is missing or
      of the wrong type (the lookup then throws). */
  datatype JsonFields = JsonFields(candidates: Option<seq<string>>, errorMessage: Option<string>)

  /** `SendMessageResponse` (imeclient.h). */
  datatype SendMessageResponse = SendMessageResponse(isSuccess: bool, candidates: seq<string>, errorMessage: string)

  /** `send_message` either returns a response or lets an exception escape. */
  datatype ClientOutcome = Returned(response: SendMessageResponse) | Thrown(what: string)

  /** The status dispatch at the end of `send_message`. */
  function Dispatch(statusCode: int, body: string, decode: string -> Option<JsonFields>): (o: ClientOutcome)
    ensures o.Returned? ==> (o.response.isSuccess <==> statusCode == 200)
    ensures o.Returned? && statusCode == 200 ==> decode(body).Some? && decode(body).value.candidates == Some(o.response.candidates)
    ensures o.Returned? && statusCode != 200 ==> decode(body).Some? && decode(body).value.errorMessage == Some(o.response.errorMessage)
    ensures o.Thrown? <==> decode(body).None? || (statusCode == 200 && decode(body).value.candidates.None?)
                                              || (statusCode != 200 && decode(body).value.errorMessage.None?)
  {
    match decode(body)
    case None => Thrown("json parse error")
    case Some(json) =>
      if statusCode != 200 then
        match json.errorMessage
        case None => Thrown("json type error")
        case Some(m) => Returned(SendMessageResponse(false, [], m))
      else
        match json.candidates
        case None => Thrown("json type error")
        case Some(cs) => Returned(SendMessageResponse(true, cs, ""))
  }

  /** How the socket exchange went: which system call failed (with the
      `strerror` text), or the bytes the single `recv` returned. */
  datatype Transport =
    | SocketFailed(errno: string)
    | ConnectFailed(errno: string)
    | SendFailed(errno: string)
    | RecvFailed(errno: string)
    | Received(bytes: seq<char>)

  /** `recv` is given `sizeof(buffer) - 1` bytes of room. */
  const RecvCapacity: nat := 4095

  function Received4095(bytes: seq<char>): (r: seq<char>)
    ensures |r| <= RecvCapacity && |r| <= |bytes| && r == bytes[..|r|]
    ensures |bytes| <= RecvCapacity ==> r == bytes
  {
    if |bytes| <= RecvCapacity then bytes else bytes[..RecvCapacity]
  }

  function SystemError(call: string, errno: string): ClientOutcome {
    Returned(SendMessageResponse(false, [], call + ": " + errno))
  }

  /** `send_message`: format the request, exchange it (an oracle standing for
      the socket calls), parse the reply and dispatch on its status. */
  method SendMessage(message: string, exchange: string -> Transport, decode: string -> Option<JsonFields>)
    returns (o: ClientOutcome)
    requires |FormatRequest(message)| < 4096
    ensures var t := exchange(FormatRequest(message));
            && (t.SocketFailed? ==> o == SystemError("socket", t.errno))
            && (t.ConnectFailed? ==> o == SystemError("connect", t.errno))
            && (t.SendFailed? ==> o == SystemError("send", t.errno))
            && (t.RecvFailed? ==> o == SystemError("recv", t.errno))
            && (t.Received? ==>
                  var lines := Split(CString(Received4095(t.bytes)));
                  var st := ParseStatusLine(lines[0]);
                  && (st.Err? ==> o.Thrown?)
                  && (st.Ok? ==> o == Dispatch(st.value.code, BodyOf(lines), decode)))
  {
    var request := FormatRequest(message);
    var t := exchange(request);
    match t {
      case SocketFailed(e) => o := SystemError("socket", e);
      case ConnectFailed(e) => o := SystemError("connect", e);
      case SendFailed(e) => o := SystemError("send", e);
      case RecvFailed(e) => o := SystemError("recv", e);
      case Received(bytes) =>
        var parsed := ParseHttpResponse(Received4095(bytes));
        match parsed {
          case Err(e) => o := Thrown(e);
          case Ok(http) => o := Dispatch(http.statusCode, http.body, decode);
        }
    }
  }
}
