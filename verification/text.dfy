/** Whitespace trimming, shared by the C++ `trim` helper and Go's
    `strings.TrimSpace`. Both remove the longest prefix and the longest
    suffix made of whitespace; they differ only in which characters count
    as whitespace, so the set is a parameter. */
module Text {

  /** The set `" \t\n\r\f\v"` used by `trim` in imeclient.cpp; it is also
      what C's `isspace` accepts in the "C" locale. */
  const CSpace: set<char> := {' ', '\t', '\n', '\r', '\U{000C}', '\U{000B}'}

  /** What Go's `unicode.IsSpace` accepts, which `strings.TrimSpace` trims:
      the ASCII set above, NEL, NO-BREAK SPACE and the other Unicode
      White_Space characters. */
  const GoSpace: set<char> := CSpace + {
    '\U{0085}', '\U{00A0}', '\U{1680}',
    '\U{2000}', '\U{2001}', '\U{2002}', '\U{2003}', '\U{2004}', '\U{2005}',
    '\U{2006}', '\U{2007}', '\U{2008}', '\U{2009}', '\U{200A}',
    '\U{2028}', '\U{2029}', '\U{202F}', '\U{205F}', '\U{3000}'
  }

  ghost predicate AllIn(s: string, ws: set<char>) {
    forall i :: 0 <= i < |s| ==> s[i] in ws
  }

  /** `r` is what is left of `s` once a whitespace prefix of length `a` and a
      whitespace suffix are cut, and neither cut could have been longer. */
  ghost predicate IsTrimAt(r: string, s: string, ws: set<char>, a: nat) {
    && a + |r| <= |s|
    && r == s[a..a + |r|]
    && AllIn(s[..a], ws)
    && AllIn(s[a + |r|..], ws)
    && (r != [] ==> r[0] !in ws && r[|r| - 1] !in ws)
  }

  /** `find_first_not_of`: the first index at or after `i` whose character is
      not in `ws`, or `|s|` (standing for npos) when there is none. */
  function FindFirstNotOf(s: string, ws: set<char>, i: nat): (r: nat)
    requires i <= |s|
    ensures i <= r <= |s|
    ensures forall k :: i <= k < r ==> s[k] in ws
    ensures r < |s| ==> s[r] !in ws
    decreases |s| - i
  {
    if i == |s| || s[i] !in ws then i else FindFirstNotOf(s, ws, i + 1)
  }

  /** `find_last_not_of`: the last index below `n` whose character is not in
      `ws`, or -1 (standing for npos) when there is none. */
  function FindLastNotOf(s: string, ws: set<char>, n: nat): (r: int)
    requires n <= |s|
    ensures -1 <= r < n
    ensures forall k :: r < k < n ==> s[k] in ws
    ensures r >= 0 ==> s[r] !in ws
  {
    if n == 0 then -1 else if s[n - 1] !in ws then n - 1 else FindLastNotOf(s, ws, n - 1)
  }

  /** `trim` (imeclient.cpp) and, with `GoSpace`, `strings.TrimSpace`. */
  function Trim(s: string, ws: set<char>): (r: string)
    ensures IsTrimAt(r, s, ws, FindFirstNotOf(s, ws, 0))
    ensures r == [] <==> AllIn(s, ws)
  {
    var start := FindFirstNotOf(s, ws, 0);
    var end := FindLastNotOf(s, ws, |s|);
    if start == |s| then
      assert s[..start] == s;
      ""
    else
      assert start <= end;
      s[start..end + 1]
  }

  /** The cut is determined: whatever satisfies `IsTrimAt` is `Trim`'s result. */
  lemma {:induction false} TrimUnique(r: string, s: string, ws: set<char>, a: nat)
    requires IsTrimAt(r, s, ws, a)
    ensures r == Trim(s, ws)
  {
    var t := Trim(s, ws);
    var b := FindFirstNotOf(s, ws, 0);
    assert IsTrimAt(t, s, ws, b);
    if r == [] {
      assert forall k :: 0 <= k < |s| ==> s[k] in ws by {
        forall k | 0 <= k < |s| ensures s[k] in ws {
          if k < a { assert s[..a][k] == s[k]; } else { assert s[a..][k - a] == s[k]; }
        }
      }
    } else {
      // both cuts start at the first non-blank and end at the last non-blank
      assert s[a] == r[0];
      assert a == b;
      assert |r| == |t|;
    }
  }

  /** Trimming twice is trimming once. */
  lemma TrimIdempotent(s: string, ws: set<char>)
    ensures Trim(Trim(s, ws), ws) == Trim(s, ws)
  {
    var t := Trim(s, ws);
    assert t[0..|t|] == t && t[..0] == [] && t[|t|..] == [];
    TrimUnique(t, t, ws, 0);
  }

  /** Trimming a string that is padded with blanks on both sides and whose own
      ends are not blank gives back exactly that string. */
  lemma TrimPadded(pre: string, x: string, post: string, ws: set<char>)
    requires AllIn(pre, ws) && AllIn(post, ws)
    requires x != [] && x[0] !in ws && x[|x| - 1] !in ws
    ensures Trim(pre + x + post, ws) == x
  {
    var s := pre + x + post;
    assert s[..|pre|] == pre;
    assert s[|pre|..|pre| + |x|] == x;
    assert s[|pre| + |x|..] == post;
    TrimUnique(x, s, ws, |pre|);
  }
}
