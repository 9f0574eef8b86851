/** The pieces of the C and C++ standard libraries that imeclient.cpp leans on,
    stated with their edge cases: 64-bit `size_t` arithmetic that wraps,
    `std::string::npos`, `find`, `substr`, `std::stoi`, `%d` formatting and
    NUL-terminated character buffers. Characters stand for bytes here. */
module CLib {
  import opened Common
  import opened Text

  /** `size_t` is 64 bits wide; arithmetic on it wraps modulo 2^64. */
  const SizeModulus: nat := 0x1_0000_0000_0000_0000
  /** `std::string::npos`, the largest `size_t`. */
  const NPOS: nat := SizeModulus - 1

  function SizeAdd(a: nat, b: nat): (r: nat)
    ensures r < SizeModulus
    ensures a + b < SizeModulus ==> r == a + b
    ensures a + b == SizeModulus ==> r == 0
  {
    (a + b) % SizeModulus
  }

  function SizeSub(a: nat, b: nat): (r: nat)
    requires a < SizeModulus && b < SizeModulus
    ensures r < SizeModulus
    ensures b <= a ==> r == a - b
  {
    (a - b) % SizeModulus
  }

  /** `s.find(c, from)`: the first index at or after `from` holding `c`, or
      `NPOS` when there is none. (A `std::string` is shorter than `npos`, so
      the search never needs to look at index `NPOS` or beyond.) */
  function Find(s: string, c: char, from: nat): (r: nat)
    ensures r <= NPOS
    ensures r == NPOS || (from <= r < |s| && s[r] == c)
    ensures forall k :: from <= k < |s| && k < r ==> s[k] != c
    decreases |s| - from
  {
    if from >= |s| || from >= NPOS then NPOS else if s[from] == c then from else Find(s, c, from + 1)
  }

  /** `find` stops at the first occurrence. */
  lemma FindAt(s: string, c: char, from: nat, i: nat)
    requires from <= i < |s| && i < NPOS && s[i] == c
    requires forall k :: from <= k < i ==> s[k] != c
    ensures Find(s, c, from) == i
  {
  }

  /** `find` gives `NPOS` when there is no occurrence. */
  lemma FindNone(s: string, c: char, from: nat)
    requires forall k :: from <= k < |s| ==> s[k] != c
    ensures Find(s, c, from) == NPOS
  {
  }

  /** `s.substr(pos, n)`: at most `n` characters from `pos` on. The library
      throws `std::out_of_range` when `pos > s.size()`; no caller here can
      pass such a `pos`. */
  function Substr(s: string, pos: nat, n: nat): (r: string)
    requires pos <= |s|
    ensures |r| <= n && pos + |r| <= |s| && r == s[pos..pos + |r|]
    ensures |r| == n || pos + |r| == |s|
  {
    if n < |s| - pos then s[pos..pos + n] else s[pos..]
  }

  /** The C string held in a character buffer: everything before the first
      NUL, or the whole buffer when it holds none. */
  function CString(bs: seq<char>): (r: string)
    ensures |r| <= |bs| && r == bs[..|r|]
    ensures '\0' !in r
    ensures |r| < |bs| ==> bs[|r|] == '\0'
  {
    if bs == [] || bs[0] == '\0' then [] else [bs[0]] + CString(bs[1..])
  }

  /** A buffer with no NUL in it is its own C string. */
  lemma CStringNoNul(bs: seq<char>)
    requires '\0' !in bs
    ensures CString(bs) == bs
  {
    var r := CString(bs);
    assert |r| == |bs|;
  }

  predicate IsDigit(c: char) {
    '0' <= c <= '9'
  }

  ghost predicate AllDigits(s: string) {
    forall k :: 0 <= k < |s| ==> IsDigit(s[k])
  }

  function DigitChar(d: nat): (c: char)
    requires d < 10
    ensures IsDigit(c) && c as int - '0' as int == d
  {
    ('0' as int + d) as char
  }

  /** The value of a string of decimal digits, read most significant first. */
  function DigitsValue(ds: string): nat
    requires AllDigits(ds)
  {
    if ds == [] then 0 else DigitsValue(ds[..|ds| - 1]) * 10 + (ds[|ds| - 1] as int - '0' as int)
  }

  /** How many characters at the front of `s` are decimal digits. */
  function LeadingDigits(s: string): (n: nat)
    ensures n <= |s| && AllDigits(s[..n])
    ensures n < |s| ==> !IsDigit(s[n])
  {
    if s == [] || !IsDigit(s[0]) then 0
    else
      var n := 1 + LeadingDigits(s[1..]);
      assert s[..n] == [s[0]] + s[1..][..n - 1];
      n
  }

  /** Leading characters `isspace` accepts, dropped. */
  function SkipSpace(s: string): (r: string)
    ensures |r| <= |s| && r == s[|s| - |r|..]
    ensures forall i :: 0 <= i < |s| - |r| ==> s[i] in CSpace
    ensures r != [] ==> r[0] !in CSpace
  {
    if s != [] && s[0] in CSpace then
      var r := SkipSpace(s[1..]);
      assert s[1..][|s| - 1 - |r|..] == s[|s| - |r|..];
      r
    else s
  }

  /** Spaces in front of a text that does not start with one are exactly
      what `SkipSpace` drops. */
  lemma {:induction false} SkipSpaceOver(w: string, x: string)
    requires AllIn(w, CSpace) && (x != [] ==> x[0] !in CSpace)
    ensures SkipSpace(w + x) == x
  {
    if w != [] {
      assert (w + x)[1..] == w[1..] + x;
      SkipSpaceOver(w[1..], x);
    } else {
      assert w + x == x;
    }
  }

  /** The run of digits in front of a text that does not go on with a digit
      is all of it. */
  lemma {:induction false} LeadingDigitsOver(ds: string, rest: string)
    requires AllDigits(ds) && (rest == [] || !IsDigit(rest[0]))
    ensures LeadingDigits(ds + rest) == |ds|
  {
    if ds != [] {
      assert (ds + rest)[1..] == ds[1..] + rest;
      LeadingDigitsOver(ds[1..], rest);
    } else {
      assert ds + rest == rest;
    }
  }

  const IntMin: int := -0x8000_0000
  const IntMax: int := 0x7FFF_FFFF

  /** `std::stoi` (base 10): leading white space, an optional sign and at
      least one digit, read up to the first non-digit. With no digit it
      throws `std::invalid_argument`; outside the range of a 32-bit `int` it
      throws `std::out_of_range`; both are `Err` here. */
  function Stoi(s: string): (r: Result<int, string>)
    ensures r.Ok? ==> IntMin <= r.value <= IntMax
  {
    ReadSigned(SkipSpace(s))
  }

  /** The part of `stoi` after the white space: an optional sign and the
      digits that follow it. */
  function ReadSigned(t: string): (r: Result<int, string>)
    ensures r.Ok? ==> IntMin <= r.value <= IntMax
  {
    var negative := t != [] && t[0] == '-';
    var u := if t != [] && (t[0] == '-' || t[0] == '+') then t[1..] else t;
    var n := LeadingDigits(u);
    if n == 0 then Err("stoi")
    else
      var v: int := if negative then -(DigitsValue(u[..n]) as int) else DigitsValue(u[..n]);
      if IntMin <= v <= IntMax then Ok(v) else Err("stoi")
  }

  /** What `stoi` reads: white space, an optional sign and a run of digits
      give the signed value of the digits when it fits in an `int`, and
      throw otherwise; whatever follows the digits is ignored. */
  lemma StoiReadsNumber(w: string, sign: string, ds: string, rest: string)
    requires AllIn(w, CSpace) && (sign == "" || sign == "+" || sign == "-")
    requires ds != [] && AllDigits(ds) && (rest == [] || !IsDigit(rest[0]))
    ensures var v := if sign == "-" then -(DigitsValue(ds) as int) else DigitsValue(ds);
            Stoi(w + sign + ds + rest) == if IntMin <= v <= IntMax then Ok(v) else Err("stoi")
  {
    var t := sign + (ds + rest);
    assert w + sign + ds + rest == w + t;
    assert t[0] == (if sign == "" then ds[0] else sign[0]);
    SkipSpaceOver(w, t);
    ReadSignedNumber(sign, ds, rest);
  }

  lemma ReadSignedNumber(sign: string, ds: string, rest: string)
    requires sign == "" || sign == "+" || sign == "-"
    requires ds != [] && AllDigits(ds) && (rest == [] || !IsDigit(rest[0]))
    ensures var v := if sign == "-" then -(DigitsValue(ds) as int) else DigitsValue(ds);
            ReadSigned(sign + (ds + rest)) == if IntMin <= v <= IntMax then Ok(v) else Err("stoi")
  {
    var u := ds + rest;
    LeadingDigitsOver(ds, rest);
    assert u[..|ds|] == ds;
    assert IsDigit(u[0]);
    if sign == "" {
      assert sign + u == u;
    } else {
      assert (sign + u)[0] == sign[0] && (sign + u)[1..] == u;
    }
  }

  /** `stoi` of a value `%d` wrote, with spaces in front, a sign and any
      non-digit text after it. */
  lemma StoiReadsDecimal(w: string, sign: string, n: nat, rest: string)
    requires AllIn(w, CSpace) && (sign == "" || sign == "+" || sign == "-")
    requires rest == [] || !IsDigit(rest[0])
    requires if sign == "-" then n <= -IntMin else n <= IntMax
    ensures Stoi(w + sign + Decimal(n) + rest) == Ok(if sign == "-" then -(n as int) else n)
  {
    StoiReadsNumber(w, sign, Decimal(n), rest);
    DecimalValue(n);
  }

  /** Without a digit after the white space and the optional sign, `stoi`
      throws. A text with no sign must not go on with a space or a sign
      either, since those would be skipped or read as the sign. */
  lemma StoiNeedsDigit(w: string, sign: string, rest: string)
    requires AllIn(w, CSpace) && (sign == "" || sign == "+" || sign == "-")
    requires rest == [] || !IsDigit(rest[0])
    requires sign == "" && rest != [] ==> rest[0] !in CSpace && rest[0] != '+' && rest[0] != '-'
    ensures Stoi(w + sign + rest).Err?
  {
    var t := sign + rest;
    assert w + sign + rest == w + t;
    assert t != [] ==> t[0] !in CSpace by {
      if sign == "" { assert t == rest; } else { assert t[0] == sign[0]; }
    }
    SkipSpaceOver(w, t);
    ReadSignedNeedsDigit(sign, rest);
  }

  lemma ReadSignedNeedsDigit(sign: string, rest: string)
    requires sign == "" || sign == "+" || sign == "-"
    requires rest == [] || !IsDigit(rest[0])
    requires sign == "" && rest != [] ==> rest[0] != '+' && rest[0] != '-'
    ensures ReadSigned(sign + rest).Err?
  {
    var t := sign + rest;
    if sign == "" {
      assert t == rest;
    } else {
      assert t[0] == sign[0] && t[1..] == rest;
    }
  }

  /** A text that begins with neither white space, a sign nor a digit is not
      a number: `stoi` throws. */
  lemma StoiRejectsNonNumeric(s: string)
    requires s != [] ==> s[0] !in CSpace && s[0] != '+' && s[0] != '-' && !IsDigit(s[0])
    ensures Stoi(s).Err?
  {
  }

  /** `%d` of a non-negative value: its decimal digits, with no leading zero. */
  function Decimal(n: nat): (r: string)
    ensures r != [] && AllDigits(r)
    ensures r[0] == '0' ==> n == 0
  {
    if n < 10 then [DigitChar(n)] else Decimal(n / 10) + [DigitChar(n % 10)]
  }

  lemma {:induction false} DecimalValue(n: nat)
    ensures DigitsValue(Decimal(n)) == n
  {
    if n >= 10 {
      var d := Decimal(n);
      assert d[..|d| - 1] == Decimal(n / 10);
      DecimalValue(n / 10);
    }
  }

  /** `stoi` reads back what `%d` wrote. */
  lemma StoiDecimal(n: nat)
    requires n <= IntMax
    ensures Stoi(Decimal(n)) == Ok(n)
  {
    var d := Decimal(n);
    assert IsDigit(d[0]);
    assert d[0] !in CSpace && d[0] != '-' && d[0] != '+';
    assert SkipSpace(d) == d;
    var k := LeadingDigits(d);
    assert d[..k] == d;
    DecimalValue(n);
  }
}
