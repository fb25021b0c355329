/** Character classes and string helpers shared by the parsers: Python's
    `str.isspace`, `str.strip`, `str.split(sep)`, `str(int)` and `int(str)`. */
module Text {
  import opened Wrappers

  /** The characters Python's `str.isspace` and the regex class `\s` accept. */
  predicate IsSpace(c: char) {
    ('\t' <= c <= '\r') || ('\U{1C}' <= c <= '\U{1F}') || c == ' '
    || c == '\U{85}' || c == '\U{A0}' || c == '\U{1680}'
    || ('\U{2000}' <= c <= '\U{200A}') || c == '\U{2028}' || c == '\U{2029}'
    || c == '\U{202F}' || c == '\U{205F}' || c == '\U{3000}'
  }

  predicate AllSpace(s: string) {
    forall i :: 0 <= i < |s| ==> IsSpace(s[i])
  }

  /** `s[lo..hi]` is all whitespace. */
  predicate SpaceIn(s: string, lo: int, hi: int) {
    forall k :: lo <= k < hi && 0 <= k < |s| ==> IsSpace(s[k])
  }

  predicate IsDigit(c: char) { '0' <= c <= '9' }

  predicate AllDigits(s: string) {
    forall i :: 0 <= i < |s| ==> IsDigit(s[i])
  }

  /** Drops leading whitespace: the result is a suffix of `s` and what was dropped is all whitespace. */
  function TrimLeft(s: string): (r: string)
    ensures |r| <= |s| && r == s[|s| - |r|..]
    ensures SpaceIn(s, 0, |s| - |r|)
    ensures r == [] || !IsSpace(r[0])
  {
    if |s| > 0 && IsSpace(s[0]) then
      TrimLeft(s[1..])
    else s
  }

  /** Drops trailing whitespace: the result is a prefix of `s` and what was dropped is all whitespace. */
  function TrimRight(s: string): (r: string)
    ensures |r| <= |s| && r == s[..|r|]
    ensures SpaceIn(s, |r|, |s|)
    ensures r == [] || !IsSpace(r[|r| - 1])
  {
    if |s| > 0 && IsSpace(s[|s| - 1]) then
      TrimRight(s[..|s| - 1])
    else s
  }

  /** `r` is `s[i..i+|r|]`, everything around it in `s` is whitespace, and it neither starts nor ends with whitespace. */
  predicate StrippedAt(s: string, i: int, r: string) {
    && 0 <= i && i + |r| <= |s| && r == s[i..i + |r|]
    && SpaceIn(s, 0, i) && SpaceIn(s, i + |r|, |s|)
    && (r == [] || (!IsSpace(r[0]) && !IsSpace(r[|r| - 1])))
  }

  /** Python's `str.strip()`: the middle of `s` left once the whitespace at both ends is gone. */
  function Strip(s: string): (r: string)
    ensures StrippedAt(s, |s| - |TrimLeft(s)|, r)
  {
    var l := TrimLeft(s);
    StripParts(s, l, TrimRight(l));
    TrimRight(l)
  }

  /** The facts `Strip` promises, from those of its two halves. */
  lemma StripParts(s: string, l: string, r: string)
    requires |l| <= |s| && l == s[|s| - |l|..] && SpaceIn(s, 0, |s| - |l|) && (l == [] || !IsSpace(l[0]))
    requires |r| <= |l| && r == l[..|r|] && SpaceIn(l, |r|, |l|) && (r == [] || !IsSpace(r[|r| - 1]))
    ensures StrippedAt(s, |s| - |l|, r)
  {
    var i := |s| - |l|;
    forall k | i + |r| <= k < |s| ensures IsSpace(s[k]) {
      assert s[k] == l[k - i];
    }
    assert r == s[i..i + |r|];
    assert r != [] ==> r[0] == l[0];
  }

  /** Stripping an already stripped string changes nothing. */
  lemma StripIdempotent(s: string)
    ensures Strip(Strip(s)) == Strip(s)
  {
  }

  /** A string with no whitespace at either end is its own stripped form. */
  lemma StripFixed(t: string)
    requires t == [] || (!IsSpace(t[0]) && !IsSpace(t[|t| - 1]))
    ensures Strip(t) == t
  {
  }

  /** `s.strip()` is empty exactly when `s` is whitespace only. */
  lemma StripEmptyIff(s: string)
    ensures Strip(s) == [] <==> AllSpace(s)
  {
    var i := |s| - |TrimLeft(s)|;
    if Strip(s) == [] {
      assert forall k :: 0 <= k < |s| ==> IsSpace(s[k]);
    } else {
      assert !IsSpace(s[i]);
    }
  }

  /** The index of the first occurrence of `c` in `s`. */
  function IndexOf(s: string, c: char): (k: nat)
    requires c in s
    ensures k < |s| && s[k] == c && c !in s[..k]
  {
    if s[0] == c then 0 else
      var k := 1 + IndexOf(s[1..], c);
      assert s[..k] == [s[0]] + s[1..][..k - 1];
      k
  }

  /** Python's `s.split(sep)`: the pieces between the occurrences of `sep`, empty pieces kept. */
  function SplitOn(s: string, sep: char): (r: seq<string>)
    ensures |r| > 0
    ensures forall i :: 0 <= i < |r| ==> sep !in r[i]
    decreases |s|
  {
    if sep !in s then [s]
    else
      var k := IndexOf(s, sep);
      [s[..k]] + SplitOn(s[k + 1..], sep)
  }

  /** Python's `sep.join(ps)`. */
  function Join(ps: seq<string>, sep: char): string {
    if |ps| == 0 then ""
    else if |ps| == 1 then ps[0]
    else ps[0] + [sep] + Join(ps[1..], sep)
  }

  /** Splitting and joining again give back the original text. */
  lemma {:induction false} SplitJoin(s: string, sep: char)
    ensures Join(SplitOn(s, sep), sep) == s
    decreases |s|
  {
    if sep in s {
      var k := IndexOf(s, sep);
      SplitJoin(s[k + 1..], sep);
      assert s == s[..k] + [sep] + s[k + 1..];
    }
  }

  /** Joining pieces that do not contain `sep` and splitting again gives back the pieces. */
  lemma {:induction false} JoinSplit(ps: seq<string>, sep: char)
    requires |ps| > 0
    requires forall i :: 0 <= i < |ps| ==> sep !in ps[i]
    ensures SplitOn(Join(ps, sep), sep) == ps
  {
    if |ps| > 1 {
      JoinSplit(ps[1..], sep);
      SplitFirst(ps[0], sep, Join(ps[1..], sep));
    }
  }

  /** Splitting `u + [sep] + v`, where `u` has no `sep`, gives `u` and then the pieces of `v`. */
  lemma SplitFirst(u: string, sep: char, v: string)
    requires sep !in u
    ensures SplitOn(u + [sep] + v, sep) == [u] + SplitOn(v, sep)
  {
    var s := u + [sep] + v;
    IndexOfAfter(u, sep, v);
    assert s[..|u|] == u && s[|u| + 1..] == v;
  }

  /** The first `c` of `u + [c] + v` is the one after `u` when `u` has none. */
  lemma IndexOfAfter(u: string, c: char, v: string)
    requires c !in u
    ensures c in u + [c] + v && IndexOf(u + [c] + v, c) == |u|
  {
    var s := u + [c] + v;
    assert s[|u|] == c;
  }

  function DigitChar(d: nat): (c: char)
    requires d < 10
    ensures IsDigit(c)
  {
    ('0' as int + d) as char
  }

  function DigitValue(c: char): (d: nat)
    requires IsDigit(c)
    ensures d < 10 && DigitChar(d) == c
  {
    c as int - '0' as int
  }

  /** Decimal digits of a natural number, most significant first, without leading zeros. */
  function NatDigits(n: nat): (s: string)
    ensures |s| > 0 && AllDigits(s)
    ensures s[0] == '0' ==> n == 0
    decreases n
  {
    if n < 10 then [DigitChar(n)] else NatDigits(n / 10) + [DigitChar(n % 10)]
  }

  /** The number a string of decimal digits denotes (leading zeros allowed). */
  function DigitsValue(s: string): nat
    requires AllDigits(s)
  {
    if s == [] then 0 else DigitsValue(s[..|s| - 1]) * 10 + DigitValue(s[|s| - 1])
  }

  lemma {:induction false} NatDigitsValue(n: nat)
    ensures DigitsValue(NatDigits(n)) == n
    decreases n
  {
    if n >= 10 {
      NatDigitsValue(n / 10);
      var s := NatDigits(n);
      assert s[..|s| - 1] == NatDigits(n / 10);
    }
  }

  /** Python's `str(i)` for an integer. */
  function FmtInt(i: int): (s: string)
    ensures |s| > 0
  {
    if i < 0 then "-" + NatDigits(-i) else NatDigits(i)
  }

  /** Python's `int(s)` on a decimal string: optional surrounding whitespace, an optional sign, one or more digits. */
  function ParseInt(s: string): Option<int> {
    ParseSignedDigits(Strip(s))
  }

  /** `int` once the whitespace is gone: an optional sign and one or more digits. */
  function ParseSignedDigits(t: string): Option<int> {
    if |t| == 0 then None
    else
      var d := if t[0] == '+' || t[0] == '-' then t[1..] else t;
      if |d| > 0 && AllDigits(d) then Some(if t[0] == '-' then -(DigitsValue(d) as int) else DigitsValue(d))
      else None
  }

  /** `str(i)` has no surrounding whitespace. */
  lemma FmtIntStripped(i: int)
    ensures Strip(FmtInt(i)) == FmtInt(i)
  {
    var s := FmtInt(i);
    var n: nat := if i < 0 then -i else i;
    var d := NatDigits(n);
    assert !IsSpace(s[0]) by {
      if i >= 0 { assert IsDigit(d[0]); }
    }
    assert !IsSpace(s[|s| - 1]) by {
      assert s[|s| - 1] == d[|d| - 1];
      assert IsDigit(d[|d| - 1]);
    }
  }

  /** `int(str(i)) == i`. */
  lemma FmtIntParses(i: int)
    ensures ParseInt(FmtInt(i)) == Some(i)
  {
    var s := FmtInt(i);
    if i < 0 {
      var d := NatDigits(-i);
      assert s[0] == '-' && s[1..] == d;
      NatDigitsValue(-i);
    } else {
      var d := NatDigits(i);
      assert IsDigit(d[0]);
      NatDigitsValue(i);
    }
    assert ParseSignedDigits(s) == Some(i);
    FmtIntStripped(i);
  }
}
