/** The scalar number grammar `NUM_RE`, the value of a literal, Python's `round`,
    `is_int_like` and the 12-decimal-place key used to de-duplicate number sets.
    A number is the exact rational a decimal literal denotes. */
module Numbers {
  import opened Wrappers
  import opened Text

  /** Errors `parse_number` and `parse_number_set` raise. */
  datatype NumError =
    | EmptySpec                      // "Empty number specification."
    | InvalidNumber(token: string)   // "Invalid number: <token>"
    | RangeNeedsIntegers(token: string) // "Ranges require integer endpoints: <token>"
    | NoValidNumbers                 // "No valid numbers parsed."

  /** Default tolerance of `is_int_like`, 1e-12. */
  const IntTol: real := 0.000000000001
  /** 10^12: `round(x, 12)` keeps twelve decimal places. */
  const KeyScale: real := 1000000000000.0

  function Abs(x: real): real { if x < 0.0 then -x else x }

  /** The literal without its optional leading sign. */
  function Unsigned(s: string): string {
    if |s| > 0 && (s[0] == '+' || s[0] == '-') then s[1..] else s
  }

  /** Index of the first '.' in `b`, or `|b|` when there is none. */
  function DotPos(b: string): (k: nat)
    ensures k <= |b| && (k < |b| ==> b[k] == '.') && '.' !in b[..k]
  {
    if '.' in b then IndexOf(b, '.') else |b|
  }

  /** The unsigned part of `NUM_RE`: digits with at most one '.', and at least one digit. */
  predicate IsBody(b: string) {
    var k := DotPos(b);
    AllDigits(b[..k]) && (k == |b| || AllDigits(b[k + 1..]))
    && (if k < |b| then |b| > 1 else |b| > 0)
  }

  /** `NUM_RE.match(s)`. */
  predicate IsNumLit(s: string) {
    IsBody(Unsigned(s))
  }

  predicate OptSign(sg: string) {
    |sg| == 0 || (|sg| == 1 && (sg[0] == '+' || sg[0] == '-'))
  }

  /** The two alternatives of `NUM_RE` after the sign: `\d+(\.\d*)?` and `\.\d+`. */
  predicate RegexTail(p: string, q: string) {
    (|p| > 0 && AllDigits(p) && (q == [] || (q[0] == '.' && AllDigits(q[1..]))))
    || (p == [] && |q| >= 2 && q[0] == '.' && AllDigits(q[1..]))
  }

  /** `^[+-]?(?:\d+(?:\.\d*)?|\.\d+)$` written as a decomposition of `s` into sign, digits and fraction. */
  ghost predicate MatchesNumRe(s: string) {
    exists i, j :: 0 <= i <= j <= |s| && OptSign(s[..i]) && RegexTail(s[i..j], s[j..])
  }

  /** The grammar the parser checks is exactly the regular expression. */
  lemma NumLitIsNumRe(s: string)
    ensures IsNumLit(s) <==> MatchesNumRe(s)
  {
    if IsNumLit(s) { NumLitMatches(s); }
    if MatchesNumRe(s) {
      var i, j :| 0 <= i <= j <= |s| && OptSign(s[..i]) && RegexTail(s[i..j], s[j..]);
      MatchIsNumLit(s, i, j);
    }
  }

  lemma NumLitMatches(s: string)
    requires IsNumLit(s)
    ensures MatchesNumRe(s)
  {
    var b := Unsigned(s);
    var i := |s| - |b|;
    assert b == s[i..];
    var d := DotPos(b);
    BodyIsTail(b);
    var j := i + d;
    assert s[i..j] == b[..d] && s[j..] == b[d..];
    assert OptSign(s[..i]);
  }

  /** An unsigned body splits at its dot into the two alternatives of the expression. */
  lemma BodyIsTail(b: string)
    requires IsBody(b)
    ensures RegexTail(b[..DotPos(b)], b[DotPos(b)..])
  {
    var d := DotPos(b);
    if d < |b| { assert b[d..][1..] == b[d + 1..]; }
  }

  lemma MatchIsNumLit(s: string, i: int, j: int)
    requires 0 <= i <= j <= |s| && OptSign(s[..i]) && RegexTail(s[i..j], s[j..])
    ensures IsNumLit(s)
  {
    var p, q := s[i..j], s[j..];
    assert s[i..] == p + q;
    if i == 0 && |s| > 0 {
      assert s[0] == (p + q)[0];
      assert IsDigit(s[0]) || s[0] == '.';
    }
    var b := Unsigned(s);
    assert b == p + q;
    assert b[..|p|] == p;
    assert DotPos(b) == |p|;
    assert q != [] ==> b[|p| + 1..] == q[1..];
  }

  /** A literal contains no '-' except its leading sign, so the '-' of a range is unambiguous. */
  lemma NumLitNoInnerMinus(s: string, k: int)
    requires IsNumLit(s) && 0 < k < |s|
    ensures s[k] != '-'
  {
    var b := Unsigned(s);
    var i := |s| - |b|;
    assert b == s[i..];
    var d := DotPos(b);
    var m := k - i;
    assert b[m] == s[k];
    if m < d { assert b[m] == b[..d][m]; }
    else if m > d { assert b[m] == b[d + 1..][m - d - 1]; }
  }

  function Pow10(n: nat): (p: nat)
    ensures p >= 1
  {
    if n == 0 then 1 else 10 * Pow10(n - 1)
  }

  /** The value of an unsigned literal: whole part plus fraction digits over 10^(their count). */
  function BodyValue(b: string): real
    requires IsBody(b)
  {
    var k := DotPos(b);
    var whole := DigitsValue(b[..k]) as real;
    if k == |b| then whole
    else whole + (DigitsValue(b[k + 1..]) as real) / (Pow10(|b| - k - 1) as real)
  }

  /** `float(s)` for a literal `NUM_RE` accepts, as the exact decimal value. */
  function LitValue(s: string): real
    requires IsNumLit(s)
  {
    var v := BodyValue(Unsigned(s));
    if |s| > 0 && s[0] == '-' then -v else v
  }


  /** `parse_number`: strip, check the grammar, convert. */
  function ParseNumber(token: string): (r: Result<real, NumError>)
    ensures r.Ok? <==> IsNumLit(Strip(token))
    ensures r.Ok? ==> r.value == LitValue(Strip(token))
    ensures r.Err? ==> r.error == InvalidNumber(token)
  {
    var t := Strip(token);
    if IsNumLit(t) then Ok(LitValue(t)) else Err(InvalidNumber(token))
  }

  /** An integer printed by `str` is a literal of the grammar and denotes that integer. */
  lemma FmtIntIsLit(i: int)
    ensures IsNumLit(FmtInt(i)) && LitValue(FmtInt(i)) == i as real
  {
    var s := FmtInt(i);
    var n: nat := if i < 0 then -i else i;
    var d := NatDigits(n);
    assert Unsigned(s) == d by {
      if i < 0 { assert s[1..] == d; } else { assert IsDigit(s[0]); }
    }
    assert DotPos(d) == |d| && d[..|d|] == d;
    NatDigitsValue(n);
  }

  /** `parse_number(str(i)) == i`. */
  lemma ParseNumberFmtInt(i: int)
    ensures ParseNumber(FmtInt(i)) == Ok(i as real)
  {
    FmtIntStripped(i);
    FmtIntIsLit(i);
  }

  /** Python's `round(x)`: to the nearest integer, ties to the even one. */
  function RoundHalfEven(x: real): (n: int)
    ensures Abs(x - n as real) <= 0.5
    ensures Abs(x - n as real) == 0.5 ==> n % 2 == 0
  {
    var f := x.Floor;
    var d := x - f as real;
    if d < 0.5 then f else if d > 0.5 then f + 1 else if f % 2 == 0 then f else f + 1
  }

  /** No integer is closer to `x` than `round(x)`. */
  lemma RoundIsNearest(x: real, m: int)
    ensures Abs(x - RoundHalfEven(x) as real) <= Abs(x - m as real)
  {
    var f := x.Floor;
    assert f as real <= x < f as real + 1.0;
    if m <= f {
      assert Abs(x - m as real) >= x - f as real;
    } else {
      assert Abs(x - m as real) >= f as real + 1.0 - x;
    }
  }

  lemma RoundOfInteger(m: int)
    ensures RoundHalfEven(m as real) == m
  {
    assert (m as real).Floor == m;
  }

  /** `is_int_like(x, tol)`. */
  predicate IntLike(x: real, tol: real) {
    Abs(x - RoundHalfEven(x) as real) <= tol
  }

  /** An integer is integer-like under any non-negative tolerance. */
  lemma IntegerIsIntLike(m: int, tol: real)
    requires tol >= 0.0
    ensures IntLike(m as real, tol) && RoundHalfEven(m as real) == m
  {
    RoundOfInteger(m);
  }

  predicate Within(x: real, m: int, tol: real) {
    Abs(x - m as real) <= tol
  }

  /** `x` is integer-like exactly when some integer lies within `tol` of it. */
  lemma IntLikeIff(x: real, tol: real)
    ensures IntLike(x, tol) <==> exists m: int :: Within(x, m, tol)
  {
    if IntLike(x, tol) {
      assert Within(x, RoundHalfEven(x), tol);
    }
    if exists m: int :: Within(x, m, tol) {
      var m: int :| Within(x, m, tol);
      RoundIsNearest(x, m);
    }
  }

  /** The de-duplication key `round(x, 12)`, counted in units of 10^-12. */
  function Key(x: real): int {
    RoundHalfEven(x * KeyScale)
  }

  /** Two values share a key only when they are within 10^-12 of each other. */
  lemma SameKeyClose(x: real, y: real)
    requires Key(x) == Key(y)
    ensures Abs(x - y) <= IntTol
  {
    var k := Key(x) as real;
    assert Abs(x * KeyScale - k) <= 0.5 && Abs(y * KeyScale - k) <= 0.5;
    assert Abs(x * KeyScale - y * KeyScale) <= 1.0;
    assert x * KeyScale - y * KeyScale == (x - y) * KeyScale;
  }

  /** Distinct integers have distinct keys. */
  lemma IntegerKeysDistinct(m: int, n: int)
    requires m != n
    ensures Key(m as real) != Key(n as real)
  {
    RoundOfInteger(m * 1000000000000);
    RoundOfInteger(n * 1000000000000);
    assert (m as real) * KeyScale == (m * 1000000000000) as real;
    assert (n as real) * KeyScale == (n * 1000000000000) as real;
  }
}
