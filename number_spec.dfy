/** `parse_number_set`: split the spec into tokens, expand each token (a range `X-Y`
    or a scalar literal), then keep the first value of every 12-decimal-place key. */
module NumberSpec {
  import opened Wrappers
  import opened Text
  import opened Numbers

  /** A character of the separator class `[,\s]`. */
  predicate IsSep(c: char) {
    c == ',' || IsSpace(c)
  }

  predicate NoSep(s: string) {
    forall i :: 0 <= i < |s| ==> !IsSep(s[i])
  }

  // ---------------------------------------------------------------- tokens

  /** The tokens of `s`, continuing a token `cur` that has been read so far. */
  function TokensFrom(s: string, cur: string): seq<string>
    decreases |s|
  {
    if s == [] then (if cur == [] then [] else [cur])
    else if IsSep(s[0]) then (if cur == [] then [] else [cur]) + TokensFrom(s[1..], [])
    else TokensFrom(s[1..], cur + [s[0]])
  }

  /** `[t for t in re.split(r"[,\s]+", s) if t.strip()]`: the maximal runs of non-separators. */
  function Tokens(s: string): seq<string> {
    TokensFrom(s, [])
  }

  function Flatten(ts: seq<string>): string {
    if ts == [] then [] else ts[0] + Flatten(ts[1..])
  }

  /** The characters of `s` that are not separators, in order. */
  function NonSep(s: string): string {
    if s == [] then [] else (if IsSep(s[0]) then [] else [s[0]]) + NonSep(s[1..])
  }

  lemma {:induction false} TokensFromShape(s: string, cur: string)
    requires NoSep(cur)
    ensures forall i :: 0 <= i < |TokensFrom(s, cur)| ==> TokensFrom(s, cur)[i] != [] && NoSep(TokensFrom(s, cur)[i])
    ensures Flatten(TokensFrom(s, cur)) == cur + NonSep(s)
    decreases |s|
  {
    if s == [] {
    } else if IsSep(s[0]) {
      TokensFromShape(s[1..], []);
      var rest := TokensFrom(s[1..], []);
      assert NonSep(s) == NonSep(s[1..]);
      if cur != [] {
        assert TokensFrom(s, cur) == [cur] + rest;
        assert ([cur] + rest)[1..] == rest;
        assert Flatten([cur] + rest) == cur + Flatten(rest);
      } else {
        assert TokensFrom(s, cur) == [] + rest == rest;
      }
    } else {
      TokensFromShape(s[1..], cur + [s[0]]);
      assert cur + [s[0]] + NonSep(s[1..]) == cur + ([s[0]] + NonSep(s[1..]));
    }
  }

  /** Every token is non-empty and separator-free, and together the tokens hold
      exactly the non-separator characters of `s`, in order. */
  lemma TokensShape(s: string)
    ensures forall i :: 0 <= i < |Tokens(s)| ==> Tokens(s)[i] != [] && NoSep(Tokens(s)[i])
    ensures Flatten(Tokens(s)) == NonSep(s)
  {
    TokensFromShape(s, []);
  }

  lemma {:induction false} NonSepEmpty(s: string)
    ensures NonSep(s) == [] <==> forall i :: 0 <= i < |s| ==> IsSep(s[i])
  {
    if s != [] {
      NonSepEmpty(s[1..]);
      assert forall i :: 1 <= i < |s| ==> s[i] == s[1..][i - 1];
    }
  }

  lemma {:induction false} FlattenEmpty(ts: seq<string>)
    requires forall i :: 0 <= i < |ts| ==> ts[i] != []
    ensures Flatten(ts) == [] <==> ts == []
  {
    if ts != [] { assert |Flatten(ts)| >= |ts[0]|; }
  }

  /** There are no tokens exactly when every character is a separator. */
  lemma TokensEmptyIff(s: string)
    ensures Tokens(s) == [] <==> forall i :: 0 <= i < |s| ==> IsSep(s[i])
  {
    TokensShape(s);
    FlattenEmpty(Tokens(s));
    NonSepEmpty(s);
  }

  lemma NoSepStripped(t: string)
    requires NoSep(t)
    ensures Strip(t) == t
  {
    if t != [] {
      assert !IsSpace(t[0]) && !IsSpace(t[|t| - 1]);
    }
  }

  /** A separator-free word is its own single token. */
  lemma {:induction false} SingleToken(t: string, cur: string)
    requires NoSep(t) && cur + t != []
    ensures TokensFrom(t, cur) == [cur + t]
    decreases |t|
  {
    if t == [] {
      assert cur + t == cur;
    } else {
      assert !IsSep(t[0]);
      assert NoSep(t[1..]);
      assert (cur + [t[0]]) + t[1..] == cur + t;
      SingleToken(t[1..], cur + [t[0]]);
    }
  }

  /** A separator ends the token being read; what follows is tokenized afresh. */
  lemma {:induction false} TokensFromSplit(u: string, c: char, v: string, cur: string)
    requires IsSep(c)
    ensures TokensFrom(u + [c] + v, cur) == TokensFrom(u, cur) + TokensFrom(v, [])
    decreases |u|
  {
    var s := u + [c] + v;
    if u == [] {
      assert s[0] == c && s[1..] == v;
    } else {
      assert s[0] == u[0];
      assert s[1..] == u[1..] + [c] + v;
      if IsSep(u[0]) {
        TokensFromSplit(u[1..], c, v, []);
      } else {
        TokensFromSplit(u[1..], c, v, cur + [u[0]]);
      }
    }
  }

  /** Every separator is a token boundary: `"1 2"` splits into `"1"` and `"2"`, never `"12"`. */
  lemma TokensSplit(u: string, c: char, v: string)
    requires IsSep(c)
    ensures Tokens(u + [c] + v) == Tokens(u) + Tokens(v)
  {
    TokensFromSplit(u, c, v, []);
  }

  // ---------------------------------------------------------------- ranges

  /** `X-Y` splits at index `k` into two literals of the grammar. */
  predicate RangeAt(tok: string, k: int) {
    0 < k < |tok| && tok[k] == '-' && IsNumLit(tok[..k]) && IsNumLit(tok[k + 1..])
  }

  /** `RANGE_RE.match(tok)` for a token, which holds no whitespace. */
  ghost predicate MatchesRangeRe(tok: string) {
    exists k :: RangeAt(tok, k)
  }

  /** The two endpoints of a range token: the split is at the first '-' after the first character. */
  function RangeParts(tok: string): Option<(string, string)> {
    if |tok| < 2 || '-' !in tok[1..] then None
    else
      var k := 1 + IndexOf(tok[1..], '-');
      if IsNumLit(tok[..k]) && IsNumLit(tok[k + 1..]) then Some((tok[..k], tok[k + 1..])) else None
  }

  /** `RangeParts` finds a split exactly when the token matches `RANGE_RE`, and the split is unique. */
  lemma RangePartsIff(tok: string)
    ensures RangeParts(tok).Some? <==> MatchesRangeRe(tok)
    ensures forall k :: RangeAt(tok, k) ==> RangeParts(tok) == Some((tok[..k], tok[k + 1..]))
  {
    if RangeParts(tok).Some? {
      assert RangeAt(tok, 1 + IndexOf(tok[1..], '-'));
    }
    forall k | RangeAt(tok, k) ensures RangeParts(tok) == Some((tok[..k], tok[k + 1..])) {
      RangeSplitUnique(tok, k);
    }
  }

  lemma RangeSplitUnique(tok: string, k: int)
    requires RangeAt(tok, k)
    ensures RangeParts(tok) == Some((tok[..k], tok[k + 1..]))
  {
    assert tok[1..][k - 1] == '-';
    var m := 1 + IndexOf(tok[1..], '-');
    assert tok[m] == '-';
    if m < k {
      NumLitNoInnerMinus(tok[..k], m);
    }
  }

  /** `[float(i) for i in range(lo, hi + step, step)]` with `step = 1 if hi >= lo else -1`. */
  function RangeValues(lo: int, hi: int): (r: seq<real>)
    ensures |r| == (if hi >= lo then hi - lo else lo - hi) + 1
    ensures forall i :: 0 <= i < |r| ==> r[i] == (if hi >= lo then lo + i else lo - i) as real
  {
    var n := (if hi >= lo then hi - lo else lo - hi) + 1;
    seq(n, i requires 0 <= i < n => (if hi >= lo then lo + i else lo - i) as real)
  }

  /** A range runs from `lo` to `hi` by steps of +1 (ascending) or -1 (descending)
      and holds exactly the integers between its endpoints. */
  lemma RangeValuesMeaning(lo: int, hi: int)
    ensures RangeValues(lo, hi)[0] == lo as real
    ensures RangeValues(lo, hi)[|RangeValues(lo, hi)| - 1] == hi as real
    ensures forall i :: 0 <= i < |RangeValues(lo, hi)| - 1 ==>
      RangeValues(lo, hi)[i + 1] == RangeValues(lo, hi)[i] + (if hi >= lo then 1.0 else -1.0)
    ensures forall x: real :: x in RangeValues(lo, hi) <==>
      (x == x.Floor as real && (lo <= x.Floor <= hi || hi <= x.Floor <= lo))
  {
    var r := RangeValues(lo, hi);
    forall x: real | x == x.Floor as real && (lo <= x.Floor <= hi || hi <= x.Floor <= lo) ensures x in r {
      var m := x.Floor;
      var i := if hi >= lo then m - lo else lo - m;
      assert r[i] == m as real;
    }
  }

  /** The values of a range have pairwise distinct keys, so de-duplication keeps all of them. */
  lemma RangeKeysDistinct(lo: int, hi: int)
    ensures forall i, j :: 0 <= i < j < |RangeValues(lo, hi)| ==>
      Key(RangeValues(lo, hi)[i]) != Key(RangeValues(lo, hi)[j])
  {
    var r := RangeValues(lo, hi);
    forall i, j | 0 <= i < j < |r| ensures Key(r[i]) != Key(r[j]) {
      var m := if hi >= lo then lo + i else lo - i;
      var n := if hi >= lo then lo + j else lo - j;
      IntegerKeysDistinct(m, n);
    }
  }

  // ---------------------------------------------------------------- expansion

  /** One token of the spec: a range with integer-like endpoints, or a scalar literal. */
  function ExpandToken(tok: string): Result<seq<real>, NumError> {
    match RangeParts(tok)
    case Some((x, y)) =>
      var a := LitValue(x);
      var b := LitValue(y);
      if !(IntLike(a, IntTol) && IntLike(b, IntTol)) then Err(RangeNeedsIntegers(tok))
      else Ok(RangeValues(RoundHalfEven(a), RoundHalfEven(b)))
    case None =>
      match ParseNumber(tok)
      case Ok(v) => Ok([v])
      case Err(e) => Err(e)
  }

  /** A range token with integer-like endpoints expands to the integers between them;
      with another endpoint it is refused. */
  lemma ExpandRangeToken(tok: string, k: int)
    requires RangeAt(tok, k)
    ensures var a, b := LitValue(tok[..k]), LitValue(tok[k + 1..]);
      ExpandToken(tok) ==
        if IntLike(a, IntTol) && IntLike(b, IntTol)
        then Ok(RangeValues(RoundHalfEven(a), RoundHalfEven(b)))
        else Err(RangeNeedsIntegers(tok))
  {
    RangeSplitUnique(tok, k);
  }

  /** A separator-free token that is not a range is a scalar literal or is refused. */
  lemma ExpandScalarToken(tok: string)
    requires NoSep(tok) && !MatchesRangeRe(tok)
    ensures ExpandToken(tok) == if IsNumLit(tok) then Ok([LitValue(tok)]) else Err(InvalidNumber(tok))
  {
    RangePartsIff(tok);
    NoSepStripped(tok);
  }

  /** What a token splitting at `k` as `X-Y` gives: the integers between its endpoints when both
      are integer-like, otherwise the range error. */
  function RangeOutcome(tok: string, k: int): Result<seq<real>, NumError>
    requires RangeAt(tok, k)
  {
    var a, b := LitValue(tok[..k]), LitValue(tok[k + 1..]);
    if IntLike(a, IntTol) && IntLike(b, IntTol)
    then Ok(RangeValues(RoundHalfEven(a), RoundHalfEven(b)))
    else Err(RangeNeedsIntegers(tok))
  }

  /** What a token that is not a range gives: its one value, or the invalid-number error. */
  function ScalarOutcome(tok: string): Result<seq<real>, NumError> {
    if IsNumLit(Strip(tok)) then Ok([LitValue(Strip(tok))]) else Err(InvalidNumber(tok))
  }

  /** The range and scalar cases decide a token's expansion completely. */
  lemma ExpansionDetermined(tok: string, r: Result<seq<real>, NumError>)
    requires forall k :: RangeAt(tok, k) ==> r == RangeOutcome(tok, k)
    requires !MatchesRangeRe(tok) ==> r == ScalarOutcome(tok)
    ensures r == ExpandToken(tok)
  {
    RangePartsIff(tok);
    if MatchesRangeRe(tok) {
      var k :| RangeAt(tok, k);
      ExpandRangeToken(tok, k);
    }
  }

  /** The expansion of every token, concatenated; the first failing token's error otherwise. */
  function ExpandAll(ts: seq<string>): Result<seq<real>, NumError> {
    if ts == [] then Ok([])
    else
      match ExpandToken(ts[0])
      case Err(e) => Err(e)
      case Ok(vs) => Prepend(vs, ExpandAll(ts[1..]))
  }

  function Prepend(vs: seq<real>, r: Result<seq<real>, NumError>): Result<seq<real>, NumError> {
    match r
    case Ok(ws) => Ok(vs + ws)
    case Err(e) => Err(e)
  }

  /** Token `i` is the first to fail, and it fails with `e`. */
  predicate FirstFailure(ts: seq<string>, i: int, e: NumError) {
    0 <= i < |ts| && ExpandToken(ts[i]) == Err(e) && forall j :: 0 <= j < i ==> ExpandToken(ts[j]).Ok?
  }

  /** The token loop raises exactly the error of the first token that fails. */
  lemma ExpandAllError(ts: seq<string>, e: NumError)
    ensures ExpandAll(ts) == Err(e) <==> exists i :: FirstFailure(ts, i, e)
  {
    var rs := TokenResults(ts);
    ExpandAllCollect(ts);
    if ExpandAll(ts) == Err(e) {
      var i := FailureIndex(rs, e);
      assert FirstFailure(ts, i, e);
    }
    if exists i :: FirstFailure(ts, i, e) {
      var i :| FirstFailure(ts, i, e);
      assert FirstErr(rs, i, e);
      FailureStops(rs, i, e);
    }
  }

  /** The outcome of each token on its own. */
  function TokenResults(ts: seq<string>): (rs: seq<Result<seq<real>, NumError>>)
    ensures |rs| == |ts| && forall i :: 0 <= i < |ts| ==> rs[i] == ExpandToken(ts[i])
  {
    seq(|ts|, i requires 0 <= i < |ts| => ExpandToken(ts[i]))
  }

  /** The token loop over already computed outcomes. */
  function Collect(rs: seq<Result<seq<real>, NumError>>): Result<seq<real>, NumError> {
    if rs == [] then Ok([])
    else
      match rs[0]
      case Err(e) => Err(e)
      case Ok(vs) => Prepend(vs, Collect(rs[1..]))
  }

  lemma {:induction false} ExpandAllCollect(ts: seq<string>)
    ensures ExpandAll(ts) == Collect(TokenResults(ts))
  {
    if ts != [] {
      ExpandAllCollect(ts[1..]);
      assert TokenResults(ts)[1..] == TokenResults(ts[1..]);
    }
  }

  /** Outcome `i` is the first error, and it is `e`. */
  predicate FirstErr(rs: seq<Result<seq<real>, NumError>>, i: int, e: NumError) {
    0 <= i < |rs| && rs[i] == Err(e) && forall j :: 0 <= j < i ==> rs[j].Ok?
  }

  /** A failed collection has a first error. */
  lemma {:induction false} FailureIndex(rs: seq<Result<seq<real>, NumError>>, e: NumError) returns (i: int)
    requires Collect(rs) == Err(e)
    ensures FirstErr(rs, i, e)
  {
    if rs[0].Err? {
      i := 0;
    } else {
      var k := FailureIndex(rs[1..], e);
      i := k + 1;
      forall j | 1 <= j < i ensures rs[j].Ok? {
        assert rs[j] == rs[1..][j - 1];
      }
    }
  }

  /** The first error is the collection's. */
  lemma {:induction false} FailureStops(rs: seq<Result<seq<real>, NumError>>, i: int, e: NumError)
    requires FirstErr(rs, i, e)
    ensures Collect(rs) == Err(e)
  {
    if i > 0 {
      assert FirstErr(rs[1..], i - 1, e) by {
        forall j | 0 <= j < i - 1 ensures rs[1..][j].Ok? { assert rs[1..][j] == rs[j + 1]; }
      }
      FailureStops(rs[1..], i - 1, e);
    }
  }

  /** Each token contributes at least one value, so no tokens is the only way to no values. */
  lemma {:induction false} ExpandAllEmpty(ts: seq<string>)
    requires ExpandAll(ts).Ok?
    ensures ExpandAll(ts).value == [] <==> ts == []
  {
    if ts != [] {
      var vs := ExpandToken(ts[0]).value;
      assert |vs| > 0;
    }
  }

  // ---------------------------------------------------------------- de-duplication

  /** The keys of the values in `xs`. */
  function KeySet(xs: seq<real>): (r: set<int>)
    ensures forall i :: 0 <= i < |xs| ==> Key(xs[i]) in r
  {
    if xs == [] then {} else KeySet(xs[..|xs| - 1]) + {Key(xs[|xs| - 1])}
  }

  lemma {:induction false} KeySetHasWitness(xs: seq<real>, k: int)
    requires k in KeySet(xs)
    ensures exists i :: 0 <= i < |xs| && Key(xs[i]) == k
  {
    if Key(xs[|xs| - 1]) != k {
      KeySetHasWitness(xs[..|xs| - 1], k);
      var i :| 0 <= i < |xs| - 1 && Key(xs[..|xs| - 1][i]) == k;
      assert xs[i] == xs[..|xs| - 1][i];
    }
  }

  /** The index of the first value in `xs` with key `k`. */
  function FirstIndex(xs: seq<real>, k: int): (i: nat)
    requires k in KeySet(xs)
    ensures i < |xs| && Key(xs[i]) == k
    ensures forall j :: 0 <= j < i ==> Key(xs[j]) != k
  {
    var init := xs[..|xs| - 1];
    if k in KeySet(init) then
      var i := FirstIndex(init, k);
      assert forall j :: 0 <= j < i ==> xs[j] == init[j];
      i
    else
      assert forall j :: 0 <= j < |init| ==> xs[j] == init[j];
      |xs| - 1
  }

  /** The stable-unique loop: a value is kept when its key has not been seen before. */
  function Dedup(xs: seq<real>): seq<real> {
    if xs == [] then []
    else
      var init := xs[..|xs| - 1];
      var x := xs[|xs| - 1];
      if Key(x) in KeySet(init) then Dedup(init) else Dedup(init) + [x]
  }

  /** What de-duplication promises: distinct keys, values taken from the input, every key
      of the input represented, and each kept value the first with its key, in the order
      of those first occurrences. */
  ghost predicate UniqueByKey(xs: seq<real>, u: seq<real>) {
    && (forall i, j :: 0 <= i < j < |u| ==> Key(u[i]) != Key(u[j]))
    && (forall y :: y in u ==> y in xs)
    && KeySet(u) == KeySet(xs)
    && (forall k :: 0 <= k < |u| ==> Key(u[k]) in KeySet(xs) && u[k] == xs[FirstIndex(xs, Key(u[k]))])
    && (forall k, l :: 0 <= k < l < |u| ==> FirstIndex(xs, Key(u[k])) < FirstIndex(xs, Key(u[l])))
  }

  lemma DedupUnique(xs: seq<real>)
    ensures UniqueByKey(xs, Dedup(xs))
  {
    DedupKeysDistinct(xs);
    DedupFromInput(xs);
    DedupKeySet(xs);
    DedupFirstOccurrences(xs);
  }

  lemma {:induction false} DedupKeySet(xs: seq<real>)
    ensures KeySet(Dedup(xs)) == KeySet(xs)
  {
    if xs != [] {
      var init := xs[..|xs| - 1];
      var x := xs[|xs| - 1];
      DedupKeySet(init);
      if Key(x) !in KeySet(init) {
        var u := Dedup(init) + [x];
        assert u[..|u| - 1] == Dedup(init);
      }
    }
  }

  lemma {:induction false} DedupFromInput(xs: seq<real>)
    ensures forall y :: y in Dedup(xs) ==> y in xs
  {
    if xs != [] {
      var init := xs[..|xs| - 1];
      DedupFromInput(init);
      assert forall y :: y in init ==> y in xs;
    }
  }

  lemma {:induction false} DedupKeysDistinct(xs: seq<real>)
    ensures forall i, j :: 0 <= i < j < |Dedup(xs)| ==> Key(Dedup(xs)[i]) != Key(Dedup(xs)[j])
  {
    if xs != [] {
      var init := xs[..|xs| - 1];
      var x := xs[|xs| - 1];
      DedupKeysDistinct(init);
      if Key(x) !in KeySet(init) {
        DedupKeySet(init);
        var d := Dedup(init);
        var u := d + [x];
        forall i, j | 0 <= i < j < |u| ensures Key(u[i]) != Key(u[j]) {
          if j == |u| - 1 { assert Key(d[i]) in KeySet(d); }
        }
      }
    }
  }

  lemma {:induction false} DedupFirstOccurrences(xs: seq<real>)
    ensures forall k :: 0 <= k < |Dedup(xs)| ==>
      Key(Dedup(xs)[k]) in KeySet(xs) && Dedup(xs)[k] == xs[FirstIndex(xs, Key(Dedup(xs)[k]))]
    ensures forall k, l :: 0 <= k < l < |Dedup(xs)| ==>
      FirstIndex(xs, Key(Dedup(xs)[k])) < FirstIndex(xs, Key(Dedup(xs)[l]))
  {
    if xs != [] {
      var init := xs[..|xs| - 1];
      var x := xs[|xs| - 1];
      DedupFirstOccurrences(init);
      var d := Dedup(init);
      assert forall i :: 0 <= i < |init| ==> xs[i] == init[i];
      forall k | 0 <= k < |d|
        ensures Key(d[k]) in KeySet(init) && FirstIndex(xs, Key(d[k])) == FirstIndex(init, Key(d[k]))
      {
        assert Key(d[k]) in KeySet(init);
        FirstIndexExtend(xs, Key(d[k]));
      }
      if Key(x) !in KeySet(init) {
        var u := d + [x];
        assert FirstIndex(xs, Key(x)) == |xs| - 1;
        forall k | 0 <= k < |u| ensures Key(u[k]) in KeySet(xs) && u[k] == xs[FirstIndex(xs, Key(u[k]))] {
          if k < |d| { assert u[k] == d[k]; }
        }
        forall k, l | 0 <= k < l < |u| ensures FirstIndex(xs, Key(u[k])) < FirstIndex(xs, Key(u[l])) {
          assert u[k] == d[k];
          if l < |d| { assert u[l] == d[l]; }
        }
      }
    }
  }

  /** Extending the input by a value whose key is new changes nothing for the old keys. */
  lemma FirstIndexExtend(xs: seq<real>, k: int)
    requires |xs| > 0 && k in KeySet(xs[..|xs| - 1])
    ensures FirstIndex(xs, k) == FirstIndex(xs[..|xs| - 1], k)
  {
  }

  /** De-duplication is the only sequence with those properties. */
  lemma {:induction false} UniqueByKeyIsDedup(xs: seq<real>, u: seq<real>)
    requires UniqueByKey(xs, u)
    ensures u == Dedup(xs)
  {
    if xs == [] {
    } else {
      var init := xs[..|xs| - 1];
      var x := xs[|xs| - 1];
      assert forall i :: 0 <= i < |init| ==> xs[i] == init[i];
      if Key(x) in KeySet(init) {
        UniqueByKeyDropRepeat(xs, u);
        UniqueByKeyIsDedup(init, u);
      } else {
        UniqueByKeyDropLast(xs, u);
        UniqueByKeyIsDedup(init, u[..|u| - 1]);
        assert u == u[..|u| - 1] + [x];
      }
    }
  }

  /** When the last input value repeats a key, the kept values are a de-duplication of the shorter input. */
  lemma UniqueByKeyDropRepeat(xs: seq<real>, u: seq<real>)
    requires |xs| > 0 && UniqueByKey(xs, u)
    requires Key(xs[|xs| - 1]) in KeySet(xs[..|xs| - 1])
    ensures UniqueByKey(xs[..|xs| - 1], u)
  {
    var init := xs[..|xs| - 1];
    assert forall i :: 0 <= i < |init| ==> xs[i] == init[i];
    assert KeySet(xs) == KeySet(init);
    forall k | 0 <= k < |u| ensures Key(u[k]) in KeySet(init) && u[k] == init[FirstIndex(init, Key(u[k]))] {
      FirstIndexExtend(xs, Key(u[k]));
    }
    forall y | y in u ensures y in init {
      var k :| 0 <= k < |u| && u[k] == y;
      FirstIndexExtend(xs, Key(u[k]));
    }
    forall k, l | 0 <= k < l < |u| ensures FirstIndex(init, Key(u[k])) < FirstIndex(init, Key(u[l])) {
      FirstIndexExtend(xs, Key(u[k]));
      FirstIndexExtend(xs, Key(u[l]));
    }
  }

  /** When the last input value brings a new key, it is the last kept value, and the rest
      is a de-duplication of the shorter input. */
  lemma UniqueByKeyDropLast(xs: seq<real>, u: seq<real>)
    requires |xs| > 0 && UniqueByKey(xs, u)
    requires Key(xs[|xs| - 1]) !in KeySet(xs[..|xs| - 1])
    ensures |u| > 0 && u[|u| - 1] == xs[|xs| - 1]
    ensures UniqueByKey(xs[..|xs| - 1], u[..|u| - 1])
  {
    NewKeyIsLast(xs, u);
    DropLastFirstIndex(xs, u);
    var init := xs[..|xs| - 1];
    var x := xs[|xs| - 1];
    var v := u[..|u| - 1];
    assert u == v + [x];
    assert forall y :: y in v ==> y in init;
    assert KeySet(v) == KeySet(init) by {
      assert KeySet(u) == KeySet(v) + {Key(x)};
      forall k | k in KeySet(v) ensures k != Key(x) {
        KeySetHasWitness(v, k);
      }
    }
  }

  lemma DropLastFirstIndex(xs: seq<real>, u: seq<real>)
    requires |xs| > 0 && |u| > 0 && UniqueByKey(xs, u) && u[|u| - 1] == xs[|xs| - 1]
    requires Key(xs[|xs| - 1]) !in KeySet(xs[..|xs| - 1])
    ensures forall k :: 0 <= k < |u| - 1 ==>
      Key(u[k]) in KeySet(xs[..|xs| - 1])
      && FirstIndex(xs, Key(u[k])) == FirstIndex(xs[..|xs| - 1], Key(u[k]))
      && u[k] == xs[..|xs| - 1][FirstIndex(xs[..|xs| - 1], Key(u[k]))]
  {
    var init := xs[..|xs| - 1];
    var x := xs[|xs| - 1];
    forall k | 0 <= k < |u| - 1
      ensures Key(u[k]) in KeySet(init) && FirstIndex(xs, Key(u[k])) == FirstIndex(init, Key(u[k]))
      ensures u[k] == init[FirstIndex(init, Key(u[k]))]
    {
      assert Key(u[k]) != Key(x);
      var f := FirstIndex(xs, Key(u[k]));
      assert f < |xs| - 1;
      assert init[f] == xs[f];
      FirstIndexExtend(xs, Key(u[k]));
    }
  }

  lemma NewKeyIsLast(xs: seq<real>, u: seq<real>)
    requires |xs| > 0 && UniqueByKey(xs, u)
    requires Key(xs[|xs| - 1]) !in KeySet(xs[..|xs| - 1])
    ensures |u| > 0 && u[|u| - 1] == xs[|xs| - 1]
  {
    var x := xs[|xs| - 1];
    assert Key(x) in KeySet(u);
    KeySetHasWitness(u, Key(x));
    var m :| 0 <= m < |u| && Key(u[m]) == Key(x);
    assert FirstIndex(xs, Key(x)) == |xs| - 1;
  }

  // ---------------------------------------------------------------- the whole parse

  /** `parse_number_set(spec)`. */
  function NumberSet(spec: string): (r: Result<seq<real>, NumError>)
    ensures r.Ok? ==> |r.value| > 0
  {
    var t := Strip(spec);
    if t == [] then Err(EmptySpec)
    else
      match ExpandAll(Tokens(t))
      case Err(e) => Err(e)
      case Ok(out) =>
        var u := Dedup(out);
        if u == [] then Err(NoValidNumbers) else Ok(u)
  }

  /** `parse_number_set(spec)`, as the source computes it: strip, tokenize, expand the
      tokens in order, then keep the first value of each key. */
  method ParseNumberSet(spec: string) returns (r: Result<seq<real>, NumError>)
    ensures r == NumberSet(spec)
  {
    var t := Strip(spec);
    if t == [] {
      return Err(EmptySpec);
    }
    var expanded := ExpandTokens(Tokens(t));
    if expanded.Err? {
      return Err(expanded.error);
    }
    var uniq := StableUnique(expanded.value);
    if uniq == [] {
      return Err(NoValidNumbers);
    }
    return Ok(uniq);
  }

  /** The token loop of `parse_number_set`: each token's values are appended to `out` in
      turn, and the first token that fails ends the parse with its error. */
  method ExpandTokens(tokens: seq<string>) returns (r: Result<seq<real>, NumError>)
    ensures r == ExpandAll(tokens)
  {
    var out: seq<real> := [];
    assert tokens[0..] == tokens;
    PrependEmpty(ExpandAll(tokens));
    for i := 0 to |tokens|
      invariant ExpandAll(tokens) == Prepend(out, ExpandAll(tokens[i..]))
    {
      assert tokens[i..][1..] == tokens[i + 1..];
      var tok := tokens[i];
      ghost var rest := ExpandAll(tokens[i + 1..]);
      assert ExpandAll(tokens[i..]) == if ExpandToken(tok).Err? then ExpandToken(tok) else Prepend(ExpandToken(tok).value, rest);
      var vs := ExpandOne(tok);
      ExpansionDetermined(tok, vs);
      if vs.Err? {
        return Err(vs.error);
      }
      PrependAssoc(out, vs.value, rest);
      out := out + vs.value;
    }
    assert tokens[|tokens|..] == [];
    assert out + [] == out;
    return Ok(out);
  }

  /** One pass of the token loop: a token matching the range pattern needs integer-like
      endpoints and gives the integers between them; any other token is one number. */
  method ExpandOne(tok: string) returns (r: Result<seq<real>, NumError>)
    ensures forall k :: RangeAt(tok, k) ==> r == RangeOutcome(tok, k)
    ensures !MatchesRangeRe(tok) ==> r == ScalarOutcome(tok)
  {
    RangePartsIff(tok);
    match RangeParts(tok) {
      case Some((x, y)) =>
        var a := LitValue(x);
        var b := LitValue(y);
        if !(IntLike(a, IntTol) && IntLike(b, IntTol)) {
          return Err(RangeNeedsIntegers(tok));
        }
        var ai, bi := RoundHalfEven(a), RoundHalfEven(b);
        return Ok(RangeValues(ai, bi));
      case None =>
        var v := ParseNumber(tok);
        if v.Err? {
          return Err(v.error);
        }
        return Ok([v.value]);
    }
  }

  /** The stable-unique loop of `parse_number_set`: a value is kept when its key
      `round(x, 12)` is not yet in `seen`. */
  method StableUnique(out: seq<real>) returns (uniq: seq<real>)
    ensures uniq == Dedup(out)
  {
    var seen: set<int> := {};
    uniq := [];
    for i := 0 to |out|
      invariant seen == KeySet(out[..i])
      invariant uniq == Dedup(out[..i])
    {
      assert out[..i + 1][..i] == out[..i];
      var key := Key(out[i]);
      if key in seen {
        continue;
      }
      seen := seen + {key};
      uniq := uniq + [out[i]];
    }
    assert out[..|out|] == out;
  }

  lemma PrependEmpty(r: Result<seq<real>, NumError>)
    ensures Prepend([], r) == r
  {
    if r.Ok? { assert [] + r.value == r.value; }
  }

  lemma PrependAssoc(out: seq<real>, vs: seq<real>, r: Result<seq<real>, NumError>)
    ensures Prepend(out, Prepend(vs, r)) == Prepend(out + vs, r)
  {
    if r.Ok? { assert out + (vs + r.value) == out + vs + r.value; }
  }

  // ---------------------------------------------------------------- properties of the parse

  /** An empty or whitespace-only spec is refused. */
  lemma BlankSpecRefused(spec: string)
    requires AllSpace(spec)
    ensures NumberSet(spec) == Err(EmptySpec)
  {
    StripEmptyIff(spec);
  }

  /** "No valid numbers parsed." is raised exactly for a spec that is not blank but
      consists of separators only (it holds a comma and no token). */
  lemma NoValidNumbersIff(spec: string)
    ensures NumberSet(spec) == Err(NoValidNumbers) <==>
      Strip(spec) != [] && forall i :: 0 <= i < |spec| ==> IsSep(spec[i])
  {
    var t := Strip(spec);
    TokensEmptyIff(t);
    SepOnlyStrip(spec);
    var e := ExpandAll(Tokens(t));
    if e.Ok? {
      ExpandAllEmpty(Tokens(t));
      DedupEmpty(e.value);
    } else {
      ExpandAllErrorKind(Tokens(t));
      assert Tokens(t) != [];
    }
  }

  /** Expanding tokens fails only with the errors of a single token. */
  lemma {:induction false} ExpandAllErrorKind(ts: seq<string>)
    requires ExpandAll(ts).Err?
    ensures ExpandAll(ts).error.InvalidNumber? || ExpandAll(ts).error.RangeNeedsIntegers?
  {
    if ExpandToken(ts[0]).Ok? {
      ExpandAllErrorKind(ts[1..]);
    }
  }

  /** A spec is separators only exactly when its stripped form is. */
  lemma SepOnlyStrip(spec: string)
    ensures (forall i :: 0 <= i < |spec| ==> IsSep(spec[i])) <==> (forall i :: 0 <= i < |Strip(spec)| ==> IsSep(Strip(spec)[i]))
  {
    SepOnlyAround(spec, |spec| - |TrimLeft(spec)|, Strip(spec));
  }

  /** Whitespace around `t` counts as separators. */
  lemma SepOnlyAround(s: string, i0: int, t: string)
    requires StrippedAt(s, i0, t)
    ensures (forall i :: 0 <= i < |s| ==> IsSep(s[i])) <==> (forall i :: 0 <= i < |t| ==> IsSep(t[i]))
  {
    if forall i :: 0 <= i < |t| ==> IsSep(t[i]) {
      forall i | 0 <= i < |s| ensures IsSep(s[i]) {
        if i0 <= i < i0 + |t| { assert s[i] == t[i - i0]; }
      }
    }
    if forall i :: 0 <= i < |s| ==> IsSep(s[i]) {
      forall i | 0 <= i < |t| ensures IsSep(t[i]) {
        assert t[i] == s[i0 + i];
      }
    }
  }

  /** De-duplication drops values but never all of them. */
  lemma {:induction false} DedupEmpty(xs: seq<real>)
    ensures Dedup(xs) == [] <==> xs == []
  {
    if xs != [] {
      var init := xs[..|xs| - 1];
      DedupEmpty(init);
      if Key(xs[|xs| - 1]) in KeySet(init) {
        assert init != [];
      }
    }
  }

  lemma ExpandAllSingle(tok: string)
    ensures ExpandAll([tok]) == ExpandToken(tok)
  {
    assert [tok][1..] == [];
    if ExpandToken(tok).Ok? {
      assert ExpandToken(tok).value + [] == ExpandToken(tok).value;
    }
  }

  /** A successful parse is non-empty and is the de-duplication of the expanded tokens. */
  lemma NumberSetResult(spec: string)
    requires NumberSet(spec).Ok?
    ensures var e := ExpandAll(Tokens(Strip(spec)));
      e.Ok? && |NumberSet(spec).value| > 0 && UniqueByKey(e.value, NumberSet(spec).value)
  {
    DedupUnique(ExpandAll(Tokens(Strip(spec))).value);
  }

  /** A spec that is a single range token with integer-like endpoints parses to the whole range. */
  lemma SingleRange(spec: string, k: int)
    requires Tokens(Strip(spec)) == [Strip(spec)] && RangeAt(Strip(spec), k)
    requires IntLike(LitValue(Strip(spec)[..k]), IntTol) && IntLike(LitValue(Strip(spec)[k + 1..]), IntTol)
    ensures NumberSet(spec) ==
      Ok(RangeValues(RoundHalfEven(LitValue(Strip(spec)[..k])), RoundHalfEven(LitValue(Strip(spec)[k + 1..]))))
  {
    var t := Strip(spec);
    TokensShape(t);
    ExpandRangeToken(t, k);
    var r := RangeValues(RoundHalfEven(LitValue(t[..k])), RoundHalfEven(LitValue(t[k + 1..])));
    ExpandAllSingle(t);
    RangeKeysDistinct(RoundHalfEven(LitValue(t[..k])), RoundHalfEven(LitValue(t[k + 1..])));
    DistinctKeysKept(r);
  }

  /** A sequence whose keys are pairwise distinct is its own de-duplication. */
  lemma DistinctKeysKept(xs: seq<real>)
    requires forall i, j :: 0 <= i < j < |xs| ==> Key(xs[i]) != Key(xs[j])
    ensures Dedup(xs) == xs
  {
    var u := xs;
    forall k | 0 <= k < |u| ensures FirstIndex(xs, Key(u[k])) == k {
    }
    assert KeySet(u) == KeySet(xs);
    UniqueByKeyIsDedup(xs, u);
  }


  /** The text `str(i)` holds no separator. */
  lemma FmtIntNoSep(i: int)
    ensures NoSep(FmtInt(i))
    ensures IsDigit(FmtInt(i)[|FmtInt(i)| - 1]) && (IsDigit(FmtInt(i)[0]) || FmtInt(i)[0] == '-')
  {
    var n: nat := if i < 0 then -i else i;
    var d := NatDigits(n);
    assert forall j :: 0 <= j < |d| ==> IsDigit(d[j]);
    if i < 0 {
      assert FmtInt(i) == "-" + d;
      assert forall j :: 1 <= j < |FmtInt(i)| ==> FmtInt(i)[j] == d[j - 1];
    }
  }

  lemma RangeTextShape(lo: int, hi: int)
    ensures var s := FmtInt(lo) + "-" + FmtInt(hi);
      Strip(s) == s && Tokens(s) == [s] && RangeAt(s, |FmtInt(lo)|)
      && s[..|FmtInt(lo)|] == FmtInt(lo) && s[|FmtInt(lo)| + 1..] == FmtInt(hi)
  {
    var s := FmtInt(lo) + "-" + FmtInt(hi);
    var k := |FmtInt(lo)|;
    FmtIntNoSep(lo);
    FmtIntNoSep(hi);
    assert s[..k] == FmtInt(lo) && s[k + 1..] == FmtInt(hi) && s[k] == '-';
    assert NoSep(s) by {
      forall j | 0 <= j < |s| ensures !IsSep(s[j]) {
        if j < k { assert s[j] == FmtInt(lo)[j]; }
        else if j > k { assert s[j] == FmtInt(hi)[j - k - 1]; }
      }
    }
    assert s[0] == FmtInt(lo)[0] && s[|s| - 1] == FmtInt(hi)[|FmtInt(hi)| - 1];
    StripFixed(s);
    SingleToken(s, []);
    assert [] + s == s;
    FmtIntIsLit(lo);
    FmtIntIsLit(hi);
  }

  /** What `SingleRange` needs of the text "X-Y", stated on the stripped text. */
  lemma RangeTextEndpoints(lo: int, hi: int)
    ensures var s := FmtInt(lo) + "-" + FmtInt(hi); var k := |FmtInt(lo)|;
      Tokens(Strip(s)) == [Strip(s)] && RangeAt(Strip(s), k)
      && LitValue(Strip(s)[..k]) == lo as real && LitValue(Strip(s)[k + 1..]) == hi as real
  {
    RangeTextShape(lo, hi);
    FmtIntIsLit(lo);
    FmtIntIsLit(hi);
  }

  /** The text "X-Y" of two integers, as the form writes a range, parses back to that range. */
  lemma RangeTextParses(lo: int, hi: int)
    ensures NumberSet(FmtInt(lo) + "-" + FmtInt(hi)) == Ok(RangeValues(lo, hi))
  {
    var s := FmtInt(lo) + "-" + FmtInt(hi);
    var k := |FmtInt(lo)|;
    RangeTextEndpoints(lo, hi);
    IntegerIsIntLike(lo, IntTol);
    IntegerIsIntLike(hi, IntTol);
    SingleRange(s, k);
  }
}
