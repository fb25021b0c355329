/** The operator vocabulary, `parse_ops`, `division_ok` and `compute_answer`. */
module Operators {
  import opened Wrappers
  import opened Text
  import opened Numbers

  /** The seven symbols of `OP_SYMBOLS`. */
  datatype Symbol = Plus | Minus | Asterisk | Slash | Bullet | Cross | Obelus

  /** The four internal operations the symbols stand for. */
  datatype Op = Add | Sub | Mul | Div

  function SymbolChar(s: Symbol): char {
    match s
    case Plus => '+'
    case Minus => '-'
    case Asterisk => '*'
    case Slash => '/'
    case Bullet => '\U{2022}'
    case Cross => '\U{00D7}'
    case Obelus => '\U{00F7}'
  }

  /** The symbol a character spells, if it is one of the seven. */
  function SymbolOfChar(c: char): (r: Option<Symbol>)
    ensures r.Some? ==> SymbolChar(r.value) == c
  {
    if c == '+' then Some(Plus)
    else if c == '-' then Some(Minus)
    else if c == '*' then Some(Asterisk)
    else if c == '/' then Some(Slash)
    else if c == '\U{2022}' then Some(Bullet)
    else if c == '\U{00D7}' then Some(Cross)
    else if c == '\U{00F7}' then Some(Obelus)
    else None
  }

  /** Every symbol is recognised from its own character, so the vocabulary is exactly the seven characters. */
  lemma SymbolCharRoundTrip(s: Symbol)
    ensures SymbolOfChar(SymbolChar(s)) == Some(s)
  {
  }

  /** `o in OP_SYMBOLS` for a whole string: it must be exactly one symbol character. */
  function SymbolOfText(t: string): (r: Option<Symbol>)
    ensures r.Some? <==> |t| == 1 && SymbolOfChar(t[0]).Some?
    ensures r.Some? ==> t == [SymbolChar(r.value)]
  {
    if |t| == 1 then SymbolOfChar(t[0]) else None
  }

  /** `OP_TO_INTERNAL`: '•' and '×' multiply, '÷' divides. */
  function Internal(s: Symbol): Op {
    match s
    case Plus => Add
    case Minus => Sub
    case Asterisk | Bullet | Cross => Mul
    case Slash | Obelus => Div
  }

  /** The synonym map sends each internal operation's symbols, and only those, to it. */
  lemma InternalSynonyms(s: Symbol)
    ensures Internal(s) == Mul <==> s in {Asterisk, Bullet, Cross}
    ensures Internal(s) == Div <==> s in {Slash, Obelus}
    ensures Internal(s) == Add <==> s == Plus
    ensures Internal(s) == Sub <==> s == Minus
  {
  }

  // ------------------------------------------------------------ parse_ops

  datatype OpsError = NoValidOperators   // "No valid operators."

  /** `[o for o in list(spec) if o in OP_SYMBOLS]`. */
  function CharSymbols(t: string): seq<Symbol> {
    if t == [] then []
    else (if SymbolOfChar(t[0]).Some? then [SymbolOfChar(t[0]).value] else []) + CharSymbols(t[1..])
  }

  /** The symbol a comma-piece names once trimmed, if any. */
  function PieceSymbol(p: string): Option<Symbol> {
    SymbolOfText(Strip(p))
  }

  /** The symbol, if any, each piece names. */
  function PieceOptions(ps: seq<string>): (os: seq<Option<Symbol>>)
    ensures |os| == |ps| && forall i :: 0 <= i < |ps| ==> os[i] == PieceSymbol(ps[i])
  {
    seq(|ps|, i requires 0 <= i < |ps| => PieceSymbol(ps[i]))
  }

  /** The symbols that are present, in order. */
  function Keep(os: seq<Option<Symbol>>): seq<Symbol> {
    if os == [] then []
    else (if os[0].Some? then [os[0].value] else []) + Keep(os[1..])
  }

  /** `[s.strip() for s in pieces if s.strip()]` filtered by `o in OP_SYMBOLS`. */
  function PieceSymbols(ps: seq<string>): seq<Symbol> {
    Keep(PieceOptions(ps))
  }

  /** The operators `parse_ops` keeps from a non-blank, stripped spec. */
  function Survivors(t: string): seq<Symbol> {
    if ',' in t then PieceSymbols(SplitOn(t, ',')) else CharSymbols(t)
  }

  /** `parse_ops`: a blank spec means `["+"]`; otherwise the surviving symbols, which must not be none. */
  function ParseOps(spec: string): (r: Result<seq<Symbol>, OpsError>)
    ensures Strip(spec) == [] ==> r == Ok([Plus])
    ensures r.Err? <==> Strip(spec) != [] && Survivors(Strip(spec)) == []
    ensures Strip(spec) != [] && r.Ok? ==> r.value == Survivors(Strip(spec))
    ensures r.Ok? ==> |r.value| > 0
  {
    var t := Strip(spec);
    if t == [] then Ok([Plus])
    else
      var ops := Survivors(t);
      if ops == [] then Err(NoValidOperators) else Ok(ops)
  }

  /** Filtering characters distributes over concatenation, so order is preserved. */
  lemma {:induction false} CharSymbolsAppend(u: string, v: string)
    ensures CharSymbols(u + v) == CharSymbols(u) + CharSymbols(v)
  {
    if u != [] {
      var h := if SymbolOfChar(u[0]).Some? then [SymbolOfChar(u[0]).value] else [];
      assert (u + v)[0] == u[0];
      assert (u + v)[1..] == u[1..] + v;
      CharSymbolsAppend(u[1..], v);
      assert CharSymbols(u + v) == h + CharSymbols(u[1..] + v);
      assert CharSymbols(u) == h + CharSymbols(u[1..]);
    } else {
      assert u + v == v;
    }
  }

  /** Duplicates are kept: each symbol occurs as often as its character does. */
  lemma {:induction false} CharSymbolsCount(t: string, s: Symbol)
    ensures multiset(CharSymbols(t))[s] == multiset(t)[SymbolChar(s)]
  {
    if t != [] {
      CharSymbolsCount(t[1..], s);
      assert t == [t[0]] + t[1..];
      SymbolCharRoundTrip(s);
    }
  }

  /** Every kept operator comes from a character of the spec, and every symbol character is kept. */
  lemma {:induction false} CharSymbolsMembers(t: string, s: Symbol)
    ensures s in CharSymbols(t) <==> SymbolChar(s) in t
  {
    CharSymbolsCount(t, s);
  }

  lemma {:induction false} KeepAppend(os: seq<Option<Symbol>>, qs: seq<Option<Symbol>>)
    ensures Keep(os + qs) == Keep(os) + Keep(qs)
  {
    if os != [] {
      assert (os + qs)[0] == os[0] && (os + qs)[1..] == os[1..] + qs;
      KeepAppend(os[1..], qs);
      var h := if os[0].Some? then [os[0].value] else [];
      assert h + (Keep(os[1..]) + Keep(qs)) == (h + Keep(os[1..])) + Keep(qs);
    } else {
      assert os + qs == qs;
    }
  }

  lemma {:induction false} KeepMembers(os: seq<Option<Symbol>>, s: Symbol)
    ensures s in Keep(os) <==> Some(s) in os
  {
    if os != [] {
      KeepMembers(os[1..], s);
      assert os == [os[0]] + os[1..];
    }
  }

  /** Every symbol of `ops`, present. */
  function Somes(ops: seq<Symbol>): (os: seq<Option<Symbol>>)
    ensures |os| == |ops| && forall i :: 0 <= i < |ops| ==> os[i] == Some(ops[i])
  {
    seq(|ops|, i requires 0 <= i < |ops| => Some(ops[i]))
  }

  lemma {:induction false} KeepSomes(ops: seq<Symbol>)
    ensures Keep(Somes(ops)) == ops
  {
    if ops != [] {
      assert Somes(ops)[1..] == Somes(ops[1..]);
      KeepSomes(ops[1..]);
    }
  }

  /** The comma filter distributes over concatenation, so order is preserved. */
  lemma PieceSymbolsAppend(ps: seq<string>, qs: seq<string>)
    ensures PieceSymbols(ps + qs) == PieceSymbols(ps) + PieceSymbols(qs)
  {
    assert PieceOptions(ps + qs) == PieceOptions(ps) + PieceOptions(qs);
    KeepAppend(PieceOptions(ps), PieceOptions(qs));
  }

  /** A symbol survives the comma branch iff some piece, trimmed, is exactly that symbol. */
  lemma PieceSymbolsMembers(ps: seq<string>, s: Symbol)
    ensures s in PieceSymbols(ps) <==> exists i :: 0 <= i < |ps| && PieceSymbol(ps[i]) == Some(s)
  {
    var os := PieceOptions(ps);
    KeepMembers(os, s);
    if Some(s) in os {
      var i :| 0 <= i < |os| && os[i] == Some(s);
      assert PieceSymbol(ps[i]) == Some(s);
    }
  }

  /** The text of a list of operators, one character each, as the form's "+" is written. */
  function OpsText(ops: seq<Symbol>): (t: string)
    ensures |t| == |ops| && forall i :: 0 <= i < |ops| ==> t[i] == SymbolChar(ops[i])
  {
    seq(|ops|, i requires 0 <= i < |ops| => SymbolChar(ops[i]))
  }

  /** The symbols one per comma-separated piece. */
  function OpsPieces(ops: seq<Symbol>): (ps: seq<string>)
    ensures |ps| == |ops| && forall i :: 0 <= i < |ops| ==> ps[i] == [SymbolChar(ops[i])]
  {
    seq(|ops|, i requires 0 <= i < |ops| => [SymbolChar(ops[i])])
  }

  lemma {:induction false} CharSymbolsOfText(ops: seq<Symbol>)
    ensures CharSymbols(OpsText(ops)) == ops
  {
    if ops != [] {
      var t := OpsText(ops);
      assert t[1..] == OpsText(ops[1..]);
      CharSymbolsOfText(ops[1..]);
      SymbolCharRoundTrip(ops[0]);
    }
  }

  lemma PieceSymbolsOfPieces(ops: seq<Symbol>)
    ensures PieceSymbols(OpsPieces(ops)) == ops
  {
    var ps := OpsPieces(ops);
    forall i | 0 <= i < |ops| ensures PieceOptions(ps)[i] == Some(ops[i]) {
      PieceOfSymbol(ops[i]);
    }
    assert PieceOptions(ps) == Somes(ops);
    KeepSomes(ops);
  }

  lemma SymbolNotSpace(s: Symbol)
    ensures !IsSpace(SymbolChar(s)) && SymbolChar(s) != ','
  {
  }

  /** A piece holding just a symbol's character names that symbol. */
  lemma PieceOfSymbol(s: Symbol)
    ensures PieceSymbol([SymbolChar(s)]) == Some(s)
  {
    SymbolNotSpace(s);
    StripFixed([SymbolChar(s)]);
    SymbolCharRoundTrip(s);
  }

  lemma OpsTextStripped(ops: seq<Symbol>)
    requires ops != []
    ensures Strip(OpsText(ops)) == OpsText(ops) && ',' !in OpsText(ops)
  {
    var t := OpsText(ops);
    SymbolNotSpace(ops[0]);
    SymbolNotSpace(ops[|ops| - 1]);
    forall i | 0 <= i < |t| ensures t[i] != ',' {
      SymbolNotSpace(ops[i]);
    }
    StripFixed(t);
  }

  /** Writing a non-empty operator list as characters and parsing it gives the list back. */
  lemma ParseOpsOfText(ops: seq<Symbol>)
    requires ops != []
    ensures ParseOps(OpsText(ops)) == Ok(ops)
  {
    OpsTextStripped(ops);
    CharSymbolsOfText(ops);
  }

  /** Writing it comma-separated and parsing it gives the list back too. */
  lemma ParseOpsOfPieces(ops: seq<Symbol>)
    requires ops != []
    ensures ParseOps(Join(OpsPieces(ops), ',')) == Ok(ops)
  {
    var ps := OpsPieces(ops);
    var t := Join(ps, ',');
    if |ops| == 1 {
      assert t == ps[0] == OpsText(ops);
      ParseOpsOfText(ops);
    } else {
      assert t == ps[0] + [','] + Join(ps[1..], ',');
      assert t[1] == ',';
      JoinPiecesStripped(ops);
      PiecesSplit(ops);
      PieceSymbolsOfPieces(ops);
      assert Survivors(t) == ops;
    }
  }

  lemma PiecesSplit(ops: seq<Symbol>)
    requires ops != []
    ensures SplitOn(Join(OpsPieces(ops), ','), ',') == OpsPieces(ops)
  {
    var ps := OpsPieces(ops);
    forall i | 0 <= i < |ps| ensures ',' !in ps[i] {
      SymbolNotSpace(ops[i]);
    }
    JoinSplit(ps, ',');
  }

  lemma JoinPiecesStripped(ops: seq<Symbol>)
    requires ops != []
    ensures Strip(Join(OpsPieces(ops), ',')) == Join(OpsPieces(ops), ',')
  {
    var ps := OpsPieces(ops);
    JoinEnds(ps, ',');
    var t := Join(ps, ',');
    SymbolNotSpace(ops[0]);
    SymbolNotSpace(ops[|ops| - 1]);
    StripFixed(t);
  }

  /** A join of non-empty pieces starts with the first piece's first character and ends with
      the last piece's last character. */
  lemma {:induction false} JoinEnds(ps: seq<string>, sep: char)
    requires |ps| > 0 && forall i :: 0 <= i < |ps| ==> ps[i] != []
    ensures |Join(ps, sep)| > 0
    ensures Join(ps, sep)[0] == ps[0][0]
    ensures Join(ps, sep)[|Join(ps, sep)| - 1] == ps[|ps| - 1][|ps[|ps| - 1]| - 1]
  {
    if |ps| > 1 {
      var rest := Join(ps[1..], sep);
      JoinEnds(ps[1..], sep);
      var j := ps[0] + [sep] + rest;
      assert Join(ps, sep) == j;
      assert ps[0] != [] && j[0] == ps[0][0];
      assert j[|j| - 1] == rest[|rest| - 1];
      assert ps[1..][|ps[1..]| - 1] == ps[|ps| - 1];
    }
  }

  // ------------------------------------------------ division_ok, compute_answer

  /** `division_ok`'s default tolerance, 1e-9. */
  const DivTol: real := 0.000000001

  /** `division_ok(a, b, require_int)`. */
  predicate DivisionOk(a: real, b: real, requireInt: bool) {
    b != 0.0 && (!requireInt || IntLike(a / b, DivTol))
  }

  /** `a` lies within `tol * |b|` of the multiple `m * b`. */
  predicate NearMultiple(a: real, b: real, m: int, tol: real) {
    Abs(a - m as real * b) <= tol * Abs(b)
  }

  lemma NearMultipleWithin(a: real, b: real, m: int, tol: real)
    requires b != 0.0
    ensures NearMultiple(a, b, m, tol) <==> Within(a / b, m, tol)
  {
    var q := a / b;
    assert a - m as real * b == (q - m as real) * b;
    AbsMul(q - m as real, b);
    assert Abs(b) > 0.0;
    if Abs(q - m as real) <= tol {
      assert Abs(q - m as real) * Abs(b) <= tol * Abs(b);
    }
    if Abs(q - m as real) * Abs(b) <= tol * Abs(b) {
      assert Abs(q - m as real) <= tol;
    }
  }

  lemma AbsMul(x: real, y: real)
    ensures Abs(x * y) == Abs(x) * Abs(y)
  {
  }

  /** Division by zero is never acceptable; without the integer requirement every other
      divisor is; with it, `a` must lie within 1e-9 * |b| of an integer multiple of `b`. */
  lemma DivisionOkIff(a: real, b: real, requireInt: bool)
    ensures DivisionOk(a, b, requireInt) <==>
      b != 0.0 && (!requireInt || exists m: int :: NearMultiple(a, b, m, DivTol))
  {
    if b != 0.0 {
      IntLikeIff(a / b, DivTol);
      if IntLike(a / b, DivTol) {
        var m: int :| Within(a / b, m, DivTol);
        NearMultipleWithin(a, b, m, DivTol);
      }
      if exists m: int :: NearMultiple(a, b, m, DivTol) {
        var m: int :| NearMultiple(a, b, m, DivTol);
        NearMultipleWithin(a, b, m, DivTol);
      }
    }
  }

  /** An exact multiple always passes the integer-division check. */
  lemma ExactMultipleOk(m: int, b: real, requireInt: bool)
    requires b != 0.0
    ensures DivisionOk(m as real * b, b, requireInt)
  {
    assert NearMultiple(m as real * b, b, m, DivTol);
    DivisionOkIff(m as real * b, b, requireInt);
  }

  datatype ArithError = ZeroDivision   // Python's ZeroDivisionError from `a / b`

  /** The internal operation on exact numbers; division by zero is an error. */
  function Apply(op: Op, a: real, b: real): (r: Result<real, ArithError>)
    ensures r.Err? <==> op == Div && b == 0.0
    ensures r.Ok? && op == Add ==> r.value - b == a
    ensures r.Ok? && op == Sub ==> r.value + b == a
    ensures r.Ok? && op == Mul ==> r.value == a * b
    ensures r.Ok? && op == Div ==> r.value * b == a
  {
    match op
    case Add => Ok(a + b)
    case Sub => Ok(a - b)
    case Mul => Ok(a * b)
    case Div => if b == 0.0 then Err(ZeroDivision) else DivMulCancel(a, b); Ok(a / b)
  }

  lemma DivMulCancel(a: real, b: real)
    requires b != 0.0
    ensures (a / b) * b == a
  {
  }

  /** `compute_answer(a, op_symbol, b)`: every multiplication sign multiplies, both division
      signs divide (and fail on a zero divisor), `+` adds and `-` subtracts. */
  function ComputeAnswer(a: real, sym: Symbol, b: real): (r: Result<real, ArithError>)
    ensures sym in {Asterisk, Bullet, Cross} ==> r == Ok(a * b)
    ensures sym in {Slash, Obelus} ==> (r.Err? <==> b == 0.0) && (b != 0.0 ==> r == Ok(a / b))
    ensures sym == Plus ==> r == Ok(a + b)
    ensures sym == Minus ==> r == Ok(a - b)
  {
    Apply(Internal(sym), a, b)
  }

  /** A problem that passes `division_ok` has an answer, whole to within 1e-9 when required. */
  lemma DivisionOkAnswers(a: real, sym: Symbol, b: real, requireInt: bool)
    requires Internal(sym) == Div && DivisionOk(a, b, requireInt)
    ensures ComputeAnswer(a, sym, b).Ok?
    ensures requireInt ==> IntLike(ComputeAnswer(a, sym, b).value, DivTol)
  {
  }
}
