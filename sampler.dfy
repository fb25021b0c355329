/** `pick_problem`: bounded rejection sampling of one problem. The calls to
    `random.choice` are replaced by an injected stream of draws. */
module Sampler {
  import opened Wrappers
  import opened Numbers
  import opened Operators

  /** A problem `(a, op_symbol, b)`. */
  datatype Problem = Problem(a: real, op: Symbol, b: real)

  /** The three raw indices `random.choice` consumes in one try, in call order:
      the operator, then `a`, then `b`. */
  datatype Draw = Draw(op: nat, a: nat, b: nat)

  /** "Could not generate problems with these constraints." */
  datatype GenError = CouldNotGenerate

  /** `pick_problem`'s default number of tries. */
  const DefaultTries: int := 50000

  /** `random.choice(xs)` for the raw index `k`. */
  function Choice<T>(xs: seq<T>, k: nat): (x: T)
    requires |xs| > 0
    ensures x in xs
  {
    xs[k % |xs|]
  }

  /** The problem one try proposes. */
  function Candidate(aVals: seq<real>, bVals: seq<real>, ops: seq<Symbol>, d: Draw): Problem
    requires |aVals| > 0 && |bVals| > 0 && |ops| > 0
  {
    Problem(Choice(aVals, d.a), Choice(ops, d.op), Choice(bVals, d.b))
  }

  /** The constraints a try must meet: division passes `division_ok`, and subtraction
      does not go negative when negatives are to be avoided. */
  predicate Acceptable(p: Problem, avoidNegative: bool, integerDivision: bool) {
    && (Internal(p.op) == Div ==> DivisionOk(p.a, p.b, integerDivision))
    && (Internal(p.op) == Sub && avoidNegative ==> p.a - p.b >= 0.0)
  }

  /** The problem is made of values from the given lists. */
  predicate DrawnFrom(p: Problem, aVals: seq<real>, bVals: seq<real>, ops: seq<Symbol>) {
    p.a in aVals && p.op in ops && p.b in bVals
  }

  /** Try `j` of a run starting at stream position `start` is rejected. */
  predicate Rejected(aVals: seq<real>, bVals: seq<real>, ops: seq<Symbol>, avoidNegative: bool,
                     integerDivision: bool, rng: nat -> Draw, start: nat, j: nat)
    requires |aVals| > 0 && |bVals| > 0 && |ops| > 0
  {
    !Acceptable(Candidate(aVals, bVals, ops, rng(start + j)), avoidNegative, integerDivision)
  }

  /** `pick_problem(a_vals, b_vals, ops, avoid_negative, integer_division, tries)`, reading
      its draws from `rng` at positions `start`, `start + 1`, ... and reporting how many it used.
      It returns the first acceptable try, or fails once all `tries` tries are rejected. */
  method PickProblem(aVals: seq<real>, bVals: seq<real>, ops: seq<Symbol>, avoidNegative: bool,
                     integerDivision: bool, tries: int, rng: nat -> Draw, start: nat)
    returns (r: Result<Problem, GenError>, used: nat)
    requires |aVals| > 0 && |bVals| > 0 && |ops| > 0
    ensures used <= (if tries < 0 then 0 else tries)
    ensures r.Ok? ==> used >= 1 && r.value == Candidate(aVals, bVals, ops, rng(start + used - 1))
    ensures r.Ok? ==> Acceptable(r.value, avoidNegative, integerDivision) && DrawnFrom(r.value, aVals, bVals, ops)
    ensures r.Ok? ==> forall j :: 0 <= j < used - 1 ==>
      Rejected(aVals, bVals, ops, avoidNegative, integerDivision, rng, start, j)
    ensures r.Err? ==> used == (if tries < 0 then 0 else tries) && forall j :: 0 <= j < used ==>
      Rejected(aVals, bVals, ops, avoidNegative, integerDivision, rng, start, j)
  {
    var n := if tries < 0 then 0 else tries;
    used := 0;
    while used < n
      invariant used <= n
      invariant forall j :: 0 <= j < used ==>
        Rejected(aVals, bVals, ops, avoidNegative, integerDivision, rng, start, j)
    {
      var d := rng(start + used);
      var opSymbol := Choice(ops, d.op);
      var a := Choice(aVals, d.a);
      var b := Choice(bVals, d.b);
      assert Candidate(aVals, bVals, ops, d) == Problem(a, opSymbol, b);
      used := used + 1;
      var internal := Internal(opSymbol);
      if internal == Div {
        if !DivisionOk(a, b, integerDivision) {
          continue;
        }
      }
      if internal == Sub && avoidNegative {
        if a - b < 0.0 {
          continue;
        }
      }
      return Ok(Problem(a, opSymbol, b)), used;
    }
    return Err(CouldNotGenerate), used;
  }

  /** An accepted problem always has an answer: its division, if any, is by a non-zero
      number, and its subtraction is non-negative when negatives are avoided. */
  lemma AcceptableHasAnswer(p: Problem, avoidNegative: bool, integerDivision: bool)
    requires Acceptable(p, avoidNegative, integerDivision)
    ensures ComputeAnswer(p.a, p.op, p.b).Ok?
    ensures Internal(p.op) == Sub && avoidNegative ==> ComputeAnswer(p.a, p.op, p.b).value >= 0.0
    ensures Internal(p.op) == Div && integerDivision ==> IntLike(ComputeAnswer(p.a, p.op, p.b).value, DivTol)
  {
    if Internal(p.op) == Div {
      DivisionOkAnswers(p.a, p.op, p.b, integerDivision);
    }
  }
}
