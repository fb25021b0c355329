/** What `draw_page_problems` and `draw_page_answers` put on a page: sixty lines in
    three columns of twenty, filled column by column, each line numbered `idx + 1`. */
module Layout {
  import opened Wrappers
  import opened Text
  import opened Numbers
  import opened Operators
  import opened Sampler

  const Cols: nat := 3
  const RowsPerCol: nat := 20
  /** `cols * rows_per_col`: the number of problems a page must hold. */
  const PerPage: nat := 60

  /** The text `fmt_num` (and the identical `fmt_answer`) gives a number: the integer it
      rounds to when it is within 1e-12 of one, otherwise the `%.12g` rendering of `x`. */
  datatype NumText = Whole(digits: string) | General(x: real)

  /** `fmt_num(x)`. */
  function FmtNum(x: real): (t: NumText)
    ensures t.Whole? <==> IntLike(x, IntTol)
    ensures t.Whole? ==> t.digits == FmtInt(RoundHalfEven(x))
    ensures t.General? ==> t.x == x
  {
    if IntLike(x, IntTol) then Whole(FmtInt(RoundHalfEven(x))) else General(x)
  }

  /** A whole-number text reads back, by the number-spec grammar, as a number within
      1e-12 of the one printed. */
  lemma FmtNumReadsBack(x: real)
    requires FmtNum(x).Whole?
    ensures ParseNumber(FmtNum(x).digits).Ok?
    ensures Abs(ParseNumber(FmtNum(x).digits).value - x) <= IntTol
  {
    ParseNumberFmtInt(RoundHalfEven(x));
  }

  /** Every integer prints as its own `str`. */
  lemma FmtNumOfInteger(i: int)
    ensures FmtNum(i as real) == Whole(FmtInt(i))
  {
    IntegerIsIntLike(i, IntTol);
  }

  /** `f"{n:2d}) "`: the number right-aligned in two columns, then ") ". */
  function Prefix(n: int): string {
    (if 0 <= n < 10 then " " else "") + FmtInt(n) + ") "
  }

  /** For the numbers a page uses the prefix is four characters: the number in two
      right-aligned columns, then ") ". */
  lemma PrefixShape(n: int)
    requires 1 <= n <= 99
    ensures |Prefix(n)| == 4 && Prefix(n)[2..] == ") "
    ensures Prefix(n)[..2] == if n < 10 then [' ', DigitChar(n)] else [DigitChar(n / 10), DigitChar(n % 10)]
  {
    if n >= 10 {
      assert NatDigits(n / 10) == [DigitChar(n / 10)];
    }
  }

  /** One `drawString` of a page: where it goes and what it says. `answer` is the
      ` = <answer>` part of an answer line and is absent on a problems page. */
  datatype Line = Line(col: nat, row: nat, prefix: string, a: NumText, op: Symbol, b: NumText, answer: Option<NumText>)

  /** A drawn page: its header, its footer page number, the problems it was given and its lines in drawing order. */
  datatype Page = Page(header: string, number: int, problems: seq<Problem>, lines: seq<Line>)

  datatype DrawError =
    | WrongCount              // "Internal error: expected exactly 60 problems per page."
    | Arith(e: ArithError)    // `compute_answer` raising on an answers page

  /** `idx = col * rows_per_col + r`. */
  function Slot(col: nat, r: nat): nat {
    col * RowsPerCol + r
  }

  /** The column-major placement: index `col * 20 + r` sits in column `col`, row `r`. */
  lemma ColumnMajor(col: nat, r: nat)
    requires col < Cols && r < RowsPerCol
    ensures Slot(col, r) < PerPage
    ensures Slot(col, r) / RowsPerCol == col && Slot(col, r) % RowsPerCol == r
  {
  }

  /** Every index of a page has exactly one place: its column and row, which give it back. */
  lemma PlacementBijective(idx: nat)
    requires idx < PerPage
    ensures idx / RowsPerCol < Cols && idx % RowsPerCol < RowsPerCol
    ensures Slot(idx / RowsPerCol, idx % RowsPerCol) == idx
    ensures forall col: nat, r: nat :: col < Cols && r < RowsPerCol && Slot(col, r) == idx ==>
      col == idx / RowsPerCol && r == idx % RowsPerCol
  {
    forall col: nat, r: nat | col < Cols && r < RowsPerCol && Slot(col, r) == idx
      ensures col == idx / RowsPerCol && r == idx % RowsPerCol
    {
      ColumnMajor(col, r);
    }
  }

  /** The line for problem `idx`: its place, its number if numbering is on, and the problem's text. */
  function ProblemLine(p: Problem, idx: nat, numbered: bool): Line {
    Line(idx / RowsPerCol, idx % RowsPerCol, if numbered then Prefix(idx + 1) else "", FmtNum(p.a), p.op, FmtNum(p.b), None)
  }

  /** Problem `idx` has an answer. */
  predicate Answerable(p: Problem) {
    ComputeAnswer(p.a, p.op, p.b).Ok?
  }

  /** The answers-page line: the problems-page line with its answer. */
  function AnswerLine(p: Problem, idx: nat, numbered: bool): (l: Line)
    requires Answerable(p)
    ensures l == ProblemLine(p, idx, numbered).(answer := l.answer)
    ensures l.answer == Some(FmtNum(ComputeAnswer(p.a, p.op, p.b).value))
  {
    ProblemLine(p, idx, numbered).(answer := Some(FmtNum(ComputeAnswer(p.a, p.op, p.b).value)))
  }

  /** A whole answer printed on the answers page reads back as the exact answer to within 1e-12. */
  lemma AnswerReadsBack(p: Problem, idx: nat, numbered: bool)
    requires Answerable(p) && IntLike(ComputeAnswer(p.a, p.op, p.b).value, IntTol)
    ensures AnswerLine(p, idx, numbered).answer.value.Whole?
    ensures ParseNumber(AnswerLine(p, idx, numbered).answer.value.digits).Ok?
    ensures Abs(ParseNumber(AnswerLine(p, idx, numbered).answer.value.digits).value
                - ComputeAnswer(p.a, p.op, p.b).value) <= IntTol
  {
    FmtNumReadsBack(ComputeAnswer(p.a, p.op, p.b).value);
  }

  /** `draw_page_problems`: exactly sixty problems, drawn column by column. */
  method DrawProblemsPage(problems: seq<Problem>, header: string, numbered: bool, pageNum: int)
    returns (r: Result<Page, DrawError>)
    ensures r.Err? <==> |problems| != PerPage
    ensures r.Err? ==> r.error == WrongCount
    ensures r.Ok? ==> r.value.header == header && r.value.number == pageNum && r.value.problems == problems
    ensures r.Ok? ==> (|r.value.lines| == PerPage &&
      forall k :: 0 <= k < PerPage ==> r.value.lines[k] == ProblemLine(problems[k], k, numbered))
  {
    if |problems| != Cols * RowsPerCol {
      return Err(WrongCount);
    }
    var lines: seq<Line> := [];
    for col := 0 to Cols
      invariant |lines| == col * RowsPerCol
      invariant forall k :: 0 <= k < |lines| ==> lines[k] == ProblemLine(problems[k], k, numbered)
    {
      for row := 0 to RowsPerCol
        invariant |lines| == col * RowsPerCol + row
        invariant forall k :: 0 <= k < |lines| ==> lines[k] == ProblemLine(problems[k], k, numbered)
      {
        var idx := Slot(col, row);
        ColumnMajor(col, row);
        var p := problems[idx];
        var prefix := if numbered then Prefix(idx + 1) else "";
        lines := lines + [Line(col, row, prefix, FmtNum(p.a), p.op, FmtNum(p.b), None)];
      }
    }
    return Ok(Page(header, pageNum, problems, lines));
  }

  /** `draw_page_answers`: as the problems page, each line with its answer; an answer that
      cannot be computed aborts the page. */
  method DrawAnswersPage(problems: seq<Problem>, header: string, numbered: bool, pageNum: int)
    returns (r: Result<Page, DrawError>)
    ensures |problems| != PerPage ==> r == Err(WrongCount)
    ensures |problems| == PerPage ==>
      (r.Err? <==> exists k :: 0 <= k < PerPage && !Answerable(problems[k]))
    ensures r.Err? && |problems| == PerPage ==> r.error == Arith(ZeroDivision)
    ensures r.Ok? ==> r.value.header == header && r.value.number == pageNum && r.value.problems == problems
    ensures r.Ok? ==> (|r.value.lines| == PerPage &&
      forall k :: 0 <= k < PerPage ==> Answerable(problems[k]) && r.value.lines[k] == AnswerLine(problems[k], k, numbered))
  {
    if |problems| != Cols * RowsPerCol {
      return Err(WrongCount);
    }
    var lines: seq<Line> := [];
    for col := 0 to Cols
      invariant |lines| == col * RowsPerCol
      invariant forall k :: 0 <= k < |lines| ==> Answerable(problems[k]) && lines[k] == AnswerLine(problems[k], k, numbered)
    {
      for row := 0 to RowsPerCol
        invariant |lines| == col * RowsPerCol + row
        invariant forall k :: 0 <= k < |lines| ==> Answerable(problems[k]) && lines[k] == AnswerLine(problems[k], k, numbered)
      {
        var idx := Slot(col, row);
        ColumnMajor(col, row);
        var p := problems[idx];
        var ans := ComputeAnswer(p.a, p.op, p.b);
        if ans.Err? {
          return Err(Arith(ans.error));
        }
        var prefix := if numbered then Prefix(idx + 1) else "";
        lines := lines + [Line(col, row, prefix, FmtNum(p.a), p.op, FmtNum(p.b), Some(FmtNum(ans.value)))];
      }
    }
    return Ok(Page(header, pageNum, problems, lines));
  }

  /** Line `k` of a page sits at column `k / 20`, row `k % 20`, and is numbered `k + 1`. */
  lemma LinePlacement(p: Problem, k: nat, numbered: bool)
    requires k < PerPage
    ensures var l := ProblemLine(p, k, numbered);
      l.col < Cols && l.row < RowsPerCol && Slot(l.col, l.row) == k
      && (numbered ==> l.prefix == Prefix(k + 1)) && (!numbered ==> l.prefix == "")
  {
    PlacementBijective(k);
  }
}
