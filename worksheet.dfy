/** `build_pdf`: field-wise fallback, then for each worksheet sixty sampled problems on a
    problems page, optionally followed by an answers page for the same problems. */
module Worksheet {
  import opened Wrappers
  import opened Text
  import opened Numbers
  import opened NumberSpec
  import opened Operators
  import opened Sampler
  import opened Fallback
  import opened Layout

  datatype BuildError =
    | BadNumbers(n: NumError)   // the default spec of a or b does not parse either
    | BadOps(o: OpsError)       // the default operator spec does not parse either
    | Generation(g: GenError)   // `pick_problem` gave up

  /** The problems-page header of worksheet `w` (1-based). */
  function ProblemsHeader(header: string, pages: int, w: int): string {
    if pages == 1 then header else header + " (Set " + FmtInt(w) + ")"
  }

  /** The answers-page header of worksheet `w` (1-based); the dash is U+2013. */
  function AnswersHeader(header: string, pages: int, w: int): string {
    if pages == 1 then header + " \U{2013} Answers"
    else header + " \U{2013} Answers (Set " + FmtInt(w) + ")"
  }

  /** `str(w)` determines `w`. */
  lemma FmtIntInjective(v: int, w: int)
    requires FmtInt(v) == FmtInt(w)
    ensures v == w
  {
    FmtIntParses(v);
    FmtIntParses(w);
  }

  /** With several worksheets, each gets a header of its own, on both kinds of page. */
  lemma HeadersDistinct(header: string, pages: int, v: int, w: int)
    requires pages != 1 && v != w
    ensures ProblemsHeader(header, pages, v) != ProblemsHeader(header, pages, w)
    ensures AnswersHeader(header, pages, v) != AnswersHeader(header, pages, w)
    ensures ProblemsHeader(header, pages, v) != AnswersHeader(header, pages, w)
  {
    SetSuffixDistinct(header + " (Set ", v, w);
    SetSuffixDistinct(header + " \U{2013} Answers (Set ", v, w);
    ProblemsNotAnswers(header, pages, v, w);
  }

  /** A problems page and an answers page differ right after the header and the space. */
  lemma ProblemsNotAnswers(header: string, pages: int, v: int, w: int)
    requires pages != 1
    ensures ProblemsHeader(header, pages, v) != AnswersHeader(header, pages, w)
  {
    var p := header + " (Set " + FmtInt(v) + ")";
    var a := header + " \U{2013} Answers (Set " + FmtInt(w) + ")";
    assert p[|header| + 1] == '(';
    assert a[|header| + 1] == '\U{2013}';
  }

  lemma SetSuffixDistinct(stem: string, v: int, w: int)
    requires v != w
    ensures stem + FmtInt(v) + ")" != stem + FmtInt(w) + ")"
  {
    var x, y := stem + FmtInt(v) + ")", stem + FmtInt(w) + ")";
    if x == y {
      assert |FmtInt(v)| == |FmtInt(w)|;
      assert FmtInt(v) == x[|stem|..|x| - 1];
      assert FmtInt(w) == y[|stem|..|y| - 1];
      FmtIntInjective(v, w);
    }
  }

  /** Pages per worksheet. */
  function PagesPerSheet(includeAnswers: bool): nat {
    if includeAnswers then 2 else 1
  }

  /** Index in the document of the problems page of worksheet `w` (0-based). */
  function SheetStart(w: nat, includeAnswers: bool): nat {
    if includeAnswers then 2 * w else w
  }

  /** The choices a run was made with. */
  datatype Settings = Settings(
    aVals: seq<real>, bVals: seq<real>, ops: seq<Symbol>,
    includeAnswers: bool, numbered: bool, avoidNegative: bool, integerDivision: bool,
    header: string, pages: int)

  /** Sixty acceptable problems drawn from the lists. */
  predicate GoodProblems(problems: seq<Problem>, s: Settings) {
    |problems| == PerPage && forall k :: 0 <= k < PerPage ==>
      Acceptable(problems[k], s.avoidNegative, s.integerDivision) && DrawnFrom(problems[k], s.aVals, s.bVals, s.ops)
  }

  /** The settings can be sampled from: every list has something to choose. */
  predicate Samplable(s: Settings) {
    |s.aVals| > 0 && |s.bVals| > 0 && |s.ops| > 0
  }

  /** `Hit(s, rng)(q)`: the try at stream position `q` meets the constraints. */
  function Hit(s: Settings, rng: nat -> Draw): nat -> bool
    requires Samplable(s)
  {
    (q: nat) => Acceptable(Candidate(s.aVals, s.bVals, s.ops, rng(q)), s.avoidNegative, s.integerDivision)
  }

  /** `pick_problem`, started at stream position `start`, accepts the try at position `at`:
      it is within the default number of tries, acceptable, and every earlier try is rejected. */
  predicate Accepts(hit: nat -> bool, start: nat, at: nat) {
    start <= at < start + DefaultTries && hit(at) && forall q :: start <= q < at ==> !hit(q)
  }

  /** `pick_problem`, started at stream position `start`, rejects all of its default tries. */
  predicate GivesUp(hit: nat -> bool, start: nat) {
    forall q :: start <= q < start + DefaultTries ==> !hit(q)
  }

  /** Where pick `k` of a run starting at `pos` begins: right after the previous accepted try. */
  function StartOf(pos: nat, at: seq<nat>, k: nat): nat
    requires k <= |at|
  {
    if k == 0 then pos else at[k - 1] + 1
  }

  /** Where the pick after the accepted tries `at` begins. */
  function After(pos: nat, at: seq<nat>): nat {
    StartOf(pos, at, |at|)
  }

  /** Consecutive calls of `pick_problem`, the first starting at `pos`, accept the tries at `at`. */
  predicate Picks(hit: nat -> bool, pos: nat, at: seq<nat>) {
    forall k {:trigger StartOf(pos, at, k)} :: 0 <= k < |at| ==> Accepts(hit, StartOf(pos, at, k), at[k])
  }

  /** `problems` are what those calls return: the candidates at the accepted positions. */
  predicate Drawn(s: Settings, rng: nat -> Draw, pos: nat, problems: seq<Problem>, at: seq<nat>)
    requires Samplable(s)
  {
    && |problems| == |at| && Picks(Hit(s, rng), pos, at)
    && forall k :: 0 <= k < |at| ==> problems[k] == Candidate(s.aVals, s.bVals, s.ops, rng(at[k]))
  }

  /** `PickProblem`'s account of a successful call, in terms of stream positions. */
  lemma PickAccepts(s: Settings, rng: nat -> Draw, start: nat, used: nat)
    requires Samplable(s) && 1 <= used <= DefaultTries
    requires Acceptable(Candidate(s.aVals, s.bVals, s.ops, rng(start + used - 1)), s.avoidNegative, s.integerDivision)
    requires forall j :: 0 <= j < used - 1 ==>
      Rejected(s.aVals, s.bVals, s.ops, s.avoidNegative, s.integerDivision, rng, start, j)
    ensures Accepts(Hit(s, rng), start, start + used - 1)
  {
    forall q | start <= q < start + used - 1 ensures !Hit(s, rng)(q) {
      assert Rejected(s.aVals, s.bVals, s.ops, s.avoidNegative, s.integerDivision, rng, start, q - start);
    }
  }

  /** `PickProblem`'s account of a failed call, in terms of stream positions. */
  lemma PickGivesUp(s: Settings, rng: nat -> Draw, start: nat)
    requires Samplable(s)
    requires forall j :: 0 <= j < DefaultTries ==>
      Rejected(s.aVals, s.bVals, s.ops, s.avoidNegative, s.integerDivision, rng, start, j)
    ensures GivesUp(Hit(s, rng), start)
  {
    forall q | start <= q < start + DefaultTries ensures !Hit(s, rng)(q) {
      assert Rejected(s.aVals, s.bVals, s.ops, s.avoidNegative, s.integerDivision, rng, start, q - start);
    }
  }

  /** A call of `pick_problem` has one outcome: one accepted try, or none. */
  lemma AcceptsUnique(hit: nat -> bool, start: nat, x: nat, y: nat)
    requires Accepts(hit, start, x) && Accepts(hit, start, y)
    ensures x == y && !GivesUp(hit, start)
  {
    assert start <= x < start + DefaultTries && hit(x);
  }

  /** The draw stream decides the run: two runs from the same position accept the same tries. */
  lemma {:induction false} PicksAgree(hit: nat -> bool, pos: nat, x: seq<nat>, y: seq<nat>, k: nat)
    requires Picks(hit, pos, x) && Picks(hit, pos, y)
    requires k < |x| && k < |y|
    ensures x[k] == y[k]
    decreases k
  {
    if k > 0 {
      PicksAgree(hit, pos, x, y, k - 1);
    }
    assert StartOf(pos, x, k) == StartOf(pos, y, k);
    AcceptsUnique(hit, StartOf(pos, x, k), x[k], y[k]);
  }

  /** A run that gives up cannot be continued: every other run from the same position
      makes some of the picks made before the one that gave up, and no more. */
  lemma GiveUpIsFinal(hit: nat -> bool, pos: nat, x: seq<nat>, y: seq<nat>)
    requires Picks(hit, pos, x) && GivesUp(hit, After(pos, x))
    requires Picks(hit, pos, y)
    ensures |y| <= |x| && y == x[..|y|]
  {
    var m := if |x| < |y| then |x| else |y|;
    forall k | 0 <= k < m ensures x[k] == y[k] {
      PicksAgree(hit, pos, x, y, k);
    }
    if |y| > |x| {
      assert StartOf(pos, y, |x|) == After(pos, x);
      AcceptsUnique(hit, After(pos, x), y[|x|], y[|x|]);
    }
  }

  /** Runs compose: the picks of a second run, started where the first ended, continue it. */
  lemma PicksAppend(hit: nat -> bool, pos: nat, x: seq<nat>, y: seq<nat>)
    requires Picks(hit, pos, x) && Picks(hit, After(pos, x), y)
    ensures Picks(hit, pos, x + y)
    ensures After(pos, x + y) == After(After(pos, x), y)
  {
    var xy := x + y;
    forall k | 0 <= k < |xy| ensures Accepts(hit, StartOf(pos, xy, k), xy[k]) {
      if k < |x| {
        assert StartOf(pos, xy, k) == StartOf(pos, x, k) && xy[k] == x[k];
      } else {
        assert StartOf(pos, xy, k) == StartOf(After(pos, x), y, k - |x|);
        assert xy[k] == y[k - |x|];
      }
    }
    if y != [] {
      assert xy[|xy| - 1] == y[|y| - 1];
    }
  }

  lemma DrawnAppend(s: Settings, rng: nat -> Draw, pos: nat, p: seq<Problem>, x: seq<nat>, q: seq<Problem>, y: seq<nat>)
    requires Samplable(s) && Drawn(s, rng, pos, p, x) && Drawn(s, rng, After(pos, x), q, y)
    ensures Drawn(s, rng, pos, p + q, x + y)
    ensures After(pos, x + y) == After(After(pos, x), y)
  {
    PicksAppend(Hit(s, rng), pos, x, y);
    var pq, xy := p + q, x + y;
    forall k | 0 <= k < |xy| ensures pq[k] == Candidate(s.aVals, s.bVals, s.ops, rng(xy[k])) {
      if k >= |x| {
        assert pq[k] == q[k - |x|] && xy[k] == y[k - |x|];
      } else {
        assert pq[k] == p[k] && xy[k] == x[k];
      }
    }
  }

  /** Among the `n * 60` calls of `pick_problem` that `n` worksheets make from the start of
      the stream, the calls before one succeed and that one gives up. */
  ghost predicate GaveUp(s: Settings, rng: nat -> Draw, n: nat)
    requires Samplable(s)
  {
    exists at :: |at| < n * PerPage && Picks(Hit(s, rng), 0, at) && GivesUp(Hit(s, rng), After(0, at))
  }

  /** The problems of the first `w` worksheets of a document, in order. */
  function DocProblems(doc: seq<Page>, w: nat, includeAnswers: bool): seq<Problem>
    requires SheetStart(w, includeAnswers) <= |doc|
  {
    if w == 0 then [] else DocProblems(doc, w - 1, includeAnswers) + doc[SheetStart(w - 1, includeAnswers)].problems
  }

  lemma {:induction false} DocProblemsAppend(doc: seq<Page>, more: seq<Page>, w: nat, includeAnswers: bool)
    requires SheetStart(w, includeAnswers) <= |doc|
    ensures DocProblems(doc + more, w, includeAnswers) == DocProblems(doc, w, includeAnswers)
  {
    if w > 0 {
      DocProblemsAppend(doc, more, w - 1, includeAnswers);
      assert (doc + more)[SheetStart(w - 1, includeAnswers)] == doc[SheetStart(w - 1, includeAnswers)];
    }
  }

  /** The pages of worksheet `w` (0-based) for `problems`: a problems page and, when answers
      are on, an answers page for the very same problems. */
  predicate SheetPages(sheet: seq<Page>, problems: seq<Problem>, w: nat, s: Settings) {
    && |sheet| == PagesPerSheet(s.includeAnswers) && |problems| == PerPage
    && sheet[0].header == ProblemsHeader(s.header, s.pages, w + 1) && sheet[0].problems == problems
    && |sheet[0].lines| == PerPage
    && (forall k :: 0 <= k < PerPage ==> sheet[0].lines[k] == ProblemLine(problems[k], k, s.numbered))
    && (s.includeAnswers ==>
          && sheet[1].header == AnswersHeader(s.header, s.pages, w + 1) && sheet[1].problems == problems
          && |sheet[1].lines| == PerPage
          && forall k :: 0 <= k < PerPage ==> Answerable(problems[k]) && sheet[1].lines[k] == AnswerLine(problems[k], k, s.numbered))
  }

  /** Worksheet `w` sits at its place in the document. */
  predicate SheetOk(doc: seq<Page>, w: nat, s: Settings)
    requires SheetStart(w, s.includeAnswers) + PagesPerSheet(s.includeAnswers) <= |doc|
  {
    var i := SheetStart(w, s.includeAnswers);
    GoodProblems(doc[i].problems, s)
    && SheetPages(doc[i..i + PagesPerSheet(s.includeAnswers)], doc[i].problems, w, s)
  }

  /** A document of `n` worksheets laid out by the generator, pages numbered 1, 2, 3, ... */
  predicate DocumentOk(doc: seq<Page>, n: nat, s: Settings) {
    && |doc| == n * PagesPerSheet(s.includeAnswers)
    && (forall i :: 0 <= i < |doc| ==> doc[i].number == i + 1)
    && (forall w: nat :: w < n ==>
          SheetStart(w, s.includeAnswers) + PagesPerSheet(s.includeAnswers) <= |doc| && SheetOk(doc, w, s))
  }

  /** A sheet already in place stays in place when pages are appended. */
  lemma SheetOkAppend(doc: seq<Page>, more: seq<Page>, w: nat, s: Settings)
    requires SheetStart(w, s.includeAnswers) + PagesPerSheet(s.includeAnswers) <= |doc|
    requires SheetOk(doc, w, s)
    ensures SheetOk(doc + more, w, s)
  {
    var i := SheetStart(w, s.includeAnswers);
    var m := PagesPerSheet(s.includeAnswers);
    assert (doc + more)[i..i + m] == doc[i..i + m];
  }

  /** Appending the pages of worksheet `w` after `w` worksheets gives a document of `w + 1`. */
  lemma SheetAppended(doc: seq<Page>, sheet: seq<Page>, problems: seq<Problem>, w: nat, s: Settings)
    requires DocumentOk(doc, w, s)
    requires GoodProblems(problems, s) && SheetPages(sheet, problems, w, s)
    requires forall i :: 0 <= i < |sheet| ==> sheet[i].number == |doc| + 1 + i
    ensures DocumentOk(doc + sheet, w + 1, s)
  {
    var m := PagesPerSheet(s.includeAnswers);
    var d := doc + sheet;
    assert SheetStart(w, s.includeAnswers) == |doc|;
    assert d[|doc|..|doc| + m] == sheet;
    assert d[|doc|].problems == problems;
    forall v: nat | v < w + 1
      ensures SheetStart(v, s.includeAnswers) + m <= |d| && SheetOk(d, v, s)
    {
      if v < w {
        SheetOkAppend(doc, sheet, v, s);
      }
    }
    forall i | 0 <= i < |d| ensures d[i].number == i + 1 {
      if i >= |doc| { assert d[i] == sheet[i - |doc|]; }
    }
  }

  /** Sample the sixty problems of one worksheet by sixty calls of `pick_problem`, the first
      reading draws from position `pos` on and each later one where the previous one stopped.
      `at` holds the positions of the accepted tries. The run fails exactly when one call
      gives up, after the calls before it have succeeded. */
  method SampleSheet(s: Settings, rng: nat -> Draw, pos: nat)
    returns (r: Result<seq<Problem>, GenError>, at: seq<nat>)
    requires Samplable(s)
    ensures r.Ok? ==> GoodProblems(r.value, s) && Drawn(s, rng, pos, r.value, at)
    ensures r.Err? ==> |at| < PerPage && Picks(Hit(s, rng), pos, at) && GivesUp(Hit(s, rng), After(pos, at))
  {
    var problems: seq<Problem> := [];
    at := [];
    var next := pos;
    for j := 0 to PerPage
      invariant |problems| == j
      invariant next == After(pos, at)
      invariant Drawn(s, rng, pos, problems, at)
      invariant forall k :: 0 <= k < j ==>
        Acceptable(problems[k], s.avoidNegative, s.integerDivision) && DrawnFrom(problems[k], s.aVals, s.bVals, s.ops)
    {
      var res, used := PickProblem(s.aVals, s.bVals, s.ops, s.avoidNegative, s.integerDivision, DefaultTries, rng, next);
      if res.Err? {
        PickGivesUp(s, rng, next);
        return Err(res.error), at;
      }
      PickAccepts(s, rng, next, used);
      DrawnAppend(s, rng, pos, problems, at, [res.value], [next + used - 1]);
      problems := problems + [res.value];
      at := at + [next + used - 1];
      next := next + used;
    }
    return Ok(problems), at;
  }

  /** The pages of one worksheet, numbered `current + 1` and, with answers, `current + 2`. */
  method DrawSheet(s: Settings, problems: seq<Problem>, w: nat, current: int)
    returns (pages: seq<Page>)
    requires GoodProblems(problems, s)
    ensures SheetPages(pages, problems, w, s)
    ensures forall i :: 0 <= i < |pages| ==> pages[i].number == current + 1 + i
  {
    var pp := DrawProblemsPage(problems, ProblemsHeader(s.header, s.pages, w + 1), s.numbered, current + 1);
    pages := [pp.value];
    if s.includeAnswers {
      forall k | 0 <= k < PerPage ensures Answerable(problems[k]) {
        AcceptableHasAnswer(problems[k], s.avoidNegative, s.integerDivision);
      }
      var ap := DrawAnswersPage(problems, AnswersHeader(s.header, s.pages, w + 1), s.numbered, current + 2);
      pages := pages + [ap.value];
    }
  }

  /** One pass of the worksheet loop keeps the document laid out and drawn from the stream. */
  lemma SheetExtends(s: Settings, rng: nat -> Draw, doc: seq<Page>, sheet: seq<Page>, problems: seq<Problem>,
                     w: nat, at: seq<nat>, sheetAt: seq<nat>)
    requires Samplable(s) && DocumentOk(doc, w, s) && Drawn(s, rng, 0, DocProblems(doc, w, s.includeAnswers), at)
    requires GoodProblems(problems, s) && SheetPages(sheet, problems, w, s)
    requires forall i :: 0 <= i < |sheet| ==> sheet[i].number == |doc| + 1 + i
    requires Drawn(s, rng, After(0, at), problems, sheetAt)
    ensures DocumentOk(doc + sheet, w + 1, s)
    ensures Drawn(s, rng, 0, DocProblems(doc + sheet, w + 1, s.includeAnswers), at + sheetAt)
  {
    SheetAppended(doc, sheet, problems, w, s);
    DocProblemsAppend(doc, sheet, w, s.includeAnswers);
    assert (doc + sheet)[SheetStart(w, s.includeAnswers)] == sheet[0];
    DrawnAppend(s, rng, 0, DocProblems(doc, w, s.includeAnswers), at, problems, sheetAt);
  }

  /** The worksheet loop of `build_pdf`: `n` worksheets, each sixty sampled problems on a
      problems page and, with answers on, an answers page, pages numbered consecutively
      from 1. The draws are read from `rng` one after another from position 0, and `at`
      holds the positions of the accepted tries: on success, those of every problem in
      the document; on failure, those before the call of `pick_problem` that gave up. */
  method GenerateSheets(s: Settings, n: nat, rng: nat -> Draw)
    returns (r: Result<seq<Page>, GenError>, at: seq<nat>)
    requires Samplable(s)
    ensures r.Ok? ==> (DocumentOk(r.value, n, s) &&
      Drawn(s, rng, 0, DocProblems(r.value, n, s.includeAnswers), at))
    ensures r.Err? ==> |at| < n * PerPage && Picks(Hit(s, rng), 0, at) && GivesUp(Hit(s, rng), After(0, at))
  {
    var doc: seq<Page> := [];
    var currentPage := 0;
    at := [];
    for w := 0 to n
      invariant currentPage == |doc|
      invariant DocumentOk(doc, w, s)
      invariant |at| == w * PerPage
      invariant Drawn(s, rng, 0, DocProblems(doc, w, s.includeAnswers), at)
    {
      var res, sheetAt := SampleSheet(s, rng, After(0, at));
      if res.Err? {
        PicksAppend(Hit(s, rng), 0, at, sheetAt);
        return Err(res.error), at + sheetAt;
      }
      var sheet := DrawSheet(s, res.value, w, currentPage);
      SheetExtends(s, rng, doc, sheet, res.value, w, at, sheetAt);
      doc := doc + sheet;
      at := at + sheetAt;
      currentPage := currentPage + |sheet|;
    }
    return Ok(doc), at;
  }

  /** The problems of the `n` worksheets of `doc` are the ones the stream gives from position 0. */
  ghost predicate DocumentDrawn(s: Settings, rng: nat -> Draw, doc: seq<Page>, n: nat)
    requires Samplable(s)
  {
    SheetStart(n, s.includeAnswers) <= |doc| && exists at :: Drawn(s, rng, 0, DocProblems(doc, n, s.includeAnswers), at)
  }

  /** Each of the first `w` worksheets of a laid-out document holds sixty problems. */
  lemma {:induction false} DocProblemsLength(doc: seq<Page>, n: nat, w: nat, s: Settings)
    requires DocumentOk(doc, n, s) && w <= n
    ensures SheetStart(w, s.includeAnswers) <= |doc|
    ensures |DocProblems(doc, w, s.includeAnswers)| == w * PerPage
  {
    assert |doc| == SheetStart(n, s.includeAnswers);
    if w > 0 {
      DocProblemsLength(doc, n, w - 1, s);
      assert SheetOk(doc, w - 1, s);
      assert GoodProblems(doc[SheetStart(w - 1, s.includeAnswers)].problems, s);
    }
  }

  /** The two outcomes exclude each other: a stream that gives a whole document of `n`
      worksheets has no call among their `n * 60` that gives up. */
  lemma DocumentNotGaveUp(s: Settings, rng: nat -> Draw, doc: seq<Page>, n: nat)
    requires Samplable(s) && DocumentOk(doc, n, s) && DocumentDrawn(s, rng, doc, n)
    ensures !GaveUp(s, rng, n)
  {
    DocProblemsLength(doc, n, n, s);
    var y :| Drawn(s, rng, 0, DocProblems(doc, n, s.includeAnswers), y);
    if GaveUp(s, rng, n) {
      var x :| |x| < n * PerPage && Picks(Hit(s, rng), 0, x) && GivesUp(Hit(s, rng), After(0, x));
      GiveUpIsFinal(Hit(s, rng), 0, x, y);
    }
  }

  /** The settings a run uses once all three lists have parsed, each with its own fallback. */
  function RunSettings(aSpec: string, bSpec: string, opsSpec: string, pages: int,
                       includeAnswers: bool, numbered: bool, avoidNegative: bool, integerDivision: bool,
                       header: string, defaults: Defaults): (s: Settings)
    requires SafeParseNumberSet(aSpec, defaults.a).Ok? && SafeParseNumberSet(bSpec, defaults.b).Ok?
    requires SafeParseOps(opsSpec, defaults.ops).Ok?
    ensures Samplable(s)
  {
    Settings(SafeParseNumberSet(aSpec, defaults.a).value, SafeParseNumberSet(bSpec, defaults.b).value,
             SafeParseOps(opsSpec, defaults.ops).value,
             includeAnswers, numbered, avoidNegative, integerDivision, header, pages)
  }

  /** `build_pdf(a_spec, b_spec, ops_spec, pages, include_answers, numbered, avoid_negative,
      integer_division, header, defaults)`, with `random` replaced by the draw stream `rng`.
      Each list falls back to its default on its own, and the lists are checked in the
      order a, b, operators; the first whose default fails too decides the error. With all
      three parsed, the run either holds `pages` worksheets laid out by the generator, made
      of the problems the stream gives, or fails because one of the `pages * 60` calls of
      `pick_problem` gave up after the earlier calls succeeded. */
  method BuildDocument(aSpec: string, bSpec: string, opsSpec: string, pages: int,
                       includeAnswers: bool, numbered: bool, avoidNegative: bool, integerDivision: bool,
                       header: string, defaults: Defaults, rng: nat -> Draw)
    returns (r: Result<seq<Page>, BuildError>)
    ensures SafeParseNumberSet(aSpec, defaults.a).Err? ==> r == Err(BadNumbers(SafeParseNumberSet(aSpec, defaults.a).error))
    ensures SafeParseNumberSet(aSpec, defaults.a).Ok? && SafeParseNumberSet(bSpec, defaults.b).Err? ==>
      r == Err(BadNumbers(SafeParseNumberSet(bSpec, defaults.b).error))
    ensures (SafeParseNumberSet(aSpec, defaults.a).Ok? && SafeParseNumberSet(bSpec, defaults.b).Ok? &&
             SafeParseOps(opsSpec, defaults.ops).Err?) ==> r == Err(BadOps(SafeParseOps(opsSpec, defaults.ops).error))
    ensures r.Ok? ==> (SafeParseNumberSet(aSpec, defaults.a).Ok? && SafeParseNumberSet(bSpec, defaults.b).Ok?
      && SafeParseOps(opsSpec, defaults.ops).Ok?)
    ensures r.Ok? ==>
      var s := RunSettings(aSpec, bSpec, opsSpec, pages, includeAnswers, numbered, avoidNegative,
                           integerDivision, header, defaults);
      var n := if pages < 0 then 0 else pages;
      DocumentOk(r.value, n, s) && DocumentDrawn(s, rng, r.value, n)
    ensures (r.Err? && SafeParseNumberSet(aSpec, defaults.a).Ok? && SafeParseNumberSet(bSpec, defaults.b).Ok? &&
             SafeParseOps(opsSpec, defaults.ops).Ok?) ==> r.error.Generation?
    ensures r.Err? && r.error.Generation? ==>
      (SafeParseNumberSet(aSpec, defaults.a).Ok? && SafeParseNumberSet(bSpec, defaults.b).Ok? &&
       SafeParseOps(opsSpec, defaults.ops).Ok? &&
       GaveUp(RunSettings(aSpec, bSpec, opsSpec, pages, includeAnswers, numbered, avoidNegative,
                          integerDivision, header, defaults), rng, if pages < 0 then 0 else pages))
  {
    var aRes := SafeParseNumberSet(aSpec, defaults.a);
    if aRes.Err? { return Err(BadNumbers(aRes.error)); }
    var bRes := SafeParseNumberSet(bSpec, defaults.b);
    if bRes.Err? { return Err(BadNumbers(bRes.error)); }
    var oRes := SafeParseOps(opsSpec, defaults.ops);
    if oRes.Err? { return Err(BadOps(oRes.error)); }
    var s := RunSettings(aSpec, bSpec, opsSpec, pages, includeAnswers, numbered, avoidNegative,
                         integerDivision, header, defaults);
    var n := if pages < 0 then 0 else pages;
    var res, at := GenerateSheets(s, n, rng);
    if res.Err? {
      assert Picks(Hit(s, rng), 0, at) && GivesUp(Hit(s, rng), After(0, at));
      assert GaveUp(s, rng, n);
      return Err(Generation(res.error));
    }
    assert Drawn(s, rng, 0, DocProblems(res.value, n, includeAnswers), at);
    assert DocumentDrawn(s, rng, res.value, n);
    return Ok(res.value);
  }
}
