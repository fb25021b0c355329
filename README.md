# Math worksheet generator: a Dafny model of its core

The application is a small web form that builds printable arithmetic worksheets as a
PDF. This project models the logic under the form:

- How the form's text fields are read. This covers number sets such as `0-10, 12, 2.5`,
  operator lists such as `+-` or `+, ×, ÷`, page counts and titles, and the field-wise
  fallback to the defaults when a field does not parse.
- How one problem is sampled: bounded rejection sampling, with the division and
  non-negative-subtraction constraints.
- How an answer is computed and a number printed.
- Page layout: sixty problems per page, in three columns of twenty filled column by
  column, numbered `1)` to `60)`.
- The document loop of `build_pdf`: for each worksheet, a problems page, optionally
  followed by an answers page for the same problems. Pages are numbered consecutively,
  and the headers carry "(Set n)" when there is more than one worksheet.

Numbers are exact `real`s. Python's `round` is modelled as round-half-to-even
(`Numbers.RoundHalfEven`), and the dedup key `round(x, 12)` as that rounding applied to
`x * 10^12` (`Numbers.Key`). Calls to `random.choice` read from an injected stream of
draws, `rng: nat -> Draw`, and index the list modulo its length. A drawn page is a
`Layout.Page` value: its header, its footer page number, its problems and its lines in
drawing order.

Modules, in dependency order:

- `Wrappers`: `Option` and `Result`.
- `Text`: Python's `strip`, `split(",")` and `join`, and `str`/`int` on integers.
- `Numbers`: the `NUM_RE` grammar, `parse_number`, `round` and `is_int_like`.
- `NumberSpec`: `RANGE_RE` and `parse_number_set`.
- `Operators`: `OP_TO_INTERNAL`, `parse_ops`, `division_ok` and `compute_answer`.
- `Sampler`: `pick_problem`.
- `Fallback`: `defaults` and the `safe_*` helpers.
- `Layout`: `fmt_num`, `fmt_answer`, `draw_page_problems` and `draw_page_answers`.
- `Worksheet`: `build_pdf`.

The parsers and helpers are pure, so they are functions with lemmas. `parse_number_set`
is proved in two forms: as a pure function, and as a method that follows the source's
two loops (`NumberSpec.ParseNumberSet`). `pick_problem`, the two page drawers and
`build_pdf` are loops, so they are methods with loop invariants, proved against the
predicates that specify their results.

## Model

| member | source | states |
|---|---|---|
| Text.Strip | app.py:324 | `str.strip()` leaves the middle of the text. Everything removed before and after it is whitespace, and what is left neither starts nor ends with whitespace. |
| Text.StripIdempotent | app.py:324 | Stripping twice is stripping once. |
| Text.StripEmptyIff | app.py:335-337 | A field strips to the empty string exactly when it is all whitespace. |
| Text.StripFixed | app.py:324 | A text with no whitespace at either end is its own strip. |
| Text.SplitJoin | app.py:376 | Joining the pieces of `split(",")` with commas gives back the text. |
| Text.JoinSplit | app.py:376 | Splitting comma-free pieces, once joined with commas, gives back those pieces. |
| Text.NatDigitsValue | app.py:584 | The decimal digits of a natural number read back as that number. |
| Text.FmtIntStripped | app.py:584 | `str(i)` has no surrounding whitespace. |
| Text.FmtInt | app.py:584 | `str(i)` on integers: a '-' for negatives, then the decimal digits; see `Text.NatDigitsValue` and `Text.FmtIntParses`. |
| Text.ParseInt | app.py:584 | `int(t)`: surrounding whitespace stripped, then an optional sign and ASCII digits; it reads back every `str(i)`, see `Text.FmtIntParses`. |
| Text.FmtIntParses | app.py:584 | `int(str(i).strip())` is `i` for every integer. |
| Numbers.NumLitIsNumRe | app.py:292 | The structural number grammar accepts a string exactly when it matches `NUM_RE`: an optional sign, then digits with an optional fraction, or a dot followed by digits. |
| Numbers.NumLitNoInnerMinus | app.py:292 | A number literal has no '-' after its first character. |
| Numbers.IsNumLit | app.py:292 | `NUM_RE.match(t)`; see `Numbers.NumLitIsNumRe`. |
| Numbers.LitValue | app.py:325-327 | `float(t)` of a number literal; see `Numbers.ParseNumberFmtInt` and `Numbers.FmtIntIsLit`. |
| Numbers.FmtIntIsLit | app.py:292 | `str(i)` is a number literal and denotes `i`. |
| Numbers.ParseNumber | app.py:323-327 | Succeeds exactly when the stripped token is a number literal, and then gives its value. Otherwise it fails with "Invalid number" for that token. |
| Numbers.ParseNumberFmtInt | app.py:323-327 | The text of every integer parses back to that integer. |
| Numbers.RoundHalfEven | app.py:331 | `round(x)` is within 1/2 of `x`, and on a tie it is even. |
| Numbers.RoundIsNearest | app.py:331 | No integer is closer to `x` than `round(x)`. |
| Numbers.RoundOfInteger | app.py:331 | An integer rounds to itself. |
| Numbers.IntLikeIff | app.py:330-331 | `is_int_like(x, tol)` holds exactly when some integer lies within `tol` of `x`. |
| Numbers.IntegerIsIntLike | app.py:330-331 | Every integer is int-like for any non-negative tolerance and rounds to itself. |
| Numbers.IntLike | app.py:330-331 | `is_int_like(x, tol)`; see `Numbers.IntLikeIff`. |
| Numbers.Key | app.py:359 | The dedup key `round(x, 12)`; see `Numbers.SameKeyClose` and `Numbers.IntegerKeysDistinct`. |
| Numbers.SameKeyClose | app.py:359 | Two numbers with the same dedup key `round(x, 12)` are within 1e-12 of each other. |
| Numbers.IntegerKeysDistinct | app.py:359 | Distinct integers have distinct dedup keys. |
| NumberSpec.TokensShape | app.py:339 | Tokens are non-empty and free of commas and whitespace, and together they spell the spec minus its separators. |
| NumberSpec.Tokens | app.py:339 | `[t for t in re.split(r"[,\s]+", s) if t.strip()]`; see `NumberSpec.TokensShape`, `NumberSpec.TokensSplit` and `NumberSpec.SingleToken`. |
| NumberSpec.SingleToken | app.py:339 | A non-empty word with no comma or whitespace is a single token. |
| NumberSpec.TokensSplit | app.py:339 | Every comma or whitespace character is a token boundary: the tokens of `u`, a separator, then `v` are the tokens of `u` followed by those of `v`. So `"1 2"` gives `"1"` and `"2"`, never `"12"`. |
| NumberSpec.TokensEmptyIff | app.py:339 | There are no tokens exactly when the spec is made of separators only. |
| NumberSpec.RangePartsIff | app.py:293 | A token splits into range endpoints exactly when it matches `RANGE_RE`, and the split is at the one '-' between the two literals. |
| NumberSpec.RangeSplitUnique | app.py:293 | A range token has only one way to split. |
| NumberSpec.RangeValues | app.py:349-351 | The range from `lo` to `hi` takes every integer step from `lo` towards `hi`, inclusive, in either direction. |
| NumberSpec.RangeValuesMeaning | app.py:349-351 | The range starts at `lo` and ends at `hi`. Consecutive values differ by one. It holds exactly the integers between the endpoints. |
| NumberSpec.RangeKeysDistinct | app.py:349-351 | The values of a range all have different dedup keys. |
| NumberSpec.ExpandRangeToken | app.py:343-351 | A range token with int-like endpoints expands to the range of their rounded values. Otherwise it fails with "Ranges require integer endpoints". |
| NumberSpec.ExpandScalarToken | app.py:352-353 | A token that is not a range is one number, or an "Invalid number" error. |
| NumberSpec.ExpandToken | app.py:343-353 | One token's values or error; see `NumberSpec.ExpandRangeToken`, `NumberSpec.ExpandScalarToken` and `NumberSpec.ExpansionDetermined`. |
| NumberSpec.ExpandAll | app.py:342-353 | All tokens' values in order, or the first token error; see `NumberSpec.ExpandAllError` and `NumberSpec.ExpandTokens`. |
| NumberSpec.ExpandAllError | app.py:342-353 | Expansion fails with error `e` exactly when some token fails with `e` and every earlier token succeeds. |
| NumberSpec.ExpandAllEmpty | app.py:342-353 | A successful expansion is empty only when there are no tokens. |
| NumberSpec.FirstIndex | app.py:356-363 | The first position holding a given key. |
| NumberSpec.Dedup | app.py:355-363 | The stable unique pass on keys `round(x, 12)`; see `NumberSpec.DedupUnique` and `NumberSpec.UniqueByKeyIsDedup`. |
| NumberSpec.DedupUnique | app.py:355-363 | The stable unique pass keeps exactly the first occurrence of each key, in input order. |
| NumberSpec.DedupKeySet | app.py:355-363 | The unique pass keeps every key and adds none. |
| NumberSpec.DedupFromInput | app.py:355-363 | Every kept value comes from the input. |
| NumberSpec.DedupKeysDistinct | app.py:355-363 | The kept values have pairwise distinct keys. |
| NumberSpec.DedupFirstOccurrences | app.py:355-363 | Each kept value is the first occurrence of its key, and kept values appear in input order. |
| NumberSpec.UniqueByKeyIsDedup | app.py:355-363 | Any sequence that keeps exactly the first occurrences of each key, in order, is the dedup. The specification therefore has one answer. |
| NumberSpec.DedupEmpty | app.py:365-366 | Dedup is empty only for empty input. |
| NumberSpec.DistinctKeysKept | app.py:355-363 | Input whose keys are already distinct passes through unchanged. |
| NumberSpec.NumberSet | app.py:334-367 | The whole `parse_number_set`. A successful result is never empty. |
| NumberSpec.ParseNumberSet | app.py:334-367 | Stripping, tokenizing, the token loop and the stable-unique loop, run in that order, compute exactly `NumberSet`. |
| NumberSpec.ExpandTokens | app.py:340-353 | The token loop, each token's values appended in turn and the first failing token ending the parse, computes exactly the expansion of all tokens. |
| NumberSpec.ExpandOne | app.py:343-353 | One pass of the token loop. A token matching `RANGE_RE` gives the integers between its rounded endpoints when both are int-like, and fails with "Ranges require integer endpoints" otherwise. Any other token gives the one value of its stripped literal, or fails with "Invalid number" for that token. |
| NumberSpec.ExpansionDetermined | app.py:343-353 | Those two cases decide a token's expansion completely. |
| NumberSpec.StableUnique | app.py:355-363 | The stable-unique loop with its `seen` set computes exactly the dedup: the first value of each key, in order. |
| NumberSpec.BlankSpecRefused | app.py:335-337 | A blank spec fails with "Empty number specification". |
| NumberSpec.NoValidNumbersIff | app.py:365-366 | "No valid numbers parsed" is raised exactly when the spec is not blank but holds only separators. |
| NumberSpec.ExpandAllErrorKind | app.py:342-353 | Token errors are only "Invalid number" or "Ranges require integer endpoints". |
| NumberSpec.NumberSetResult | app.py:334-367 | A successful result is the dedup of the expanded tokens. |
| NumberSpec.SingleRange | app.py:343-351 | A spec that is a single range with int-like endpoints gives that range. |
| NumberSpec.RangeTextParses | app.py:334-367 | `"lo-hi"`, written with `str`, parses to the full range from `lo` to `hi` for any integers. |
| Operators.SymbolCharRoundTrip | app.py:297 | Each of the seven operator symbols is recognised as itself. |
| Operators.SymbolOfText | app.py:380 | A piece passes the `OP_SYMBOLS` filter exactly when it is a single operator symbol. |
| Operators.InternalSynonyms | app.py:298-306 | `*`, `•` and `×` multiply. `/` and `÷` divide. `+` adds, and `-` subtracts. |
| Operators.Internal | app.py:298-306 | `OP_TO_INTERNAL`; see `Operators.InternalSynonyms`. |
| Operators.ParseOps | app.py:370-383 | A blank spec gives `["+"]`. Otherwise the result is the symbols that survive the filter of the stripped spec (per character, or per comma piece when it has a comma); it fails with "No valid operators" exactly when none survives. A successful list is never empty. |
| Operators.CharSymbolsCount | app.py:378-380 | Without commas, each symbol appears as often as its character appears in the spec. |
| Operators.CharSymbolsMembers | app.py:378-380 | Without commas, a symbol survives exactly when its character appears in the spec. |
| Operators.CharSymbolsAppend | app.py:378-380 | The character filter distributes over concatenation. |
| Operators.PieceSymbolsAppend | app.py:376-380 | The piece filter distributes over concatenation. |
| Operators.PieceSymbolsMembers | app.py:376-380 | With commas, a symbol survives exactly when some stripped piece is that symbol. |
| Operators.CharSymbolsOfText | app.py:378-380 | The character filter recovers the symbols of their written-out text. |
| Operators.PieceSymbolsOfPieces | app.py:376-380 | Recovers the symbols from their one-character pieces. |
| Operators.ParseOpsOfText | app.py:370-383 | Any non-empty operator list written out without commas (`"+-×"`) parses back to that list, order and repeats included. |
| Operators.ParseOpsOfPieces | app.py:370-383 | Any non-empty operator list written comma-separated parses back to that list. |
| Operators.DivisionOkIff | app.py:386-392 | `division_ok` holds exactly when `b` is non-zero and, if an integer is required, `a` is within `1e-9·|b|` of an integer multiple of `b`. |
| Operators.DivisionOk | app.py:386-392 | `division_ok(a, b, require_int)`; see `Operators.DivisionOkIff`. |
| Operators.ExactMultipleOk | app.py:386-392 | Dividing an exact multiple of a non-zero `b` is always accepted. |
| Operators.Apply | app.py:395-405 | Fails exactly when dividing by zero. A product is `a * b`; a sum, a difference and a quotient are each undone by the inverse operation. |
| Operators.ComputeAnswer | app.py:395-405 | `*`, `•` and `×` give `a * b`. `/` and `÷` fail exactly when `b` is zero and give `a / b` otherwise. `+` gives `a + b` and `-` gives `a - b`. |
| Operators.DivisionOkAnswers | app.py:386-405 | A division that passes `division_ok` has an answer, which is int-like within 1e-9 when integers are required. |
| Sampler.Choice | app.py:417-419 | `random.choice` returns a member of the list. |
| Sampler.Candidate | app.py:417-419 | The try `(a, op_symbol, b)` made of one `random.choice` from each list; see `Sampler.Choice` and `Sampler.PickProblem`. |
| Sampler.Acceptable | app.py:421-427 | The `division_ok` check for divisions and the non-negativity check for subtractions when negatives are avoided; see `Sampler.AcceptableHasAnswer`. |
| Sampler.PickProblem | app.py:408-434 | Uses at most `tries` draws. On success, the problem is the last try, taken from the lists. It passes the division and non-negativity checks, and every earlier try failed them. On failure ("Could not generate problems") all `tries` tries failed. |
| Sampler.AcceptableHasAnswer | app.py:421-427 | An accepted problem has an answer. It is non-negative for a subtraction when negatives are avoided, and int-like for a division when integer division is on. |
| Fallback.DefaultsParse | app.py:309-320 | The default specs parse: both number sets are 0..10 and the operators are `["+"]`. |
| Fallback.AppDefaults | app.py:309-320 | `defaults()`: "0-10", "0-10", "+", one page, answers, numbering, negatives allowed, integer division, "Math worksheet"; see `Fallback.DefaultsParse` and `Fallback.DefaultsNeverFail`. |
| Fallback.SafeParseNumberSet | app.py:568-572 | The user's number set when it parses, else the default's. |
| Fallback.SafeParseOps | app.py:575-579 | The user's operators when they parse, else the default's. |
| Fallback.SafeNumberSetSucceeds | app.py:568-572 | With a default that parses, a non-empty number set is always obtained. |
| Fallback.SafeOpsSucceeds | app.py:575-579 | With a default that parses, a non-empty operator list is always obtained. |
| Fallback.DefaultsNeverFail | app.py:309-320 | With the application's defaults the fallback never fails, whatever the user typed. |
| Fallback.SafeInt | app.py:582-589 | An integer that parses and lies in `[lo, hi]` is used; anything else gives the default. |
| Fallback.SafeIntInRange | app.py:582-589 | With an in-range default the result is always in range. |
| Fallback.SafeIntOfText | app.py:582-589 | Any in-range integer, written out, is taken as given. |
| Fallback.SafeHeader | app.py:592-597 | A missing or blank title gives the default; any other title is used stripped. |
| Fallback.SafeHeaderBlankIff | app.py:592-597 | Only a non-blank title replaces the default. What is then used is non-blank and stripped. |
| Fallback.SafeHeaderIdempotent | app.py:592-597 | Feeding the chosen title back in chooses it again. |
| Layout.FmtNum | app.py:437-440 | A number prints as a whole number exactly when it is within 1e-12 of an integer, and then the digits are `str` of its rounding. |
| Layout.FmtNumReadsBack | app.py:437-440 | A number printed as a whole number reads back within 1e-12 of itself. |
| Layout.FmtNumOfInteger | app.py:437-440 | An integer prints as its `str`. |
| Layout.PrefixShape | app.py:517 | The line number `f"{n:2d}) "` of lines 1 to 99 is four characters: the number right-aligned in two columns, then ") ". |
| Layout.Prefix | app.py:517 | `f"{n:2d}) "`; see `Layout.PrefixShape`. |
| Layout.ProblemLine | app.py:511-518 | The line drawn for problem `idx`: column `idx / 20`, row `idx % 20`, optional prefix, then `fmt_num(a) op fmt_num(b)`; see `Layout.LinePlacement` and `Layout.DrawProblemsPage`. |
| Layout.ColumnMajor | app.py:511-514 | `col * 20 + r` is an index of the page, and gives back its column and row. |
| Layout.PlacementBijective | app.py:511-514 | Each of the sixty indices has exactly one column and row. |
| Layout.AnswerLine | app.py:559-562 | An answers-page line is the problems-page line plus the answer, and the answer is `fmt_answer` of `compute_answer` of the problem. |
| Layout.AnswerReadsBack | app.py:559-562 | A whole answer printed on the answers page reads back within 1e-12 of the exact answer. |
| Layout.DrawProblemsPage | app.py:478-518 | Fails ("expected exactly 60 problems") exactly when given anything but sixty problems. Otherwise it draws line `k` for problem `k`, at column `k / 20`, row `k % 20`, numbered `k + 1` if numbering is on, under the given header and page number. |
| Layout.DrawAnswersPage | app.py:521-562 | Same count check. With sixty problems it fails exactly when some answer cannot be computed (division by zero). Otherwise line `k` is problem `k` with its answer. |
| Layout.LinePlacement | app.py:511-517 | Line `k` sits at a valid column and row that give back `k`, and carries prefix `k + 1` exactly when numbering is on. |
| Worksheet.HeadersDistinct | app.py:640-649 | With several worksheets, every problems and answers header is different from every other. |
| Worksheet.ProblemsNotAnswers | app.py:640-649 | With several worksheets, no problems header is an answers header. |
| Worksheet.ProblemsHeader | app.py:640 | The problems-page header, with " (Set n)" when there are several worksheets; see `Worksheet.HeadersDistinct`. |
| Worksheet.AnswersHeader | app.py:649 | The answers-page header, " – Answers" plus " (Set n)" when there are several worksheets; see `Worksheet.HeadersDistinct`. |
| Worksheet.FmtIntInjective | app.py:640 | `str(v) == str(w)` only when `v == w`. |
| Worksheet.SheetAppended | app.py:625-653 | Appending a correctly laid-out worksheet to a document of `w` worksheets gives one of `w + 1`. |
| Worksheet.SheetOkAppend | app.py:625-653 | A worksheet already in place stays in place when pages are appended. |
| Worksheet.PickAccepts | app.py:408-434 | A successful `pick_problem` call accepts the try at its last used position and rejects every earlier one since its start. |
| Worksheet.PickGivesUp | app.py:408-434 | A failed `pick_problem` call rejects all 50000 tries from its start. |
| Worksheet.AcceptsUnique | app.py:408-434 | A `pick_problem` call from a given stream position accepts at most one try, and then does not give up. |
| Worksheet.PicksAgree | app.py:627-637 | Two runs of consecutive `pick_problem` calls from the same position accept the same tries. |
| Worksheet.GiveUpIsFinal | app.py:627-637 | After a call that gives up, no run from the same position makes more picks. |
| Worksheet.PicksAppend | app.py:625-637 | A run that starts where another ended continues it. |
| Worksheet.DrawnAppend | app.py:625-637 | The problems of two such runs, one after the other, are the problems of the combined run. |
| Worksheet.DocProblemsAppend | app.py:625-653 | Appending pages leaves the problems of the worksheets already in place unchanged. |
| Worksheet.SampleSheet | app.py:627-637 | Sixty consecutive `pick_problem` calls from position `pos`. On success: sixty acceptable problems from the lists, problem `k` being the candidate at the `k`-th accepted position. On failure: fewer than sixty calls succeed, then the next call rejects all its tries. |
| Worksheet.DrawSheet | app.py:639-653 | A worksheet is a problems page and, with answers on, an answers page for the same problems. The headers are per worksheet, and the page numbers follow on from the current one. |
| Worksheet.SheetExtends | app.py:625-653 | One pass of the worksheet loop keeps the document laid out and its problems drawn from the stream in order. |
| Worksheet.GenerateSheets | app.py:622-653 | A successful run lays out `n` worksheets, pages numbered 1, 2, 3, …, each worksheet in its place, and its problems are the ones the stream gives from position 0. A failed run is a run of successful calls, fewer than `60 n`, followed by one that rejects all its tries. |
| Worksheet.DocProblemsLength | app.py:625-637 | Each worksheet of a laid-out document contributes sixty problems. |
| Worksheet.DocumentNotGaveUp | app.py:625-637 | A stream that gives a whole document of `n` worksheets has no giving-up call among those worksheets' `60 n` calls, so success and `Generation` failure exclude each other. |
| Worksheet.BuildDocument | app.py:600-653 | Each input list falls back to its default on its own. A failing a-list gives `BadNumbers` of its error; then a failing b-list gives `BadNumbers` of its error; then a failing operator list gives `BadOps` of its error. With all three parsed, the run either fails with `Generation` because one of its `60 · max(pages, 0)` calls of `pick_problem` gave up after the earlier ones succeeded, or holds `max(pages, 0)` worksheets built from the parsed lists and drawn from the stream. |

## Left out

- The Flask routes, the HTML form and request handling are not modelled. They are I/O around the core.
- ReportLab is not modelled: page geometry, fonts, coordinates, `showPage`, `save` and the returned bytes. A page is modelled as the list of lines it draws, in order, with its header and page number.
- `draw_header` and `draw_footer` are not modelled. Their text and position are presentation, and the model keeps only the header string and page number they receive.
- The date string is left out: `datetime.now()` is a clock.
- The random distribution is left out. `random.choice` is modelled as an index into the list taken from an injected stream of draws, so the model says which problems a run of draws gives and when it fails, not how likely either is.
- Floating point is not modelled. Numbers are exact reals, so float rounding in `a / b`, `a * b` and in `float(token)` is not captured. `round(x, 12)` is modelled as `round(x * 10^12)`.
- Numbers.NumLitIsNumRe: `NUM_RE` and `RANGE_RE` are compiled without `re.ASCII`, so Python's `\d` also matches non-ASCII Unicode decimal digits (Arabic-Indic, fullwidth and so on). The model's grammar accepts the ASCII digits 0-9 only.
- Numbers.ParseNumber: Python's `float()` likewise accepts non-ASCII Unicode decimal digits; the model reads ASCII digits only, so a token written with other digits is refused where the Python would accept it.
- Layout.FmtNum: the non-integer branch, `%.12g`, is kept as the number itself (`NumText.General`), not as its characters.
- Fallback.SafeInt: Python `int()` also accepts underscores between digits and non-ASCII digits. The model accepts only an optional sign and ASCII digits after stripping.
- The `(spec or "")` and `str(user_value)` coercions of non-string inputs are not modelled: inputs are strings, and only `safe_header`'s `None` is modelled (as `Option`).
- The "Unknown operator" branch of `compute_answer` and its `KeyError` are left out, because a `Symbol` is always one of the seven operators. The canvas error for these is therefore not modelled either.
- `fmt_answer` is identical to `fmt_num`, and both are modelled by `Layout.FmtNum`.
- The bounds on `pages` come from the route's `safe_int` call, outside `build_pdf`; `Worksheet.BuildDocument` takes any integer and treats a negative one as zero worksheets, as `range(1, pages + 1)` does.
- Worksheet.BuildDocument: when a default spec itself does not parse, the Python raises; the model returns `BadNumbers` or `BadOps` instead.
- The order in which `random.choice` is called within one try (operator, then `a`, then `b`) is fixed by `Sampler.Draw`. A draw's three indices are independent, so the order does not change what can be drawn.
