/** The form defaults and the field-wise fallback helpers `safe_parse_number_set`,
    `safe_parse_ops`, `safe_int` and `safe_header`. */
module Fallback {
  import opened Wrappers
  import opened Text
  import opened Numbers
  import opened NumberSpec
  import opened Operators

  /** The dictionary `defaults()` returns. */
  datatype Defaults = Defaults(
    a: string, b: string, ops: string, pages: int,
    answers: bool, numbered: bool, avoidNegative: bool, integerDivision: bool,
    title: string)

  function AppDefaults(): Defaults {
    Defaults("0-10", "0-10", "+", 1, true, true, false, true, "Math worksheet")
  }

  /** `str(0) + "-" + str(10)` is the default range text. */
  lemma DefaultRangeText()
    ensures FmtInt(0) + "-" + FmtInt(10) == "0-10"
  {
    assert NatDigits(1) == "1";
    assert NatDigits(10) == NatDigits(1) + [DigitChar(0)];
  }

  /** The defaults parse: both number sets are 0..10 and the operators are just '+'. */
  lemma DefaultsParse()
    ensures NumberSet(AppDefaults().a) == Ok(RangeValues(0, 10))
    ensures NumberSet(AppDefaults().b) == Ok(RangeValues(0, 10))
    ensures ParseOps(AppDefaults().ops) == Ok([Plus])
  {
    DefaultNumbersParse();
    DefaultOpsParse();
  }

  lemma DefaultNumbersParse()
    ensures NumberSet(AppDefaults().a) == Ok(RangeValues(0, 10))
    ensures NumberSet(AppDefaults().b) == Ok(RangeValues(0, 10))
  {
    DefaultRangeText();
    RangeTextParses(0, 10);
  }

  lemma DefaultOpsParse()
    ensures ParseOps(AppDefaults().ops) == Ok([Plus])
  {
    assert OpsText([Plus]) == "+";
    ParseOpsOfText([Plus]);
  }

  /** `safe_parse_number_set`: the user's set if it parses, else the default's. */
  function SafeParseNumberSet(userSpec: string, defaultSpec: string): (r: Result<seq<real>, NumError>)
    ensures NumberSet(userSpec).Ok? ==> r == NumberSet(userSpec)
    ensures NumberSet(userSpec).Err? ==> r == NumberSet(defaultSpec)
  {
    match NumberSet(userSpec)
    case Ok(v) => Ok(v)
    case Err(_) => NumberSet(defaultSpec)
  }

  /** `safe_parse_ops`: the user's operators if they parse, else the default's. */
  function SafeParseOps(userSpec: string, defaultSpec: string): (r: Result<seq<Symbol>, OpsError>)
    ensures ParseOps(userSpec).Ok? ==> r == ParseOps(userSpec)
    ensures ParseOps(userSpec).Err? ==> r == ParseOps(defaultSpec)
  {
    match ParseOps(userSpec)
    case Ok(v) => Ok(v)
    case Err(_) => ParseOps(defaultSpec)
  }

  /** A default that parses makes the fallback total, and its result is never empty. */
  lemma SafeNumberSetSucceeds(userSpec: string, defaultSpec: string)
    requires NumberSet(defaultSpec).Ok?
    ensures SafeParseNumberSet(userSpec, defaultSpec).Ok? && |SafeParseNumberSet(userSpec, defaultSpec).value| > 0
  {
  }

  lemma SafeOpsSucceeds(userSpec: string, defaultSpec: string)
    requires ParseOps(defaultSpec).Ok?
    ensures SafeParseOps(userSpec, defaultSpec).Ok? && |SafeParseOps(userSpec, defaultSpec).value| > 0
  {
  }

  /** With the application's defaults a number set or operator list is always obtained. */
  lemma DefaultsNeverFail(aSpec: string, bSpec: string, opsSpec: string)
    ensures SafeParseNumberSet(aSpec, AppDefaults().a).Ok? && SafeParseNumberSet(bSpec, AppDefaults().b).Ok?
    ensures SafeParseOps(opsSpec, AppDefaults().ops).Ok?
  {
    DefaultsParse();
    SafeNumberSetSucceeds(aSpec, AppDefaults().a);
    SafeNumberSetSucceeds(bSpec, AppDefaults().b);
    SafeOpsSucceeds(opsSpec, AppDefaults().ops);
  }

  /** `safe_int`: the integer the text spells when it lies in `[lo, hi]`, else the default. */
  function SafeInt(userValue: string, defaultValue: int, lo: int, hi: int): (r: int)
    ensures r != defaultValue ==> ParseInt(userValue) == Some(r) && lo <= r <= hi
    ensures ParseInt(userValue).Some? && lo <= ParseInt(userValue).value <= hi ==> r == ParseInt(userValue).value
    ensures ParseInt(userValue).None? ==> r == defaultValue
    ensures ParseInt(userValue).Some? && !(lo <= ParseInt(userValue).value <= hi) ==> r == defaultValue
  {
    match ParseInt(userValue)
    case None => defaultValue
    case Some(v) => if v < lo || v > hi then defaultValue else v
  }

  /** With an in-range default, the result is always in range. */
  lemma SafeIntInRange(userValue: string, defaultValue: int, lo: int, hi: int)
    requires lo <= defaultValue <= hi
    ensures lo <= SafeInt(userValue, defaultValue, lo, hi) <= hi
  {
  }

  /** Any in-range integer written out is taken as given. */
  lemma SafeIntOfText(i: int, defaultValue: int, lo: int, hi: int)
    requires lo <= i <= hi
    ensures SafeInt(FmtInt(i), defaultValue, lo, hi) == i
  {
    FmtIntParses(i);
  }

  /** `safe_header`: the stripped title unless it is missing or blank. */
  function SafeHeader(userValue: Option<string>, defaultValue: string): (r: string)
    ensures userValue.Some? && Strip(userValue.value) != [] ==> r == Strip(userValue.value)
    ensures userValue.None? || Strip(userValue.value) == [] ==> r == defaultValue
  {
    if userValue.None? then defaultValue
    else
      var s := Strip(userValue.value);
      if s != [] then s else defaultValue
  }

  /** A title that is not blank is never replaced, and what is used is never blank
      unless the default is. */
  lemma SafeHeaderBlankIff(userValue: Option<string>, defaultValue: string)
    ensures SafeHeader(userValue, defaultValue) == defaultValue ||
      (userValue.Some? && !AllSpace(userValue.value))
    ensures userValue.Some? && !AllSpace(userValue.value) ==>
      !AllSpace(SafeHeader(userValue, defaultValue)) && Strip(SafeHeader(userValue, defaultValue)) == SafeHeader(userValue, defaultValue)
  {
    if userValue.Some? {
      StripEmptyIff(userValue.value);
      var s := Strip(userValue.value);
      StripIdempotent(userValue.value);
      StripEmptyIff(s);
    }
  }

  /** Feeding the chosen title back in chooses it again. */
  lemma SafeHeaderIdempotent(userValue: Option<string>, defaultValue: string)
    requires Strip(defaultValue) == defaultValue
    ensures SafeHeader(Some(SafeHeader(userValue, defaultValue)), defaultValue) == SafeHeader(userValue, defaultValue)
  {
    var h := SafeHeader(userValue, defaultValue);
    if h == defaultValue {
      assert SafeHeader(Some(h), defaultValue) == defaultValue;
    } else {
      var s := Strip(userValue.value);
      assert h == s;
      StripIdempotent(userValue.value);
      assert Strip(h) == h;
    }
  }
}
