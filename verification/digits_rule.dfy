/** The `digits` validation rule: a value passes when it is absent, or when its text is made
    only of the digits 0-9 and their count is exactly `n` ("digits:n") or lies between `min`
    and `max` inclusive ("digits:min,max"). A parameter that names no such count is a
    configuration error, kept apart from a validation failure. */
module DigitsRule {
  import opened Results
  import opened JavaText

  /** Which check of the parameter failed; each stands for one IllegalArgumentException. */
  datatype ConfigReason =
    | MissingParameter  // the parameter is null or empty
    | RangeArity        // a parameter with a comma does not split into exactly two parts
    | NotAnInteger      // a part, once trimmed, is not a Java int
    | NotPositive       // a count is below 1
    | MinAboveMax       // the range's minimum exceeds its maximum

  /** The three ways `validate` can end: it returns null, returns a message, or throws. */
  datatype Outcome = Pass | Fail(message: string) | ConfigError(reason: ConfigReason)

  /** The accepted digit counts, both ends inclusive; an exact count has `min == max`. */
  datatype Bounds = Bounds(min: int, max: int)

  /** The name under which the rule is registered and written in a rule expression
      ("digits:4"); a rule expression splits on '|' and then on the first ':', so the name
      holds neither. */
  function Name(): (r: string)
    ensures r != [] && '|' !in r && ':' !in r
  {
    "digits"
  }

  /** Reads an exact count "n": the trimmed text must be a Java int of at least 1. */
  function ReadExact(p: string): (r: Result<Bounds, ConfigReason>)
    ensures r.Success? ==> 1 <= r.value.min == r.value.max <= IntMax
    ensures r.Success? ==> ParseInt(Trim(p)) == Some(r.value.min)
    ensures r.Failure? ==> r.error in {NotAnInteger, NotPositive}
    ensures r == Failure(NotAnInteger) <==> ParseInt(Trim(p)).None?
  {
    match ParseInt(Trim(p))
    case None => Failure(NotAnInteger)
    case Some(n) => if n < 1 then Failure(NotPositive) else Success(Bounds(n, n))
  }

  /** Reads the two sides of a range "min,max": each trimmed side must be a Java int, both
      at least 1, and min no greater than max, checked in that order. */
  function ReadRange(first: string, second: string): (r: Result<Bounds, ConfigReason>)
    ensures r.Success? ==> 1 <= r.value.min <= r.value.max <= IntMax
    ensures r.Success? ==> ParseInt(Trim(first)) == Some(r.value.min) && ParseInt(Trim(second)) == Some(r.value.max)
    ensures r.Failure? ==> r.error in {NotAnInteger, NotPositive, MinAboveMax}
    ensures r == Failure(NotAnInteger) <==> ParseInt(Trim(first)).None? || ParseInt(Trim(second)).None?
  {
    var lo := ParseInt(Trim(first));
    var hi := ParseInt(Trim(second));
    if lo.None? || hi.None? then Failure(NotAnInteger)
    else if lo.value < 1 || hi.value < 1 then Failure(NotPositive)
    else if lo.value > hi.value then Failure(MinAboveMax)
    else Success(Bounds(lo.value, hi.value))
  }

  /** Reads the rule's parameter: null or empty is missing; text with a comma is a range that
      must split into exactly two parts; any other text is an exact count. */
  function ParseParameter(parameter: Option<string>): (r: Result<Bounds, ConfigReason>)
    ensures r.Success? ==> 1 <= r.value.min <= r.value.max <= IntMax
    ensures r == Failure(MissingParameter) <==> parameter.None? || parameter.value == []
    // An exact parameter reads as the number parseInt finds in its trimmed text.
    ensures r.Success? && ',' !in parameter.value ==>
      r.value.min == r.value.max && ParseInt(Trim(parameter.value)) == Some(r.value.min)
  {
    if parameter.None? || parameter.value == [] then Failure(MissingParameter)
    else if ',' in parameter.value then
      var parts := Split(parameter.value, ',');
      if |parts| != 2 then Failure(RangeArity) else ReadRange(parts[0], parts[1])
    else
      ReadExact(parameter.value)
  }

  /** The value's text is one or more of the digits 0-9 (what the regular expression \d+
      matches in full). */
  predicate IsDigitString(s: string) {
    s != [] && AllDigits(s)
  }

  /** The value's text is all digits and its length lies within the bounds. */
  predicate Accepts(b: Bounds, s: string) {
    IsDigitString(s) && b.min <= |s| <= b.max
  }

  function OnlyDigitsMessage(fieldName: string): string {
    "The " + fieldName + " must contain only digits."
  }

  function ExactMessage(fieldName: string, n: int): string {
    "The " + fieldName + " must be exactly " + IntToString(n) + " digits."
  }

  function RangeMessage(fieldName: string, lo: int, hi: int): string {
    "The " + fieldName + " must be between " + IntToString(lo) + " and " + IntToString(hi) + " digits."
  }

  /** DigitsRule.validate. `value` is the field's value already turned into text by its
      toString (`None` for null). */
  function Validate(fieldName: string, value: Option<string>, parameter: Option<string>): (r: Outcome)
    // A null value passes, whatever the parameter: nulls are the 'required' rule's concern.
    ensures value.None? ==> r == Pass
    // For a present value, the parameter decides alone whether the call is a configuration
    // error, so a bad parameter is reported even when the value would also fail.
    ensures value.Some? ==> (r.ConfigError? <==> ParseParameter(parameter).Failure?)
    ensures r.ConfigError? ==> r == ConfigError(ParseParameter(parameter).error)
    // With a usable parameter, any non-digit character, or no character at all, fails first.
    ensures (value.Some? && ParseParameter(parameter).Success? && !IsDigitString(value.value))
      ==> r == Fail(OnlyDigitsMessage(fieldName))
    // Overall: the value passes exactly when it is null or all digits of an accepted length.
    ensures r == Pass <==>
      (value.None? || (ParseParameter(parameter).Success? && Accepts(ParseParameter(parameter).value, value.value)))
  {
    match value
    case None => Pass
    case Some(v) =>
      match ParseParameter(parameter)
      case Failure(reason) => ConfigError(reason)
      case Success(b) =>
        if !IsDigitString(v) then Fail(OnlyDigitsMessage(fieldName))
        else if b.min == b.max then
          if |v| != b.min then Fail(ExactMessage(fieldName, b.min)) else Pass
        else if |v| < b.min || |v| > b.max then Fail(RangeMessage(fieldName, b.min, b.max))
        else Pass
  }
}
