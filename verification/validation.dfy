/** The vocabulary of the validation library the request classes use: one failed constraint, the
    error reported for one property, and the checks that produce them. */
module Validation {
  import opened Wrappers
  import opened ErrorCodes
  import Strings

  /** A failed constraint: the validator's key and the message reported for it. */
  datatype Constraint = Constraint(key: string, message: string)

  /** The error reported for one property: the constraints it failed (absent when only nested
      values failed) and the errors of nested values. */
  datatype ValidationError = ValidationError(
    property: string,
    constraints: Option<seq<Constraint>>,
    children: seq<ValidationError>)

  /** One decorator's verdict on a property's value. */
  datatype Check = Check(constraint: Constraint, holds: bool)

  /** The constraints of the checks that fail, in the order the checks are listed. */
  function Failures(checks: seq<Check>): (r: seq<Constraint>)
    ensures |r| <= |checks|
    ensures r == [] <==> forall i :: 0 <= i < |checks| ==> checks[i].holds
    ensures |checks| > 0 && !checks[0].holds ==> |r| > 0 && r[0] == checks[0].constraint
    ensures |checks| > 0 && checks[0].holds ==> r == Failures(checks[1..])
  {
    if |checks| == 0 then []
    else if checks[0].holds then Failures(checks[1..])
    else [checks[0].constraint] + Failures(checks[1..])
  }

  /** The error for `property` when at least one of its checks fails. */
  function PropertyError(property: string, checks: seq<Check>): (r: Option<ValidationError>)
    ensures r.None? <==> forall i :: 0 <= i < |checks| ==> checks[i].holds
    ensures r.Some? ==> r.value.property == property && r.value.constraints == Some(Failures(checks))
  {
    var failed := Failures(checks);
    if failed == [] then None else Some(ValidationError(property, Some(failed), []))
  }

  /** The errors present, in order. */
  function Collect(errors: seq<Option<ValidationError>>): (r: seq<ValidationError>)
    ensures r == [] <==> forall i :: 0 <= i < |errors| ==> errors[i].None?
    ensures |errors| > 0 && errors[0].Some? ==> |r| > 0 && r[0] == errors[0].value
    ensures |errors| > 0 && errors[0].None? ==> r == Collect(errors[1..])
    ensures forall e :: e in r ==> Some(e) in errors
  {
    if |errors| == 0 then []
    else if errors[0].Some? then [errors[0].value] + Collect(errors[1..])
    else Collect(errors[1..])
  }

  /** A message taken from the error-code table. */
  function CodeMessage(c: ErrorCode): string {
    CodeName(c)
  }

  /** The library's own message for a failed constraint: the property name followed by a
      sentence. */
  function DefaultMessage(property: string, sentence: string): string {
    property + " " + sentence
  }

  /** A library message is never a key of the error-code table. */
  lemma DefaultMessageIsNoCode(property: string, sentence: string)
    ensures LookupCode(DefaultMessage(property, sentence)) == None
  {
    var m := DefaultMessage(property, sentence);
    assert m[|property|] == ' ';
    LookupWithSpaceFails(m);
  }

  /** `@IsNotEmpty`: the value is present and not the empty string. */
  function IsNotEmpty(property: string, value: Option<string>, message: Option<ErrorCode>): Check {
    Check(Constraint("isNotEmpty", MessageOr(message, property, "should not be empty")),
          value.Some? && value.value != "")
  }

  /** `@IsString`: the value is a string (absent values are not). */
  function IsString(property: string, value: Option<string>): Check {
    Check(Constraint("isString", DefaultMessage(property, "must be a string")), value.Some?)
  }

  /** The custom message when the decorator names one, else the library's. */
  function MessageOr(message: Option<ErrorCode>, property: string, sentence: string): string {
    match message
    case Some(c) => CodeMessage(c)
    case None => DefaultMessage(property, sentence)
  }

  /** `value?.trim()`: trims a present string and leaves an absent one absent. */
  function TrimOption(value: Option<string>): (r: Option<string>)
    ensures r.Some? <==> value.Some?
  {
    match value
    case Some(s) => Some(Strings.Trim(s))
    case None => None
  }
}
