/** The gateway's exception filter: a dispatch from the kind of a thrown value to the HTTP status
    and JSON body written in reply. A handler that itself throws falls back to the catch-all 500
    reply. */
module ExceptionFilter {
  import opened Wrappers
  import opened JsValues
  import opened ErrorCodes
  import opened Validation
  import ImportParser

  /** One element of a bad-request response's `message`. */
  datatype MessageItem = ValidationItem(error: ValidationError) | OtherItem(text: string)

  /** The `message` of a bad-request response: the validator's errors as the validation pipe
      throws them, a plain message, or nothing. */
  datatype BadRequestMessage =
    | MessageList(items: seq<MessageItem>)
    | MessageText(text: string)
    | NoMessage

  /** The values that reach the filter. */
  datatype Exception =
    | DomainException(status: int, description: Json)
    | BadRequestException(message: BadRequestMessage)
    /** Any other `Error`, known by its `name` (`UnauthorizedException`, `TypeError`, ...). */
    | NamedError(name: string)
    /** The array of validation errors `validateOrReject` rejects with. */
    | ErrorArray(errors: seq<ValidationError>)

  const BadRequest := 400
  const Unauthorized := 401
  const InternalError := 500

  datatype Response = Response(status: int, body: Json)

  /** Every reply body: `status: 0` and the error description. */
  function Envelope(error: Json): Json {
    JObject([("status", JNumber(0)), ("error", error)])
  }

  function Code(c: ErrorCode): (string, Json) {
    ("code", JString(CodeName(c)))
  }

  /** The body is an envelope with `status: 0`. */
  predicate IsEnvelope(body: Json) {
    && body.JObject? && |body.members| == 2
    && body.members[0] == ("status", JNumber(0)) && body.members[1].0 == "error"
  }

  /** The description inside an envelope. */
  function ErrorOf(r: Response): Json
    requires IsEnvelope(r.body)
  {
    r.body.members[1].1
  }

  function HandleDomain(status: int, description: Json): Response {
    Response(status, Envelope(description))
  }

  function HandleUnauthorized(): Response {
    Response(Unauthorized, Envelope(JObject([("fields", JObject([("token", JString("REQUIRED"))])), Code(FormatError)])))
  }

  /** The field code of a validation error: the table's entry under the message of its first
      constraint, else `FORMAT_ERROR`. */
  function FieldCode(e: ValidationError): (r: string)
    ensures ErrorCodesAt(r) == Some(r)
    ensures LookupCode(r).Some?
  {
    var found :=
      if e.constraints.Some? && |e.constraints.value| > 0
      then ErrorCodesAt(e.constraints.value[0].message)
      else None;
    if found.Some? then
      ErrorCodesAgree(e.constraints.value[0].message);
      found.value
    else
      LookupCodeIff(CodeName(FormatError), FormatError);
      ErrorCodesAgree(CodeName(FormatError));
      CodeName(FormatError)
  }

  function Fields(key: string, code: string): (string, Json) {
    ("fields", JObject([(key, JString(code))]))
  }

  /** The bad-request handler; reading `[0]` of a missing message throws. */
  function HandleBadRequest(message: BadRequestMessage): Option<Response> {
    match message
    case NoMessage => None
    case MessageList(items) =>
      if |items| > 0 && items[0].ValidationItem? then
        var e := items[0].error;
        Some(Response(BadRequest, Envelope(JObject([Fields(e.property, FieldCode(e)), Code(MalformedRequest)]))))
      else Some(Response(BadRequest, Envelope(JObject([Code(MalformedRequest)]))))
    case MessageText(_) => Some(Response(BadRequest, Envelope(JObject([Code(MalformedRequest)]))))
  }

  function HandleOthers(): Response {
    Response(InternalError, Envelope(JObject([Code(InternalServerError)])))
  }

  /** The import label of a canonical property name; a name the table lacks becomes the key
      `"undefined"`, as a computed key of `undefined` does. */
  function LabelOf(property: string): string {
    if property in ImportParser.ReverseFieldMap then ImportParser.ReverseFieldMap[property] else "undefined"
  }

  /** The validation-array handler as the call and the handler together evidently intend: the
      first error's property, under its import label, with `FORMAT_ERROR`. */
  function HandleValidation(e: ValidationError): Response {
    Response(BadRequest, Envelope(JObject([Fields(LabelOf(e.property), CodeName(FormatError)), Code(MalformedRequest)])))
  }

  /** The dispatch, in its order of tests; `None` is a handler that threw. The validation-array
      handler is given the first error and indexes it again: a validation error has no element
      `0`, so reading `.property` of `undefined` throws. */
  function DispatchAsWritten(e: Exception): Option<Response> {
    match e
    case DomainException(status, description) => Some(HandleDomain(status, description))
    case NamedError(name) => if name == "UnauthorizedException" then Some(HandleUnauthorized()) else Some(HandleOthers())
    case BadRequestException(message) => HandleBadRequest(message)
    case ErrorArray(errors) => if |errors| > 0 then None else Some(HandleOthers())
  }

  /** `DomainExceptionFilter.catch` as written. */
  function CatchAsWritten(e: Exception): (r: Response)
    ensures IsEnvelope(r.body)
    ensures e.ErrorArray? ==> r == HandleOthers()
  {
    DispatchAsWritten(e).GetOr(HandleOthers())
  }

  /** The dispatch with the validation-array handler reading the first error once. */
  function Dispatch(e: Exception): Option<Response> {
    match e
    case ErrorArray(errors) => if |errors| > 0 then Some(HandleValidation(errors[0])) else Some(HandleOthers())
    case _ => DispatchAsWritten(e)
  }

  /** The filter with the validation-array path corrected; every other path is as written. */
  function Catch(e: Exception): (r: Response)
    ensures IsEnvelope(r.body)
    ensures r.status in {BadRequest, Unauthorized, InternalError} || e.DomainException?
  {
    Dispatch(e).GetOr(HandleOthers())
  }

  /** A domain exception is answered with exactly its own status and description. */
  lemma DomainPassthrough(status: int, description: Json)
    ensures Catch(DomainException(status, description)).status == status
    ensures ErrorOf(Catch(DomainException(status, description))) == description
  {
  }

  /** Only an error named `UnauthorizedException` gets 401, always with the token field and
      `FORMAT_ERROR`. */
  lemma UnauthorizedReply(e: Exception)
    ensures Catch(e).status == Unauthorized && !e.DomainException? <==> e == NamedError("UnauthorizedException")
    ensures e == NamedError("UnauthorizedException") ==>
      ErrorOf(Catch(e)) == JObject([("fields", JObject([("token", JString("REQUIRED"))])), ("code", JString("FORMAT_ERROR"))])
  {
    KeyNames();
  }

  /** A bad request that carries a validation error first reports that error's property with its
      field code and `MALFORMED_REQUEST`; any other bad request reports only the code; one
      without a message ends in the catch-all reply. */
  lemma BadRequestReply(message: BadRequestMessage)
    ensures message.NoMessage? ==> Catch(BadRequestException(message)) == HandleOthers()
    ensures message.MessageList? && |message.items| > 0 && message.items[0].ValidationItem? ==>
      var e := message.items[0].error;
      Catch(BadRequestException(message)).status == BadRequest
      && ErrorOf(Catch(BadRequestException(message)))
         == JObject([("fields", JObject([(e.property, JString(FieldCode(e)))])), ("code", JString("MALFORMED_REQUEST"))])
    ensures (message.MessageText? || (message.MessageList? && (|message.items| == 0 || message.items[0].OtherItem?))) ==>
      Catch(BadRequestException(message)).status == BadRequest
      && ErrorOf(Catch(BadRequestException(message))) == JObject([("code", JString("MALFORMED_REQUEST"))])
  {
  }

  /** A first constraint whose message is a code is reported with that code; any other first
      message, and an error without constraints, is reported as `FORMAT_ERROR`. */
  lemma FieldCodeOfMessage(e: ValidationError)
    ensures e.constraints.Some? && |e.constraints.value| > 0 && LookupCode(e.constraints.value[0].message).Some? ==>
      FieldCode(e) == e.constraints.value[0].message
    ensures e.constraints.Some? && |e.constraints.value| > 0 && LookupCode(e.constraints.value[0].message).None? ==>
      FieldCode(e) == "FORMAT_ERROR"
    ensures e.constraints.None? || e.constraints == Some([]) ==> FieldCode(e) == "FORMAT_ERROR"
  {
    if e.constraints.Some? && |e.constraints.value| > 0 {
      ErrorCodesAgree(e.constraints.value[0].message);
    }
    KeyNames();
  }

  lemma FieldCodeOfCode(property: string, c: ErrorCode, rest: seq<Constraint>, key: string, children: seq<ValidationError>)
    ensures FieldCode(ValidationError(property, Some([Constraint(key, CodeName(c))] + rest), children)) == CodeName(c)
  {
    LookupCodeIff(CodeName(c), c);
    ErrorCodesAgree(CodeName(c));
  }

  lemma FieldCodeOfDefault(property: string, sentence: string, rest: seq<Constraint>, key: string,
                           children: seq<ValidationError>)
    ensures FieldCode(ValidationError(property, Some([Constraint(key, DefaultMessage(property, sentence))] + rest), children))
         == "FORMAT_ERROR"
  {
    DefaultMessageIsNoCode(property, sentence);
    ErrorCodesAgree(DefaultMessage(property, sentence));
    KeyNames();
  }

  /** Every other error gets the catch-all 500 reply. */
  lemma OthersReply(name: string)
    requires name != "UnauthorizedException"
    ensures Catch(NamedError(name)) == HandleOthers()
    ensures ErrorOf(HandleOthers()) == JObject([("code", JString("ITERNAL_SERVER_ERROR"))])
  {
  }

  /** As written, an array of validation errors always ends in the 500 reply; the corrected
      filter answers a non-empty one with 400 and the first error's import label. The two agree
      on every other exception. */
  lemma ValidationArrayAsWritten(errors: seq<ValidationError>)
    ensures CatchAsWritten(ErrorArray(errors)).status == InternalError
    ensures |errors| > 0 ==>
      Catch(ErrorArray(errors)).status == BadRequest
      && ErrorOf(Catch(ErrorArray(errors)))
         == JObject([("fields", JObject([(LabelOf(errors[0].property), JString("FORMAT_ERROR"))])),
                     ("code", JString("MALFORMED_REQUEST"))])
  {
    assert DispatchAsWritten(ErrorArray(errors)) == if |errors| > 0 then None else Some(HandleOthers());
    if |errors| > 0 {
      assert Dispatch(ErrorArray(errors)) == Some(HandleValidation(errors[0]));
      KeyNames();
    }
  }

  /** The keys the replies are written with. */
  lemma KeyNames()
    ensures CodeName(FormatError) == "FORMAT_ERROR" && CodeName(MalformedRequest) == "MALFORMED_REQUEST"
    ensures CodeName(InternalServerError) == "ITERNAL_SERVER_ERROR"
  {
  }

  lemma CorrectionIsLocal(e: Exception)
    requires !e.ErrorArray? || e.errors == []
    ensures Catch(e) == CatchAsWritten(e)
  {
  }

  /** The year of an import block that fails validation is reported under its import label. */
  lemma YearReportedUnderLabel(e: ValidationError, rest: seq<ValidationError>)
    requires e.property == "year"
    ensures ErrorOf(Catch(ErrorArray([e] + rest)))
         == JObject([("fields", JObject([("release year", JString("FORMAT_ERROR"))])),
                     ("code", JString("MALFORMED_REQUEST"))])
  {
    ValidationArrayAsWritten([e] + rest);
    assert ([e] + rest)[0] == e;
    assert LabelOf("year") == "release year";
  }
}
