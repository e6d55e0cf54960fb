/** The movie request class: the three formats, the rules every field of a create or update request
    must satisfy, and the validated request the catalogue operations receive. */
module MovieDto {
  import opened Wrappers
  import opened Strings
  import opened JsValues
  import opened ErrorCodes
  import opened Validation

  datatype MovieFormat = Vhs | Dvd | BluRay

  function FormatName(f: MovieFormat): string {
    match f
    case Vhs => "VHS"
    case Dvd => "DVD"
    case BluRay => "Blu-ray"
  }

  /** The format whose name is exactly `s`; the comparison is case-sensitive. */
  function FormatFromName(s: string): (r: Option<MovieFormat>)
    ensures r.Some? <==> s == "VHS" || s == "DVD" || s == "Blu-ray"
    ensures r.Some? ==> FormatName(r.value) == s
  {
    if s == "VHS" then Some(Vhs)
    else if s == "DVD" then Some(Dvd)
    else if s == "Blu-ray" then Some(BluRay)
    else None
  }

  lemma FormatNameRoundTrip(f: MovieFormat)
    ensures FormatFromName(FormatName(f)) == Some(f)
  {
  }

  /** The plain object a request body or an import block supplies, before any transformation;
      `None` is a missing property. */
  datatype MovieInput = MovieInput(
    title: Option<string>,
    year: Option<JsNumber>,
    format: Option<string>,
    actors: Option<seq<string>>)

  /** A request that passed validation: what `create` and `update` receive. */
  datatype MovieRequest = MovieRequest(
    title: string,
    year: int,
    format: MovieFormat,
    actors: Option<seq<string>>)

  /** The `@Transform` steps: title and format are trimmed. The actors transform wraps each
      string in an actor object whose name is that string; the model represents such an actor
      by its name, so the list of names is left as it is. */
  function Transform(input: MovieInput): MovieInput {
    input.(title := TrimOption(input.title), format := TrimOption(input.format))
  }

  const MinYear := 1900
  const MaxYear := 2100

  predicate IsActorNameChar(c: char) {
    ('a' <= c <= 'z') || ('A' <= c <= 'Z') || IsWhitespace(c) || c == '-'
  }

  /** The rule for one actor name: non-empty, and every character an ASCII letter, white space or
      a hyphen (the case-insensitive pattern `^[a-z\s-]+$`). */
  predicate ValidActorName(name: string) {
    |name| > 0 && forall i :: 0 <= i < |name| ==> IsActorNameChar(name[i])
  }

  predicate ValidYear(year: Option<JsNumber>) {
    year.Some? && year.value.Integer? && MinYear <= year.value.value <= MaxYear
  }

  /** The movie rules stated directly on the untransformed input. */
  predicate IsValidMovie(input: MovieInput) {
    && input.title.Some? && Trim(input.title.value) != ""
    && ValidYear(input.year)
    && input.format.Some? && FormatFromName(Trim(input.format.value)).Some?
    && (input.actors.Some? ==>
          forall i :: 0 <= i < |input.actors.value| ==> ValidActorName(input.actors.value[i]))
  }

  function TitleChecks(title: Option<string>): seq<Check> {
    [IsNotEmpty("title", title, None), IsString("title", title)]
  }

  /** The year decorators; both range checks carry their own error code. */
  function YearChecks(year: Option<JsNumber>): seq<Check> {
    var isInt := year.Some? && year.value.Integer?;
    [ Check(Constraint("isNotEmpty", DefaultMessage("year", "should not be empty")), year.Some?),
      Check(Constraint("min", CodeMessage(MovieYearBiggerThan1900)), isInt && year.value.value >= MinYear),
      Check(Constraint("max", CodeMessage(MovieYearLessThan2100)), isInt && year.value.value <= MaxYear),
      Check(Constraint("isInt", DefaultMessage("year", "must be an integer number")), isInt) ]
  }

  function FormatChecks(format: Option<string>): seq<Check> {
    [ IsNotEmpty("format", format, None),
      Check(Constraint("isIn", DefaultMessage("format", "must be one of the following values: VHS, DVD, Blu-ray")),
            format.Some? && FormatFromName(format.value).Some?),
      IsString("format", format) ]
  }

  function ActorChecks(name: string): seq<Check> {
    [ IsNotEmpty("name", Some(name), None),
      Check(Constraint("matches", DefaultMessage("name", "must match /^[a-z\\s-]+$/i regular expression")),
            ValidActorName(name)),
      IsString("name", Some(name)) ]
  }

  /** The nested error for the actor at `index`, reported under its index. */
  function ActorError(index: nat, name: string): (r: Option<ValidationError>)
    ensures r.None? <==> ValidActorName(name)
  {
    match PropertyError("name", ActorChecks(name))
    case Some(e) => Some(ValidationError(NatToString(index), None, [e]))
    case None => None
  }

  /** The error for the `actors` property: no constraints of its own, one child per invalid
      actor. A missing cast is not validated. */
  function ActorsError(actors: Option<seq<string>>): Option<ValidationError> {
    match actors
    case None => None
    case Some(names) =>
      var children := Collect(seq(|names|, i requires 0 <= i < |names| => ActorError(i, names[i])));
      if children == [] then None else Some(ValidationError("actors", None, children))
  }

  /** The errors the validator reports for a movie input, one per failing property, in the order
      the properties are declared. */
  function MovieErrors(input: MovieInput): seq<ValidationError> {
    var d := Transform(input);
    Collect([ PropertyError("title", TitleChecks(d.title)),
              PropertyError("year", YearChecks(d.year)),
              PropertyError("format", FormatChecks(d.format)),
              ActorsError(d.actors) ])
  }

  /** The actors property passes exactly when it is missing or every name is valid. */
  lemma ActorsRule(actors: Option<seq<string>>)
    ensures ActorsError(actors).None? <==>
      (actors.Some? ==> forall i :: 0 <= i < |actors.value| ==> ValidActorName(actors.value[i]))
  {
    if actors.Some? {
      var names := actors.value;
      var errs := seq(|names|, i requires 0 <= i < |names| => ActorError(i, names[i]));
      assert forall i :: 0 <= i < |names| ==> (errs[i].None? <==> ValidActorName(names[i]));
    }
  }

  /** The title passes exactly when it is present and non-empty once trimmed. */
  lemma TitleRule(title: Option<string>)
    ensures PropertyError("title", TitleChecks(TrimOption(title))).None? <==>
      title.Some? && Trim(title.value) != ""
  {
  }

  /** The format passes exactly when, trimmed, it is one of the three names, letter case
      included. */
  lemma FormatRule(format: Option<string>)
    ensures PropertyError("format", FormatChecks(TrimOption(format))).None? <==>
      format.Some? && Trim(format.value) in ["VHS", "DVD", "Blu-ray"]
  {
  }

  /** The year passes exactly when it is an integer in [1900, 2100]; an integer below the range
      fails only the minimum, with its own code, and one above fails only the maximum. */
  lemma YearRule(year: Option<JsNumber>)
    ensures PropertyError("year", YearChecks(year)).None? <==> ValidYear(year)
    ensures year.Some? && year.value.Integer? && year.value.value < MinYear ==>
      Failures(YearChecks(year)) == [Constraint("min", CodeName(MovieYearBiggerThan1900))]
    ensures year.Some? && year.value.Integer? && year.value.value > MaxYear ==>
      Failures(YearChecks(year)) == [Constraint("max", CodeName(MovieYearLessThan2100))]
  {
  }

  /** The validator reports nothing exactly when the explicit movie rules hold. */
  lemma MovieErrorsEmptyIff(input: MovieInput)
    ensures MovieErrors(input) == [] <==> IsValidMovie(input)
  {
    TitleRule(input.title);
    YearRule(input.year);
    FormatRule(input.format);
    ActorsRule(input.actors);
  }

  /** Validates and transforms an input: the request carries the trimmed title and format, the
      year and the cast; a rejected input yields the validator's errors. */
  function ValidateMovie(input: MovieInput): (r: Result<MovieRequest, seq<ValidationError>>)
    ensures r.Ok? <==> IsValidMovie(input)
    ensures r.Err? ==> r.error != [] && r.error == MovieErrors(input)
    ensures r.Ok? ==>
      && r.value.title == Trim(input.title.value) && r.value.title != ""
      && input.year == Some(Integer(r.value.year)) && MinYear <= r.value.year <= MaxYear
      && FormatName(r.value.format) == Trim(input.format.value)
      && r.value.actors == input.actors
  {
    var errors := MovieErrors(input);
    MovieErrorsEmptyIff(input);
    if errors != [] then Err(errors)
    else
      Ok(MovieRequest(Trim(input.title.value), input.year.value.value,
                   FormatFromName(Trim(input.format.value)).value, input.actors))
  }
}
