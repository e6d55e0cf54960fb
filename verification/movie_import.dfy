/** The bulk import: the parsed blocks become movie inputs, every input is validated before any
    movie is created, the creates run one record after another, and the outcome is reported as a
    whole. */
module MovieImport {
  import opened Wrappers
  import opened JsValues
  import opened Validation
  import opened ImportParser
  import opened MovieDto
  import opened ExceptionFilter
  import opened Catalogue

  // ----- From a block to a movie input -----

  /** The value of the last pair of the block for `f`: `Object.fromEntries` keeps the last value
      of a repeated key. */
  function LastValue(block: seq<Entry>, f: Field): (r: Option<FieldValue>)
    ensures r.Some? ==> Entry(f, r.value) in block
    ensures r.None? <==> forall i :: 0 <= i < |block| ==> block[i].field != f
    decreases |block|
  {
    if |block| == 0 then None
    else if block[|block| - 1].field == f then Some(block[|block| - 1].value)
    else LastValue(block[..|block| - 1], f)
  }

  /** `Object.fromEntries` of a block, read as a movie input. */
  function FromEntries(block: seq<Entry>): MovieInput {
    MovieInput(
      match LastValue(block, TitleField) case Some(TitleValue(t)) => Some(t) case _ => None,
      match LastValue(block, YearField) case Some(YearValue(n)) => Some(n) case _ => None,
      match LastValue(block, FormatField) case Some(FormatValue(s)) => Some(s) case _ => None,
      match LastValue(block, ActorsField) case Some(ActorsValue(names)) => Some(names) case _ => None)
  }

  /** The pairs of a movie input, one per present property. */
  function ToEntries(input: MovieInput): seq<Entry> {
    Part(input, TitleField) + Part(input, YearField) + Part(input, FormatField) + Part(input, ActorsField)
  }

  /** The pair of one property, if present. */
  function Part(input: MovieInput, f: Field): seq<Entry> {
    if Stored(input, f).Some? then [Entry(f, Stored(input, f).value)] else []
  }

  /** The pair value an input holds for a field, if the property is present. */
  function Stored(input: MovieInput, f: Field): Option<FieldValue> {
    match f
    case TitleField => if input.title.Some? then Some(TitleValue(input.title.value)) else None
    case YearField => if input.year.Some? then Some(YearValue(input.year.value)) else None
    case FormatField => if input.format.Some? then Some(FormatValue(input.format.value)) else None
    case ActorsField => if input.actors.Some? then Some(ActorsValue(input.actors.value)) else None
  }

  /** Later pairs for the same field override earlier ones. */
  lemma {:induction false} LastPairWins(pre: seq<Entry>, f: Field, v: FieldValue, post: seq<Entry>)
    requires forall i :: 0 <= i < |post| ==> post[i].field != f
    ensures LastValue(pre + [Entry(f, v)] + post, f) == Some(v)
    decreases |post|
  {
    var block := pre + [Entry(f, v)] + post;
    if |post| > 0 {
      assert block[..|block| - 1] == pre + [Entry(f, v)] + post[..|post| - 1];
      LastPairWins(pre, f, v, post[..|post| - 1]);
    }
  }

  /** A pair in the later part of a block overrides the earlier part. */
  lemma {:induction false} LastValueAppend(pre: seq<Entry>, post: seq<Entry>, f: Field)
    ensures LastValue(pre + post, f) == if LastValue(post, f).Some? then LastValue(post, f) else LastValue(pre, f)
    decreases |post|
  {
    if |post| == 0 {
      assert pre + post == pre;
    } else {
      assert (pre + post)[..|pre + post| - 1] == pre + post[..|post| - 1];
      assert (pre + post)[|pre + post| - 1] == post[|post| - 1];
      LastValueAppend(pre, post[..|post| - 1], f);
    }
  }

  /** The value for `f` in a block made of four parts, each empty or a single pair. */
  lemma LastOfParts(t: seq<Entry>, y: seq<Entry>, m: seq<Entry>, a: seq<Entry>, f: Field)
    ensures LastValue(t + y + m + a, f)
         == if LastValue(a, f).Some? then LastValue(a, f)
            else if LastValue(m, f).Some? then LastValue(m, f)
            else if LastValue(y, f).Some? then LastValue(y, f)
            else LastValue(t, f)
  {
    LastValueAppend(t + y + m, a, f);
    LastValueAppend(t + y, m, f);
    LastValueAppend(t, y, f);
  }

  /** The pair of one property holds a value for that property's field only. */
  lemma LastOfPart(input: MovieInput, g: Field, f: Field)
    ensures LastValue(Part(input, g), f) == if g == f then Stored(input, f) else None
  {
  }

  /** The pairs of an input hold, for each field, exactly the value the input stores. */
  lemma ReadBack(input: MovieInput, f: Field)
    ensures LastValue(ToEntries(input), f) == Stored(input, f)
  {
    LastOfParts(Part(input, TitleField), Part(input, YearField), Part(input, FormatField), Part(input, ActorsField), f);
    LastOfPart(input, TitleField, f);
    LastOfPart(input, YearField, f);
    LastOfPart(input, FormatField, f);
    LastOfPart(input, ActorsField, f);
  }

  /** Reading back the pairs of an input gives the input. */
  lemma EntriesRoundTrip(input: MovieInput)
    ensures FromEntries(ToEntries(input)) == input
  {
    ReadBack(input, TitleField);
    ReadBack(input, YearField);
    ReadBack(input, FormatField);
    ReadBack(input, ActorsField);
  }

  // ----- Validation of every record -----

  /** The validation of one record: a request, or the errors of the record. */
  type RecordValidator = MovieInput -> Result<MovieRequest, seq<ValidationError>>

  /** The movie inputs of the parsed blocks, in block order. */
  function Records(blocks: seq<seq<Entry>>): (r: seq<MovieInput>)
    ensures |r| == |blocks|
    ensures forall i :: 0 <= i < |blocks| ==> r[i] == FromEntries(blocks[i])
  {
    seq(|blocks|, i requires 0 <= i < |blocks| => FromEntries(blocks[i]))
  }

  /** Record `k` is the first that fails validation. */
  predicate FirstInvalid(validate: RecordValidator, inputs: seq<MovieInput>, k: int) {
    0 <= k < |inputs| && validate(inputs[k]).Err? && forall j :: 0 <= j < k ==> validate(inputs[j]).Ok?
  }

  lemma FirstInvalidUnique(validate: RecordValidator, inputs: seq<MovieInput>, j: int, k: int)
    requires FirstInvalid(validate, inputs, j) && FirstInvalid(validate, inputs, k)
    ensures j == k
  {
  }

  /** Behind a record that passes, the first failing record of the rest is the first failing
      record of the whole. */
  lemma FirstInvalidShift(validate: RecordValidator, inputs: seq<MovieInput>)
    requires |inputs| > 0 && validate(inputs[0]).Ok?
    ensures forall k :: FirstInvalid(validate, inputs[1..], k) ==>
      FirstInvalid(validate, inputs, k + 1) && inputs[1..][k] == inputs[k + 1]
  {
  }

  /** `Promise.all` over `validateOrReject`: the requests of all records, or the errors of the
      first record that fails. */
  function ValidateAll(validate: RecordValidator, inputs: seq<MovieInput>): (r: Result<seq<MovieRequest>, seq<ValidationError>>)
    ensures r.Ok? <==> forall i :: 0 <= i < |inputs| ==> validate(inputs[i]).Ok?
    ensures r.Ok? ==> |r.value| == |inputs|
    ensures r.Ok? ==> forall i :: 0 <= i < |inputs| ==> validate(inputs[i]) == Ok(r.value[i])
    ensures r.Err? ==> exists k :: FirstInvalid(validate, inputs, k) && r.error == validate(inputs[k]).error
    decreases |inputs|
  {
    if |inputs| == 0 then Ok([])
    else
      match validate(inputs[0])
      case Err(errors) =>
        assert FirstInvalid(validate, inputs, 0);
        Err(errors)
      case Ok(req) =>
        match ValidateAll(validate, inputs[1..])
        case Err(errors) =>
          FirstInvalidShift(validate, inputs);
          Err(errors)
        case Ok(reqs) =>
          assert forall i :: 1 <= i < |inputs| ==> inputs[i] == inputs[1..][i - 1];
          Ok([req] + reqs)
  }

  /** The validation of the records rejects with the errors of one record, so never with an
      empty array. */
  lemma RejectionHoldsErrors(inputs: seq<MovieInput>)
    ensures ValidateAll(ValidateMovie, inputs).Err? ==> ValidateAll(ValidateMovie, inputs).error != []
  {
    var r := ValidateAll(ValidateMovie, inputs);
    if r.Err? {
      var k :| FirstInvalid(ValidateMovie, inputs, k) && r.error == ValidateMovie(inputs[k]).error;
    }
  }

  // ----- The creates -----

  /** The creates, one record after another, each seeing the movies created before it. */
  function CreateAll(c: Catalogue, reqs: seq<MovieRequest>): (r: (Catalogue, seq<Result<MovieView, Exception>>))
    requires Valid(c)
    ensures Valid(r.0) && |r.1| == |reqs|
    ensures |r.0.movies| == |c.movies| + Succeeded(r.1)
    ensures c.movies.Keys <= r.0.movies.Keys
    decreases |reqs|
  {
    if |reqs| == 0 then (c, [])
    else
      match Create(c, reqs[0])
      case Err(e) =>
        var (c', rest) := CreateAll(c, reqs[1..]);
        (c', [Err(e)] + rest)
      case Ok((c1, view)) =>
        var (c', rest) := CreateAll(c1, reqs[1..]);
        (c', [Ok(view)] + rest)
  }

  /** The number of fulfilled creates. */
  function Succeeded(results: seq<Result<MovieView, Exception>>): (n: nat)
    ensures n <= |results|
    ensures n == |results| <==> forall i :: 0 <= i < |results| ==> results[i].Ok?
  {
    if |results| == 0 then 0
    else (if results[0].Ok? then 1 else 0) + Succeeded(results[1..])
  }

  /** The created movies, in record order. */
  function Saved(results: seq<Result<MovieView, Exception>>): (r: seq<MovieView>)
    ensures |r| == Succeeded(results)
  {
    if |results| == 0 then []
    else (if results[0].Ok? then [results[0].value] else []) + Saved(results[1..])
  }

  /** The `errorDescription` of each rejected create, in record order; a rejection that is not
      a domain error has none. */
  function Rejections(results: seq<Result<MovieView, Exception>>): (r: seq<Json>)
    ensures |r| == |results| - Succeeded(results)
  {
    if |results| == 0 then []
    else
      (if results[0].Ok? then []
       else [if results[0].error.DomainException? then results[0].error.description else JNull])
      + Rejections(results[1..])
  }

  /** The catalogue after one create: the created movie's, or the same when it is rejected. */
  function AfterCreate(c: Catalogue, req: MovieRequest): (c': Catalogue)
    requires Valid(c)
    ensures Valid(c')
    ensures forall title :: TitleTaken(c', title) <==> TitleTaken(c, title) || req.title == title
  {
    match Create(c, req)
    case Err(_) => c
    case Ok((c1, v)) =>
      assert c1.movies[v.id].title == req.title;
      assert forall i :: i in c.movies ==> i in c1.movies && c1.movies[i] == c.movies[i];
      c1
  }

  /** The creates after the first run against the catalogue the first one leaves. */
  lemma CreateAllStep(c: Catalogue, reqs: seq<MovieRequest>)
    requires Valid(c) && |reqs| > 0
    ensures CreateAll(c, reqs).1[0] == match Create(c, reqs[0]) case Err(e) => Err(e) case Ok((_, v)) => Ok(v)
    ensures CreateAll(c, reqs).1[1..] == CreateAll(AfterCreate(c, reqs[0]), reqs[1..]).1
  {
  }

  /** A title occurs among the first `i` records exactly when it is the first record's or it
      occurs among the first `i - 1` of the rest. */
  lemma EarlierTitleStep(reqs: seq<MovieRequest>, i: int, title: string)
    requires 0 < i <= |reqs|
    ensures (exists j :: 0 <= j < i && reqs[j].title == title) <==>
      reqs[0].title == title || exists j :: 0 <= j < i - 1 && reqs[1..][j].title == title
  {
    if exists j :: 0 <= j < i && reqs[j].title == title {
      var j :| 0 <= j < i && reqs[j].title == title;
      if j > 0 {
        assert reqs[1..][j - 1].title == title;
      }
    }
    if exists j :: 0 <= j < i - 1 && reqs[1..][j].title == title {
      var j :| 0 <= j < i - 1 && reqs[1..][j].title == title;
      assert reqs[j + 1].title == title;
    }
  }

  /** Record `i` is rejected exactly when its title was stored before the import or an earlier
      record of the import has the same title; the rejection is the duplicate-title error, and
      a created movie has the record's title. */
  lemma {:induction false} CreateAllRejects(c: Catalogue, reqs: seq<MovieRequest>, i: int)
    requires Valid(c) && 0 <= i < |reqs|
    ensures CreateAll(c, reqs).1[i].Err? <==>
      TitleTaken(c, reqs[i].title) || exists j :: 0 <= j < i && reqs[j].title == reqs[i].title
    ensures CreateAll(c, reqs).1[i].Err? ==>
      CreateAll(c, reqs).1[i].error == TranslateCreateError(StorageValidation([DuplicateTitle(reqs[i].title)]))
    ensures CreateAll(c, reqs).1[i].Ok? ==> CreateAll(c, reqs).1[i].value.title == reqs[i].title
    decreases i
  {
    CreateAllStep(c, reqs);
    if i > 0 {
      assert reqs[1..][i - 1] == reqs[i];
      assert CreateAll(c, reqs).1[i] == CreateAll(c, reqs).1[1..][i - 1];
      CreateAllRejects(AfterCreate(c, reqs[0]), reqs[1..], i - 1);
      EarlierTitleStep(reqs, i, reqs[i].title);
    }
  }

  /** The rejections of a run of creates are those of its parts, in order. */
  lemma {:induction false} RejectionsAppend(a: seq<Result<MovieView, Exception>>, b: seq<Result<MovieView, Exception>>)
    ensures Rejections(a + b) == Rejections(a) + Rejections(b)
    ensures Saved(a + b) == Saved(a) + Saved(b)
    decreases |a|
  {
    if |a| > 0 {
      assert (a + b)[1..] == a[1..] + b;
      RejectionsAppend(a[1..], b);
    } else {
      assert a + b == b;
    }
  }

  /** One rejected create contributes its description, or `null` for an exception that is not a
      domain error; a fulfilled one contributes its movie. */
  lemma RejectionOfOne(r: Result<MovieView, Exception>)
    ensures Rejections([r]) == if r.Ok? then [] else [if r.error.DomainException? then r.error.description else JNull]
    ensures Saved([r]) == if r.Ok? then [r.value] else []
  {
  }

  // ----- The import -----

  /** What the import reports: a line the parser could not read, an exception thrown to the
      caller, or the imported movies with the counts. */
  datatype ImportOutcome =
    | ParseFailed(error: ParseError)
    | Rejected(exception: Exception)
    | Imported(data: seq<MovieView>, imported: nat, total: nat)

  /** `import`: the catalogue afterwards and the outcome. A rejected create does not undo the
      creates that succeeded. */
  function Import(c: Catalogue, lines: seq<string>): (r: (Catalogue, ImportOutcome))
    requires Valid(c)
    ensures Valid(r.0)
    ensures r.1.ParseFailed? <==> ParseDocument(lines).Err?
    ensures r.1.ParseFailed? ==> r.1.error == ParseDocument(lines).error
    ensures !r.1.Imported? && !(r.1.Rejected? && r.1.exception.DomainException?) ==> r.0 == c
    ensures r.1.Rejected? && r.1.exception.ErrorArray? ==> r.1.exception.errors != []
  {
    match ParseDocument(lines)
    case Err(e) => (c, ParseFailed(e))
    case Ok(blocks) =>
      match ValidateAll(ValidateMovie, Records(blocks))
      case Err(errors) =>
        RejectionHoldsErrors(Records(blocks));
        (c, Rejected(ErrorArray(errors)))
      case Ok(reqs) =>
        var (c', results) := CreateAll(c, reqs);
        var rejections := Rejections(results);
        if |rejections| > 0 then
          (c', Rejected(DomainException(BadRequest, JObject([("description", JArray(rejections))]))))
        else (c', Imported(Saved(results), |Saved(results)|, |c'.movies|))
  }

  // ----- Properties -----

  /** A record that fails validation stops the import before any create: the catalogue is
      unchanged and the first failing record's errors are thrown. */
  lemma InvalidRecordStopsImport(c: Catalogue, lines: seq<string>, k: nat)
    requires Valid(c) && ParseDocument(lines).Ok?
    requires var inputs := Records(ParseDocument(lines).value);
      k < |inputs| && !IsValidMovie(inputs[k]) && forall j :: 0 <= j < k ==> IsValidMovie(inputs[j])
    ensures Import(c, lines).0 == c
    ensures Import(c, lines).1 == Rejected(ErrorArray(MovieErrors(FromEntries(ParseDocument(lines).value[k]))))
  {
    var inputs := Records(ParseDocument(lines).value);
    assert FirstInvalid(ValidateMovie, inputs, k);
    var r := ValidateAll(ValidateMovie, inputs);
    var j :| FirstInvalid(ValidateMovie, inputs, j) && r.error == ValidateMovie(inputs[j]).error;
    FirstInvalidUnique(ValidateMovie, inputs, j, k);
  }

  /** When the import succeeds, every parsed record was imported and the total counts the
      catalogue afterwards, which grew by exactly the imported records. */
  lemma ImportedCounts(c: Catalogue, lines: seq<string>)
    requires Valid(c) && Import(c, lines).1.Imported?
    ensures var (c', out) := Import(c, lines);
      && out.imported == |ParseDocument(lines).value| == |out.data|
      && out.total == |c'.movies| == |c.movies| + out.imported
  {
  }

  /** When some create is rejected, the import throws a 400 domain error holding one
      description per rejected record, and returns no data. */
  lemma RejectedCreatesReported(c: Catalogue, lines: seq<string>)
    requires Valid(c) && ParseDocument(lines).Ok?
    requires ValidateAll(ValidateMovie, Records(ParseDocument(lines).value)).Ok?
    ensures var reqs := ValidateAll(ValidateMovie, Records(ParseDocument(lines).value)).value;
      var results := CreateAll(c, reqs).1;
      Succeeded(results) < |results| ==>
        Import(c, lines).1 == Rejected(DomainException(BadRequest, JObject([("description", JArray(Rejections(results)))])))
        && |Rejections(results)| == |results| - Succeeded(results)
  {
  }

  /** The errors of an invalid record, rethrown by the import, reach the caller as the filter's
      catch-all 500 reply; the corrected filter would report the first failing property under
      its import label. */
  lemma InvalidRecordReply(c: Catalogue, lines: seq<string>)
    requires Valid(c) && Import(c, lines).1.Rejected? && Import(c, lines).1.exception.ErrorArray?
    ensures CatchAsWritten(Import(c, lines).1.exception).status == InternalError
    ensures Catch(Import(c, lines).1.exception).status == BadRequest
  {
    ValidationArrayAsWritten(Import(c, lines).1.exception.errors);
  }
}
