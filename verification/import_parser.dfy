/** The import text parser: the label dictionary and its inverse, the per-field value parsers, and
    the line-driven state machine that groups `Label: Value` lines into blocks. */
module ImportParser {
  import opened Wrappers
  import opened Strings
  import opened JsValues

  /** The canonical fields an import label maps to. */
  datatype Field = TitleField | YearField | FormatField | ActorsField

  /** The canonical name of each field, as the movie request spells it. */
  function FieldName(f: Field): string {
    match f
    case TitleField => "title"
    case YearField => "year"
    case FormatField => "format"
    case ActorsField => "actors"
  }

  /** `fieldMap`: the four recognised labels (trimmed, lower-cased) and their fields. */
  const FieldMap: map<string, Field> :=
    map["title" := TitleField, "release year" := YearField, "format" := FormatField, "stars" := ActorsField]

  /** `reverseFieldMap`: from canonical field name back to the label. */
  const ReverseFieldMap: map<string, string> :=
    map["title" := "title", "year" := "release year", "format" := "format", "actors" := "stars"]

  function LookupLabel(key: string): (r: Option<Field>)
    ensures r.Some? <==> key in FieldMap
  {
    if key in FieldMap then Some(FieldMap[key]) else None
  }

  /** The two tables are inverse to each other: every label comes back from its field's name, and
      every name in the reverse table leads back to itself. */
  lemma ReverseFieldMapIsInverse()
    ensures FieldMap.Keys == {"title", "release year", "format", "stars"}
    ensures forall k :: k in FieldMap ==>
      FieldName(FieldMap[k]) in ReverseFieldMap && ReverseFieldMap[FieldName(FieldMap[k])] == k
    ensures forall n :: n in ReverseFieldMap ==>
      ReverseFieldMap[n] in FieldMap && FieldName(FieldMap[ReverseFieldMap[n]]) == n
    ensures |FieldMap| == |ReverseFieldMap| == 4
  {
    assert FieldMap.Keys == {"title", "release year", "format", "stars"};
    assert ReverseFieldMap.Keys == {"title", "year", "format", "actors"};
  }

  /** A parsed value; which alternative is used follows the field. */
  datatype FieldValue =
    | TitleValue(title: string)
    | YearValue(year: JsNumber)
    | FormatValue(format: string)
    | ActorsValue(names: seq<string>)

  /** One `[field, value]` pair of a block. */
  datatype Entry = Entry(field: Field, value: FieldValue)

  /** Why a line cannot be parsed. Each of these is a `TypeError` in the source: reading
      `.trim()` of a missing value, calling the missing parser of an unknown label, and reading
      `[0]` of an empty first format segment. */
  datatype ParseError =
    | MissingValue(line: string)
    | UnknownLabel(key: string)
    | EmptyFormatPrefix(value: string)

  /** The first character upper-cased, the rest kept. */
  function Capitalise(s: string): string
    requires |s| > 0
  {
    [UpperChar(s[0])] + s[1..]
  }

  function LowerAll(parts: seq<string>): (r: seq<string>)
    ensures |r| == |parts|
    ensures forall i :: 0 <= i < |parts| ==> r[i] == ToLower(parts[i])
  {
    seq(|parts|, i requires 0 <= i < |parts| => ToLower(parts[i]))
  }

  /** The format parser: a value with hyphens has its first segment capitalised and every later
      segment lower-cased (`blu-RAY` becomes `Blu-ray`); a value without hyphens is kept. */
  function ParseFormat(v: string): Result<string, ParseError> {
    var parts := Split(v, "-");
    if |parts| > 1 then
      if parts[0] == "" then Err(EmptyFormatPrefix(v))
      else Ok(Join([Capitalise(parts[0])] + LowerAll(parts[1..]), "-"))
    else Ok(parts[0])
  }

  /** A value without a hyphen is kept as it is. */
  lemma FormatWithoutHyphen(v: string)
    requires '-' !in v
    ensures ParseFormat(v) == Ok(v)
  {
    SplitAfterPiece(v, '-', "");
  }

  /** No letter case mapping produces or removes a hyphen. */
  lemma CaseMappingKeepsHyphens(s: string)
    requires '-' !in s
    ensures '-' !in ToLower(s)
    ensures s != [] ==> '-' !in Capitalise(s)
  {
    assert forall i :: 0 <= i < |s| ==> ToLower(s)[i] != '-';
    if s != [] {
      assert forall i :: 0 <= i < |s| ==> Capitalise(s)[i] != '-';
    }
  }

  /** A value with a hyphen is accepted exactly when its first segment is non-empty; the result
      has as many segments (and hyphens) as the value, the first one capitalised and every later
      one lower-cased. */
  lemma {:induction false} FormatWithHyphen(v: string)
    requires '-' in v
    ensures ParseFormat(v).Ok? <==> Split(v, "-")[0] != ""
    ensures ParseFormat(v).Ok? ==>
      var parts := Split(v, "-");
      var out := Split(ParseFormat(v).value, "-");
      && |out| == |parts| > 1
      && out[0] == [UpperChar(parts[0][0])] + parts[0][1..]
      && (forall i :: 1 <= i < |parts| ==> out[i] == ToLower(parts[i]))
      && Occurrences(ParseFormat(v).value, "-") == Occurrences(v, "-")
  {
    var parts := Split(v, "-");
    SplitSeveralIff(v, '-');
    if parts[0] != "" {
      var pieces := [Capitalise(parts[0])] + LowerAll(parts[1..]);
      SplitPiecesAvoid(v, '-');
      forall i | 0 <= i < |pieces| ensures '-' !in pieces[i] {
        if i == 0 {
          CaseMappingKeepsHyphens(parts[0]);
        } else {
          assert pieces[i] == ToLower(parts[i]);
          CaseMappingKeepsHyphens(parts[i]);
        }
      }
      SplitJoin(pieces, '-');
      SplitLength(v, "-");
      SplitLength(Join(pieces, "-"), "-");
    }
  }

  /** Normalising a normalised format changes nothing. */
  lemma {:induction false} FormatIdempotent(v: string)
    requires ParseFormat(v).Ok?
    ensures ParseFormat(ParseFormat(v).value) == ParseFormat(v)
  {
    if '-' !in v {
      FormatWithoutHyphen(v);
    } else {
      var parts := Split(v, "-");
      var r := ParseFormat(v).value;
      var pieces := [Capitalise(parts[0])] + LowerAll(parts[1..]);
      FormatWithHyphen(v);
      assert Split(r, "-") == pieces;
      SplitSeveralIff(v, '-');
      var again := [Capitalise(pieces[0])] + LowerAll(pieces[1..]);
      forall i | 0 <= i < |pieces| ensures again[i] == pieces[i] {
        if i > 0 {
          ToLowerIdempotent(parts[i]);
        }
      }
      assert again == pieces;
    }
  }

  /** The actors parser: the names between the `", "` separators. */
  function ParseActors(v: string): seq<string> {
    Split(v, ", ")
  }

  /** Re-joining the names with `", "` gives back the value, and there is one name more than
      there are separators. */
  lemma ActorsRoundTrip(v: string)
    ensures Join(ParseActors(v), ", ") == v
    ensures |ParseActors(v)| == Occurrences(v, ", ") + 1
  {
    JoinSplit(v, ", ");
    SplitLength(v, ", ");
  }

  function ParseValue(f: Field, v: string): Result<FieldValue, ParseError> {
    match f
    case TitleField => Ok(TitleValue(v))
    case YearField => Ok(YearValue(ParseNumber(v)))
    case FormatField =>
      (match ParseFormat(v)
       case Ok(s) => Ok(FormatValue(s))
       case Err(e) => Err(e))
    case ActorsField => Ok(ActorsValue(ParseActors(v)))
  }

  /** One non-blank line: the label is the text before the first colon, trimmed and lower-cased;
      the value is the trimmed text between the first and the second colon. A missing value is
      reported before an unknown label, as the call's argument is evaluated first. */
  function ParseLine(line: string): Result<Entry, ParseError> {
    var parts := Split(line, ":");
    if |parts| < 2 then Err(MissingValue(line))
    else
      var key := ToLower(Trim(parts[0]));
      match LookupLabel(key)
      case None => Err(UnknownLabel(key))
      case Some(f) =>
        match ParseValue(f, Trim(parts[1]))
        case Ok(v) => Ok(Entry(f, v))
        case Err(e) => Err(e)
  }

  lemma LineSplit(key: string, value: string)
    requires ':' !in key && ':' !in value
    ensures Split(key + ":" + value, ":") == [key, value]
  {
    SplitAfterPiece(key, ':', value);
    SplitAfterPiece(value, ':', "");
  }

  lemma LineSplitLonger(key: string, value: string, tail: string)
    requires ':' !in key && ':' !in value
    ensures Split(key + ":" + value + ":" + tail, ":") == [key, value] + Split(tail, ":")
  {
    assert key + ":" + value + ":" + tail == key + [':'] + (value + [':'] + tail);
    SplitAfterPiece(key, ':', value + ":" + tail);
    SplitAfterPiece(value, ':', tail);
  }

  /** A line without a colon has no value, and this includes every line of white space only. */
  lemma LineWithoutColon(line: string)
    requires ':' !in line || AllWhitespace(line)
    ensures ParseLine(line) == Err(MissingValue(line))
  {
    if AllWhitespace(line) {
      assert forall i :: 0 <= i < |line| ==> line[i] != ':';
    }
    SplitAfterPiece(line, ':', "");
  }

  /** Whatever follows a second colon is dropped. */
  lemma SecondColonDropsRest(key: string, value: string, tail: string)
    requires ':' !in key && ':' !in value
    ensures ParseLine(key + ":" + value + ":" + tail) == ParseLine(key + ":" + value)
  {
    LineSplit(key, value);
    LineSplitLonger(key, value, tail);
  }

  /** The label's letter case and surrounding white space do not matter. */
  lemma LabelCaseInsensitive(key: string, other: string, value: string)
    requires ':' !in key && ':' !in other && ':' !in value
    requires ToLower(Trim(key)) == ToLower(Trim(other))
    ensures ParseLine(key + ":" + value) == ParseLine(other + ":" + value)
  {
    LineSplit(key, value);
    LineSplit(other, value);
  }

  /** A line parses only when its trimmed, lower-cased label is one of the four labels, and then
      the pair is for that label's field; any other label is reported. */
  lemma LineLabel(key: string, value: string)
    requires ':' !in key && ':' !in value
    ensures ToLower(Trim(key)) !in FieldMap ==> ParseLine(key + ":" + value) == Err(UnknownLabel(ToLower(Trim(key))))
    ensures ParseLine(key + ":" + value).Ok? ==>
      ToLower(Trim(key)) in FieldMap && ParseLine(key + ":" + value).value.field == FieldMap[ToLower(Trim(key))]
  {
    LineSplit(key, value);
  }

  /** The value is trimmed, and for a title kept as it is. */
  lemma TitleLine(key: string, value: string)
    requires ':' !in key && ':' !in value && ToLower(Trim(key)) == "title"
    ensures ParseLine(key + ":" + value) == Ok(Entry(TitleField, TitleValue(Trim(value))))
  {
    LineSplit(key, value);
    assert LookupLabel(ToLower(Trim(key))) == Some(TitleField);
  }

  /** The parser's state: the pairs of the block being read and the blocks emitted so far. */
  datatype ParserState = ParserState(pending: seq<Entry>, blocks: seq<seq<Entry>>)

  const Initial := ParserState([], [])

  /** A parser of single non-blank lines; the source's is `ParseLine`. The state machine below is
      stated for any of them. */
  type LineParser = string -> Result<Entry, ParseError>

  /** One `parse(line)` call. A non-blank line adds one pair to the pending block; a blank line
      emits the pending block when it holds a pair and starts a new one. */
  function Step(parse: LineParser, st: ParserState, line: string): (r: Result<ParserState, ParseError>)
    ensures r.Ok? ==> |st.blocks| <= |r.value.blocks| <= |st.blocks| + 1
    ensures r.Ok? ==> r.value.blocks[..|st.blocks|] == st.blocks
    ensures r.Ok? && |r.value.blocks| > |st.blocks| ==> r.value.blocks[|st.blocks|] == st.pending != []
    ensures line != "" ==> (r.Err? <==> parse(line).Err?)
    ensures line != "" && r.Ok? ==> r.value.blocks == st.blocks && r.value.pending == st.pending + [parse(line).value]
    ensures line == "" ==> r.Ok? && r.value.pending == []
  {
    if line != "" then
      match parse(line)
      case Ok(e) => Ok(ParserState(st.pending + [e], st.blocks))
      case Err(err) => Err(err)
    else if |st.pending| > 0 then Ok(ParserState([], st.blocks + [st.pending]))
    else Ok(ParserState([], st.blocks))
  }

  /** The `line` events of one stream, in order; the first failing line stops the parse. */
  function Feed(parse: LineParser, st: ParserState, lines: seq<string>): Result<ParserState, ParseError>
    decreases |lines|
  {
    if |lines| == 0 then Ok(st)
    else
      match Step(parse, st, lines[0])
      case Err(e) => Err(e)
      case Ok(next) => Feed(parse, next, lines[1..])
  }

  /** The blocks collected by the time the stream closes. Nothing flushes the pending block at
      the end of the input. */
  function ParseDocument(lines: seq<string>): Result<seq<seq<Entry>>, ParseError> {
    match Feed(ParseLine, Initial, lines)
    case Ok(st) => Ok(st.blocks)
    case Err(e) => Err(e)
  }

  // ----- Reference reading of the block structure -----

  /** Every non-blank line parses. */
  predicate LinesParse(parse: LineParser, lines: seq<string>) {
    forall i :: 0 <= i < |lines| && lines[i] != "" ==> parse(lines[i]).Ok?
  }

  predicate NoBlank(lines: seq<string>) {
    forall i :: 0 <= i < |lines| ==> lines[i] != ""
  }

  /** The index of the first blank line, or the length when there is none. */
  function FirstBlank(lines: seq<string>): (i: nat)
    ensures i <= |lines| && NoBlank(lines[..i])
    ensures i < |lines| ==> lines[i] == ""
  {
    if |lines| == 0 || lines[0] == "" then 0
    else
      var j := 1 + FirstBlank(lines[1..]);
      assert lines[..j] == [lines[0]] + lines[1..][..j - 1];
      j
  }

  /** The pairs of the lines that parse, in order. */
  function Pairs(parse: LineParser, lines: seq<string>): (r: seq<Entry>)
    ensures |r| <= |lines|
    decreases |lines|
  {
    if |lines| == 0 then []
    else
      (match parse(lines[0])
       case Ok(e) => [e]
       case Err(_) => []) + Pairs(parse, lines[1..])
  }

  /** The blocks read front to back: each non-empty run of non-blank lines that a blank line
      closes; the run the input ends in is not a block. */
  function ReferenceBlocks(parse: LineParser, lines: seq<string>): seq<seq<Entry>>
    decreases |lines|
  {
    var i := FirstBlank(lines);
    if i == |lines| then []
    else (if i == 0 then [] else [Pairs(parse, lines[..i])]) + ReferenceBlocks(parse, lines[i + 1..])
  }

  /** The lines after the last blank line. */
  function Unterminated(lines: seq<string>): seq<string>
    decreases |lines|
  {
    var i := FirstBlank(lines);
    if i == |lines| then lines else Unterminated(lines[i + 1..])
  }

  lemma {:induction false} PairsAppend(parse: LineParser, lines: seq<string>, e: Entry, line: string)
    requires parse(line) == Ok(e)
    ensures Pairs(parse, lines + [line]) == Pairs(parse, lines) + [e]
    decreases |lines|
  {
    if |lines| > 0 {
      assert (lines + [line])[1..] == lines[1..] + [line];
      PairsAppend(parse, lines[1..], e, line);
    } else {
      assert [line][1..] == [];
    }
  }

  lemma LinesParseTail(parse: LineParser, lines: seq<string>)
    requires |lines| > 0 && LinesParse(parse, lines)
    ensures LinesParse(parse, lines[1..])
  {
    forall j | 0 <= j < |lines| - 1 && lines[1..][j] != "" ensures parse(lines[1..][j]).Ok? {
      assert lines[1..][j] == lines[j + 1];
    }
  }

  lemma LinesParseSlice(parse: LineParser, lines: seq<string>, lo: nat, hi: nat)
    requires lo <= hi <= |lines| && LinesParse(parse, lines)
    ensures LinesParse(parse, lines[lo..hi])
  {
    forall j | 0 <= j < hi - lo && lines[lo..hi][j] != "" ensures parse(lines[lo..hi][j]).Ok? {
      assert lines[lo..hi][j] == lines[lo + j];
    }
  }

  lemma {:induction false} PairsOfParsedLines(parse: LineParser, lines: seq<string>)
    requires NoBlank(lines) && LinesParse(parse, lines)
    ensures |Pairs(parse, lines)| == |lines|
    decreases |lines|
  {
    if |lines| > 0 {
      assert parse(lines[0]).Ok?;
      LinesParseTail(parse, lines);
      PairsOfParsedLines(parse, lines[1..]);
    }
  }

  lemma {:induction false} FirstBlankIs(lines: seq<string>, k: nat)
    requires k < |lines| && lines[k] == ""
    requires forall j :: 0 <= j < k ==> lines[j] != ""
    ensures FirstBlank(lines) == k
    decreases k
  {
    if k > 0 {
      FirstBlankIs(lines[1..], k - 1);
    }
  }

  /** Feeding a line that steps the state continues from the stepped state. */
  lemma FeedFirst(parse: LineParser, st: ParserState, next: ParserState, lines: seq<string>)
    requires |lines| > 0 && Step(parse, st, lines[0]) == Ok(next)
    ensures Feed(parse, st, lines) == Feed(parse, next, lines[1..])
  {
  }

  /** A run of non-blank lines closed by a blank line is one block (when non-empty), and the
      reading continues after the blank line. */
  lemma ReferenceAfterRun(parse: LineParser, run: seq<string>, rest: seq<string>)
    requires NoBlank(run)
    ensures ReferenceBlocks(parse, run + [""] + rest)
         == (if run == [] then [] else [Pairs(parse, run)]) + ReferenceBlocks(parse, rest)
    ensures Unterminated(run + [""] + rest) == Unterminated(rest)
  {
    var all := run + [""] + rest;
    FirstBlankIs(all, |run|);
    assert all[..|run|] == run;
    assert all[|run| + 1..] == rest;
  }

  lemma ReferenceOfRun(parse: LineParser, run: seq<string>)
    requires NoBlank(run)
    ensures ReferenceBlocks(parse, run) == [] && Unterminated(run) == run
  {
  }

  /** The state machine, started with the pairs of some pending non-blank lines, emits exactly the
      reference blocks of those lines followed by the input, and is left holding the pairs of the
      lines after the last blank one. */
  lemma {:induction false} FeedAgrees(parse: LineParser, pending: seq<string>, blocks: seq<seq<Entry>>,
                                      lines: seq<string>)
    requires NoBlank(pending) && LinesParse(parse, pending) && LinesParse(parse, lines)
    ensures Feed(parse, ParserState(Pairs(parse, pending), blocks), lines)
         == Ok(ParserState(Pairs(parse, Unterminated(pending + lines)),
                           blocks + ReferenceBlocks(parse, pending + lines)))
    decreases |lines|, 1
  {
    if |lines| == 0 {
      assert pending + lines == pending;
      ReferenceOfRun(parse, pending);
      assert blocks + [] == blocks;
    } else if lines[0] == "" {
      FeedAgreesAtBlank(parse, pending, blocks, lines);
    } else {
      FeedAgreesAtLine(parse, pending, blocks, lines);
    }
  }

  lemma {:induction false} FeedAgreesAtBlank(parse: LineParser, pending: seq<string>, blocks: seq<seq<Entry>>,
                                             lines: seq<string>)
    requires NoBlank(pending) && LinesParse(parse, pending) && LinesParse(parse, lines)
    requires |lines| > 0 && lines[0] == ""
    ensures Feed(parse, ParserState(Pairs(parse, pending), blocks), lines)
         == Ok(ParserState(Pairs(parse, Unterminated(pending + lines)),
                           blocks + ReferenceBlocks(parse, pending + lines)))
    decreases |lines|, 0
  {
    var rest := lines[1..];
    var st := ParserState(Pairs(parse, pending), blocks);
    var emitted := if pending != [] then [Pairs(parse, pending)] else [];
    var R := ReferenceBlocks(parse, rest);
    ReferenceAtBlank(parse, pending, lines);
    EmittedOfParsedRun(parse, pending);
    FeedAtBlank(parse, st, lines);
    LinesParseTail(parse, lines);
    FeedAgreesFromEmpty(parse, blocks + emitted, rest);
    AppendAssociative(blocks, emitted, R);
  }

  lemma AppendAssociative<T>(a: seq<T>, b: seq<T>, c: seq<T>)
    ensures a + b + c == a + (b + c)
  {
  }

  /** A run of parsed lines gives a non-empty block exactly when it is non-empty. */
  lemma EmittedOfParsedRun(parse: LineParser, run: seq<string>)
    requires NoBlank(run) && LinesParse(parse, run)
    ensures (if Pairs(parse, run) != [] then [Pairs(parse, run)] else [])
         == (if run != [] then [Pairs(parse, run)] else [])
  {
    PairsOfParsedLines(parse, run);
  }

  /** Feeding a blank line first continues from the state that line steps to. */
  lemma FeedAtBlank(parse: LineParser, st: ParserState, lines: seq<string>)
    requires |lines| > 0 && lines[0] == ""
    ensures Feed(parse, st, lines)
         == Feed(parse, ParserState([], st.blocks + if st.pending != [] then [st.pending] else []), lines[1..])
  {
    StepBlank(parse, st);
    FeedFirst(parse, st, ParserState([], st.blocks + if st.pending != [] then [st.pending] else []), lines);
  }

  /** A blank line closes the pending run, which is a block when non-empty. */
  lemma ReferenceAtBlank(parse: LineParser, pending: seq<string>, lines: seq<string>)
    requires NoBlank(pending) && |lines| > 0 && lines[0] == ""
    ensures ReferenceBlocks(parse, pending + lines)
         == (if pending != [] then [Pairs(parse, pending)] else []) + ReferenceBlocks(parse, lines[1..])
    ensures Unterminated(pending + lines) == Unterminated(lines[1..])
  {
    assert pending + lines == pending + [""] + lines[1..];
    ReferenceAfterRun(parse, pending, lines[1..]);
  }

  lemma {:induction false} FeedAgreesFromEmpty(parse: LineParser, blocks: seq<seq<Entry>>, lines: seq<string>)
    requires LinesParse(parse, lines)
    ensures Feed(parse, ParserState([], blocks), lines)
         == Ok(ParserState(Pairs(parse, Unterminated(lines)), blocks + ReferenceBlocks(parse, lines)))
    decreases |lines|, 2
  {
    assert Pairs(parse, []) == [];
    FeedAgrees(parse, [], blocks, lines);
    assert [] + lines == lines;
  }

  /** A blank line emits the pending block when it holds a pair, and starts an empty one. */
  lemma StepBlank(parse: LineParser, st: ParserState)
    ensures Step(parse, st, "")
         == Ok(ParserState([], st.blocks + if st.pending != [] then [st.pending] else []))
  {
    if st.pending == [] {
      assert st.blocks + [] == st.blocks;
    }
  }

  lemma {:induction false} FeedAgreesAtLine(parse: LineParser, pending: seq<string>, blocks: seq<seq<Entry>>,
                                            lines: seq<string>)
    requires NoBlank(pending) && LinesParse(parse, pending) && LinesParse(parse, lines)
    requires |lines| > 0 && lines[0] != ""
    ensures Feed(parse, ParserState(Pairs(parse, pending), blocks), lines)
         == Ok(ParserState(Pairs(parse, Unterminated(pending + lines)),
                           blocks + ReferenceBlocks(parse, pending + lines)))
    decreases |lines|, 0
  {
    var rest := lines[1..];
    LinesParseTail(parse, lines);
    var e := parse(lines[0]).value;
    var longer := pending + [lines[0]];
    assert longer + rest == pending + lines;
    PairsAppend(parse, pending, e, lines[0]);
    FeedFirst(parse, ParserState(Pairs(parse, pending), blocks), ParserState(Pairs(parse, longer), blocks), lines);
    assert LinesParse(parse, longer) by {
      forall j | 0 <= j < |longer| && longer[j] != "" ensures parse(longer[j]).Ok? {
        if j < |pending| { assert longer[j] == pending[j]; }
      }
    }
    FeedAgrees(parse, longer, blocks, rest);
  }

  /** When every non-blank line parses, the parse of the whole input yields the reference blocks:
      blocks and pairs in input order, no empty block, and no block for the trailing run. */
  lemma ParseDocumentAgrees(lines: seq<string>)
    requires LinesParse(ParseLine, lines)
    ensures ParseDocument(lines) == Ok(ReferenceBlocks(ParseLine, lines))
  {
    assert Pairs(ParseLine, []) == [];
    assert Initial == ParserState(Pairs(ParseLine, []), []);
    FeedAgrees(ParseLine, [], [], lines);
    assert [] + lines == lines;
    assert [] + ReferenceBlocks(ParseLine, lines) == ReferenceBlocks(ParseLine, lines);
  }

  /** The first non-blank line that does not parse stops the reading with its error, whatever
      the state the reading is in. */
  lemma {:induction false} FeedFails(parse: LineParser, st: ParserState, lines: seq<string>, k: nat)
    requires k < |lines| && lines[k] != "" && parse(lines[k]).Err?
    requires forall j :: 0 <= j < k ==> lines[j] == "" || parse(lines[j]).Ok?
    ensures Feed(parse, st, lines) == Err(parse(lines[k]).error)
    decreases k
  {
    if k > 0 {
      var next := Step(parse, st, lines[0]).value;
      FeedFirst(parse, st, next, lines);
      FeedFails(parse, next, lines[1..], k - 1);
    }
  }

  /** The document parse fails exactly when some non-blank line fails, with the error of the
      first such line; otherwise it yields the reference blocks. */
  lemma ParseDocumentFails(lines: seq<string>, k: nat)
    requires k < |lines| && lines[k] != "" && ParseLine(lines[k]).Err?
    requires forall j :: 0 <= j < k ==> lines[j] == "" || ParseLine(lines[j]).Ok?
    ensures ParseDocument(lines) == Err(ParseLine(lines[k]).error)
  {
    FeedFails(ParseLine, Initial, lines, k);
  }

  /** Lines after the last blank line contribute no block. */
  lemma {:induction false} ReferenceIgnoresTrailingRun(parse: LineParser, lines: seq<string>, run: seq<string>)
    requires NoBlank(run)
    ensures ReferenceBlocks(parse, lines + run) == ReferenceBlocks(parse, lines)
    decreases |lines|
  {
    var i := FirstBlank(lines);
    var all := lines + run;
    if i < |lines| {
      assert forall j :: 0 <= j < i ==> all[j] == lines[..i][j];
      FirstBlankIs(all, i);
      assert all[..i] == lines[..i];
      assert all[i + 1..] == lines[i + 1..] + run;
      ReferenceIgnoresTrailingRun(parse, lines[i + 1..], run);
    } else {
      assert lines[..i] == lines;
      assert NoBlank(all) by {
        forall j | 0 <= j < |all| ensures all[j] != "" {
          if j < |lines| { assert all[j] == lines[..i][j]; } else { assert all[j] == run[j - |lines|]; }
        }
      }
      ReferenceOfRun(parse, all);
      ReferenceOfRun(parse, lines);
    }
  }

  /** There is no end-of-input flush: appending non-blank lines that parse to a document does not
      change its blocks. */
  lemma NoFinalFlush(lines: seq<string>, run: seq<string>)
    requires LinesParse(ParseLine, lines) && LinesParse(ParseLine, run) && NoBlank(run)
    ensures ParseDocument(lines + run) == ParseDocument(lines)
  {
    assert LinesParse(ParseLine, lines + run) by {
      forall j | 0 <= j < |lines + run| && (lines + run)[j] != "" ensures ParseLine((lines + run)[j]).Ok? {
        if j < |lines| { assert (lines + run)[j] == lines[j]; } else { assert (lines + run)[j] == run[j - |lines|]; }
      }
    }
    ParseDocumentAgrees(lines);
    ParseDocumentAgrees(lines + run);
    ReferenceIgnoresTrailingRun(ParseLine, lines, run);
  }

  /** When every non-blank line parses, every block holds one pair per line of its run, so no
      block is empty, however many blank lines follow each other. */
  lemma {:induction false} ReferenceBlocksNonEmpty(parse: LineParser, lines: seq<string>)
    requires LinesParse(parse, lines)
    ensures forall b :: b in ReferenceBlocks(parse, lines) ==> b != []
    decreases |lines|
  {
    var i := FirstBlank(lines);
    if 0 < i < |lines| {
      LinesParseSlice(parse, lines, 0, i);
      assert lines[0..i] == lines[..i];
      PairsOfParsedLines(parse, lines[..i]);
    }
    if i < |lines| {
      LinesParseSlice(parse, lines, i + 1, |lines|);
      assert lines[i + 1..|lines|] == lines[i + 1..];
      ReferenceBlocksNonEmpty(parse, lines[i + 1..]);
    }
  }

  /** The source's reading never emits an empty block. */
  lemma ParseDocumentBlocksNonEmpty(lines: seq<string>)
    requires LinesParse(ParseLine, lines)
    ensures ParseDocument(lines).Ok?
    ensures forall b :: b in ParseDocument(lines).value ==> b != []
  {
    ParseDocumentAgrees(lines);
    ReferenceBlocksNonEmpty(ParseLine, lines);
  }
}
