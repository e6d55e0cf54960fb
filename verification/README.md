# nestjs-movies core, modelled in Dafny

A model of the movie catalogue service behind the nestjs-movies HTTP API, with proofs about it.
It covers these parts:

- **Import parser** (`ImportParser`). This is the `Label: Value` line parser. It holds the label
  table and its inverse, the title, year, format and actors value parsers, and the line-driven
  state machine that groups lines into blocks at blank lines.
- **Movie request** (`MovieDto`). Movie requests are trimmed, then validated against the title,
  year, format and actor-name rules. Validation produces the validated request or the validator's
  errors.
- **User request** (`UserDto`). Registration requests are trimmed and validated. The validation
  covers the per-field codes and the password confirmation.
- **Error codes** (`ErrorCodes`). This is the gateway's `ERROR_CODES` table.
- **Exception filter** (`ExceptionFilter`). It maps every thrown value to an HTTP status and a JSON
  envelope `{status: 0, error: …}`. A handler that throws falls back to the 500 reply.
- **Catalogue** (`Catalogue`). This is the storage as the service uses it:
  - movies with unique titles, and actors owned by a movie and deleted with it;
  - `create`, `findByID`, `deleteByID` and `update`, with their domain errors.
- **List** (`MovieQuery`). This covers the defaulting of the query options and the choice of the
  title and actor texts. It also covers the inner-joined OR filter they build, and the post-sort by
  lower-cased title.
- **Import** (`MovieImport`). Parsed blocks become movie inputs, with the last pair of a field
  winning. All inputs are validated before any create. The creates run one after another, and the
  whole import is reported as one outcome.

Supporting modules:

- `Strings`: trimming, ASCII case mapping, split and join, and a lexicographic order.
- `JsValues`: JSON values and JavaScript's `Number()` on decimal integers.
- `Validation`: the validation library's vocabulary of constraints and errors.
- `Wrappers`: `Option` and `Result`.

The model stays outside the system's boundaries:

- The storage is a pair of maps, and the page a list query returns is a parameter constrained by
  the query.
- The lines of an upload are a sequence of strings.
- The e-mail recogniser of the validation library is a function parameter.

## Model

| member | source | states |
|---|---|---|
| ErrorCodes.LookupCodeIff | src/gateway/exception.filter.ts:40-46 | looking up a key in `ERROR_CODES` finds a code exactly when the key is that code's name, and then finds that code only |
| ErrorCodes.TableIsIdentity | src/gateway/exception.filter.ts:18-46 | the merged table, written out as its literal key and value pairs, maps every key to the same string, holds exactly the user, authentication, movie and generic codes in spread order, and a lookup of any code's name gives that name |
| ErrorCodes.FindValue | src/gateway/exception.filter.ts:40-46 | a lookup finds a value only from a pair with that key, and finds nothing exactly when no pair has the key |
| ErrorCodes.ErrorCodesAgree | src/gateway/exception.filter.ts:40-46 | a lookup in the literal table finds a value exactly when the key is a code's name, and that value is the key itself |
| ErrorCodes.CodeNameInjective | src/gateway/exception.filter.ts:18-46 | no two codes are reported with the same string |
| ErrorCodes.LookupWithSpaceFails | src/gateway/exception.filter.ts:40-46 | a key with a space in it, such as any sentence the validation library writes, is not in the table |
| Validation.DefaultMessageIsNoCode | src/gateway/exception.filter.ts:99-105 | a library message ("property sentence") never names a table entry, so it falls back to `FORMAT_ERROR` |
| JsValues.ParseNumber | src/movies/importMovie.utils.ts:14 | the model's reading of a year text gives an integer exactly when the text is empty or an optionally signed decimal digit run, and `NaN` otherwise; the empty text is 0, and a digit run gives its decimal value, negated after a minus sign, as `Number(v)` does for such texts |
| JsValues.ParseNumberOfNat | src/movies/importMovie.utils.ts:14 | reading back a printed natural number gives that number |
| JsValues.YearLiterals | src/movies/importMovie.utils.ts:14 | in the model the year texts `2000`, `+2000` and `02000` read as 2000 and `-12` as -12, as with `Number`; `20 00` reads as `NaN`, as with `Number`, and `2000.5` reads as `NaN` where `Number` gives 2000.5 |
| Strings.Trim | src/movies/importMovie.utils.ts:44-45 | the trimmed string is the part of the input between its leading and its trailing white space, and neither of its ends is white space |
| Strings.TrimEmptyIff | src/movies/createMovie.dto.ts:25-28 | trimming gives the empty string exactly when the input is all white space |
| Strings.TrimIdempotent | src/users/createUser.dto.ts:30 | trimming a trimmed string changes nothing |
| Strings.ToLowerIdempotent | src/movies/importMovie.utils.ts:22 | lower-casing twice is lower-casing once |
| Strings.JoinSplit | src/movies/importMovie.utils.ts:34 | joining the pieces of a split with its separator gives back the string |
| Strings.SplitLength | src/movies/importMovie.utils.ts:16 | a split has one piece more than the string has separators |
| Strings.SplitJoin | src/movies/importMovie.utils.ts:29 | splitting a join of separator-free pieces gives back the pieces |
| Strings.SplitSeveralIff | src/movies/importMovie.utils.ts:18 | a split has more than one piece exactly when the separator occurs |
| Strings.LexLeTotal | src/movies/queryMovie.utils.ts:14 | any two sort keys are comparable |
| Strings.LexLeTransitive | src/movies/queryMovie.utils.ts:14 | the comparison of sort keys is transitive |
| Strings.LexLeReflexive | src/movies/queryMovie.utils.ts:14 | every sort key compares as not above itself |
| ImportParser.ReverseFieldMapIsInverse | src/movies/importMovie.utils.ts:1-10 | `reverseFieldMap` inverts `fieldMap`: each label comes back from its field's name, each name leads back to itself, four entries each |
| ImportParser.FormatWithoutHyphen | src/movies/importMovie.utils.ts:32 | a format value without a hyphen is kept as it is |
| ImportParser.FormatWithHyphen | src/movies/importMovie.utils.ts:15-30 | a hyphenated value is accepted exactly when its first segment is non-empty; then the result has the same segments and hyphens, the first capitalised and the rest lower-cased |
| ImportParser.FormatIdempotent | src/movies/importMovie.utils.ts:15-33 | normalising an already normalised format changes nothing |
| ImportParser.ActorsRoundTrip | src/movies/importMovie.utils.ts:34 | the names re-joined with `", "` give back the value, and there is one name more than there are separators |
| ImportParser.LineWithoutColon | src/movies/importMovie.utils.ts:43-45 | a line without a colon, including a line of white space only, fails because it has no value |
| ImportParser.SecondColonDropsRest | src/movies/importMovie.utils.ts:43 | text after a second colon does not change the parsed pair |
| ImportParser.LabelCaseInsensitive | src/movies/importMovie.utils.ts:44 | labels that agree once trimmed and lower-cased parse the same line alike |
| ImportParser.LineLabel | src/movies/importMovie.utils.ts:44-45 | an unknown label is reported as such, and a parsed pair is for the field of its label |
| ImportParser.TitleLine | src/movies/importMovie.utils.ts:13 | a title line yields the trimmed value unchanged |
| ImportParser.Step | src/movies/importMovie.utils.ts:41-56 | a non-blank line fails exactly when its parse fails, and otherwise adds its one pair to the pending block and emits nothing; a blank line emits at most one block, the pending one and only when it is non-empty, and empties the pending block |
| ImportParser.FeedAgrees | src/movies/importMovie.utils.ts:37-62 | started from any pending run, the state machine emits exactly the blocks of a front-to-back reading of the lines and holds the pairs after the last blank line |
| ImportParser.ParseDocumentAgrees | src/movies/importMovie.utils.ts:37-62 | when every non-blank line parses, the document's blocks are the runs closed by blank lines, with their pairs in input order |
| ImportParser.ParseDocumentFails | src/movies/importMovie.utils.ts:41-47 | the first non-blank line that does not parse makes the whole parse fail with its error |
| ImportParser.NoFinalFlush | src/movies/importMovie.utils.ts:51-55 | lines after the last blank line never become a block |
| ImportParser.ParseDocumentBlocksNonEmpty | src/movies/importMovie.utils.ts:51-53 | no emitted block is empty, however many blank lines follow each other |
| MovieDto.FormatFromName | src/movies/createMovie.dto.ts:14-15 | a name denotes a format exactly when it is `VHS`, `DVD` or `Blu-ray`, letter case included, and names it back |
| MovieDto.FormatNameRoundTrip | src/movies/createMovie.dto.ts:14-15 | every format is recognised from its own name |
| MovieDto.ActorError | src/movies/createMovie.dto.ts:17-22 | an actor reports an error exactly when its name is empty or has a character other than an ASCII letter, white space or a hyphen |
| MovieDto.ActorsRule | src/movies/createMovie.dto.ts:42-46 | the actors property passes exactly when it is missing or every name passes |
| MovieDto.TitleRule | src/movies/createMovie.dto.ts:25-28 | the title passes exactly when it is present and non-empty once trimmed |
| MovieDto.YearRule | src/movies/createMovie.dto.ts:30-34 | the year passes exactly when it is an integer in [1900, 2100]; below the range only the minimum fails, with its code, and above it only the maximum |
| MovieDto.FormatRule | src/movies/createMovie.dto.ts:36-40 | the format passes exactly when, trimmed, it is one of the three names |
| MovieDto.MovieErrorsEmptyIff | src/movies/createMovie.dto.ts:24-47 | the validator reports no error exactly when the stated movie rules hold |
| MovieDto.ValidateMovie | src/movies/createMovie.dto.ts:24-47 | validation succeeds exactly when the rules hold, with the trimmed title and format, the year and the cast; otherwise it yields the non-empty list of the validator's errors |
| UserDto.UserErrorsEmptyIff | src/users/createUser.dto.ts:28-57 | the validator reports no error exactly when all four fields are filled once trimmed, the e-mail is recognised and the trimmed confirmation equals the trimmed password |
| UserDto.EmailPasses | src/users/createUser.dto.ts:29-35 | the e-mail property passes exactly when it is present, non-empty and recognised |
| UserDto.NamePasses | src/users/createUser.dto.ts:37-42 | the name property passes exactly when it is present and non-empty |
| UserDto.PasswordPasses | src/users/createUser.dto.ts:44-49 | the password property passes exactly when it is present and non-empty |
| UserDto.ConfirmPasses | src/users/createUser.dto.ts:51-57 | the confirmation passes exactly when it is present, non-empty and equal to the password |
| UserDto.EmailRequired | src/users/createUser.dto.ts:32-34 | a missing or blank e-mail reports `EMAIL_IS_REQUIRED` first |
| UserDto.NameRequired | src/users/createUser.dto.ts:39-41 | a missing or blank name reports `NAME_IS_REQUIRED` first |
| UserDto.PasswordRequired | src/users/createUser.dto.ts:46-48 | a missing or blank password reports `PASSWORD_IS_REQUIRED` first |
| UserDto.ConfirmRequired | src/users/createUser.dto.ts:56 | a missing or blank confirmation reports `CONFIRM_PASSWORD_IS_REQUIRED` first |
| UserDto.ConfirmationMismatch | src/users/createUser.dto.ts:53-55 | a filled confirmation fails exactly when the password is missing or differs once trimmed, and then only with `CONFIRM_PASSWORD_NOT_MATCH` |
| UserDto.ValidationSeesTrimmedFields | src/users/createUser.dto.ts:28-57 | validating an already trimmed request gives the same errors as the raw one |
| ExceptionFilter.FieldCode | src/gateway/exception.filter.ts:99-105 | the field code of a validation error is always a key of the table that maps to itself: the table's entry for the first constraint's message, or `FORMAT_ERROR` |
| ExceptionFilter.FieldCodeOfMessage | src/gateway/exception.filter.ts:99-105 | a first constraint whose message is a code is reported with that code; an error without constraints, or whose first message is not a key of the table, gets `FORMAT_ERROR` |
| ExceptionFilter.FieldCodeOfCode | src/gateway/exception.filter.ts:99-105 | a first constraint carrying a code's message is reported with exactly that code |
| ExceptionFilter.FieldCodeOfDefault | src/gateway/exception.filter.ts:99-105 | a first constraint with the library's own message is reported as `FORMAT_ERROR` |
| ExceptionFilter.DomainPassthrough | src/gateway/exception.filter.ts:64-76 | a domain exception is answered with its own status and its own description inside the envelope |
| ExceptionFilter.UnauthorizedReply | src/gateway/exception.filter.ts:78-89 | apart from domain exceptions, 401 is sent exactly for an error named `UnauthorizedException`, with the token field and `FORMAT_ERROR` |
| ExceptionFilter.BadRequestReply | src/gateway/exception.filter.ts:91-125 | a bad request that carries a validation error reports its property and field code with `MALFORMED_REQUEST`; any other reports the code only; one without a message ends in the 500 reply |
| ExceptionFilter.OthersReply | src/gateway/exception.filter.ts:144-151 | any other named error gets 500 with `ITERNAL_SERVER_ERROR` |
| ExceptionFilter.CatchAsWritten | src/gateway/exception.filter.ts:153-180 | every reply is an envelope with `status: 0`, and an array of validation errors always ends in the 500 reply |
| ExceptionFilter.Catch | src/gateway/exception.filter.ts:153-180 | every reply is an envelope, and its status is 400, 401 or 500 unless a domain exception chose it |
| ExceptionFilter.ValidationArrayAsWritten | src/gateway/exception.filter.ts:127-142 | as written, a validation array is answered with 500; corrected, a non-empty one gets 400 with the first error's import label and `FORMAT_ERROR` |
| ExceptionFilter.CorrectionIsLocal | src/gateway/exception.filter.ts:172-174 | the correction changes the reply to non-empty validation arrays only |
| ExceptionFilter.YearReportedUnderLabel | src/gateway/exception.filter.ts:136 | a failing year is reported under its import label `release year` |
| Catalogue.EmptyIsValid | src/movies/movie.model.ts:11-25 | the empty store meets the storage invariants |
| Catalogue.CastsPartitionActors | src/movies/movie.model.ts:23-24 | under the storage invariants every actor row is in the cast of exactly one stored movie, the one it names, under its own name |
| Catalogue.NewCast | src/movies/movies.service.ts:37-45 | one new actor row per requested name, numbered consecutively and owned by the movie |
| Catalogue.Create | src/movies/movies.service.ts:35-66 | create fails exactly when the title is stored, with `MOVIE_EXISTS`; otherwise it adds one movie under a fresh id and its actors, keeps the invariants and returns the stored movie |
| Catalogue.FindByID | src/movies/movies.service.ts:68-86 | the movie is found exactly when its id is stored, with its stored title, year and format and its whole cast (empty when it has no actors); otherwise a 404 names the id with `MOVIE_NOT_FOUND` |
| Catalogue.DeleteByID | src/movies/movies.service.ts:88-92 | delete fails exactly when find fails; otherwise it removes the movie and, by the cascade, exactly its actors |
| Catalogue.Update | src/movies/movies.service.ts:94-108 | the corrected update fails exactly when find fails; otherwise it keeps the title, sets year and format, and replaces the cast only when the request has one |
| Catalogue.CreateThenFind | src/movies/movies.service.ts:35-86 | a created movie is found under its id with the request's title, year, format and exactly its names |
| Catalogue.DuplicateTitleRejected | src/movies/movie.model.ts:13-15 | a second movie with a stored title fails with `NOT_UNIQUE` on `title` and `MOVIE_EXISTS`, and the store is untouched |
| Catalogue.DeleteThenFind | src/movies/movies.service.ts:88-92 | after a delete the movie and its cast are gone, the invariants hold and every other cast is unchanged |
| Catalogue.UpdateKeepsTitle | src/movies/movies.service.ts:94-108 | an update keeps the id, the title and the set of movies, and keeps the cast when the request has none |
| Catalogue.UpdateAsWritten | src/movies/movies.service.ts:94-108 | update as written fails exactly when find fails; otherwise it keeps the title, sets year and format, and leaves every stored actor row as it was |
| Catalogue.UpdateAsWrittenKeepsOldCast | src/movies/movies.service.ts:94-108 | after the as-written update with a cast, the movie's stored cast, and the cast a later find shows, is the old one |
| Catalogue.UpdateThenFind | src/movies/movies.service.ts:94-108 | after the corrected update with a cast, the movie's cast is exactly the requested names and none of the old actors |
| MovieQuery.BuildQuery | src/movies/movies.service.ts:110-136 | there is no filter exactly when no title, actor or search text is truthy; otherwise the title and actor texts are each the option when truthy, else the search text; absent paging and sort options take their defaults (20, 0, id, ascending) |
| MovieQuery.JoinedCast | src/movies/movies.service.ts:138-146 | the included cast of a movie is part of its stored cast |
| MovieQuery.SortByTitle | src/movies/queryMovie.utils.ts:10-15 | the sorted page is ordered by lower-cased title and is a permutation of the page |
| MovieQuery.SortMoviesAlphabetically | src/movies/queryMovie.utils.ts:5-19 | only a title sort reorders the page, into title order and as a permutation; every other key returns the page as it is |
| MovieQuery.List | src/movies/movies.service.ts:110-157 | the data is a permutation of the page, in title order when sorting by title and untouched otherwise, and the total counts all stored movies |
| MovieQuery.ListedMovies | src/movies/movies.service.ts:138-156 | every listed movie is stored, with its stored title, and without a filter a movie's whole cast is included |
| MovieQuery.TitleSortIgnoresOrder | src/movies/queryMovie.utils.ts:9-16 | with a title sort, the requested order does not change the result |
| MovieQuery.FilterCombinesByOr | src/movies/movies.service.ts:129-136 | a title match includes the whole cast; an actor whose name matches is included on its own |
| MovieQuery.WithTitleKey | src/movies/queryMovie.utils.ts:11-12 | the movies picked for a lower-cased title come from the page and all have that key |
| MovieQuery.InsertKeepsKeyOrder | src/movies/queryMovie.utils.ts:10-15 | placing a movie in a sorted run puts it before the movies whose titles differ from its own only in case, and keeps their order |
| MovieQuery.SortKeepsCaseVariantsInOrder | src/movies/queryMovie.utils.ts:10-15 | the title sort is stable: titles that differ only in letter case keep their page order |
| MovieImport.LastValue | src/movies/movies.service.ts:173 | the value read for a field comes from a pair of the block, and there is none exactly when no pair names the field |
| MovieImport.LastPairWins | src/movies/movies.service.ts:173 | a later pair for a field overrides every earlier one |
| MovieImport.EntriesRoundTrip | src/movies/movies.service.ts:173 | reading back the pairs of a movie input gives that input |
| MovieImport.ValidateAll | src/movies/movies.service.ts:171-180 | all requests are returned exactly when every record passes; otherwise the errors of the first failing record |
| MovieImport.RejectionHoldsErrors | src/movies/movies.service.ts:176 | a rejected validation always carries at least one error |
| MovieImport.CreateAll | src/movies/movies.service.ts:182-187 | the creates keep the invariants, give one result per record, keep every stored movie and add one movie per success |
| MovieImport.AfterCreate | src/movies/movies.service.ts:35-46 | after one create a title is taken exactly when it was taken before or is the request's title |
| MovieImport.CreateAllStep | src/movies/movies.service.ts:182-187 | each create sees the catalogue the previous creates left |
| MovieImport.CreateAllRejects | src/movies/movies.service.ts:182-187 | a record is rejected exactly when its title was stored before or an earlier record has it, with the duplicate-title error; a created movie has the record's title |
| MovieImport.Succeeded | src/movies/movies.service.ts:189-209 | the number of fulfilled creates equals the number of results exactly when all were fulfilled |
| MovieImport.Rejections | src/movies/movies.service.ts:189-195 | one description per rejected create |
| MovieImport.RejectionsAppend | src/movies/movies.service.ts:189-195 | the descriptions and the created movies of a run of creates are those of its parts, in record order |
| MovieImport.RejectionOfOne | src/movies/movies.service.ts:189-195 | a rejected create contributes its `errorDescription`, or nothing readable for a non-domain exception; a fulfilled one contributes no description and its movie |
| MovieImport.Import | src/movies/movies.service.ts:159-234 | the import fails to parse exactly when the parse fails, with its error; the store changes only when some create ran; a rejected validation carries errors |
| MovieImport.InvalidRecordStopsImport | src/movies/movies.service.ts:171-180 | an invalid record stops the import before any create, and the first invalid record's errors are thrown |
| MovieImport.ImportedCounts | src/movies/movies.service.ts:203-218 | a successful import imports every parsed record, and the total is the old count plus the imported ones |
| MovieImport.RejectedCreatesReported | src/movies/movies.service.ts:197-201 | when some create is rejected, the import throws a 400 holding one description per rejected record |
| MovieImport.InvalidRecordReply | src/movies/movies.service.ts:176 | the thrown errors of an invalid record reach the caller as 500 as written, and as 400 in the corrected filter |

## Left out

- Stream and readline plumbing is not modelled. The upload is a sequence of lines, and the end of
  the stream is the end of the sequence. The `rl.on('line')` and `events.once('close')` wiring
  (src/movies/movies.service.ts:161-169) is left out.
- Transactions and concurrency are not modelled. The creates of an import run one after another
  in record order. `Promise.allSettled` inside the transaction is modelled that way, and a
  rejected create does not roll back the others.
- `Promise.all` over `validateOrReject` rejects with the first rejection to settle. The model
  takes that to be the first failing record.
- The storage's choice of a page is not modelled. This covers the ordering by `lower(sort)`, the
  offset, and which movies fill the limit. `IsPage` states only what every page satisfies.
- `LIKE` wildcards in a search text are not modelled. The substring test is a case-insensitive
  ASCII one.
- MovieQuery.SortByTitle: `localeCompare` on `toLocaleLowerCase` is modelled as the
  lexicographic order of code points on ASCII lower case.
- JsValues.ParseNumber: `Number()` is modelled for the empty string and optionally signed
  decimal digit runs only, and every other text reads as `NaN`. JavaScript reads more texts as
  numbers: `2000.0`, `2000.`, `2e3` and `0x7D0` are all 2000, and `2000.5` is 2000.5. The model
  therefore rejects an import year written as `2000.0`, `2e3` or `0x7D0`, which the service
  accepts, and reports a year of `2000.5` with `@Min`, `@Max` and `@IsInt` failing where the
  service fails `@IsInt` only. `Infinity` is left out, and white space is already trimmed.
- The e-mail check belongs to the validation library and is a parameter (`EmailRecogniser`).
- Authentication, the JWT strategy, the HTTP controllers, the validation pipe options and the ORM
  models' other columns are outside the core.
- Unicode case mapping is left out: upper- and lower-casing change ASCII letters only. White space
  is the full set JavaScript's `trim` strips.
- Catalogue.UpdateAsWritten: the instance `update` returns, with the request's names set on it,
  is not modelled, and neither is what the ORM's `save` does with those in-memory actors. The
  model promises only what the service text shows: the movie row takes the new year and format,
  and no actor row is deleted or written.
- Movie request fields of other JSON types are not modelled. `MovieInput` holds strings, integers
  (and `NaN`) and string lists only. A JSON year that is not an integer, such as `2000.5`,
  cannot be written, so the `@IsInt` failure it gets in the service is not modelled. A
  number title or a `null` actors value throws inside the `@Transform` and is answered with 500,
  and a string year is reported by the year rules; neither is modelled.
- Lines that do not parse are reported as the `ParseFailed` outcome. In the service the parser
  throws inside the readline `line` handler, outside the import's `try`, so the reply the caller
  sees for such a line is not modelled.
- The import's own catch of a storage `ValidationError` (src/movies/movies.service.ts:219-230) is
  left out. Each create already translates that error into a domain exception, so the catch
  cannot be reached.
- User fields of a type other than string are left out. An absent field is modelled.
- `ERROR_CODES` lookups of inherited object keys such as `constructor` are left out.
- An import block that the input ends without a blank line is dropped. This is what the parser
  does: nothing flushes the pending block when the stream closes.
- A movie without actors never appears in a filtered or unfiltered list page. The `include` with a
  `where` makes the join an inner join.
- Actors are validated by name only. The wrapping in `Actor` objects by the `@Transform` is
  implicit.

## Findings

| source | as written | input that shows it | evidently intended | confidence | as-written member | corrected member |
|---|---|---|---|---|---|---|
| src/gateway/exception.filter.ts:127-142 | `catch` passes `exception[0]` and the handler indexes it again with `[0]`. Reading `.property` of `undefined` throws, and the fallback answers 500 `ITERNAL_SERVER_ERROR` | an import whose only block is `Title: A`, `Release Year: 1800`, `Format: DVD` and a blank line. Validation rejects with `[year error]` | 400 with `fields: {"release year": "FORMAT_ERROR"}` and `MALFORMED_REQUEST` | not executed | ExceptionFilter.CatchAsWritten | ExceptionFilter.Catch |
| src/movies/movies.service.ts:94-108 | `update` sets the new actor names on the loaded movie and saves it. Nothing deletes the movie's old actor rows, so the stored cast is not replaced | a movie whose cast is `A`, updated with actors `["B"]`; the stored cast still holds `A` afterwards | the cast becomes exactly `B` | medium, not executed | Catalogue.UpdateAsWritten | Catalogue.Update |

`Catalogue.UpdateAsWrittenKeepsOldCast` proves that the stored cast is unchanged after the
as-written update. `Catalogue.UpdateThenFind` proves that after the corrected update the cast is
exactly the requested names.

`ExceptionFilter.ValidationArrayAsWritten` proves the as-written reply is 500 for every validation
array. It also proves that the corrected filter answers a non-empty one with 400 under the first
error's import label. `MovieImport.InvalidRecordReply` carries this through to the import.
