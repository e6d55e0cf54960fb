/** The `ERROR_CODES` table of the gateway: every error code the API reports, keyed by itself. */
module ErrorCodes {
  import opened Wrappers

  datatype ErrorCode =
    // user codes
    | EmailNotUnique | EmailIsRequired | NameIsRequired | PasswordIsRequired
    | ConfirmPasswordIsRequired | ConfirmPasswordNotMatch
    // authentication codes
    | AuthenticationFailed
    // movie codes
    | MovieExists | MovieYearBiggerThan1900 | MovieYearLessThan2100 | MalformedRequest
    | MovieNotFound | PlainTxtFileRequired
    // generic codes
    | FormatError | InternalServerError

  /** The string each code is reported as (the internal error keeps the source's spelling). */
  function CodeName(c: ErrorCode): string {
    match c
    case EmailNotUnique => "EMAIL_NOT_UNIQUE"
    case EmailIsRequired => "EMAIL_IS_REQUIRED"
    case NameIsRequired => "NAME_IS_REQUIRED"
    case PasswordIsRequired => "PASSWORD_IS_REQUIRED"
    case ConfirmPasswordIsRequired => "CONFIRM_PASSWORD_IS_REQUIRED"
    case ConfirmPasswordNotMatch => "CONFIRM_PASSWORD_NOT_MATCH"
    case AuthenticationFailed => "AUTHENTICATION_FAILED"
    case MovieExists => "MOVIE_EXISTS"
    case MovieYearBiggerThan1900 => "MOVIE_YEAR_BIGGER_THAN_1900"
    case MovieYearLessThan2100 => "MOVIE_YEAR_LESS_THAN_2100"
    case MalformedRequest => "MALFORMED_REQUEST"
    case MovieNotFound => "MOVIE_NOT_FOUND"
    case PlainTxtFileRequired => "PLAIN_TXT_FILE_REQUIRED"
    case FormatError => "FORMAT_ERROR"
    case InternalServerError => "ITERNAL_SERVER_ERROR"
  }

  const UserCodes: seq<ErrorCode> := [EmailNotUnique, EmailIsRequired, NameIsRequired,
    PasswordIsRequired, ConfirmPasswordIsRequired, ConfirmPasswordNotMatch]
  const AuthCodes: seq<ErrorCode> := [AuthenticationFailed]
  const MovieCodes: seq<ErrorCode> := [MovieExists, MovieYearBiggerThan1900, MovieYearLessThan2100,
    MalformedRequest, MovieNotFound, PlainTxtFileRequired]

  /** The codes in the order the table spreads them: user, authentication, movie, then the two
      generic ones. */
  const AllCodes: seq<ErrorCode> := UserCodes + AuthCodes + MovieCodes + [FormatError, InternalServerError]

  /** The `ERROR_CODES` object as the gateway writes it: the pairs of the user, authentication and
      movie tables it spreads, then the two generic entries. */
  const UserTable: seq<(string, string)> := [
    ("EMAIL_NOT_UNIQUE", "EMAIL_NOT_UNIQUE"),
    ("EMAIL_IS_REQUIRED", "EMAIL_IS_REQUIRED"),
    ("NAME_IS_REQUIRED", "NAME_IS_REQUIRED"),
    ("PASSWORD_IS_REQUIRED", "PASSWORD_IS_REQUIRED"),
    ("CONFIRM_PASSWORD_IS_REQUIRED", "CONFIRM_PASSWORD_IS_REQUIRED"),
    ("CONFIRM_PASSWORD_NOT_MATCH", "CONFIRM_PASSWORD_NOT_MATCH")]
  const AuthTable: seq<(string, string)> := [("AUTHENTICATION_FAILED", "AUTHENTICATION_FAILED")]
  const MovieTable: seq<(string, string)> := [
    ("MOVIE_EXISTS", "MOVIE_EXISTS"),
    ("MOVIE_YEAR_BIGGER_THAN_1900", "MOVIE_YEAR_BIGGER_THAN_1900"),
    ("MOVIE_YEAR_LESS_THAN_2100", "MOVIE_YEAR_LESS_THAN_2100"),
    ("MALFORMED_REQUEST", "MALFORMED_REQUEST"),
    ("MOVIE_NOT_FOUND", "MOVIE_NOT_FOUND"),
    ("PLAIN_TXT_FILE_REQUIRED", "PLAIN_TXT_FILE_REQUIRED")]
  const ErrorTable: seq<(string, string)> :=
    UserTable + AuthTable + MovieTable
    + [("FORMAT_ERROR", "FORMAT_ERROR"), ("ITERNAL_SERVER_ERROR", "ITERNAL_SERVER_ERROR")]

  /** The value stored under `key` in a list of pairs, if any. */
  function FindValue(key: string, table: seq<(string, string)>): (r: Option<string>)
    ensures r.Some? ==> (key, r.value) in table
    ensures r.None? <==> forall i :: 0 <= i < |table| ==> table[i].0 != key
  {
    if |table| == 0 then None
    else if table[0].0 == key then Some(table[0].1)
    else FindValue(key, table[1..])
  }

  /** `ERROR_CODES[key]`: the string stored under `key`, if the table has that key. */
  function ErrorCodesAt(key: string): Option<string> {
    FindValue(key, ErrorTable)
  }

  /** The pairs a list of codes gives when each is stored under its own name. */
  function PairsOf(codes: seq<ErrorCode>): (r: seq<(string, string)>)
    ensures |r| == |codes|
    ensures forall i :: 0 <= i < |codes| ==> r[i] == (CodeName(codes[i]), CodeName(codes[i]))
  {
    seq(|codes|, i requires 0 <= i < |codes| => (CodeName(codes[i]), CodeName(codes[i])))
  }

  /** The code whose name is exactly `key`, if any. */
  function LookupCode(key: string): Option<ErrorCode> {
    FindCode(key, AllCodes)
  }

  function FindCode(key: string, codes: seq<ErrorCode>): (r: Option<ErrorCode>)
    ensures r.Some? ==> r.value in codes && CodeName(r.value) == key
    ensures r.None? ==> forall c :: c in codes ==> CodeName(c) != key
  {
    if |codes| == 0 then None
    else if CodeName(codes[0]) == key then Some(codes[0])
    else FindCode(key, codes[1..])
  }

  /** Every code appears in the table. */
  lemma AllCodesComplete(c: ErrorCode)
    ensures c in AllCodes
  {
  }

  /** No two codes are reported as the same string. */
  lemma CodeNameInjective(c: ErrorCode, d: ErrorCode)
    requires CodeName(c) == CodeName(d)
    ensures c == d
  {
  }

  /** The source's table stores every key under itself, and it holds exactly the codes of the
      model, in the same order. */
  lemma TableIsIdentity()
    ensures forall i :: 0 <= i < |ErrorTable| ==> ErrorTable[i].0 == ErrorTable[i].1
    ensures ErrorTable == PairsOf(AllCodes)
    ensures forall c: ErrorCode :: ErrorCodesAt(CodeName(c)) == Some(CodeName(c))
  {
    TableOfCodes();
    forall c: ErrorCode ensures ErrorCodesAt(CodeName(c)) == Some(CodeName(c)) {
      AllCodesComplete(c);
      ErrorCodesAgree(CodeName(c));
      LookupCodeIff(CodeName(c), c);
    }
  }

  lemma TableOfCodes()
    ensures ErrorTable == PairsOf(AllCodes)
  {
    assert UserTable == PairsOf(UserCodes);
    assert AuthTable == PairsOf(AuthCodes);
    assert MovieTable == PairsOf(MovieCodes);
    assert [("FORMAT_ERROR", "FORMAT_ERROR"), ("ITERNAL_SERVER_ERROR", "ITERNAL_SERVER_ERROR")]
        == PairsOf([FormatError, InternalServerError]);
    PairsOfAppend(UserCodes, AuthCodes);
    PairsOfAppend(UserCodes + AuthCodes, MovieCodes);
    PairsOfAppend(UserCodes + AuthCodes + MovieCodes, [FormatError, InternalServerError]);
  }

  lemma PairsOfAppend(a: seq<ErrorCode>, b: seq<ErrorCode>)
    ensures PairsOf(a + b) == PairsOf(a) + PairsOf(b)
  {
  }

  /** Searching the pairs of some codes finds a key exactly when one of the codes has that name. */
  lemma {:induction false} FindValueOfPairs(key: string, codes: seq<ErrorCode>)
    ensures FindValue(key, PairsOf(codes)) == if FindCode(key, codes).Some? then Some(key) else None
    decreases |codes|
  {
    if |codes| > 0 {
      assert PairsOf(codes)[1..] == PairsOf(codes[1..]);
      FindValueOfPairs(key, codes[1..]);
    }
  }

  /** The source's table has a key exactly when the model has a code of that name, and then
      stores the key itself. */
  lemma ErrorCodesAgree(key: string)
    ensures ErrorCodesAt(key) == if LookupCode(key).Some? then Some(key) else None
  {
    TableOfCodes();
    FindValueOfPairs(key, AllCodes);
  }

  /** Looking a key up finds the code of that name, and only it. */
  lemma LookupCodeIff(key: string, c: ErrorCode)
    ensures LookupCode(key) == Some(c) <==> CodeName(c) == key
  {
    AllCodesComplete(c);
    if LookupCode(key).Some? && CodeName(c) == key {
      CodeNameInjective(LookupCode(key).value, c);
    }
  }

  /** No key holds a space, so no sentence-like message is a key of the table. */
  lemma NoCodeHasSpace(c: ErrorCode)
    ensures ' ' !in CodeName(c)
  {
    NoSpaceInKeys1();
    NoSpaceInKeys2();
    NoSpaceInKeys3();
    NoSpaceInKeys4();
    NoSpaceInKeys5();
  }

  // The keys are checked a few at a time, which keeps each proof small.

  lemma NoSpaceInKeys1()
    ensures ' ' !in CodeName(EmailNotUnique)
    ensures ' ' !in CodeName(EmailIsRequired)
    ensures ' ' !in CodeName(NameIsRequired)
  {
  }

  lemma NoSpaceInKeys2()
    ensures ' ' !in CodeName(PasswordIsRequired)
    ensures ' ' !in CodeName(ConfirmPasswordIsRequired)
    ensures ' ' !in CodeName(ConfirmPasswordNotMatch)
  {
  }

  lemma NoSpaceInKeys3()
    ensures ' ' !in CodeName(AuthenticationFailed)
    ensures ' ' !in CodeName(MovieExists)
    ensures ' ' !in CodeName(MovieYearBiggerThan1900)
  {
  }

  lemma NoSpaceInKeys4()
    ensures ' ' !in CodeName(MovieYearLessThan2100)
    ensures ' ' !in CodeName(MalformedRequest)
    ensures ' ' !in CodeName(MovieNotFound)
  {
  }

  lemma NoSpaceInKeys5()
    ensures ' ' !in CodeName(PlainTxtFileRequired)
    ensures ' ' !in CodeName(FormatError)
    ensures ' ' !in CodeName(InternalServerError)
  {
  }

  lemma LookupWithSpaceFails(key: string)
    requires ' ' in key
    ensures LookupCode(key) == None
  {
    if LookupCode(key).Some? {
      NoCodeHasSpace(LookupCode(key).value);
    }
  }
}
