/** The user registration request: all four fields are trimmed, each must be non-empty with its
    own error code, the e-mail must look like one, and the confirmation must equal the password. */
module UserDto {
  import opened Wrappers
  import opened Strings
  import opened ErrorCodes
  import opened Validation

  /** The plain object of a registration body; `None` is a missing property. */
  datatype UserInput = UserInput(
    email: Option<string>,
    name: Option<string>,
    password: Option<string>,
    confirmPassword: Option<string>)

  /** The e-mail recogniser belongs to the validation library; the model takes it as a
      parameter. */
  type EmailRecogniser = string -> bool

  /** The `@Transform` steps: every present field is trimmed. */
  function Transform(u: UserInput): (r: UserInput)
    ensures r.email == TrimOption(u.email) && r.name == TrimOption(u.name)
    ensures r.password == TrimOption(u.password) && r.confirmPassword == TrimOption(u.confirmPassword)
  {
    UserInput(TrimOption(u.email), TrimOption(u.name), TrimOption(u.password), TrimOption(u.confirmPassword))
  }

  /** The present fields of a (transformed) input, keyed by property name: the object a custom
      constraint sees. */
  function ObjectOf(u: UserInput): (r: map<string, string>)
    ensures "password" in r <==> u.password.Some?
    ensures "password" in r ==> r["password"] == u.password.value
  {
    var m0 := map[];
    var m1 := if u.email.Some? then m0["email" := u.email.value] else m0;
    var m2 := if u.name.Some? then m1["name" := u.name.value] else m1;
    var m3 := if u.password.Some? then m2["password" := u.password.value] else m2;
    if u.confirmPassword.Some? then m3["confirmPassword" := u.confirmPassword.value] else m3
  }

  /** `CustomMatchPasswords.validate`: the value equals the sibling property named by the first
      constraint argument. A missing argument reads the property named "undefined"; a missing
      property reads as absent, and two absent values are equal. */
  function MatchPasswords(value: Option<string>, target: map<string, string>, constraints: seq<string>): (r: bool)
    ensures |constraints| > 0 && constraints[0] in target ==>
      (r <==> value == Some(target[constraints[0]]))
    ensures |constraints| > 0 && constraints[0] !in target ==> (r <==> value.None?)
  {
    var key := if |constraints| > 0 then constraints[0] else "undefined";
    var sibling := if key in target then Some(target[key]) else None;
    value == sibling
  }

  function EmailChecks(email: Option<string>, isEmail: EmailRecogniser): seq<Check> {
    [ IsNotEmpty("email", email, Some(EmailIsRequired)),
      Check(Constraint("isEmail", DefaultMessage("email", "must be an email")),
            email.Some? && isEmail(email.value)),
      IsString("email", email) ]
  }

  function NameChecks(name: Option<string>): seq<Check> {
    [IsNotEmpty("name", name, Some(NameIsRequired)), IsString("name", name)]
  }

  function PasswordChecks(password: Option<string>): seq<Check> {
    [IsNotEmpty("password", password, Some(PasswordIsRequired)), IsString("password", password)]
  }

  /** The confirmation is compared with the `password` property of the same (transformed)
      object. */
  function ConfirmChecks(u: UserInput): seq<Check> {
    [ IsNotEmpty("confirmPassword", u.confirmPassword, Some(ConfirmPasswordIsRequired)),
      Check(Constraint("CustomMatchPasswords", CodeMessage(ConfirmPasswordNotMatch)),
            MatchPasswords(u.confirmPassword, ObjectOf(u), ["password"])),
      IsString("confirmPassword", u.confirmPassword) ]
  }

  /** The errors the validator reports, one per failing property, in declaration order. The
      checks see the transformed input. */
  function UserErrors(u: UserInput, isEmail: EmailRecogniser): seq<ValidationError> {
    CheckedErrors(Transform(u), isEmail)
  }

  /** The errors of an input as the checks see it. */
  function CheckedErrors(t: UserInput, isEmail: EmailRecogniser): seq<ValidationError> {
    Collect([ PropertyError("email", EmailChecks(t.email, isEmail)),
              PropertyError("name", NameChecks(t.name)),
              PropertyError("password", PasswordChecks(t.password)),
              PropertyError("confirmPassword", ConfirmChecks(t)) ])
  }

  /** A field that is present and non-empty once trimmed. */
  predicate Filled(value: Option<string>) {
    value.Some? && Trim(value.value) != ""
  }

  /** The registration rules stated directly on the untransformed input. */
  predicate IsValidUser(u: UserInput, isEmail: EmailRecogniser) {
    && Filled(u.email) && isEmail(Trim(u.email.value))
    && Filled(u.name)
    && Filled(u.password)
    && Filled(u.confirmPassword) && Trim(u.confirmPassword.value) == Trim(u.password.value)
  }

  /** The validator reports nothing exactly when the registration rules hold. */
  lemma UserErrorsEmptyIff(u: UserInput, isEmail: EmailRecogniser)
    ensures UserErrors(u, isEmail) == [] <==> IsValidUser(u, isEmail)
  {
    CheckedErrorsEmptyIff(Transform(u), isEmail);
  }

  /** The rules as the checks state them, on the transformed input. */
  predicate PassesChecks(t: UserInput, isEmail: EmailRecogniser) {
    && Present(t.email) && isEmail(t.email.value)
    && Present(t.name)
    && Present(t.password)
    && Present(t.confirmPassword) && t.confirmPassword == t.password
  }

  /** `@IsNotEmpty` and `@IsString` both hold. */
  predicate Present(value: Option<string>) {
    value.Some? && value.value != ""
  }

  lemma CheckedErrorsEmptyIff(t: UserInput, isEmail: EmailRecogniser)
    ensures CheckedErrors(t, isEmail) == [] <==> PassesChecks(t, isEmail)
  {
    var errors := [ PropertyError("email", EmailChecks(t.email, isEmail)),
                    PropertyError("name", NameChecks(t.name)),
                    PropertyError("password", PasswordChecks(t.password)),
                    PropertyError("confirmPassword", ConfirmChecks(t)) ];
    EmailPasses(t.email, isEmail);
    NamePasses(t.name);
    PasswordPasses(t.password);
    ConfirmPasses(t);
    assert (forall i :: 0 <= i < |errors| ==> errors[i].None?)
       <==> errors[0].None? && errors[1].None? && errors[2].None? && errors[3].None?;
  }

  lemma EmailPasses(email: Option<string>, isEmail: EmailRecogniser)
    ensures PropertyError("email", EmailChecks(email, isEmail)).None? <==> Present(email) && isEmail(email.value)
  {
    var checks := EmailChecks(email, isEmail);
    assert (forall i :: 0 <= i < |checks| ==> checks[i].holds) <==> checks[0].holds && checks[1].holds && checks[2].holds;
  }

  lemma NamePasses(name: Option<string>)
    ensures PropertyError("name", NameChecks(name)).None? <==> Present(name)
  {
    var checks := NameChecks(name);
    assert (forall i :: 0 <= i < |checks| ==> checks[i].holds) <==> checks[0].holds && checks[1].holds;
  }

  lemma PasswordPasses(password: Option<string>)
    ensures PropertyError("password", PasswordChecks(password)).None? <==> Present(password)
  {
    var checks := PasswordChecks(password);
    assert (forall i :: 0 <= i < |checks| ==> checks[i].holds) <==> checks[0].holds && checks[1].holds;
  }

  /** The confirmation passes when it is present and equals the password. */
  lemma ConfirmPasses(t: UserInput)
    ensures PropertyError("confirmPassword", ConfirmChecks(t)).None?
        <==> Present(t.confirmPassword) && t.confirmPassword == t.password
  {
    var checks := ConfirmChecks(t);
    assert checks[1].holds <==> t.confirmPassword == t.password by {
      assert "password" in ObjectOf(t) <==> t.password.Some?;
    }
    assert (forall i :: 0 <= i < |checks| ==> checks[i].holds) <==> checks[0].holds && checks[1].holds && checks[2].holds;
  }

  /** The first constraint an error reports. */
  function FirstMessage(e: Option<ValidationError>): Option<string> {
    if e.Some? && e.value.constraints.Some? && |e.value.constraints.value| > 0
    then Some(e.value.constraints.value[0].message)
    else None
  }

  /** A value that is missing or empty fails its `@IsNotEmpty` check first, with that check's
      message. */
  lemma BlankReportsFirst(property: string, value: Option<string>, code: ErrorCode, rest: seq<Check>)
    requires !Present(value)
    ensures FirstMessage(PropertyError(property, [IsNotEmpty(property, value, Some(code))] + rest))
         == Some(CodeName(code))
  {
    var checks := [IsNotEmpty(property, value, Some(code))] + rest;
    assert !checks[0].holds;
  }

  lemma BlankAfterTrim(value: Option<string>)
    requires !Filled(value)
    ensures !Present(TrimOption(value))
  {
  }

  /** A field that is missing or blank once trimmed reports its own code first. */
  lemma EmailRequired(u: UserInput, isEmail: EmailRecogniser)
    requires !Filled(u.email)
    ensures FirstMessage(PropertyError("email", EmailChecks(Transform(u).email, isEmail)))
         == Some(CodeName(EmailIsRequired))
  {
    BlankAfterTrim(u.email);
    EmailBlank(Transform(u).email, isEmail);
  }

  lemma NameRequired(u: UserInput)
    requires !Filled(u.name)
    ensures FirstMessage(PropertyError("name", NameChecks(Transform(u).name))) == Some(CodeName(NameIsRequired))
  {
    BlankAfterTrim(u.name);
    NameBlank(Transform(u).name);
  }

  lemma PasswordRequired(u: UserInput)
    requires !Filled(u.password)
    ensures FirstMessage(PropertyError("password", PasswordChecks(Transform(u).password)))
         == Some(CodeName(PasswordIsRequired))
  {
    BlankAfterTrim(u.password);
    PasswordBlank(Transform(u).password);
  }

  lemma ConfirmRequired(u: UserInput)
    requires !Filled(u.confirmPassword)
    ensures FirstMessage(PropertyError("confirmPassword", ConfirmChecks(Transform(u))))
         == Some(CodeName(ConfirmPasswordIsRequired))
  {
    BlankAfterTrim(u.confirmPassword);
    ConfirmBlank(Transform(u));
  }

  lemma EmailBlank(email: Option<string>, isEmail: EmailRecogniser)
    requires !Present(email)
    ensures FirstMessage(PropertyError("email", EmailChecks(email, isEmail))) == Some(CodeName(EmailIsRequired))
  {
    var checks := EmailChecks(email, isEmail);
    BlankReportsFirst("email", email, EmailIsRequired, checks[1..]);
    assert checks == [checks[0]] + checks[1..];
  }

  lemma NameBlank(name: Option<string>)
    requires !Present(name)
    ensures FirstMessage(PropertyError("name", NameChecks(name))) == Some(CodeName(NameIsRequired))
  {
    var checks := NameChecks(name);
    BlankReportsFirst("name", name, NameIsRequired, checks[1..]);
    assert checks == [checks[0]] + checks[1..];
  }

  lemma PasswordBlank(password: Option<string>)
    requires !Present(password)
    ensures FirstMessage(PropertyError("password", PasswordChecks(password))) == Some(CodeName(PasswordIsRequired))
  {
    var checks := PasswordChecks(password);
    BlankReportsFirst("password", password, PasswordIsRequired, checks[1..]);
    assert checks == [checks[0]] + checks[1..];
  }

  lemma ConfirmBlank(t: UserInput)
    requires !Present(t.confirmPassword)
    ensures FirstMessage(PropertyError("confirmPassword", ConfirmChecks(t))) == Some(CodeName(ConfirmPasswordIsRequired))
  {
    var checks := ConfirmChecks(t);
    BlankReportsFirst("confirmPassword", t.confirmPassword, ConfirmPasswordIsRequired, checks[1..]);
    assert checks == [checks[0]] + checks[1..];
  }

  /** A filled confirmation that differs from the trimmed password reports exactly the mismatch
      code; a matching one reports nothing. */
  lemma ConfirmationMismatch(u: UserInput)
    requires Filled(u.confirmPassword)
    ensures var e := PropertyError("confirmPassword", ConfirmChecks(Transform(u)));
      && (e.Some? <==> u.password.None? || Trim(u.password.value) != Trim(u.confirmPassword.value))
      && (e.Some? ==> e.value.constraints == Some([Constraint("CustomMatchPasswords", CodeName(ConfirmPasswordNotMatch))]))
  {
    var t := Transform(u);
    var checks := ConfirmChecks(t);
    var matches := t.password.Some? && t.password.value == t.confirmPassword.value;
    assert checks[0].holds;
    assert checks[1].holds == matches by {
      assert "password" in ObjectOf(t) <==> t.password.Some?;
    }
    assert checks[2].holds;
    assert Failures(checks) == (if matches then [] else [checks[1].constraint]) by {
      assert checks[1..][1..] == [checks[2]];
    }
  }

  /** Only the trimmed fields matter: validating an already trimmed input gives the same
      errors. */
  lemma ValidationSeesTrimmedFields(u: UserInput, isEmail: EmailRecogniser)
    ensures UserErrors(Transform(u), isEmail) == UserErrors(u, isEmail)
  {
    var t := Transform(u);
    forall v: Option<string> ensures TrimOption(TrimOption(v)) == TrimOption(v) {
      if v.Some? { TrimIdempotent(v.value); }
    }
    assert Transform(t) == t;
  }
}
