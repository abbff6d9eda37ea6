/** The user payload models: the field constraints declared on UserBase,
    UserRegister and UserOut, and the parsing of a JSON body against them. */
module UserModel {
  import opened Wrappers
  import opened Errors

  /** A calendar date; the model only compares dates for equality. */
  type Date = int

  const NameMinLength: nat := 1
  const NameMaxLength: nat := 50
  const PasswordMinLength: nat := 8
  const PasswordMaxLength: nat := 64

  /** The fields every user payload carries. */
  datatype UserBase = UserBase(email: string, firstName: string, lastName: string, birthDate: Option<Date>)

  /** The registration body: the base fields plus the plaintext password. */
  datatype UserRegister = UserRegister(base: UserBase, password: string)

  /** What a user looks like in a response: the base fields plus an optional id.
      There is no password field, so no response can carry one. */
  datatype UserOut = UserOut(base: UserBase, id: Option<int>)

  /** A JSON body as received: any key may be missing (None); `birthDate` is
      missing (None), null (Some(None)) or a date. Keys the model does not
      declare are ignored, so one payload type serves both bodies. */
  datatype UserPayload = UserPayload(
    email: Option<string>,
    firstName: Option<string>,
    lastName: Option<string>,
    birthDate: Option<Option<Date>>,
    password: Option<string>)

  predicate NameOk(s: string)
  {
    NameMinLength <= |s| <= NameMaxLength
  }

  predicate PasswordOk(s: string)
  {
    PasswordMinLength <= |s| <= PasswordMaxLength
  }

  /** `emailStr` stands for the EmailStr validator, which the model leaves
      uninterpreted: None rejects an address, Some(a) accepts it and gives its
      normal form `a` (surrounding spaces and a display name dropped, the domain
      lower-cased). That normal form is what a parsed body carries. */
  predicate ValidUserBase(u: UserBase, emailStr: string -> Option<string>)
  {
    emailStr(u.email).Some? && NameOk(u.firstName) && NameOk(u.lastName)
  }

  /** The validator accepts its own normal forms and leaves them as they are,
      as EmailStr does: normalising twice is normalising once. */
  ghost predicate EmailStrStable(emailStr: string -> Option<string>)
  {
    forall s :: emailStr(s).Some? ==> emailStr(emailStr(s).value) == emailStr(s)
  }

  predicate ValidUserRegister(u: UserRegister, emailStr: string -> Option<string>)
  {
    ValidUserBase(u.base, emailStr) && PasswordOk(u.password)
  }

  predicate ValidUserOut(u: UserOut, emailStr: string -> Option<string>)
  {
    ValidUserBase(u.base, emailStr)
  }

  // Per-key checks of a body: the key is present and its value is acceptable.

  predicate EmailGiven(p: UserPayload, emailStr: string -> Option<string>)
  {
    p.email.Some? && emailStr(p.email.value).Some?
  }

  predicate FirstNameGiven(p: UserPayload)
  {
    p.firstName.Some? && NameOk(p.firstName.value)
  }

  predicate LastNameGiven(p: UserPayload)
  {
    p.lastName.Some? && NameOk(p.lastName.value)
  }

  predicate PasswordGiven(p: UserPayload)
  {
    p.password.Some? && PasswordOk(p.password.value)
  }

  /** The names of the base fields that fail validation, as the framework reports them. */
  function BaseFieldErrors(p: UserPayload, emailStr: string -> Option<string>): set<string>
  {
    (if EmailGiven(p, emailStr) then {} else {"email"})
    + (if FirstNameGiven(p) then {} else {"first_name"})
    + (if LastNameGiven(p) then {} else {"last_name"})
  }

  /** Validates a body as a UserBase. The email is replaced by its normal form;
      birth_date defaults to None when omitted. */
  function ParseUserBase(p: UserPayload, emailStr: string -> Option<string>): (r: Result<UserBase, Error>)
    ensures r.Ok? <==> EmailGiven(p, emailStr) && FirstNameGiven(p) && LastNameGiven(p)
    ensures r.Ok? ==>
      && r.value.email == emailStr(p.email.value).value
      && r.value.firstName == p.firstName.value
      && r.value.lastName == p.lastName.value
      && r.value.birthDate == (if p.birthDate.Some? then p.birthDate.value else None)
    ensures r.Ok? ==> NameOk(r.value.firstName) && NameOk(r.value.lastName)
    ensures r.Ok? && EmailStrStable(emailStr) ==> ValidUserBase(r.value, emailStr)
    ensures r.Err? ==> r.error.Unprocessable? && r.error.fields != {}
    ensures r.Err? ==>
      && ("email" in r.error.fields <==> !EmailGiven(p, emailStr))
      && ("first_name" in r.error.fields <==> !FirstNameGiven(p))
      && ("last_name" in r.error.fields <==> !LastNameGiven(p))
  {
    var errors := BaseFieldErrors(p, emailStr);
    if errors != {} then
      Err(Unprocessable(errors))
    else
      var birthDate := if p.birthDate.Some? then p.birthDate.value else None;
      Ok(UserBase(emailStr(p.email.value).value, p.firstName.value, p.lastName.value, birthDate))
  }

  /** Validates a body as a UserRegister: the base fields and the password.
      A rejection names exactly the failing fields, base and password alike. */
  function ParseUserRegister(p: UserPayload, emailStr: string -> Option<string>): (r: Result<UserRegister, Error>)
    ensures r.Ok? <==> ParseUserBase(p, emailStr).Ok? && PasswordGiven(p)
    ensures r.Ok? && EmailStrStable(emailStr) ==> ValidUserRegister(r.value, emailStr)
    ensures r.Ok? ==> r.value.base == ParseUserBase(p, emailStr).value && r.value.password == p.password.value
    ensures r.Err? ==> r.error.Unprocessable? && r.error.fields != {}
    ensures r.Err? ==>
      && ("email" in r.error.fields <==> !EmailGiven(p, emailStr))
      && ("first_name" in r.error.fields <==> !FirstNameGiven(p))
      && ("last_name" in r.error.fields <==> !LastNameGiven(p))
      && ("password" in r.error.fields <==> !PasswordGiven(p))
  {
    var errors := BaseFieldErrors(p, emailStr) + (if PasswordGiven(p) then {} else {"password"});
    if errors != {} then
      Err(Unprocessable(errors))
    else
      Ok(UserRegister(ParseUserBase(p, emailStr).value, p.password.value))
  }
}
