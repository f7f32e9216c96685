/**
 * validateSignupRequest: trim the three fields, then apply six checks in a
 * fixed order; the first check that fails decides the error.
 */
module Validation {
  import opened Wrappers
  import opened Bytes
  import opened Models
  import opened Email

  /** Names may be at most this many bytes long. */
  const MaxNameLength := 100

  /** The six rules, in the order the validator applies them. */
  datatype ValidationError =
    | EmailRequired
    | InvalidEmailFormat
    | FirstNameRequired
    | FirstNameTooLong
    | LastNameRequired
    | LastNameTooLong
  {
    /** Position of the rule in the check order. */
    function Rank(): nat
    {
      match this
      case EmailRequired => 0
      case InvalidEmailFormat => 1
      case FirstNameRequired => 2
      case FirstNameTooLong => 3
      case LastNameRequired => 4
      case LastNameTooLong => 5
    }

    /** The text of the error returned to the client. */
    function Message(): string
    {
      match this
      case EmailRequired => "email is required"
      case InvalidEmailFormat => "invalid email format"
      case FirstNameRequired => "first name is required"
      case FirstNameTooLong => "first name must be less than 100 characters"
      case LastNameRequired => "last name is required"
      case LastNameTooLong => "last name must be less than 100 characters"
    }
  }

  /** Each rule has its own message. */
  lemma MessageInjective(e1: ValidationError, e2: ValidationError)
    ensures e1.Message() == e2.Message() <==> e1 == e2
  {
    if e1 != e2 {
      // the six messages have six different lengths
      assert |e1.Message()| != |e2.Message()|;
    }
  }

  /** Rule e fails on the (already trimmed) request t. */
  predicate Violates(e: ValidationError, t: SignupRequest)
  {
    match e
    case EmailRequired => t.email == []
    case InvalidEmailFormat => !IsValidEmail(t.email)
    case FirstNameRequired => t.firstName == []
    case FirstNameTooLong => |t.firstName| > MaxNameLength
    case LastNameRequired => t.lastName == []
    case LastNameTooLong => |t.lastName| > MaxNameLength
  }

  /** e is the first rule, in check order, that t fails. */
  ghost predicate FirstFailure(e: ValidationError, t: SignupRequest)
  {
    Violates(e, t) && forall e': ValidationError :: e'.Rank() < e.Rank() ==> !Violates(e', t)
  }

  /** The request with its three fields trimmed, as it is left after validation. */
  function Trimmed(req: SignupRequest): SignupRequest
  {
    SignupRequest(TrimSpace(req.email), TrimSpace(req.firstName), TrimSpace(req.lastName))
  }

  /** What validation leaves behind: the trimmed request and the error, if any. */
  datatype Validated = Validated(req: SignupRequest, err: Option<ValidationError>)

  /** The six checks in order on an already trimmed request; the first failure wins. */
  function Check(t: SignupRequest): (err: Option<ValidationError>)
    ensures err.None? <==> forall e :: !Violates(e, t)
    ensures err.Some? ==> FirstFailure(err.value, t)
  {
    if t.email == [] then assert Violates(EmailRequired, t); Some(EmailRequired)
    else if !IsValidEmail(t.email) then assert Violates(InvalidEmailFormat, t); Some(InvalidEmailFormat)
    else if t.firstName == [] then assert Violates(FirstNameRequired, t); Some(FirstNameRequired)
    else if |t.firstName| > MaxNameLength then assert Violates(FirstNameTooLong, t); Some(FirstNameTooLong)
    else if t.lastName == [] then assert Violates(LastNameRequired, t); Some(LastNameRequired)
    else if |t.lastName| > MaxNameLength then assert Violates(LastNameTooLong, t); Some(LastNameTooLong)
    else None
  }

  /** validateSignupRequest: the fields are overwritten by their trimmed values before the checks run. */
  function Validate(req: SignupRequest): (r: Validated)
    ensures r.req.email == TrimSpace(req.email)
    ensures r.req.firstName == TrimSpace(req.firstName)
    ensures r.req.lastName == TrimSpace(req.lastName)
    ensures r.err.None? <==> forall e :: !Violates(e, r.req)
    ensures r.err.Some? ==> FirstFailure(r.err.value, r.req)
  {
    var t := Trimmed(req);
    Validated(t, Check(t))
  }

  /** Validation reports e exactly when e is the first rule that the trimmed request fails. */
  lemma ValidateFirstFailure(req: SignupRequest, e: ValidationError)
    ensures Validate(req).err == Some(e) <==> FirstFailure(e, Trimmed(req))
  {
    var r := Validate(req);
    if FirstFailure(e, r.req) {
      var e2 := r.err.value;
      assert e2.Rank() < e.Rank() || e.Rank() < e2.Rank() || e2 == e;
    }
  }

  /** A blank email is reported first, whatever the names hold. */
  lemma BlankEmailRequired(req: SignupRequest)
    requires AllSpace(req.email)
    ensures Validate(req).err == Some(EmailRequired)
  {
    ValidateFirstFailure(req, EmailRequired);
  }

  /** A non-blank email that fails the pattern is reported as a format error. */
  lemma MalformedEmailRejected(req: SignupRequest)
    requires TrimSpace(req.email) != [] && !IsValidEmail(TrimSpace(req.email))
    ensures Validate(req).err == Some(InvalidEmailFormat)
  {
    ValidateFirstFailure(req, InvalidEmailFormat);
  }

  /** A first-name error only surfaces once the email passed both of its checks. */
  lemma FirstNameErrorsNeedValidEmail(req: SignupRequest)
    requires Validate(req).err == Some(FirstNameRequired) || Validate(req).err == Some(FirstNameTooLong)
    ensures TrimSpace(req.email) != [] && IsValidEmail(TrimSpace(req.email))
  {
    var t := Trimmed(req);
    assert !Violates(EmailRequired, t) && !Violates(InvalidEmailFormat, t);
  }

  /** A last-name error only surfaces once the email and the first name passed. */
  lemma LastNameErrorsNeedValidEmailAndFirstName(req: SignupRequest)
    requires Validate(req).err == Some(LastNameRequired) || Validate(req).err == Some(LastNameTooLong)
    ensures IsValidEmail(TrimSpace(req.email))
    ensures 0 < |TrimSpace(req.firstName)| <= MaxNameLength
  {
    var t := Trimmed(req);
    assert !Violates(InvalidEmailFormat, t);
    assert !Violates(FirstNameRequired, t) && !Violates(FirstNameTooLong, t);
  }

  /**
   * The first-name bounds: with a valid email, an empty trimmed name is
   * "required", a name over 100 bytes is "too long", and a name of 1 to 100
   * bytes (100 included, despite the wording of the message) raises no
   * first-name error.
   */
  lemma FirstNameBounds(req: SignupRequest)
    requires IsValidEmail(TrimSpace(req.email))
    ensures TrimSpace(req.firstName) == [] <==> Validate(req).err == Some(FirstNameRequired)
    ensures |TrimSpace(req.firstName)| > MaxNameLength <==> Validate(req).err == Some(FirstNameTooLong)
  {
    ValidateFirstFailure(req, FirstNameRequired);
    ValidateFirstFailure(req, FirstNameTooLong);
    var t := Trimmed(req);
    assert !Violates(EmailRequired, t) && !Violates(InvalidEmailFormat, t);
  }

  /** The same bounds for the last name, once the email and first name are valid. */
  lemma LastNameBounds(req: SignupRequest)
    requires IsValidEmail(TrimSpace(req.email))
    requires 0 < |TrimSpace(req.firstName)| <= MaxNameLength
    ensures TrimSpace(req.lastName) == [] <==> Validate(req).err == Some(LastNameRequired)
    ensures |TrimSpace(req.lastName)| > MaxNameLength <==> Validate(req).err == Some(LastNameTooLong)
  {
    ValidateFirstFailure(req, LastNameRequired);
    ValidateFirstFailure(req, LastNameTooLong);
    var t := Trimmed(req);
    assert !Violates(EmailRequired, t) && !Violates(InvalidEmailFormat, t);
    assert !Violates(FirstNameRequired, t) && !Violates(FirstNameTooLong, t);
  }

  /** Validation passes exactly when all six checks pass on the trimmed fields. */
  lemma ValidateAccepts(req: SignupRequest)
    ensures Validate(req).err == None <==>
      && IsValidEmail(TrimSpace(req.email))
      && 0 < |TrimSpace(req.firstName)| <= MaxNameLength
      && 0 < |TrimSpace(req.lastName)| <= MaxNameLength
  {
    var t := Trimmed(req);
    if Validate(req).err == None {
      assert !Violates(InvalidEmailFormat, t) && !Violates(FirstNameRequired, t) && !Violates(FirstNameTooLong, t);
      assert !Violates(LastNameRequired, t) && !Violates(LastNameTooLong, t);
    }
  }

  /**
   * Validating the request that validation left behind gives the same fields
   * and the same outcome: trimming is idempotent.
   */
  lemma ValidateIdempotent(req: SignupRequest)
    ensures Validate(Validate(req).req) == Validate(req)
  {
    TrimSpaceIdempotent(req.email);
    TrimSpaceIdempotent(req.firstName);
    TrimSpaceIdempotent(req.lastName);
  }

  /** Validation looks at the request only through its trimmed fields. */
  lemma ValidateSeesOnlyTrimmed(a: SignupRequest, b: SignupRequest)
    requires Trimmed(a) == Trimmed(b)
    ensures Validate(a) == Validate(b)
  {
  }

  /**
   * White space around an address changes nothing: "  a@b.co " validates
   * exactly as "a@b.co" does, fields included.
   */
  lemma PaddedEmailValidatesAlike(pre: Bytes, email: Bytes, post: Bytes, first: Bytes, last: Bytes)
    requires AllSpace(pre) && AllSpace(post) && NoEdgeSpace(email)
    ensures Validate(SignupRequest(pre + email + post, first, last)) == Validate(SignupRequest(email, first, last))
  {
    PaddingIsTrimmed(pre, email, post);
    assert [] + email + [] == email;
    PaddingIsTrimmed([], email, []);
    ValidateSeesOnlyTrimmed(SignupRequest(pre + email + post, first, last), SignupRequest(email, first, last));
  }
}
