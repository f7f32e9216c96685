/**
 * End-to-end examples: a first signup on an empty table, its repetition, a
 * malformed address, a GET, an undecodable body, an unreachable store, and
 * a name the store refuses.
 */
module Scenarios {
  import opened Wrappers
  import opened Bytes
  import opened Models
  import opened Email
  import opened Validation
  import opened Store
  import opened Metrics
  import opened Signup

  /**
   * {"email":"a@b.com","first_name":"Jane","last_name":"Doe"} passes
   * validation unchanged, and the store accepts its values. (Stated of a
   * request equal to that one, so that the verifier does not evaluate the
   * validator on the literal.)
   */
  lemma JaneDoeIsValid(req: SignupRequest)
    requires req == SignupRequest("a@b.com", "Jane", "Doe")
    ensures Validate(req) == Validated(req, None)
    ensures Storable(req.email, req.firstName, req.lastName)
  {
    TrimOfTrimmed(req.email);
    TrimOfTrimmed(req.firstName);
    TrimOfTrimmed(req.lastName);
    SampleEmailValid(req.email);
    ValidateAccepts(req);
    SampleHasNoNul(req.email);
    SampleHasNoNul(req.firstName);
    SampleHasNoNul(req.lastName);
  }

  /** None of the sample's three values holds a 0x00 byte. */
  lemma SampleHasNoNul(s: Bytes)
    requires s == "a@b.com" || s == "Jane" || s == "Doe"
    ensures !HasNul(s)
  {
  }

  /** "a@b.com" matches the pattern with its '@' at 1 and its last '.' at 3. */
  lemma SampleEmailValid(s: Bytes)
    requires s == "a@b.com"
    ensures IsValidEmail(s)
  {
    assert EmailShape(s, 1, 3);
  }

  function JaneDoe(): HttpRequest
  {
    HttpRequest(MethodPost, Decoded(SignupRequest("a@b.com", "Jane", "Doe")))
  }

  /** On an empty table the first signup gets 201 and echoes the email with a positive id. */
  lemma FirstSignupCreated(env: StoreEnv)
    requires env.reachable
    ensures Respond(EmptyTable, JaneDoe(), env).status == StatusCreated
    ensures
      var u := Classify(EmptyTable, JaneDoe(), env).outcome.user;
      u.email == "a@b.com" && 0 < u.id
  {
    JaneDoeIsValid(JaneDoe().body.req);
    CreatedIff(EmptyTable, JaneDoe(), env);
  }

  /** Repeating that signup gets 409 "email already exists". */
  lemma RepeatSignupConflicts(env1: StoreEnv, env2: StoreEnv)
    requires env1.reachable && env2.reachable
    ensures
      var t1 := Classify(EmptyTable, JaneDoe(), env1).table;
      Respond(t1, JaneDoe(), env2) == Response(StatusConflict, ErrorBody(EmailExists))
  {
    JaneDoeIsValid(JaneDoe().body.req);
    SameEmailTwice(EmptyTable, JaneDoe(), JaneDoe(), env1, env2);
  }

  /** A request equal to "not-an-email" / "Jane" / "Doe" gets 400 "invalid email format". */
  lemma MalformedEmailGets400(t: Table, req: SignupRequest, env: StoreEnv)
    requires req == SignupRequest("not-an-email", "Jane", "Doe")
    ensures Respond(t, HttpRequest(MethodPost, Decoded(req)), env)
         == Response(StatusBadRequest, ErrorBody(Rejected(InvalidEmailFormat)))
  {
    TrimOfTrimmed(req.email);
    NoAtRejected(req.email);
    MalformedEmailRejected(req);
    ValidationErrorIff(t, HttpRequest(MethodPost, Decoded(req)), env, InvalidEmailFormat);
  }

  /** GET /signup gets 405 "method not allowed". */
  lemma GetRejected405(t: Table, body: Body, env: StoreEnv)
    ensures Respond(t, HttpRequest("GET", body), env) == Response(StatusMethodNotAllowed, ErrorBody(MethodNotAllowed))
  {
  }

  /** A body that is not JSON gets 400 "invalid request body". */
  lemma UndecodableBodyGets400(t: Table, env: StoreEnv)
    ensures Respond(t, HttpRequest(MethodPost, Undecodable), env) == Response(StatusBadRequest, ErrorBody(InvalidBody))
  {
  }

  /** With the store unreachable a valid signup gets 500 and the table is exactly as it was. */
  lemma StoreDownGets500(t: Table, env: StoreEnv)
    requires !env.reachable
    ensures Respond(t, JaneDoe(), env) == Response(StatusInternalServerError, ErrorBody(CreateFailed))
    ensures Classify(t, JaneDoe(), env).table == t
  {
    JaneDoeIsValid(JaneDoe().body.req);
    StoreFailureIff(t, JaneDoe(), env);
  }

  /**
   * A first name that is the single byte 0x00 (JSON "\u0000") passes every
   * validation rule, but the store refuses it: 500, and the table is exactly
   * as it was, whether or not the email is taken.
   */
  lemma NulNameGets500(t: Table, req: SignupRequest, env: StoreEnv)
    requires req == SignupRequest("a@b.com", "\0", "Doe")
    ensures Validate(req).err == None
    ensures Respond(t, HttpRequest(MethodPost, Decoded(req)), env) == Response(StatusInternalServerError, ErrorBody(CreateFailed))
    ensures Classify(t, HttpRequest(MethodPost, Decoded(req)), env).table == t
  {
    TrimOfTrimmed(req.email);
    TrimOfTrimmed(req.firstName);
    TrimOfTrimmed(req.lastName);
    SampleEmailValid(req.email);
    ValidateAccepts(req);
    assert HasNul(Validate(req).req.firstName) by {
      assert Validate(req).req.firstName[0] == '\0';
    }
    StoreFailureIff(t, HttpRequest(MethodPost, Decoded(req)), env);
  }

  /** The first signup and its repetition run through the handler itself, with the counters it keeps. */
  method SignupTwice(env: StoreEnv)
    requires env.reachable
  {
    FirstSignupCreated(env);
    RepeatSignupConflicts(env, env);
    var store := new UserStore();
    var metrics := new Metrics();
    var first := HandleSignup(store, metrics, JaneDoe(), env);
    ghost var afterFirst := store.Snapshot();
    var second := HandleSignup(store, metrics, JaneDoe(), env);
    assert first.status == StatusCreated && second.status == StatusConflict;
    assert store.Snapshot().rows == afterFirst.rows;
    assert |store.rows| == 1;
    DecimalInjective(first.status, second.status);
    TwoLabelsCountedOnce(Decimal(first.status), Decimal(second.status));
    assert CountOf(metrics.signupRequestsTotal, Decimal(first.status)) == 1;
    assert CountOf(metrics.signupRequestsTotal, Decimal(second.status)) == 1;
  }
}
