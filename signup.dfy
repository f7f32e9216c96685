/**
 * SignupHandler: method check, body decode, validation and the insert, each
 * deciding one status code; the code chosen is written to the response and,
 * in a final step, counted once in each of the two counters.
 */
module Signup {
  import opened Wrappers
  import opened Bytes
  import opened Models
  import opened Email
  import opened Validation
  import opened Store
  import opened Metrics

  const StatusCreated: nat := 201
  const StatusBadRequest: nat := 400
  const StatusMethodNotAllowed: nat := 405
  const StatusConflict: nat := 409
  const StatusInternalServerError: nat := 500

  const MethodPost := "POST"

  const MsgCreated := "user created successfully"

  /** The JSON body as the decoder leaves it: a request, or a decoding error. */
  datatype Body = Decoded(req: SignupRequest) | Undecodable

  datatype HttpRequest = HttpRequest(httpMethod: string, body: Body)

  /** The error a failed request reports; Text() is the string sent as {"error": ...}. */
  datatype ErrorReply =
    | MethodNotAllowed
    | InvalidBody
    | Rejected(reason: ValidationError)
    | EmailExists
    | CreateFailed
  {
    function Text(): string
    {
      match this
      case MethodNotAllowed => "method not allowed"
      case InvalidBody => "invalid request body"
      case Rejected(e) => e.Message()
      case EmailExists => "email already exists"
      case CreateFailed => "failed to create user"
    }
  }

  /** {"error": ...} on failure, {"message": ..., "user": ...} on success. */
  datatype ResponseBody = ErrorBody(error: ErrorReply) | SuccessBody(message: string, user: User)

  datatype Response = Response(status: nat, body: ResponseBody)

  /** The terminal states of one request. */
  datatype Outcome =
    | MethodRejected
    | BodyRejected
    | Invalid(err: ValidationError)
    | EmailConflict
    | StoreFailed
    | Created(user: User)

  /** The terminal state reached and the table left behind. */
  datatype Handled = Handled(outcome: Outcome, table: Table)

  /** The request gets past the method and decode checks and validates. */
  ghost predicate ReachesStore(r: HttpRequest)
  {
    r.httpMethod == MethodPost && r.body.Decoded? && Validate(r.body.req).err.None?
  }

  /** The trimmed request that validation hands to the store. */
  function Clean(r: HttpRequest): SignupRequest
    requires r.body.Decoded?
  {
    Validate(r.body.req).req
  }

  /** The pipeline as a function of the table, the request and the store's environment. */
  function Classify(t: Table, r: HttpRequest, env: StoreEnv): (h: Handled)
    ensures h.outcome.MethodRejected? <==> r.httpMethod != MethodPost
    ensures h.outcome.BodyRejected? <==> r.httpMethod == MethodPost && r.body.Undecodable?
    ensures h.outcome.Invalid? <==> r.httpMethod == MethodPost && r.body.Decoded? && Validate(r.body.req).err.Some?
    ensures h.outcome.Invalid? ==> Validate(r.body.req).err == Some(h.outcome.err)
    ensures !ReachesStore(r) ==> h.table == t
    ensures ReachesStore(r) ==>
      var o := TableInsert(t, Clean(r).email, Clean(r).firstName, Clean(r).lastName, env);
      h == Handled(Registered(o.result), o.table)
    ensures !h.outcome.Created? ==> h.table.rows == t.rows
    ensures h.outcome.Created? ==> h.table.rows == t.rows + [h.outcome.user]
    ensures TableValid(t) ==> TableValid(h.table)
  {
    if r.httpMethod != MethodPost then Handled(MethodRejected, t)
    else if r.body.Undecodable? then Handled(BodyRejected, t)
    else
      var v := Validate(r.body.req);
      if v.err.Some? then Handled(Invalid(v.err.value), t)
      else
        var o := TableInsert(t, v.req.email, v.req.firstName, v.req.lastName, env);
        Handled(Registered(o.result), o.table)
  }

  /** How the handler reads the insert's result: unique violation, other failure, or the new row. */
  function Registered(result: Result<User, StoreError>): (o: Outcome)
    ensures o.EmailConflict? <==> result == Failure(DuplicateKey)
    ensures o.StoreFailed? <==> result == Failure(OtherFailure)
    ensures o.Created? <==> result.Success?
    ensures o.Created? ==> o.user == result.value
  {
    match result
    case Failure(DuplicateKey) => EmailConflict
    case Failure(OtherFailure) => StoreFailed
    case Success(u) => Created(u)
  }

  /** The status code and body written for each terminal state; the code tells the state apart. */
  function ResponseFor(o: Outcome): (resp: Response)
    ensures resp.status == StatusMethodNotAllowed <==> o.MethodRejected?
    ensures resp.status == StatusBadRequest <==> o.BodyRejected? || o.Invalid?
    ensures resp.status == StatusConflict <==> o.EmailConflict?
    ensures resp.status == StatusInternalServerError <==> o.StoreFailed?
    ensures resp.status == StatusCreated <==> o.Created?
    ensures resp.body.SuccessBody? <==> o.Created?
  {
    match o
    case MethodRejected => Response(StatusMethodNotAllowed, ErrorBody(MethodNotAllowed))
    case BodyRejected => Response(StatusBadRequest, ErrorBody(InvalidBody))
    case Invalid(e) => Response(StatusBadRequest, ErrorBody(Rejected(e)))
    case EmailConflict => Response(StatusConflict, ErrorBody(EmailExists))
    case StoreFailed => Response(StatusInternalServerError, ErrorBody(CreateFailed))
    case Created(u) => Response(StatusCreated, SuccessBody(MsgCreated, u))
  }

  /** The response the pipeline produces. */
  function Respond(t: Table, r: HttpRequest, env: StoreEnv): Response
  {
    ResponseFor(Classify(t, r, env).outcome)
  }

  /**
   * The insert and the status it decides: 409 for a unique violation, 500
   * for any other store failure, 201 with the returned row.
   */
  method Register(store: UserStore, req: SignupRequest, env: StoreEnv) returns (statusCode: nat, resp: Response)
    requires store.Valid()
    modifies store
    ensures store.Valid()
    ensures
      var o := TableInsert(old(store.Snapshot()), req.email, req.firstName, req.lastName, env);
      && resp == ResponseFor(Registered(o.result))
      && store.Snapshot() == o.table
    ensures statusCode == resp.status
  {
    var result := store.Insert(req.email, req.firstName, req.lastName, env);
    match result {
      case Failure(DuplicateKey) =>
        statusCode := StatusConflict;
        resp := Response(statusCode, ErrorBody(EmailExists));
      case Failure(OtherFailure) =>
        statusCode := StatusInternalServerError;
        resp := Response(statusCode, ErrorBody(CreateFailed));
      case Success(user) =>
        statusCode := StatusCreated;
        resp := Response(statusCode, SuccessBody(MsgCreated, user));
    }
  }

  /**
   * SignupHandler. The status code is set once on each path; the final step,
   * which the source runs as a deferred call, counts that same code in both
   * counters.
   */
  method HandleSignup(store: UserStore, metrics: Metrics, r: HttpRequest, env: StoreEnv) returns (resp: Response)
    requires store.Valid()
    modifies store, metrics
    ensures store.Valid()
    ensures resp == Respond(old(store.Snapshot()), r, env)
    ensures store.Snapshot() == Classify(old(store.Snapshot()), r, env).table
    ensures metrics.signupRequestsTotal == Inc(old(metrics.signupRequestsTotal), Decimal(resp.status))
    ensures metrics.apiRequestsTotal == Inc(old(metrics.apiRequestsTotal), (r.httpMethod, SignupEndpoint, Decimal(resp.status)))
  {
    var statusCode: nat := 0;
    if r.httpMethod != MethodPost {
      statusCode := StatusMethodNotAllowed;
      resp := Response(statusCode, ErrorBody(MethodNotAllowed));
    } else if r.body.Undecodable? {
      statusCode := StatusBadRequest;
      resp := Response(statusCode, ErrorBody(InvalidBody));
    } else {
      var v := Validate(r.body.req);
      if v.err.Some? {
        statusCode := StatusBadRequest;
        resp := Response(statusCode, ErrorBody(Rejected(v.err.value)));
      } else {
        statusCode, resp := Register(store, v.req, env);
      }
    }
    metrics.Record(r.httpMethod, statusCode);
  }

  /** A request that is not a POST gets 405 whatever its body, and the store is not consulted. */
  lemma NonPostRejected(t: Table, m: string, b1: Body, b2: Body, env1: StoreEnv, env2: StoreEnv)
    requires m != MethodPost
    ensures Classify(t, HttpRequest(m, b1), env1) == Classify(t, HttpRequest(m, b2), env2) == Handled(MethodRejected, t)
    ensures Respond(t, HttpRequest(m, b1), env1) == Response(StatusMethodNotAllowed, ErrorBody(MethodNotAllowed))
  {
  }

  /** 405 exactly for the requests that are not POSTs. */
  lemma MethodNotAllowedIff(t: Table, r: HttpRequest, env: StoreEnv)
    ensures Respond(t, r, env) == Response(StatusMethodNotAllowed, ErrorBody(MethodNotAllowed)) <==> r.httpMethod != MethodPost
  {
  }

  /** A rule's message is none of the handler's own error strings. */
  lemma RuleMessageIsNotHandlerText(e: ValidationError, b: ErrorReply)
    requires !b.Rejected?
    ensures e.Message() != b.Text()
  {
    // Each handler string is told from the rule messages by its length,
    // except against the one rule message of the same length, which differs
    // at the byte named: "invalid email format" has 'e' at 8 where "invalid
    // request body" has 'r'; it starts with 'i' where "email already exists"
    // starts with 'e'; and "last name is required" starts with 'l' where
    // "failed to create user" starts with 'f'.
    var m := e.Message();
    match b
    case MethodNotAllowed => assert |m| != 18;
    case InvalidBody => assert |m| != 20 || m[8] == 'e';
    case EmailExists => assert |m| != 20 || m[0] == 'i';
    case CreateFailed => assert |m| != 21 || m[0] == 'l';
  }

  /** Different errors are sent as different strings. */
  lemma ReplyTextInjective(a: ErrorReply, b: ErrorReply)
    ensures a.Text() == b.Text() <==> a == b
  {
    if a != b {
      if a.Rejected? && b.Rejected? {
        MessageInjective(a.reason, b.reason);
      } else if a.Rejected? {
        RuleMessageIsNotHandlerText(a.reason, b);
      } else if b.Rejected? {
        RuleMessageIsNotHandlerText(b.reason, a);
      }
    }
  }

  /** 400 "invalid request body" exactly for POSTs whose body did not decode. */
  lemma InvalidBodyIff(t: Table, r: HttpRequest, env: StoreEnv)
    ensures Respond(t, r, env) == Response(StatusBadRequest, ErrorBody(InvalidBody)) <==>
      r.httpMethod == MethodPost && r.body.Undecodable?
  {
  }

  /** 400 with a validator's message exactly when that is the validator's verdict on a decoded POST. */
  lemma ValidationErrorIff(t: Table, r: HttpRequest, env: StoreEnv, e: ValidationError)
    ensures Respond(t, r, env) == Response(StatusBadRequest, ErrorBody(Rejected(e))) <==>
      r.httpMethod == MethodPost && r.body.Decoded? && Validate(r.body.req).err == Some(e)
  {
  }

  /** 409 exactly when a valid request's trimmed email is already in the table (and the statement ran). */
  lemma ConflictIff(t: Table, r: HttpRequest, env: StoreEnv)
    ensures Respond(t, r, env) == Response(StatusConflict, ErrorBody(EmailExists)) <==>
      && ReachesStore(r)
      && Runs(t, Clean(r).email, Clean(r).firstName, Clean(r).lastName, env)
      && EmailTaken(t.rows, Clean(r).email)
    ensures Respond(t, r, env).status == StatusConflict ==> Classify(t, r, env).table.rows == t.rows
  {
  }

  /**
   * 500 exactly when a valid request's insert failed for a reason other than
   * the unique constraint: the store did not answer, refused a value, or had
   * no id left. The table is then exactly as it was.
   */
  lemma StoreFailureIff(t: Table, r: HttpRequest, env: StoreEnv)
    ensures Respond(t, r, env) == Response(StatusInternalServerError, ErrorBody(CreateFailed)) <==>
      && ReachesStore(r)
      && !Runs(t, Clean(r).email, Clean(r).firstName, Clean(r).lastName, env)
    ensures Respond(t, r, env).status == StatusInternalServerError ==> Classify(t, r, env) == Handled(StoreFailed, t)
  {
  }

  /**
   * 201 exactly when a valid request's trimmed email is new and the insert
   * ran; the response carries the new row, which echoes the trimmed request,
   * has a positive id no other row has, and is appended after the unchanged
   * old rows.
   */
  lemma CreatedIff(t: Table, r: HttpRequest, env: StoreEnv)
    requires TableValid(t)
    ensures Respond(t, r, env).status == StatusCreated <==>
      && ReachesStore(r)
      && Runs(t, Clean(r).email, Clean(r).firstName, Clean(r).lastName, env)
      && !EmailTaken(t.rows, Clean(r).email)
    ensures Respond(t, r, env).status == StatusCreated ==>
      var u := Classify(t, r, env).outcome.user;
      && Respond(t, r, env) == Response(StatusCreated, SuccessBody(MsgCreated, u))
      && u.email == TrimSpace(r.body.req.email)
      && u.firstName == TrimSpace(r.body.req.firstName)
      && u.lastName == TrimSpace(r.body.req.lastName)
      && 0 < u.id <= MaxSerial && (forall i :: 0 <= i < |t.rows| ==> t.rows[i].id != u.id)
      && Classify(t, r, env).table.rows == t.rows + [u]
  {
  }

  /** The same email submitted twice: 201, then 409, and the second request adds no row. */
  lemma SameEmailTwice(t: Table, r1: HttpRequest, r2: HttpRequest, env1: StoreEnv, env2: StoreEnv)
    requires TableValid(t)
    requires ReachesStore(r1) && ReachesStore(r2) && Clean(r1).email == Clean(r2).email
    requires env1.reachable && env2.reachable && t.nextId < MaxSerial
    requires Storable(Clean(r1).email, Clean(r1).firstName, Clean(r1).lastName)
    requires Storable(Clean(r2).email, Clean(r2).firstName, Clean(r2).lastName)
    requires !EmailTaken(t.rows, Clean(r1).email)
    ensures Respond(t, r1, env1).status == StatusCreated
    ensures
      var t1 := Classify(t, r1, env1).table;
      && Respond(t1, r2, env2) == Response(StatusConflict, ErrorBody(EmailExists))
      && Classify(t1, r2, env2).table.rows == t1.rows
  {
    var c1, c2 := Clean(r1), Clean(r2);
    CreatedIff(t, r1, env1);
    assert Respond(t, r1, env1).status == StatusCreated;
    var t1 := Classify(t, r1, env1).table;
    assert t1.rows[|t.rows|].email == c2.email;
    assert EmailTaken(t1.rows, c2.email);
    ConflictIff(t1, r2, env2);
  }
}
