# Signup request pipeline, in Dafny

A model of the `POST /signup` handler of a small account-registration
service, with proofs about it. The handler does four things in order:

1. it rejects any method other than POST;
2. it decodes the JSON body;
3. it validates the request: it trims the three fields, then runs six
   ordered checks, and the first check that fails names the error;
4. it inserts the user into a `users` table. The table has a SERIAL id
   and a UNIQUE email column.

Each path sets one status code. That code is written to the response, and a
final step counts it in two counters: `api_requests_total{method, endpoint,
status_code}` and `signup_requests_total{status_code}`.

Modules, one per component:

- `Bytes` (bytes.dfy): strings as byte sequences, and `strings.TrimSpace`.
- `Models` (models.dfy): `User` and `SignupRequest`.
- `Email` (email.dfy): the email regular expression. It is written as a
  predicate that follows the pattern's structure (`MatchesEmailPattern`),
  and as a scan (`IsValidEmail`) that is proved to accept
  exactly the same strings.
- `Validation` (validation.dfy): `validateSignupRequest`. Its specification
  is the ordered rule list (`Violates`, `Rank`, `FirstFailure`).
- `Store` (store.dfy): the table as a value (`Table`, with the insert as
  the function `TableInsert`) and as the mutable object the handler writes
  through (`UserStore`).
- `Metrics` (metrics.dfy): the two counter vectors as maps from label
  tuples to counts, and the decimal rendering of a status code that serves
  as its label.
- `Signup` (signup.dfy): the pipeline. The pure function `Classify` returns
  the terminal state and the table left behind. `ResponseFor` maps each
  terminal state to its status and body. `HandleSignup` is the imperative
  handler, proved against those two functions.
- `Scenarios` (scenarios.dfy): concrete end-to-end examples, and a client
  method that runs the handler twice.

Inputs from outside the handler are parameters. `StoreEnv.reachable` says
whether the database answers at all. Once it answers, the database itself
refuses a value too long for its column, a value holding the byte 0x00, and
an insert after the int4 id sequence has given out its last value. `StoreEnv.now` is the timestamp the database
assigns to `created_at` and `updated_at`. `Body` is either a decoded request
or a decoding failure.

Name lengths are counted in bytes, as Go's `len` does, not in characters.
A name of exactly 100 bytes is accepted, although the message says "less
than 100 characters".

## Model

| member | source | states |
|---|---|---|
| Bytes.TrimSpace | internal/handlers/signup.go:111-113 | the result has no white space at either end, and is what remains of the input after only white space is stripped from its two ends; it is empty exactly when the input is all white space |
| Bytes.TrimSpaceUnique | internal/handlers/signup.go:111-113 | any infix of the input with only white space around it and none at its own ends is the trim, so the trim is uniquely determined |
| Bytes.TrimSpaceIdempotent | internal/handlers/signup.go:111-113 | trimming an already trimmed string changes nothing |
| Bytes.TrimOfTrimmed | internal/handlers/signup.go:111-113 | a string with no white space at either end is its own trim |
| Bytes.PaddingIsTrimmed | internal/handlers/signup.go:111-113 | white space added on both sides of a trimmed string is removed again |
| Email.LocalSpan | internal/handlers/signup.go:15 | the longest prefix made of bytes from the local-part class `[a-zA-Z0-9._%+-]` |
| Email.LetterSuffix | internal/handlers/signup.go:15 | the longest suffix made of ASCII letters (the `[a-zA-Z]{2,}` tail) |
| Email.DomainMatches | internal/handlers/signup.go:15 | the part after `@` is accepted exactly when it is a run of domain bytes, a `.`, and two or more letters up to the end |
| Email.IsValidEmail | internal/handlers/signup.go:15 | the scan accepts a string exactly when the anchored pattern matches it (both directions) |
| Email.AcceptedEmailShape | internal/handlers/signup.go:15 | every accepted email has exactly one `@` with a non-empty local part before it, and ends in `.` followed by at least two ASCII letters |
| Email.NoAtRejected | internal/handlers/signup.go:15 | a string without `@` is rejected |
| Validation.MessageInjective | internal/handlers/signup.go:116-137 | the six error messages are pairwise different |
| Validation.Check | internal/handlers/signup.go:115-139 | no error exactly when no rule fails; otherwise the error is a rule that fails, and every rule earlier in the order passes |
| Validation.Validate | internal/handlers/signup.go:109-140 | the three fields are replaced by their trimmed values; the error is the first failing rule in check order on the trimmed fields, or none when all six pass |
| Validation.ValidateFirstFailure | internal/handlers/signup.go:115-139 | the validator reports rule e exactly when e fails and all earlier rules pass (both directions) |
| Validation.BlankEmailRequired | internal/handlers/signup.go:116-118 | an email that trims to nothing gives "email is required", whatever the names contain |
| Validation.MalformedEmailRejected | internal/handlers/signup.go:119-121 | a non-empty trimmed email that fails the pattern gives "invalid email format" |
| Validation.FirstNameErrorsNeedValidEmail | internal/handlers/signup.go:115-129 | a first-name error only surfaces when the email is non-empty and matches the pattern |
| Validation.LastNameErrorsNeedValidEmailAndFirstName | internal/handlers/signup.go:115-137 | a last-name error only surfaces when the email is valid and the first name is 1 to 100 bytes long |
| Validation.FirstNameBounds | internal/handlers/signup.go:124-129 | once the email is valid, an empty first name gives "first name is required" and over 100 bytes gives the length error, both directions; so exactly 100 bytes is accepted |
| Validation.LastNameBounds | internal/handlers/signup.go:132-137 | the same two-way bounds for the last name, once email and first name are valid |
| Validation.ValidateAccepts | internal/handlers/signup.go:115-139 | validation passes exactly when the trimmed email matches the pattern and both trimmed names are 1 to 100 bytes long |
| Validation.ValidateIdempotent | internal/handlers/signup.go:111-113 | validating the request left behind by validation gives the same fields and the same outcome |
| Validation.ValidateSeesOnlyTrimmed | internal/handlers/signup.go:109-140 | two requests with the same trimmed fields validate identically |
| Validation.PaddedEmailValidatesAlike | internal/handlers/signup.go:111-121 | an address with white space around it validates exactly as the bare address does, fields included |
| Store.TableInsert | internal/handlers/signup.go:64-96 | when the statement does not get as far as the row (store unreachable, a value too long or holding 0x00, sequence exhausted) nothing changes, the sequence included, and the result is a plain failure; a failed insert leaves the rows as they were; a successful one appends exactly one row that echoes the three values and carries the store's timestamps, whose id is positive, within int4 and different from every existing id; the error is the unique violation exactly when the statement runs and the email is taken; success exactly when the statement runs and the email is new; the table's uniqueness and id invariants are preserved |
| Store.InsertTwice | internal/database/database.go:52-54 | inserting the same email twice, with storable values and two ids left: the first insert succeeds, the second is a unique violation and adds no row |
| Store.UserStore.constructor | internal/database/database.go:52-59 | a freshly migrated table is empty, its sequence starts at 1, and its invariant holds |
| Store.UserStore.Insert | internal/handlers/signup.go:72-79 | the object's new rows and sequence and the returned row or error are exactly those of `TableInsert` on its old contents; the invariant is kept |
| Metrics.Decimal | internal/handlers/signup.go:34-35 | the label of a status code is a non-empty string of decimal digits with no leading zero |
| Metrics.DecimalRoundTrip | internal/handlers/signup.go:34-35 | reading the label back as a decimal number gives the status code |
| Metrics.DecimalInjective | internal/handlers/signup.go:34-35 | two status codes share a label exactly when they are equal |
| Metrics.Inc | internal/handlers/signup.go:34-35 | the counter for the given labels goes up by exactly one, its child exists afterwards, and every other counter keeps its value |
| Metrics.TwoLabelsCountedOnce | internal/handlers/signup.go:34-35 | two increments under two different labels leave each of them at one |
| Metrics.Metrics.constructor | internal/metrics/metrics.go:8-26 | both counter vectors start with no children |
| Metrics.Metrics.Record | internal/handlers/signup.go:33-36 | `signup_requests_total{code}` and `api_requests_total{method, "/signup", code}` are each incremented once, for the same code |
| Signup.Classify | internal/handlers/signup.go:38-96 | the method rejection happens exactly for non-POST requests, the body rejection exactly for POSTs that do not decode, a validation error exactly when the validator returns one (and it is that error); a request that stops before the store leaves the table as it was; one that gets there ends in the handler's reading of the insert on the trimmed fields; only a created user adds a row, exactly that user's row after the old ones; the table invariant is preserved |
| Signup.Registered | internal/handlers/signup.go:81-99 | a unique violation is the email conflict, any other store error is the store failure, and a returned row is the created user with that row (each both ways) |
| Signup.Register | internal/handlers/signup.go:64-105 | the object's new contents are those of the insert on its old contents, and the status and body are those that the insert's result decides; the returned status code is the one in the response |
| Signup.ResponseFor | internal/handlers/signup.go:38-105 | the status code tells the terminal state apart: 405 method, 400 body or validation, 409 conflict, 500 store failure, 201 created (each both ways); only a created user gets a success body |
| Signup.HandleSignup | internal/handlers/signup.go:29-106 | the response and new table are those of the pipeline on the old table; each counter is incremented exactly once, both with the status code written to the response, and no other counter moves |
| Signup.NonPostRejected | internal/handlers/signup.go:38-44 | a non-POST request gets 405 "method not allowed" whatever its body and whatever the store's state, and the table is unchanged |
| Signup.MethodNotAllowedIff | internal/handlers/signup.go:38-44 | the 405 response occurs exactly for non-POST requests |
| Signup.RuleMessageIsNotHandlerText | internal/handlers/signup.go:42-137 | no validator message equals any of the handler's own error strings, so a 400 from validation is never mistaken for "invalid request body" |
| Signup.ReplyTextInjective | internal/handlers/signup.go:42-137 | two error bodies carry the same string exactly when they are the same error |
| Signup.InvalidBodyIff | internal/handlers/signup.go:46-53 | 400 "invalid request body" occurs exactly for POSTs whose body did not decode |
| Signup.ValidationErrorIff | internal/handlers/signup.go:55-62 | 400 with a validator's message occurs exactly when the validator returns that error for a decoded POST |
| Signup.ConflictIff | internal/handlers/signup.go:81-89 | 409 "email already exists" occurs exactly when a valid request's trimmed email is already in the table and the statement got as far as the row; the rows are unchanged |
| Signup.StoreFailureIff | internal/handlers/signup.go:81-95 | 500 "failed to create user" occurs exactly when a valid request's insert fails for a reason other than the unique constraint (unreachable store, a value too long for its column or holding 0x00, or no id left); the table is then exactly as it was |
| Signup.CreatedIff | internal/handlers/signup.go:98-105 | 201 occurs exactly when a valid request's trimmed email is new and the statement got as far as the row; the body carries the new row; the row's email and names equal the trimmed request; its id is positive, within int4 and unused; all old rows are kept |
| Signup.SameEmailTwice | internal/database/database.go:54 | two valid submissions with the same trimmed email, storable values and two ids left get 201 and then 409, and the second adds no row |
| Scenarios.SampleEmailValid | internal/handlers/signup.go:15 | "a@b.com" matches the email pattern |
| Scenarios.SampleHasNoNul | internal/database/database.go:52-56 | "a@b.com", "Jane" and "Doe" hold no 0x00 byte |
| Scenarios.JaneDoeIsValid | internal/handlers/signup.go:109-140 | a request equal to "a@b.com" / "Jane" / "Doe" passes validation, is left unchanged by the trim, and has values the store accepts |
| Scenarios.FirstSignupCreated | tests/load/signup-load-test.js:63-71 | the first signup of "a@b.com" on an empty table gets 201, and the returned user has that email and a positive id |
| Scenarios.RepeatSignupConflicts | internal/handlers/signup.go:83-88 | repeating that signup gets 409 "email already exists" |
| Scenarios.MalformedEmailGets400 | internal/handlers/signup.go:119-121 | a request equal to "not-an-email" / "Jane" / "Doe" gets 400 "invalid email format" |
| Scenarios.GetRejected405 | internal/handlers/signup.go:38-44 | GET gets 405 "method not allowed" |
| Scenarios.UndecodableBodyGets400 | internal/handlers/signup.go:47-53 | an undecodable body gets 400 "invalid request body" |
| Scenarios.StoreDownGets500 | internal/handlers/signup.go:91-95 | with the store unreachable, a valid signup gets 500 "failed to create user" and the table is unchanged |
| Scenarios.NulNameGets500 | internal/handlers/signup.go:91-95 | a first name that is the byte 0x00 passes validation, then gets 500 "failed to create user" and leaves the table unchanged |

## Left out

- Process start-up, port lookup, route registration and the welcome handler (main.go) are left out: they are all server runtime.
- Connecting to the database, closing it, running migrations and pool settings are left out: they are driver calls. Only the schema's UNIQUE email, SERIAL id and column widths are kept.
- JSON decoding and encoding, HTTP headers and writing the response are library calls. Decoding is the input `Body`; the response is a status plus an error string or a message and user.
- Go's decoder treats a missing field as "", so a body without `email` reaches the validator and gets "email is required". The model covers this only because such a body is `Decoded` with an empty field.
- Prometheus registration and the `/metrics` exposition are left out: they belong to a foreign library. The counters are plain maps.
- Bytes.TrimSpace: only ASCII white space (tab, newline, vertical tab, form feed, carriage return, space) is trimmed. Go also trims Unicode spaces such as U+0085 and U+00A0.
- Validation.Validate: it is a function that returns the trimmed request instead of overwriting `*req` in place. The caller sees the same values.
- Store.TableInsert: unique violations are a tagged `DuplicateKey`, not a search for "duplicate key" in the driver's error text. In PostgreSQL only unique violations carry that text, and the only unique column the insert can hit is `email`.
- Store.TableInsert: failures are checked in a fixed order: unreachable store, then a value PostgreSQL refuses (too long for its VARCHAR column, or holding 0x00), then an exhausted id sequence, then the unique constraint. Only the unique violation uses up a sequence value without adding a row, because PostgreSQL sequences are not rolled back. So "the store is unchanged" after a 409 holds for the rows, not for the next id.
- Store.TableInsert: the handler tells a duplicate by the English words "duplicate key" in the error text. The model assumes the server reports errors in English; under another `lc_messages` setting a duplicate email would get 500, not 409.
- Store.TableInsert: a decoded body is assumed to hold valid UTF-8, as Go's JSON decoder produces (it replaces invalid sequences). PostgreSQL's refusal of invalid UTF-8 is therefore not modelled; only its refusal of 0x00 is.
- Store.TableInsert: column widths are compared in bytes, but PostgreSQL counts characters. On the handler's path these agree: an accepted email is ASCII, and names are already at most 100 bytes.
- Store.TableInsert: other server-side refusals (disk full, a dropped connection mid-statement, permissions) are all folded into `StoreEnv.reachable`.
- A valid email longer than 255 bytes passes validation, then fails the insert, and gets 500. `StoreFailureIff` states this; the model does not change it.
- Timestamps are opaque values handed in as `StoreEnv.now`.
- Concurrent requests and races between inserts are left out: the database's atomic constraint check handles them, and each model request runs alone.
- The k6 load, stress and smoke scripts are network load generators and are not modelled. The load script's check that the response echoes the email is `CreatedIff` and `FirstSignupCreated`.
