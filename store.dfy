/**
 * The `users` table as the signup handler sees it: rows with a SERIAL id
 * and a UNIQUE email column, and the single INSERT ... RETURNING statement
 * the handler issues. An insert either appends exactly one row or fails;
 * a failure is either a unique violation or some other store error.
 */
module Store {
  import opened Wrappers
  import opened Bytes
  import opened Models

  /** email VARCHAR(255). */
  const EmailWidth := 255
  /** first_name / last_name VARCHAR(100). */
  const NameWidth := 100
  /** The last value of the sequence behind an int4 SERIAL column. */
  const MaxSerial := 2147483647

  /** The classification of a failed insert: the unique constraint on email, or anything else. */
  datatype StoreError = DuplicateKey | OtherFailure

  /** The rows of the table and the next value of the id sequence. */
  datatype Table = Table(rows: seq<User>, nextId: int)

  /** A freshly migrated table: no rows, and the sequence starts at 1. */
  const EmptyTable := Table([], 1)

  /** What the store contributes from outside: whether it can be reached and the current time. */
  datatype StoreEnv = StoreEnv(reachable: bool, now: Timestamp)

  /** The result of one INSERT: the table afterwards and the returned row or the error. */
  datatype InsertOutcome = InsertOutcome(table: Table, result: Result<User, StoreError>)

  /**
   * The schema's guarantees: positive ids below the sequence, which never
   * goes past one beyond its last value, distinct ids, distinct emails, and
   * values PostgreSQL accepts for their columns.
   */
  ghost predicate TableValid(t: Table)
  {
    && 1 <= t.nextId <= MaxSerial + 1
    && (forall i :: 0 <= i < |t.rows| ==> 0 < t.rows[i].id < t.nextId)
    && (forall i, j :: 0 <= i < j < |t.rows| ==> t.rows[i].id != t.rows[j].id)
    && (forall i, j :: 0 <= i < j < |t.rows| ==> t.rows[i].email != t.rows[j].email)
    && (forall i :: 0 <= i < |t.rows| ==> Storable(t.rows[i].email, t.rows[i].firstName, t.rows[i].lastName))
  }

  /** Some row already holds this email. */
  predicate EmailTaken(rows: seq<User>, email: Bytes)
  {
    exists i :: 0 <= i < |rows| && rows[i].email == email
  }

  /** The values fit their VARCHAR columns. */
  predicate Fits(email: Bytes, firstName: Bytes, lastName: Bytes)
  {
    |email| <= EmailWidth && |firstName| <= NameWidth && |lastName| <= NameWidth
  }

  /** The byte 0x00, which PostgreSQL refuses inside a text value. */
  predicate HasNul(s: Bytes)
  {
    exists i :: 0 <= i < |s| && s[i] == '\0'
  }

  /** PostgreSQL accepts the three values for their columns: they fit and none holds a 0x00 byte. */
  predicate Storable(email: Bytes, firstName: Bytes, lastName: Bytes)
  {
    Fits(email, firstName, lastName) && !HasNul(email) && !HasNul(firstName) && !HasNul(lastName)
  }

  /**
   * The statement gets as far as inserting the row: the store answers, it
   * accepts the values, and the sequence has a value left to give.
   */
  predicate Runs(t: Table, email: Bytes, firstName: Bytes, lastName: Bytes, env: StoreEnv)
  {
    env.reachable && Storable(email, firstName, lastName) && t.nextId <= MaxSerial
  }

  /**
   * INSERT INTO users (email, first_name, last_name) VALUES (...) RETURNING *.
   * An unreachable store, a value PostgreSQL refuses (too long for its
   * column, or holding a 0x00 byte) and an exhausted sequence all fail
   * before a sequence value is drawn, and change nothing. A statement that
   * runs draws the next id; the unique check comes after that, and
   * PostgreSQL does not give the value back, so a duplicate email uses up
   * an id while adding no row.
   */
  function TableInsert(t: Table, email: Bytes, firstName: Bytes, lastName: Bytes, env: StoreEnv): (o: InsertOutcome)
    ensures !Runs(t, email, firstName, lastName, env) ==> o == InsertOutcome(t, Failure(OtherFailure))
    ensures o.result.Failure? ==> o.table.rows == t.rows
    ensures o.result.Success? ==> o.table.rows == t.rows + [o.result.value]
    ensures o.result.Success? ==>
      var u := o.result.value;
      && u.email == email && u.firstName == firstName && u.lastName == lastName
      && u.createdAt == env.now && u.updatedAt == env.now
    ensures TableValid(t) && o.result.Success? ==>
      && 0 < o.result.value.id <= MaxSerial
      && forall i :: 0 <= i < |t.rows| ==> t.rows[i].id != o.result.value.id
    ensures o.result == Failure(DuplicateKey) <==> Runs(t, email, firstName, lastName, env) && EmailTaken(t.rows, email)
    ensures o.result.Success? <==> Runs(t, email, firstName, lastName, env) && !EmailTaken(t.rows, email)
    ensures TableValid(t) ==> TableValid(o.table)
  {
    if !env.reachable then
      InsertOutcome(t, Failure(OtherFailure))
    else if !Storable(email, firstName, lastName) then
      InsertOutcome(t, Failure(OtherFailure))
    else if t.nextId > MaxSerial then
      InsertOutcome(t, Failure(OtherFailure))
    else if EmailTaken(t.rows, email) then
      InsertOutcome(t.(nextId := t.nextId + 1), Failure(DuplicateKey))
    else
      var u := User(t.nextId, email, firstName, lastName, env.now, env.now);
      assert forall i :: 0 <= i < |t.rows| ==> (t.rows + [u])[i] == t.rows[i];
      InsertOutcome(Table(t.rows + [u], t.nextId + 1), Success(u))
  }

  /** Inserting one email twice: the first insert creates the row, the second is a unique violation that adds nothing. */
  lemma InsertTwice(t: Table, email: Bytes, f1: Bytes, l1: Bytes, f2: Bytes, l2: Bytes, env1: StoreEnv, env2: StoreEnv)
    requires TableValid(t) && !EmailTaken(t.rows, email) && t.nextId < MaxSerial
    requires env1.reachable && env2.reachable && Storable(email, f1, l1) && Storable(email, f2, l2)
    ensures TableInsert(t, email, f1, l1, env1).result.Success?
    ensures
      var t1 := TableInsert(t, email, f1, l1, env1).table;
      && TableInsert(t1, email, f2, l2, env2).result == Failure(DuplicateKey)
      && TableInsert(t1, email, f2, l2, env2).table.rows == t1.rows
  {
    var o1 := TableInsert(t, email, f1, l1, env1);
    assert o1.table.rows[|t.rows|].email == email;
    assert EmailTaken(o1.table.rows, email);
  }

  /** The table as a mutable object, the role the database handle plays for the handler. */
  class UserStore {
    var rows: seq<User>
    var nextId: int

    /** The current contents as a value. */
    function Snapshot(): Table
      reads this
    {
      Table(rows, nextId)
    }

    ghost predicate Valid()
      reads this
    {
      TableValid(Snapshot())
    }

    /** A migrated, empty table. */
    constructor ()
      ensures Valid() && Snapshot() == EmptyTable
    {
      rows := [];
      nextId := 1;
    }

    /** The single INSERT ... RETURNING statement. */
    method Insert(email: Bytes, firstName: Bytes, lastName: Bytes, env: StoreEnv) returns (r: Result<User, StoreError>)
      requires Valid()
      modifies this
      ensures Valid()
      ensures InsertOutcome(Snapshot(), r) == TableInsert(old(Snapshot()), email, firstName, lastName, env)
    {
      if !env.reachable || !Storable(email, firstName, lastName) || nextId > MaxSerial {
        return Failure(OtherFailure);
      }
      var id := nextId;
      nextId := nextId + 1;
      if EmailTaken(rows, email) {
        return Failure(DuplicateKey);
      }
      var u := User(id, email, firstName, lastName, env.now, env.now);
      rows := rows + [u];
      r := Success(u);
    }
  }
}
