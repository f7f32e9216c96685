/** The request and record types of the signup service. */
module Models {
  import opened Bytes

  /** created_at / updated_at: opaque values the store assigns. */
  type Timestamp = nat

  /** A user row as the store returns it. */
  datatype User = User(
    id: int,
    email: Bytes,
    firstName: Bytes,
    lastName: Bytes,
    createdAt: Timestamp,
    updatedAt: Timestamp)

  /** The decoded body of a signup request: untrusted until validated. */
  datatype SignupRequest = SignupRequest(email: Bytes, firstName: Bytes, lastName: Bytes)
}
