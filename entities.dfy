/** Records of the three tables (users, files, recovery requests), the closed role
    enumeration, and the failure kinds the services raise. */
module Entities {

  datatype Option<+T> = None | Some(value: T)

  /** What `findOne` answers on a table read in order: where the first row meeting the
      condition is, or nothing when no row does. */
  function FirstIndex<T>(rows: seq<T>, condition: T -> bool): (i: Option<nat>)
    ensures i.None? <==> forall k :: 0 <= k < |rows| ==> !condition(rows[k])
    ensures i.Some? ==> i.value < |rows| && condition(rows[i.value])
    ensures i.Some? ==> forall k :: 0 <= k < i.value ==> !condition(rows[k])
  {
    if rows == [] then None
    else if condition(rows[0]) then Some(0)
    else match FirstIndex(rows[1..], condition)
      case None => None
      case Some(k) => Some(k + 1)
  }

  /** Roles form a closed enumeration; a new user gets the column default USER. */
  datatype Role = USER | ADMIN

  /** A row of the users table. `password` holds the bcrypt digest, never the plaintext. */
  datatype User = User(id: nat, email: string, password: string, role: Role)

  /** A row of the files table. `user` is the lazily loaded owner relation: rows read back
      from the table do not carry it, and the services delete it before returning a record. */
  datatype File = File(
    id: nat,
    name: string,
    path: string,
    mimetype: string,
    url: string,
    userId: nat,
    user: Option<User>)

  /** A row of the recovery table: one issued code per email. `expiration` is an instant in
      milliseconds of UTC time. */
  datatype RecoverPassword = RecoverPassword(
    id: nat,
    email: string,
    code: string,
    expiration: int,
    valid: bool)

  /** Why an error escaped to the framework without being caught; it answers each with status 500. */
  datatype Cause =
    | NoMimetypeMatch   // the mimetype pattern did not match, so indexing its match threw
    | ObjectStoreError  // the object store rejected an upload or had no object under a key
    | MissingUser       // the user loaded for a password update was absent

  /** The exceptions the core throws. */
  datatype Failure =
    | NotFound
    | Forbidden
    | Unauthorized
    | BadRequest(message: string)
    | Conflict
    | InternalServerError
    | Uncaught(cause: Cause)

  datatype Result<+T> = Ok(value: T) | Err(failure: Failure)

  const CODE_NOT_VALID: string := "Code is not valid."
  const CODE_EXPIRED: string := "Code is already expired."
}
