/**
 * The record and error types of OneTimePaste (Models.swift).
 *
 * `OTPMessage` is a Swift struct whose fields are all `let`, so it is a
 * Dafny datatype: a value that no operation can change after construction.
 */
module Models {
  import opened Wrappers

  /**
   * One detected passcode. `timestamp` is the store's raw integer date
   * (nanoseconds since 2001-01-01) from which the source builds its `Date`;
   * the random `id` is not modelled.
   */
  datatype OTPMessage = OTPMessage(code: string, sender: string, timestamp: int, fullMessage: string)

  /** The two ways a scan can fail. */
  datatype OTPError = DatabaseNotFound | DatabaseError(message: string)

  const NotFoundDescription: string := "Messages database not found"
  const DatabaseErrorPrefix: string := "Database error: "

  /** `errorDescription`: a description for every error, never `nil`. */
  function ErrorDescription(e: OTPError): (d: Option<string>)
    ensures d.Some?
    ensures e == DatabaseNotFound ==> d.value == NotFoundDescription
    ensures e.DatabaseError? ==>
      |d.value| == |DatabaseErrorPrefix| + |e.message| &&
      d.value[..|DatabaseErrorPrefix|] == DatabaseErrorPrefix &&
      d.value[|DatabaseErrorPrefix|..] == e.message
  {
    match e
    case DatabaseNotFound => Some(NotFoundDescription)
    case DatabaseError(message) => Some(DatabaseErrorPrefix + message)
  }

  /** Distinct errors are described differently: the description identifies the error. */
  lemma ErrorDescriptionInjective(e1: OTPError, e2: OTPError)
    requires ErrorDescription(e1) == ErrorDescription(e2)
    ensures e1 == e2
  {
    var d1, d2 := ErrorDescription(e1).value, ErrorDescription(e2).value;
    // The two descriptions already differ in their first character.
    assert d1[0] == if e1.DatabaseNotFound? then 'M' else 'D';
    assert d2[0] == if e2.DatabaseNotFound? then 'M' else 'D';
    match e1
    case DatabaseNotFound =>
    case DatabaseError(m1) =>
      if e2.DatabaseError? {
        assert m1 == d1[|DatabaseErrorPrefix|..] == d2[|DatabaseErrorPrefix|..] == e2.message;
      }
  }
}
