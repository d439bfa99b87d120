/**
 * Values shared by every layer of the catalog: optional values, results,
 * the errors a query can reject with, and opaque dates.
 */
module Common {

  datatype Option<+T> = None | Some(value: T)

  datatype Result<+R, +E> = Success(value: R) | Failure(error: E)

  /**
   * An error a query rejects with. MySQL attaches a `code` property such as
   * "ER_DUP_ENTRY"; other failures (a lost connection, say) may carry none.
   */
  datatype DbError = DbError(code: Option<string>)

  /** A unique or primary key already holds the value being written. */
  const DupEntry: string := "ER_DUP_ENTRY"

  /** A foreign key names a parent row that does not exist. */
  const NoReferencedRow: string := "ER_NO_REFERENCED_ROW_2"

  /** A parent row cannot be deleted while a child row refers to it. */
  const RowIsReferenced: string := "ER_ROW_IS_REFERENCED_2"

  /** The error the engine raises with a given code. */
  function Raise(code: string): DbError
  {
    DbError(Some(code))
  }

  /** A calendar date, kept opaque: no calendar arithmetic is modelled. */
  datatype Date = Date(text: string)
}
