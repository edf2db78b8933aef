/** Option and exception-carrying outcome values shared by every service module. */
module Wrappers {

  datatype Option<+T> = None | Some(value: T)

  /** The exceptions the services let escape to the web layer. Each one aborts the
      transaction: the session is rolled back and nothing the call did is kept. */
  datatype Exc =
    | NoResultFound          // `.one()` / `.scalar_one()` found no row
    | MultipleResultsFound   // `.one()` / `.scalar_one_or_none()` found more than one row
    | IntegrityError         // a foreign-key or unique constraint refused the commit
    | IndexError             // Python list index out of range
    | InvalidLimit           // a negative LIMIT or OFFSET was sent to the database

  /** Either the value the Python function returned or the exception it raised. */
  datatype Outcome<+T> = Returns(value: T) | Raises(exc: Exc)

  /** The `{"msg": ..., "err": ...}` dictionaries most services answer with. */
  datatype Msg = Msg(text: string, err: bool)
}
