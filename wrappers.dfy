/** Python's two ways of failing, made explicit.

    A Python function of this system either returns `None`, returns a value,
    or lets an exception escape.  `Option` stands for "value or None" and
    `Result` for "returned or raised"; `Exc` names the exceptions the core
    raises or lets through. */
module Wrappers {

  datatype Option<+T> = None | Some(value: T)

  datatype Result<+T> = Ok(value: T) | Err(error: Exc)

  /** The exception kinds that can escape from the modelled code. */
  datatype Exc =
    | IndexError          // `path[-1]` on an empty string
    | KeyError            // `dict.pop` of a missing key
    | UnicodeDecodeError  // bytes that are not UTF-8 text
    | ValueError          // argument checks in db.py and auth.py
    | InvalidRequestError // SQLAlchemy: bad `find_user_by` criteria
    | NoResultFound       // SQLAlchemy: no row matched
}
