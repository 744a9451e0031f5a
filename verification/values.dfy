/** Values a record field can hold, and the ways an operation can fail. */
module Values {

  /** A field value as the record and the store see it: Python's None, an
      integer or a string. */
  datatype Value = Null | Int(i: int) | Text(s: string)

  datatype Option<+T> = None | Some(value: T)

  /** Why the store refused a statement. */
  datatype StoreFault =
    | NoSuchColumn      // the statement names a column the table lacks
    | NotNullFailed     // a NOT NULL column would hold NULL
    | UniqueFailed      // two rows would share one id
    | DatatypeMismatch  // the integer primary key would hold a non-integer
    | SyntaxError       // the statement does not parse

  /** The exceptions the core raises. */
  datatype Error =
    | UnknownType                 // KeyError from the type table
    | UnknownField(key: string)   // AttributeError: not a declared field
    | MissingValue(key: string)   // KeyError: declared, but absent from the record's map
    | StoreFailed(fault: StoreFault)
    | RecursionLimit              // RuntimeError: maximum recursion depth exceeded

  /** Either a value or the exception that was raised instead. */
  datatype Result<+T> = Ok(value: T) | Err(error: Error) {

    predicate IsFailure() {
      Err?
    }

    function PropagateFailure<U>(): Result<U>
      requires Err?
    {
      Err(error)
    }

    function Extract(): T
      requires Ok?
    {
      value
    }
  }
}
