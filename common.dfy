/** Values shared by the whole model: optional values and the Python exceptions the core can raise. */
module Common {

  /** An optional value; `None` stands for Python's `None`. */
  datatype Option<+T> = None | Some(value: T)

  /** The exceptions the modelled code raises. */
  datatype Error =
    | KeyError(key: string)   // a timeline entry without the looked-up key
    | ZeroDivisionError       // an average taken over an empty timeline

  /** Either a value or the exception that interrupted its computation. */
  datatype Result<+T> = Ok(value: T) | Err(error: Error)
}
