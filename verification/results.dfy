/** Option, the errors the style engine raises, and a failure-compatible Result. */
module Results {

  datatype Option<T> = None | Some(value: T)

  /** The two InvalidArgumentException messages of lib/Colors/Color.php. */
  datatype Error =
    | InvalidStyle(style: string)      // raised by _stylize for an unknown name
    | InvalidStyleName(name: string)   // raised by setTheme for a bad theme key
  {
    /** The exception message, byte for byte. */
    function Message(): string {
      match this
      case InvalidStyle(s) => "Invalid style " + s
      case InvalidStyleName(n) => n + " is not a valid style name"
    }
  }

  /** A computation that either yields a value or throws one Error. */
  datatype Result<T> = Ok(value: T) | Err(error: Error) {
    predicate IsFailure() {
      Err?
    }

    function PropagateFailure<U>(): Result<U>
      requires Err?
    {
      Err(error)
    }

    function Extract(): T
      requires Ok?
    {
      value
    }
  }
}
