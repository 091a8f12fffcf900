/** Failure-compatible wrappers and the decoder's error taxonomy.

    Every exception the unserializer or the default object factory can raise is one
    `Error` value; the exact Java exception class is not distinguished beyond that. */
module Results {

  import opened Bytes

  datatype Option<+T> = None | Some(value: T)

  /** The kinds of failure a decode can end in. */
  datatype Error =
    | EndOfData                                  // the byte source was exhausted
    | UnexpectedChar(expected: byte, got: byte)    // readExpected saw another byte
    | UnexpectedIntChar(terminator: byte, got: byte) // readInt saw neither digit nor terminator
    | UnexpectedDoubleChar(got: byte)             // the d: scanner saw a byte it does not allow
    | MalformedDouble(lexeme: seq<byte>)          // Double.parseDouble rejected the lexeme
    | NegativeLength(length: int)                // readExactly with a negative size
    | BadBoolean(value: int)                     // b: with a value other than 0 or 1
    | BadReference(index: int)                   // R: index outside 1..|history|
    | UnknownType(tag: byte)                      // a tag outside N b i d s a O R
    | ClassNotFound(className: seq<byte>)         // Class.forName failed
    | NotInstantiable(className: seq<byte>)       // newInstance failed
    | NoSuchField(className: seq<byte>, field: seq<byte>)
    | StaticField(className: seq<byte>, field: seq<byte>)
    | FinalField(className: seq<byte>, field: seq<byte>)
    | NoClass                                    // a field lookup started without a class
    | CreationFailed(cause: Error)               // the default factory's single wrapped failure

  datatype Result<+T> = Ok(value: T) | Fail(error: Error) {

    predicate IsFailure() {
      Fail?
    }

    function PropagateFailure<U>(): Result<U>
      requires Fail?
    {
      Fail(error)
    }

    function Extract(): T
      requires Ok?
    {
      value
    }
  }
}
