/** Failure results. The Go code aborts the process (log.Fatal), panics at
    run time, or returns a Go error; the model turns each of these into an
    explicit `Err` value that the caller propagates. */
module Results {

  /** The field whose binary.Read ran out of input. */
  datatype Field = Signature | SizeField | TypeField | DataField | CrcField

  datatype Error =
    | Eof(field: Field)    // io.EOF / io.ErrUnexpectedEOF from binary.Read, then log.Fatal
    | NotPng               // validate: bytes 1..3 of the header are not "PNG"
    | ShortTypeCode        // strToInt: binary.BigEndian.Uint32 on fewer than 4 bytes panics
    | EmptyKey             // encodeDecode: i % len(key) with an empty key panics
    | EmptyTypeString      // checkCritType: []rune(s)[0] of an empty string panics
    | BadOffset            // WriteData: strconv.ParseInt reported an error
    | NegativeOffset       // WriteData: make([]byte, offset) panics for offset < 0
    | NegativePosition     // bytes.Reader.Seek to a position before the start

  datatype Option<+T> = None | Some(value: T)

  datatype Result<+T> = Ok(value: T) | Err(error: Error) {
    /** What a caller that ignores the error keeps: the value, if any. */
    function ToOption(): (o: Option<T>) {
      match this
      case Ok(v) => Some(v)
      case Err(_) => None
    }
  }
}
