/** Shared vocabulary of the model: bytes, Go strings, results and the
    error values the codec reports. */
module Base {

  /** A Go `byte`. */
  type byte = bv8

  /** A Go `string`: an immutable sequence of bytes, whose `len` counts bytes. */
  type GoString = seq<byte>

  datatype Option<+T> = None | Some(value: T)

  /** The errors the core returns. Go builds them with `errors.New` or
      `fmt.Errorf`; the model keeps one constructor per distinct message. */
  datatype Error =
    | TpduRequired                              // "tpdu is required"
    | TpduInvalid                               // "tpdu is invalid"
    | HeaderInvalid                             // "header is invalid"
    | BadRawData                                // "bad raw data"
    | InvalidEncodeType                         // "invalid encode type"
    | FieldNotDefined(index: int)               // "field %d not defined"
    | FieldLoadFailed(index: int, cause: Error) // "field %d: %s"
    | BufSizeNotEnough                          // "buf size is not enough"
    | MissingCalculator                         // "messageCalculator should not be null"
    | KeyLength                                 // "input MAK must has 8 bytes"
    | EmptyMab                                  // "input mab should not be empty"
    | InvalidHexByte(b: byte)                   // hex.InvalidByteError
    | OddHexLength                              // hex.ErrLength
    | Critical                                  // a run-time fault caught by `recover`
    | Foreign(code: int)                        // an error made by a collaborator not in the model

  datatype Result<+T> = Ok(value: T) | Err(error: Error)

  /** Success or failure of an operation whose only result is a Go `error`. */
  datatype Outcome = Pass | Fail(error: Error)

  /** `make([]byte, n)`: n zero bytes. */
  function Zeros(n: nat): (r: seq<byte>)
    ensures |r| == n
    ensures forall i :: 0 <= i < n ==> r[i] == 0
  {
    seq(n, _ => 0)
  }

  lemma AppendAssoc<T>(a: seq<T>, b: seq<T>, c: seq<T>)
    ensures (a + b) + c == a + (b + c)
  {
  }
}
