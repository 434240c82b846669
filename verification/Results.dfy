// The result types used throughout.
module Results {

  datatype Option<+T> = None | Some(value: T)

  /** Why the TLS code gives up. IndexOutOfRange stands for a Go run-time panic. */
  datatype Error =
    | Eof | UnexpectedEof
    | RecordTooLarge | BadCbcLength | BadPadding | ShorterThanMac | BadRecordMac
    | MalformedV2Hello | V2FieldOverflow | CipherNotOffered
    | KeyNotRsa | ExpectedClientHello | ShortClientHello | MalformedClientHello | MalformedSuites
    | Unexpected | ShortKeyExchange | BadKeyExchangeLength | FinishedMismatch
    | IndexOutOfRange

  datatype Result<+T> = Ok(value: T) | Err(error: Error)
  {
    predicate IsFailure() {
      Err?
    }

    function PropagateFailure<U>(): Result<U>
      requires Err?
    {
      Err(error)
    }

    function Extract(): T
      requires Ok?
    {
      value
    }
  }
}
