/** Frequency records and the ways an operation of the list can fail. */
module CharRecords {

  /** One character observed after a window: how often it was seen (`count`),
      its probability within the row (`p`) and the cumulative probability of
      the row up to and including it (`cp`). `p` and `cp` are exact ratios. */
  datatype CharData = CharData(chr: char, count: int, p: real, cp: real)

  /** The record a row starts with when a character is first seen after a
      window: counted once, probabilities not yet computed. */
  function Fresh(c: char): CharData
  {
    CharData(c, 1, 0.0, 0.0)
  }

  /** The run-time exceptions the list code can raise. */
  datatype Exception = IndexOutOfBounds | NullPointer

  /** The outcome of an operation that may throw. */
  datatype Result<T> = Ok(value: T) | Throws(error: Exception)

  /** A reference that may be null. */
  datatype Option<T> = None | Some(value: T)
}
