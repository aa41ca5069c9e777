/** The exceptions the library throws, as values. */
module Exceptions {

  /** Message of the `InvalidDataException` thrown when the header line is missing or blank. */
  const EmptyHeaderMessage: string := "Header in CSV was empty"

  /** Message of the `InvalidDataException` thrown when a row's field count differs from the header's. */
  const RowMismatchMessage: string := "CSV row content doesn't match header."

  datatype Exception =
    /** `ArgumentNullException`, carrying the parameter name. */
    | ArgumentNull(paramName: string)
    /** `InvalidDataException`, carrying its message. */
    | InvalidData(message: string)
    /** `ArgumentOutOfRangeException` from the `List<string>` indexer. */
    | ArgumentOutOfRange
    /** `ArgumentException` from `Dictionary.Add` when the key is already present. */
    | DuplicateKey(key: string)
}
