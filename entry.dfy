/** A (content, header) pair yielded when a row is enumerated. */
module CsvEntry {

  /** Immutable once built: both components are fixed by the constructor. */
  datatype DynamicCsvEntry = DynamicCsvEntry(Content: string, Header: string)

  /** The constructor: content comes first, header second, and both are stored as given. */
  function MakeEntry(content: string, header: string): (e: DynamicCsvEntry)
    ensures e.Content == content && e.Header == header
  {
    DynamicCsvEntry(content, header)
  }
}
