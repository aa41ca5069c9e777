/** The library's shared constants. */
module Constants {

  /** The field delimiter used both to split and to re-join lines. */
  const Separator: char := ','
}
