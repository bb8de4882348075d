/** The exceptions the feed, its loader and its writer raise. */
module FeedErrors {
  import opened Registry

  datatype FeedError =
    /** ValueError: distance units must lie in the allowed set. */
    | InvalidDistUnits(value: string)
    /** KeyError from indexing or grouping a table by a column it lacks. */
    | MissingColumn(table: TableName, column: string)
    /** ValueError: a DataFrame was used as a truth value while comparing the named attribute. */
    | AmbiguousTruthValue(attribute: string)
    /** ValueError: the given path does not exist. */
    | PathDoesNotExist
    /** ValueError: neither an existing path nor a URL with OK status. */
    | PathOrUrlUnavailable
    /** An error from the HTTP transport, passed through unchanged. */
    | Transport(message: string)
    /** An archive that does not unpack. */
    | BadArchive(message: string)
    /** A malformed text file: parsing aborts the whole load. */
    | ParseFailure(file: string, message: string)
    /** ValueError or OverflowError from casting a cell of an integer column to a 64-bit int. */
    | IntCastFailure(table: TableName, column: string)
}
