/** What the HPACK codec throws. */
module HpackErrors {
  import opened HuffmanStrings

  datatype HpackError =
    | InvalidPrefixWidth
    | IncompleteInteger
    | IncompleteContinuation
    | IntegerOverflow
    | StringTooLarge
    | IncompleteString
    | IncompleteStringData
    | HuffmanFailure(cause: HuffmanError)
    | EmptyHeaderName
    | IndexZero
    | DynamicIndexOutOfRange
    | LateSizeUpdate
}
