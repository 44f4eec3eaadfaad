/** The vocabulary the CSV transfer shares: bytes, the transfer policy and its errors. */
module CsvTypes {
  import opened GoValues

  newtype byte = x: int | 0 <= x < 256

  /** A cell, a header key or a whole file: Go strings and streams are byte sequences. */
  type Bytes = seq<byte>
  type Record = seq<Bytes>

  const TAB: byte := 9
  const LF: byte := 10
  const CR: byte := 13
  const QUOTE: byte := 34
  const APOSTROPHE: byte := 39
  const COMMA: byte := 44

  datatype Policy = Policy(maxRows: int64, maxBytes: int64, maxFieldBytes: int64) {
    predicate Valid() {
      maxRows > 0 && maxBytes > 0 && maxFieldBytes > 0
    }

    /** The byte limit handed to io.LimitedReader: one more than the policy allows. */
    function ReadLimit(): int64 {
      Wrap64(maxBytes + 1)
    }
  }

  datatype ErrorCode =
    | InvalidCsv
    | InvalidHeader
    | CsvTooLarge
    | TooManyRows
    | FieldTooLarge
    | InvalidColumnCount
  {
    predicate ExceedsTransferPolicy() {
      this == CsvTooLarge || this == TooManyRows || this == FieldTooLarge
    }
  }

  /** The column of an error: a header key, the empty string for none, or a position in decimal. */
  datatype Column = Key(key: Bytes) | Index(index: nat)

  const NoColumn := Key([])

  /** CSVError of the source, and the plain error of an unusable policy. */
  datatype CsvError =
    | PolicyError
    | CsvError(row: nat, column: Column, code: ErrorCode)
}
