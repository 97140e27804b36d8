/** The error types shared by both packet versions. */
module PacketErrors {
  import opened Prelude

  datatype ParseError =
    | PacketTooSmall(size: nat)
    | UnrecognizedIcmpType(typ: Byte)

  datatype BuildError = InvalidCode(code: Byte)
}
