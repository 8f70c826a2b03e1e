/** Vocabulary of the mesh stack: bytes, fixed-width numbers, errors and per-layer metadata. */
module Mesh {
  import opened Wrappers

  type byte = bv8
  type bytes = seq<byte>

  // A value the lower header carries in five bits.
  type u5 = x: nat | x < 32
  type u8 = x: nat | x < 0x100
  type u16 = x: nat | x < 0x1_0000
  type u32 = x: nat | x < 0x1_0000_0000

  datatype ParseError = InvalidPDUFormat | InvalidValue | InvalidLength | InsufficientBuffer

  // `Panic` stands for a Rust panic: an index or slice out of range.
  datatype DriverError =
    | InvalidState
    | InvalidAddress
    | InsufficientSpace
    | InvalidPDU
    | CryptoError
    | Parse(parse: ParseError)
    | Panic

  datatype SzMic = Bit32 | Bit64 {
    function Size(): nat { if Bit32? then 4 else 8 }
  }

  // The fields of LowerMetadata and UpperMetadata that a later layer reads.
  datatype Meta = Meta(ivIndex: u32, src: u16, dst: u16, seqNum: u32, ttl: u8)

  function Front<T>(s: seq<T>): seq<T>
    requires s != []
  {
    s[..|s| - 1]
  }

  function Last<T>(s: seq<T>): T
    requires s != []
  {
    s[|s| - 1]
  }
}
