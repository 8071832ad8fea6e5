/** The wire-level vocabulary shared by the multiplexing writer and reader. */
module Standards {

  const BLOCK_SIZE: nat := 16384
  const NO_TAG: int := -1

  /** Counters and sizes in the headers are 32-bit unsigned words. */
  const U32_LIMIT: nat := 0x1_0000_0000

  /** A buffer length is a signed 32-bit int on the sending side. */
  const INT_LIMIT: nat := 0x8000_0000

  type byte = x: int | 0 <= x < 256

  /** The C type int. */
  type cint = x: int | -0x8000_0000 <= x < 0x8000_0000

  /** What travels on a connection: one init block announces a buffer, data blocks carry its bytes. */
  datatype Block =
    | InitBlock(bufferSize: nat, tag: int, prevTag: int, lastBlock: bool)
    | DataBlock(tag: int, seqNumber: nat, payload: seq<byte>)

  function AddU32(x: nat, y: nat): nat {
    (x + y) % U32_LIMIT
  }
}
