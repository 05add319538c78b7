/**
 * Fixed-width integers and the opaque primitives the crate takes from its
 * core library. The primitives are compared for equality only; their bytes
 * are never inspected by the code modelled here.
 */
module Types {

  newtype byte = x: int | 0 <= x < 0x100
  newtype u16 = x: int | 0 <= x < 0x1_0000
  newtype u64 = x: int | 0 <= x < 0x1_0000_0000_0000_0000

  /** `usize` on a 64-bit target. */
  type usize = u64

  datatype Id = Id(bytes: seq<byte>)
  datatype PublicKey = PublicKey(bytes: seq<byte>)
  datatype PrivateKey = PrivateKey(bytes: seq<byte>)
  datatype SecretKey = SecretKey(bytes: seq<byte>)
  datatype Signature = Signature(bytes: seq<byte>)

  /** A network endpoint (a socket address). */
  datatype Address = Address(endpoint: seq<byte>)

  /** A wall-clock instant; only stored and returned, never compared. */
  datatype SystemTime = SystemTime(sinceEpochNanos: int)

  /** The kind tag of a data page. */
  datatype DataKind = DataKind(code: u16)
}
