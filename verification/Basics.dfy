/** Bytes, 32-byte identifiers and the small result types the other modules share. */
module Basics {

  type byte = x: int | 0 <= x < 256

  type Bytes = seq<byte>

  /** A 32-byte content address. */
  type Id = s: Bytes | |s| == 32 witness seq(32, _ => 0)

  /** The hash function stays uninterpreted: it is passed around as a value of this type. */
  type Hash = Bytes -> Id

  datatype Option<+T> = None | Some(value: T)

  datatype Result<+T, +E> = Ok(value: T) | Err(error: E)

  /** The hypothesis on the hash function: no two of the byte strings hashed so far collide. */
  ghost predicate CollisionFree(hash: Hash, hashed: set<Bytes>) {
    forall a, b :: a in hashed && b in hashed && hash(a) == hash(b) ==> a == b
  }

  /** 2^bits, for the integer widths of the source. */
  const TWO_32: int := 0x1_0000_0000
  const TWO_62: int := 0x4000_0000_0000_0000
  const TWO_63: int := 0x8000_0000_0000_0000
  const TWO_64: int := 0x1_0000_0000_0000_0000
}
