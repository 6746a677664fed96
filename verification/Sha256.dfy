/** SHA-256 as an uninterpreted function to 32 bytes. */
module Sha256 {
  import opened Bytes

  type Digest32 = bytes: seq<Byte> | |bytes| == 32 witness seq(32, _ => 0)

  const SHA256: seq<Byte> -> Digest32

  function Sha(bytes: seq<Byte>): Digest32 {
    SHA256(bytes)
  }

  /** Two different byte strings with one digest. */
  ghost predicate Collision(x: seq<Byte>, y: seq<Byte>) {
    x != y && Sha(x) == Sha(y)
  }
}
