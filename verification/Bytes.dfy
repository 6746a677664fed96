/** Fixed-width integers as bytes, and cursors over a byte buffer. */
module Bytes {
  type Byte = x: nat | x < 256

  /** `256^n`. */
  function Pow256(n: nat): (r: nat)
    ensures r > 0
  {
    if n == 0 then 1 else 256 * Pow256(n - 1)
  }

  /** `n` as `width` big-endian bytes, keeping the low `width` bytes. */
  function BigEndian(n: nat, width: nat): (bytes: seq<Byte>)
    ensures |bytes| == width
  {
    if width == 0 then [] else BigEndian(n / 256, width - 1) + [n % 256]
  }

  function FromBigEndian(bytes: seq<Byte>): (n: nat) {
    if bytes == [] then 0 else 256 * FromBigEndian(bytes[..|bytes| - 1]) + bytes[|bytes| - 1]
  }

  lemma {:induction false} FromBigEndianBound(bytes: seq<Byte>)
    ensures FromBigEndian(bytes) < Pow256(|bytes|)
  {
    if bytes != [] {
      FromBigEndianBound(bytes[..|bytes| - 1]);
    }
  }

  lemma {:induction false} BigEndianDecodes(n: nat, width: nat)
    requires n < Pow256(width)
    ensures FromBigEndian(BigEndian(n, width)) == n
  {
    if width > 0 {
      BigEndianDecodes(n / 256, width - 1);
      assert BigEndian(n, width)[..width - 1] == BigEndian(n / 256, width - 1);
    }
  }

  lemma {:induction false} BigEndianEncodes(bytes: seq<Byte>)
    ensures BigEndian(FromBigEndian(bytes), |bytes|) == bytes
  {
    if bytes != [] {
      BigEndianEncodes(bytes[..|bytes| - 1]);
      assert bytes == bytes[..|bytes| - 1] + [bytes[|bytes| - 1]];
    }
  }

  /** A byte string of the right width is the encoding of exactly one value. */
  lemma BigEndianIff(bytes: seq<Byte>, n: nat)
    requires n < Pow256(|bytes|)
    ensures BigEndian(n, |bytes|) == bytes <==> FromBigEndian(bytes) == n
  {
    BigEndianEncodes(bytes);
    BigEndianDecodes(n, |bytes|);
  }

  /** The slice of length `length` at `cursor` is `piece`. */
  predicate At(bytes: seq<Byte>, cursor: nat, piece: seq<Byte>) {
    cursor + |piece| <= |bytes| && bytes[cursor..cursor + |piece|] == piece
  }

  /** A concatenation stands at a cursor exactly when its parts stand one after the other. */
  lemma AtConcat(bytes: seq<Byte>, cursor: nat, a: seq<Byte>, b: seq<Byte>)
    ensures At(bytes, cursor, a + b) <==> At(bytes, cursor, a) && At(bytes, cursor + |a|, b)
  {
    if At(bytes, cursor, a + b) {
      var slice := bytes[cursor..cursor + |a + b|];
      assert slice[..|a|] == a && slice[|a|..] == b;
      assert bytes[cursor..cursor + |a|] == slice[..|a|];
      assert bytes[cursor + |a|..cursor + |a| + |b|] == slice[|a|..];
    }
  }

  lemma Pow256Values()
    ensures Pow256(4) == 0x1_0000_0000
    ensures Pow256(8) == 0x1_0000_0000_0000_0000
  {
    assert Pow256(2) == 65536;
    assert Pow256(4) == 65536 * 65536;
    assert Pow256(6) == 65536 * 65536 * 65536;
  }
}
