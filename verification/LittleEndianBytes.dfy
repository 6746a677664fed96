/** Little-endian byte strings and the integers they stand for. */
module LittleEndianBytes {
  import opened Binary
  import opened Bytes

  /** The integer a byte string stands for, low byte first. */
  function LittleEndianValue(bytes: seq<Byte>): nat {
    if bytes == [] then 0 else bytes[0] + 256 * LittleEndianValue(bytes[1..])
  }

  /** `n` as `width` little-endian bytes. */
  function LittleEndian(n: nat, width: nat): (bytes: seq<Byte>)
    ensures |bytes| == width
  {
    if width == 0 then [] else [n % 256] + LittleEndian(n / 256, width - 1)
  }

  lemma EightBits(k: nat)
    ensures Pow2(8 * (k + 1)) == 256 * Pow2(8 * k)
  {
    assert Pow2(8) == 256 by { assert Pow2(6) == 64; }
    hide Pow2;
    Pow2Add(8, 8 * k);
  }

  lemma {:induction false} LittleEndianBound(bytes: seq<Byte>)
    ensures LittleEndianValue(bytes) < Pow2(8 * |bytes|)
  {
    if bytes != [] {
      LittleEndianBound(bytes[1..]);
      EightBits(|bytes| - 1);
      hide Pow2;
    }
  }

  lemma {:induction false} LittleEndianDecodes(n: nat, width: nat)
    requires n < Pow2(8 * width)
    ensures LittleEndianValue(LittleEndian(n, width)) == n
  {
    if width > 0 {
      EightBits(width - 1);
      hide Pow2;
      LittleEndianDecodes(n / 256, width - 1);
      assert LittleEndian(n, width)[1..] == LittleEndian(n / 256, width - 1);
    }
  }

  lemma {:induction false} LittleEndianEncodes(bytes: seq<Byte>)
    ensures LittleEndian(LittleEndianValue(bytes), |bytes|) == bytes
  {
    if bytes != [] {
      LittleEndianEncodes(bytes[1..]);
      var rest := LittleEndianValue(bytes[1..]);
      assert (bytes[0] + 256 * rest) / 256 == rest && (bytes[0] + 256 * rest) % 256 == bytes[0];
      assert bytes == [bytes[0]] + bytes[1..];
    }
  }

  lemma {:induction false} LastByte(init: seq<Byte>, last: Byte)
    ensures LittleEndianValue(init + [last]) == LittleEndianValue(init) + last * Pow2(8 * |init|)
  {
    if init == [] {
      assert LittleEndianValue([last][1..]) == 0;
    } else {
      LastByte(init[1..], last);
      assert (init + [last])[1..] == init[1..] + [last];
      EightBits(|init| - 1);
      hide Pow2;
      MulAssociates(last, 256, Pow2(8 * (|init| - 1)));
      MulAssociates(256, last, Pow2(8 * (|init| - 1)));
    }
  }
}
