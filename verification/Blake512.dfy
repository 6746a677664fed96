/**
 BLAKE-512's incremental update and padding over an uninterpreted compression: any sequence of
 updates yields the digest of section 2.2 of "SHA-3 proposal BLAKE", with the right counters.
 */
module Blake512Hash {
  import opened Bytes

  type Chaining(==, 0, !new)

  const IV: Chaining
  const COMPRESS: (Chaining, seq<Byte>, nat) -> Chaining
  /** The eight output words, big-endian. */
  type Digest64 = bytes: seq<Byte> | |bytes| == 64 witness seq(64, _ => 0)
  const DIGEST_BYTES: Chaining -> Digest64

  const BLOCK_BYTES: nat := 128
  /** One limb of the bit counter. */
  const LIMB: nat := 0x1_0000_0000

  /** Compression of one block under a bit counter; a suppressed counter is zero. */
  function Compress(h: Chaining, block: seq<Byte>, counter: nat): Chaining {
    COMPRESS(h, block, counter)
  }

  // ----- the bit counter -----

  function Low(limb: int): nat {
    limb % LIMB
  }

  /** The 128-bit counter the compression reads off the four signed limbs. */
  function CounterOf(limbs: seq<int>, nullt: bool): nat
    requires |limbs| == 4
  {
    if nullt then 0
    else (Low(limbs[1]) * LIMB + Low(limbs[0])) + (Low(limbs[3]) * LIMB + Low(limbs[2])) * (LIMB * LIMB)
  }

  /** `t` in limbs; the top one takes what is left. */
  function LimbsOf(t: nat): (limbs: seq<int>)
    ensures |limbs| == 4
  {
    var (q1, q2) := (t / LIMB, t / LIMB / LIMB);
    [t % LIMB, q1 % LIMB, q2 % LIMB, q2 / LIMB]
  }

  /** `length_carry`, as a function of the limb it starts at. */
  function Carried(limbs: seq<int>, j: nat): (carried: seq<int>)
    requires |limbs| == 4 && j <= 3
    ensures |carried| == 4
    decreases 3 - j
  {
    if j == 3 || limbs[j] < LIMB then limbs
    else Carried(limbs[j := limbs[j] - LIMB][j + 1 := limbs[j + 1] + 1], j + 1)
  }

  function Plus(limbs: seq<int>, bits: int): (r: seq<int>)
    requires |limbs| == 4
    ensures |r| == 4
  {
    limbs[0 := limbs[0] + bits]
  }

  // ----- absorbing bytes -----

  /** What one compression used. */
  datatype Entry = Entry(limbs: seq<int>, nullt: bool)

  /** The hash state: chaining value, bytes of the open block, counter limbs, flag, and the log of compressions. */
  datatype View = View(h: Chaining, buffer: seq<Byte>, length: seq<int>, nullt: bool, log: seq<Entry>)

  ghost predicate Open(v: View) {
    |v.buffer| < BLOCK_BYTES && |v.length| == 4
  }

  const FRESH: View := View(IV, [], [0, 0, 0, 0], false, [])

  /** A full block is counted and compressed. */
  function Flush(v: View): (r: View)
    requires |v.length| == 4
    ensures r.buffer == [] && |r.length| == 4
  {
    var length := Carried(Plus(v.length, 1024), 0);
    View(Compress(v.h, v.buffer, CounterOf(length, v.nullt)), [], length, v.nullt, v.log + [Entry(length, v.nullt)])
  }

  function Absorb(v: View, data: seq<Byte>): (r: View)
    requires Open(v)
    ensures Open(r)
    decreases |data|
  {
    if |v.buffer| + |data| < BLOCK_BYTES then v.(buffer := v.buffer + data)
    else
      var k := BLOCK_BYTES - |v.buffer|;
      Absorb(Flush(v.(buffer := v.buffer + data[..k])), data[k..])
  }

  /** Two updates are one update of the concatenation. */
  lemma {:induction false} AbsorbConcat(v: View, a: seq<Byte>, b: seq<Byte>)
    requires Open(v)
    ensures Absorb(Absorb(v, a), b) == Absorb(v, a + b)
    decreases |a|
  {
    hide Flush;
    var k := BLOCK_BYTES - |v.buffer|;
    if |a| < k {
      if |a| + |b| >= k {
        assert v.buffer + a + b[..k - |a|] == v.buffer + (a + b)[..k];
        assert b[k - |a|..] == (a + b)[k..];
      } else {
        assert v.buffer + a + b == v.buffer + (a + b);
      }
    } else {
      assert (a + b)[..k] == a[..k] && (a + b)[k..] == a[k..] + b;
      AbsorbConcat(Flush(v.(buffer := v.buffer + a[..k])), a[k..], b);
    }
  }

  /** Any split of a message into updates leaves the same state. */
  function AbsorbAll(v: View, pieces: seq<seq<Byte>>): (r: View)
    requires Open(v)
    ensures Open(r)
  {
    if pieces == [] then v else Absorb(AbsorbAll(v, pieces[..|pieces| - 1]), pieces[|pieces| - 1])
  }

  function Joined(pieces: seq<seq<Byte>>): seq<Byte> {
    if pieces == [] then [] else Joined(pieces[..|pieces| - 1]) + pieces[|pieces| - 1]
  }

  lemma {:induction false} SplitInvariant(v: View, pieces: seq<seq<Byte>>)
    requires Open(v)
    ensures AbsorbAll(v, pieces) == Absorb(v, Joined(pieces))
  {
    hide Absorb;
    if pieces == [] {
      AbsorbNothing(v);
    } else {
      SplitInvariant(v, pieces[..|pieces| - 1]);
      AbsorbConcat(v, Joined(pieces[..|pieces| - 1]), pieces[|pieces| - 1]);
    }
  }

  lemma AbsorbNothing(v: View)
    requires Open(v)
    ensures Absorb(v, []) == v
  {}

  // ----- the hash of a message -----

  /** Zero bytes. */
  function Zeros(n: nat): seq<Byte> {
    seq(n, _ => 0)
  }

  /** A one bit, zeros, a one bit, filling up to 112 bytes modulo a block. */
  function Marker(gap: nat): (bytes: seq<Byte>)
    ensures |bytes| == gap + 1
  {
    if gap == 0 then [0x81] else [0x80] + Zeros(gap - 1) + [0x01]
  }

  function Gap(n: nat): nat {
    (239 - n % BLOCK_BYTES) % BLOCK_BYTES
  }

  /** The padded message: a whole number of blocks ending in the 128-bit length. */
  function PaddedMessage(m: seq<Byte>): (padded: seq<Byte>)
    ensures |padded| % BLOCK_BYTES == 0 && m <= padded
  {
    m + Marker(Gap(|m|)) + BigEndian(8 * |m|, 16)
  }

  /**
   The padding, byte by byte: a one bit after the message, a one bit before the length, zeros
   between, and no more blocks than that takes.
   */
  lemma PaddingAt(m: seq<Byte>, k: nat)
    requires |m| <= k < |PaddedMessage(m)| - 16
    ensures var padded := PaddedMessage(m);
      && padded[k] == (if k == |m| then 0x80 else 0) + (if k == |padded| - 17 then 1 else 0)
      && padded[|padded| - 16..] == BigEndian(8 * |m|, 16)
      && |m| + 17 <= |padded| < |m| + 17 + BLOCK_BYTES
  {
    hide BigEndian;
    var (padded, marker) := (PaddedMessage(m), Marker(Gap(|m|)));
    assert padded[k] == marker[k - |m|];
  }

  /** No two messages share a padded form. */
  lemma PaddingInjective(a: seq<Byte>, b: seq<Byte>)
    requires 8 * |a| < TWO_128 && 8 * |b| < TWO_128 && PaddedMessage(a) == PaddedMessage(b)
    ensures a == b
  {
    hide BigEndian, FromBigEndian, Marker, Pow256;
    LengthWidth();
    BigEndianDecodes(8 * |a|, 16);
    BigEndianDecodes(8 * |b|, 16);
    var padded := PaddedMessage(a);
    assert padded[|padded| - 16..] == BigEndian(8 * |a|, 16);
    assert padded[|padded| - 16..] == BigEndian(8 * |b|, 16);
    assert padded[..|a|] == a && padded[..|b|] == b;
  }

  lemma LengthWidth()
    ensures Pow256(16) == TWO_128
  {
    Pow256Values();
    assert Pow256(16) == 256 * 256 * 256 * 256 * Pow256(12);
    assert Pow256(12) == 256 * 256 * 256 * 256 * Pow256(8);
  }

  /** Message bits up to and including block `i`. */
  function BitsThrough(n: nat, i: nat): nat {
    if (i + 1) * BLOCK_BYTES <= n then 8 * BLOCK_BYTES * (i + 1) else 8 * n
  }

  /** Block `i` has no message bit. */
  predicate NoMessage(n: nat, i: nat) {
    n <= i * BLOCK_BYTES
  }

  const TWO_128: nat := 0x1_0000_0000_0000_0000_0000_0000_0000_0000

  function Counter(n: nat, i: nat): nat {
    if NoMessage(n, i) then 0 else BitsThrough(n, i) % TWO_128
  }

  function Block(padded: seq<Byte>, i: nat): seq<Byte>
    requires (i + 1) * BLOCK_BYTES <= |padded|
  {
    padded[i * BLOCK_BYTES..(i + 1) * BLOCK_BYTES]
  }

  /** The chaining value after `i` blocks of a message of `n` bytes. */
  function Chain(padded: seq<Byte>, n: nat, i: nat): Chaining
    requires i * BLOCK_BYTES <= |padded|
  {
    if i == 0 then IV else Compress(Chain(padded, n, i - 1), Block(padded, i - 1), Counter(n, i - 1))
  }

  function Hash(m: seq<Byte>): Digest64 {
    var padded := PaddedMessage(m);
    DIGEST_BYTES(Chain(padded, |m|, |padded| / BLOCK_BYTES))
  }

  function EntryAt(n: nat, i: nat): Entry {
    Entry(LimbsOf(BitsThrough(n, i)), NoMessage(n, i))
  }

  function Entries(n: nat, i: nat): seq<Entry> {
    seq(i, k requires 0 <= k < i => EntryAt(n, k))
  }

  // ----- the counter over whole blocks -----

  /** A multiple of 1024 bits leaves room below the limb for the bits of one more block. */
  lemma LowLimb(t: nat)
    requires t % 1024 == 0
    ensures t % LIMB % 1024 == 0 && t % LIMB <= LIMB - 1024
  {}

  lemma NextDigit(x: nat)
    ensures if x % LIMB + 1 < LIMB then (x + 1) / LIMB == x / LIMB && (x + 1) % LIMB == x % LIMB + 1
            else (x + 1) / LIMB == x / LIMB + 1 && (x + 1) % LIMB == 0 && x % LIMB == LIMB - 1
  {}

  lemma FirstDigit(t: nat)
    requires t % 1024 == 0
    ensures if t % LIMB + 1024 < LIMB then (t + 1024) / LIMB == t / LIMB && (t + 1024) % LIMB == t % LIMB + 1024
            else (t + 1024) / LIMB == t / LIMB + 1 && (t + 1024) % LIMB == 0 && t % LIMB == LIMB - 1024
  {
    LowLimb(t);
  }

  /** One `length_carry` of a block's 1024 bits, through as many limbs as it takes. */
  lemma CarryChain(l0: int, a: nat, b: nat, c: nat)
    requires a < LIMB && b < LIMB && 0 <= l0 < 2 * LIMB
    ensures Carried([l0, a, b, c], 0) ==
      if l0 < LIMB then [l0, a, b, c]
      else if a + 1 < LIMB then [l0 - LIMB, a + 1, b, c]
      else if b + 1 < LIMB then [l0 - LIMB, 0, b + 1, c]
      else [l0 - LIMB, 0, 0, c + 1]
  {
    if l0 >= LIMB {
      var one := [l0 - LIMB, a + 1, b, c];
      assert Carried([l0, a, b, c], 0) == Carried(one, 1);
      if a + 1 >= LIMB {
        var two := [l0 - LIMB, 0, b + 1, c];
        assert Carried(one, 1) == Carried(two, 2);
        if b + 1 >= LIMB {
          assert Carried(two, 2) == Carried([l0 - LIMB, 0, 0, c + 1], 3);
        }
      }
    }
  }

  lemma CarryBlock(t: nat)
    requires t % 1024 == 0
    ensures Carried(Plus(LimbsOf(t), 1024), 0) == LimbsOf(t + 1024)
  {
    hide Carried;
    var (q1, q2) := (t / LIMB, t / LIMB / LIMB);
    FirstDigit(t);
    NextDigit(q1);
    NextDigit(q2);
    CarryChain(t % LIMB + 1024, q1 % LIMB, q2 % LIMB, q2 / LIMB);
    assert Plus(LimbsOf(t), 1024) == [t % LIMB + 1024, q1 % LIMB, q2 % LIMB, q2 / LIMB];
  }

  /** Within a block nothing carries, even by way of a negative limb. */
  lemma CarryNothing(t: nat, bits: nat)
    requires t % 1024 == 0 && bits < 1024
    ensures Carried(Plus(LimbsOf(t), bits), 0) == Plus(LimbsOf(t), bits) == LimbsOf(t + bits)
  {
    LowLimb(t);
    assert (t + bits) / LIMB == t / LIMB && (t + bits) % LIMB == t % LIMB + bits;
  }

  lemma TwoLimbs(t: nat)
    ensures t == ((t / LIMB) % LIMB) * LIMB + t % LIMB + (LIMB * LIMB) * (t / LIMB / LIMB)
    ensures ((t / LIMB) % LIMB) * LIMB + t % LIMB < LIMB * LIMB
  {}

  lemma Modulo128(t: nat, low: nat, high: nat, rest: nat)
    requires t == low + (LIMB * LIMB) * (high + (LIMB * LIMB) * rest) && low < LIMB * LIMB && high < LIMB * LIMB
    ensures t % TWO_128 == low + high * (LIMB * LIMB)
  {
    assert t == (low + high * (LIMB * LIMB)) + TWO_128 * rest;
  }

  lemma CounterOfLimbs(t: nat)
    ensures CounterOf(LimbsOf(t), false) == t % TWO_128
  {
    var q2 := t / LIMB / LIMB;
    TwoLimbs(t);
    TwoLimbs(q2);
    Modulo128(t, ((t / LIMB) % LIMB) * LIMB + t % LIMB, ((q2 / LIMB) % LIMB) * LIMB + q2 % LIMB, q2 / LIMB / LIMB);
    LowOfRemainder(t);
    LowOfRemainder(t / LIMB);
    LowOfRemainder(q2);
    hide Low;
  }

  lemma LowOfRemainder(x: nat)
    ensures Low(x % LIMB) == x % LIMB && Low(x / LIMB) == (x / LIMB) % LIMB
  {}

  /** The counter used for a whole block of message. */
  lemma FlushWhole(v: View, n: nat, i: nat)
    requires v.length == LimbsOf(1024 * i) && !v.nullt && (i + 1) * BLOCK_BYTES <= n
    ensures Flush(v) == View(Compress(v.h, v.buffer, Counter(n, i)), [], LimbsOf(1024 * (i + 1)), false, v.log + [EntryAt(n, i)])
  {
    hide LimbsOf, Carried, CounterOf, Compress, Plus;
    CarryBlock(1024 * i);
    CounterOfLimbs(1024 * (i + 1));
    WholeEntry(n, i);
  }

  lemma WholeEntry(n: nat, i: nat)
    requires (i + 1) * BLOCK_BYTES <= n
    ensures BitsThrough(n, i) == 1024 * i + 1024 == 1024 * (i + 1) && !NoMessage(n, i)
  {}

  /** After `q` whole blocks of message the state is the chain so far. */
  function WholeView(padded: seq<Byte>, n: nat, q: nat): View
    requires q * BLOCK_BYTES <= n <= |padded|
  {
    View(Chain(padded, n, q), [], LimbsOf(1024 * q), false, Entries(n, q))
  }

  lemma {:induction false} WholeBlocks(padded: seq<Byte>, n: nat, q: nat)
    requires q * BLOCK_BYTES <= n <= |padded|
    ensures Absorb(FRESH, padded[..q * BLOCK_BYTES]) == WholeView(padded, n, q)
  {
    hide Carried, Flush, CounterOf, Counter, EntryAt;
    if q == 0 {
      AbsorbNothing(FRESH);
      assert padded[..0] == [];
    } else {
      var i: nat := q - 1;
      WholeBlocks(padded, n, i);
      hide LimbsOf;
      var v, block := WholeView(padded, n, i), Block(padded, i);
      assert padded[..q * BLOCK_BYTES] == padded[..i * BLOCK_BYTES] + block;
      AbsorbConcat(FRESH, padded[..i * BLOCK_BYTES], block);
      AbsorbFull(v, block);
      assert v.buffer + block == block;
      FlushWhole(v.(buffer := block), n, i);
      assert Entries(n, q) == Entries(n, i) + [EntryAt(n, i)];
    }
  }

  /** Data that fills the block exactly costs one compression. */
  lemma AbsorbFull(v: View, data: seq<Byte>)
    requires Open(v) && |v.buffer| + |data| == BLOCK_BYTES
    ensures Absorb(v, data) == Flush(v.(buffer := v.buffer + data))
  {
    hide Flush;
    assert data[..BLOCK_BYTES - |v.buffer|] == data && data[BLOCK_BYTES - |v.buffer|..] == [];
    AbsorbNothing(Flush(v.(buffer := v.buffer + data)));
  }

  // ----- the padding -----

  lemma AbsorbShort(v: View, data: seq<Byte>)
    requires Open(v) && |v.buffer| + |data| < BLOCK_BYTES
    ensures Absorb(v, data) == v.(buffer := v.buffer + data)
  {}

  lemma EntriesSnoc(n: nat, i: nat)
    ensures Entries(n, i + 1) == Entries(n, i) + [EntryAt(n, i)]
  {}

  /** The state after a message of `q` blocks and `off` bytes, before any padding. */
  lemma MessageView(m: seq<Byte>, q: nat, off: nat)
    requires |m| == q * BLOCK_BYTES + off && off < BLOCK_BYTES
    ensures Absorb(FRESH, m) == WholeView(PaddedMessage(m), |m|, q).(buffer := m[q * BLOCK_BYTES..])
  {
    hide PaddedMessage, LimbsOf, EntryAt, Entries, Absorb, Chain;
    var padded, whole, tail := PaddedMessage(m), m[..q * BLOCK_BYTES], m[q * BLOCK_BYTES..];
    WholeBlocks(padded, |m|, q);
    assert padded[..q * BLOCK_BYTES] == whole;
    assert m == whole + tail;
    AbsorbConcat(FRESH, whole, tail);
    AbsorbShort(WholeView(padded, |m|, q), tail);
    assert [] + tail == tail;
  }

  /** The counter of the block where the message ends. */
  lemma PartialEntry(n: nat, q: nat, off: nat)
    requires n == q * BLOCK_BYTES + off && off < BLOCK_BYTES
    ensures BitsThrough(n, q) == 8 * n && (NoMessage(n, q) <==> off == 0)
  {}

  lemma PlusPlus(limbs: seq<int>, a: int, b: int)
    requires |limbs| == 4
    ensures Plus(Plus(limbs, a), b) == Plus(limbs, a + b)
  {}

  lemma PlusZero(limbs: seq<int>)
    requires |limbs| == 4
    ensures Plus(limbs, 0) == limbs
  {}

  /** The last block with message bits, or the only padding block: the lowered limb comes back to the message length. */
  lemma FlushPartial(padded: seq<Byte>, n: nat, q: nat, off: nat)
    requires n == q * BLOCK_BYTES + off && off < BLOCK_BYTES && (q + 1) * BLOCK_BYTES <= |padded|
    ensures
      Flush(View(Chain(padded, n, q), Block(padded, q), Plus(LimbsOf(1024 * q), 8 * off - 1024), off == 0, Entries(n, q))) ==
      View(Chain(padded, n, q + 1), [], LimbsOf(8 * n), off == 0, Entries(n, q + 1))
  {
    hide LimbsOf, Carried, CounterOf, Compress, Plus, Entries, Block;
    PlusPlus(LimbsOf(1024 * q), 8 * off - 1024, 1024);
    CarryNothing(1024 * q, 8 * off);
    CounterOfLimbs(8 * n);
    PartialEntry(n, q, off);
    EntriesSnoc(n, q);
    SuppressedCounter(LimbsOf(8 * n));
  }

  lemma SuppressedCounter(limbs: seq<int>)
    requires |limbs| == 4
    ensures CounterOf(limbs, true) == 0
  {}

  /** A block of padding only: nothing is counted and the counter is suppressed. */
  lemma FlushEmpty(padded: seq<Byte>, n: nat, q: nat, off: nat)
    requires n == q * BLOCK_BYTES + off && off < BLOCK_BYTES && (q + 2) * BLOCK_BYTES <= |padded|
    ensures
      Flush(View(Chain(padded, n, q + 1), Block(padded, q + 1), Plus(LimbsOf(8 * n), -1024), true, Entries(n, q + 1))) ==
      View(Chain(padded, n, q + 2), [], LimbsOf(8 * n), true, Entries(n, q + 2))
  {
    hide LimbsOf, Carried, CounterOf, Compress, Plus, Entries, Block;
    PlusPlus(LimbsOf(8 * n), -1024, 1024);
    PlusZero(LimbsOf(8 * n));
    CarryNothing(1024 * q, 8 * off);
    EntriesSnoc(n, q + 1);
    SuppressedCounter(LimbsOf(8 * n));
    assert NoMessage(n, q + 1) && BitsThrough(n, q + 1) == 8 * n;
  }

  lemma MarkerSplits(k: nat)
    requires 1 <= k <= 16
    ensures Marker(111 + k) == ([0x80] + Zeros(k - 1)) + (Zeros(111) + [0x01])
  {
    assert Zeros(110 + k) == Zeros(k - 1) + Zeros(111);
  }

  /** The block that closes a message whose tail leaves room for the marker and the length. */
  lemma OneBlockTail(m: seq<Byte>, q: nat, off: nat)
    requires |m| == q * BLOCK_BYTES + off && off <= 111
    ensures var padded := PaddedMessage(m);
      && |padded| == (q + 1) * BLOCK_BYTES
      && Block(padded, q) == m[q * BLOCK_BYTES..] + Marker(111 - off) + BigEndian(8 * |m|, 16)
  {
    hide Marker, BigEndian;
    assert Gap(|m|) == 111 - off;
    LastPart(m, Marker(111 - off), BigEndian(8 * |m|, 16), q, off);
  }

  lemma LastPart(m: seq<Byte>, marker: seq<Byte>, length: seq<Byte>, q: nat, off: nat)
    requires |m| == q * BLOCK_BYTES + off && off + |marker| + |length| == BLOCK_BYTES
    ensures Block(m + marker + length, q) == m[q * BLOCK_BYTES..] + marker + length
  {}

  lemma TwoBlockTail(m: seq<Byte>, q: nat, off: nat)
    requires |m| == q * BLOCK_BYTES + off && 111 < off < 128
    ensures var padded := PaddedMessage(m);
      && |padded| == (q + 2) * BLOCK_BYTES
      && Block(padded, q) == m[q * BLOCK_BYTES..] + ([0x80] + Zeros(127 - off))
      && Block(padded, q + 1) == (Zeros(111) + [0x01]) + BigEndian(8 * |m|, 16)
  {
    hide Marker, BigEndian;
    MarkerSplits(128 - off);
    assert Gap(|m|) == 239 - off;
    ThreeParts(m, [0x80] + Zeros(127 - off), Zeros(111) + [0x01], BigEndian(8 * |m|, 16), q, off);
  }

  lemma ThreeParts(m: seq<Byte>, first: seq<Byte>, second: seq<Byte>, length: seq<Byte>, q: nat, off: nat)
    requires |m| == q * BLOCK_BYTES + off && off + |first| == BLOCK_BYTES && |second| + |length| == BLOCK_BYTES
    ensures Block(m + (first + second) + length, q) == m[q * BLOCK_BYTES..] + first
    ensures Block(m + (first + second) + length, q + 1) == second + length
  {}

  /** Four limbs, each big-endian and truncated to 32 bits, spell the 128-bit length. */
  lemma LimbBytes(t: nat)
    ensures var limbs := LimbsOf(t);
      BigEndian(Low(limbs[3]), 4) + BigEndian(Low(limbs[2]), 4) + BigEndian(Low(limbs[1]), 4) + BigEndian(Low(limbs[0]), 4) ==
      BigEndian(t, 16)
  {
    hide BigEndian, Low;
    var q2 := t / LIMB / LIMB;
    LowOfRemainder(t);
    LowOfRemainder(t / LIMB);
    LowOfRemainder(q2);
    SplitLimb(t, 12);
    SplitLimb(t / LIMB, 8);
    SplitLimb(q2, 4);
    SplitLimb(q2 / LIMB, 0);
    NoBytes(q2 / LIMB / LIMB);
  }

  lemma NoBytes(x: nat)
    ensures BigEndian(x, 0) == []
  {}

  lemma SplitLimb(x: nat, width: nat)
    ensures BigEndian(x, width + 4) == BigEndian(x / LIMB, width) + BigEndian(x % LIMB, 4)
  {
    hide BigEndian;
    FourBytes(x, width);
    FourBytes(x % LIMB, 0);
    BytesOfLimb(x);
    NoBytes(x % LIMB / 256 / 256 / 256 / 256);
  }

  lemma BytesOfLimb(x: nat)
    ensures x / 256 / 256 / 256 / 256 == x / LIMB
    ensures var y := x % LIMB;
      && y % 256 == x % 256 && (y / 256) % 256 == (x / 256) % 256
      && (y / 256 / 256) % 256 == (x / 256 / 256) % 256 && (y / 256 / 256 / 256) % 256 == (x / 256 / 256 / 256) % 256
  {
    var x1 := x / 256;
    var x2 := x1 / 256;
    var x3 := x2 / 256;
    var x4 := x3 / 256;
    var y3 := x3 % 256;
    var y2 := x2 % 256 + 256 * y3;
    var y1 := x1 % 256 + 256 * y2;
    var y := x % 256 + 256 * y1;
    assert x == y + LIMB * x4;
    assert x % LIMB == y && x / LIMB == x4;
    assert y / 256 == y1 && y1 / 256 == y2 && y2 / 256 == y3;
  }

  lemma FourBytes(x: nat, width: nat)
    ensures BigEndian(x, width + 4) ==
      BigEndian(x / 256 / 256 / 256 / 256, width) +
      [(x / 256 / 256 / 256) % 256, (x / 256 / 256) % 256, (x / 256) % 256, x % 256]
  {
    assert BigEndian(x / 256 / 256, width + 2) == BigEndian(x / 256 / 256 / 256, width + 1) + [(x / 256 / 256) % 256];
    assert BigEndian(x, width + 4) == BigEndian(x / 256, width + 3) + [x % 256];
  }

  /** Below `2^128` bits every limb is an unsigned 32-bit word, and together they are the count. */
  lemma LimbsInRange(t: nat)
    requires t < TWO_128
    ensures var limbs := LimbsOf(t);
      && (forall j | 0 <= j < 4 :: 0 <= limbs[j] < LIMB)
      && t == limbs[0] + LIMB * (limbs[1] + LIMB * (limbs[2] + LIMB * limbs[3]))
  {}

  /**
   Every compression of a hash of `n` bytes saw in-range limbs that spell the message bits so far,
   and a suppressed counter exactly when its block holds no message bit.
   */
  lemma CountersAreStandard(n: nat, blocks: nat, i: nat)
    requires 8 * n < TWO_128 && i < blocks
    ensures var entry := Entries(n, blocks)[i];
      && |entry.limbs| == 4 && (forall j | 0 <= j < 4 :: 0 <= entry.limbs[j] < LIMB)
      && entry.limbs[0] + LIMB * (entry.limbs[1] + LIMB * (entry.limbs[2] + LIMB * entry.limbs[3])) ==
         8 * (if (i + 1) * BLOCK_BYTES <= n then (i + 1) * BLOCK_BYTES else n)
      && (entry.nullt <==> n <= i * BLOCK_BYTES)
  {
    hide LimbsOf;
    LimbsInRange(BitsThrough(n, i));
  }

  lemma MarkerValues(gap: nat)
    ensures Marker(gap) == if gap == 0 then [0x81] else [0x80] + Zeros(gap - 1) + [0x01]
  {}

  /** The final block of a message with room for the length. */
  lemma LastTail(m: seq<Byte>, q: nat, off: nat, v: View)
    requires |m| == q * BLOCK_BYTES + off && off <= 111 && Open(v)
    requires var padded := PaddedMessage(m);
      && (q * BLOCK_BYTES <= |padded| && v.h == Chain(padded, |m|, q) && v.log == Entries(|m|, q))
      && v.buffer == m[q * BLOCK_BYTES..] + Marker(111 - off)
      && v.length == Plus(LimbsOf(1024 * q), 8 * off - 1024) && v.nullt == (off == 0)
    ensures var (padded, w) := (PaddedMessage(m), Flush(v.(buffer := v.buffer + BigEndian(8 * |m|, 16))));
      var blocks := |padded| / BLOCK_BYTES;
      w.h == Chain(padded, |m|, blocks) && w.log == Entries(|m|, blocks)
  {
    hide PaddedMessage, Chain, Entries, Plus, LimbsOf, Flush, Marker, BigEndian, Block;
    OneBlockTail(m, q, off);
    FlushPartial(PaddedMessage(m), |m|, q, off);
  }

  /** The block holding the message's last bytes when the length does not fit. */
  lemma FirstTail(m: seq<Byte>, q: nat, off: nat)
    requires |m| == q * BLOCK_BYTES + off && 111 < off < 128
    ensures var padded := PaddedMessage(m);
      && (q + 2) * BLOCK_BYTES == |padded|
      && Flush(View(Chain(padded, |m|, q), m[q * BLOCK_BYTES..] + ([0x80] + Zeros(127 - off)),
                    Plus(LimbsOf(1024 * q), -(128 - off) * 8), false, Entries(|m|, q))) ==
         View(Chain(padded, |m|, q + 1), [], LimbsOf(8 * |m|), false, Entries(|m|, q + 1))
  {
    hide PaddedMessage, Chain, Entries, Plus, LimbsOf, Flush, BigEndian, Block;
    TwoBlockTail(m, q, off);
    FlushPartial(PaddedMessage(m), |m|, q, off);
  }

  lemma SecondTail(m: seq<Byte>, q: nat, off: nat, v: View)
    requires |m| == q * BLOCK_BYTES + off && 111 < off < 128 && Open(v)
    requires var padded := PaddedMessage(m);
      && ((q + 1) * BLOCK_BYTES <= |padded| && v.h == Chain(padded, |m|, q + 1) && v.log == Entries(|m|, q + 1))
      && v.buffer == Zeros(111) + [0x01] && v.length == Plus(LimbsOf(8 * |m|), -1024) && v.nullt
    ensures var (padded, w) := (PaddedMessage(m), Flush(v.(buffer := v.buffer + BigEndian(8 * |m|, 16))));
      var blocks := |padded| / BLOCK_BYTES;
      w.h == Chain(padded, |m|, blocks) && w.log == Entries(|m|, blocks)
  {
    hide PaddedMessage, Chain, Entries, Plus, LimbsOf, Flush, BigEndian, Block;
    TwoBlockTail(m, q, off);
    FlushEmpty(PaddedMessage(m), |m|, q, off);
  }

  // ----- the incremental hasher -----

  const PADDING: seq<Byte> := [0x80] + Zeros(127)

  lemma PaddingPrefix(k: nat)
    requires 1 <= k <= 128
    ensures PADDING[..k] == [0x80] + Zeros(k - 1)
    ensures PADDING[1..k] == Zeros(k - 1)
  {}

  /** `length_carry`. */
  method LengthCarry(limbs: seq<int>) returns (carried: seq<int>)
    requires |limbs| == 4
    ensures carried == Carried(limbs, 0)
  {
    carried := limbs;
    for j := 0 to 3
      invariant |carried| == 4 && Carried(carried, j) == Carried(limbs, 0)
    {
      if carried[j] < LIMB {
        break;
      }
      carried := carried[j := carried[j] - LIMB][j + 1 := carried[j + 1] + 1];
    }
  }

  class Blake512 {
    var h: Chaining
    const block: array<Byte>
    var blockOffset: nat
    var length: seq<int>
    var nullt: bool
    /** What each compression used, oldest first. */
    ghost var log: seq<Entry>

    ghost predicate Valid()
      reads this
    {
      block.Length == BLOCK_BYTES && blockOffset < BLOCK_BYTES && |length| == 4
    }

    ghost function Contents(): (v: View)
      requires Valid()
      reads this, block
      ensures Open(v)
    {
      View(h, block[..blockOffset], length, nullt, log)
    }

    constructor ()
      ensures Valid() && fresh(block) && Contents() == FRESH
    {
      h, block, blockOffset, length, nullt, log := IV, new Byte[BLOCK_BYTES](_ => 0), 0, [0, 0, 0, 0], false, [];
    }

    /** Compress the full block and count it. */
    method CompressBlock()
      requires block.Length == BLOCK_BYTES && blockOffset == BLOCK_BYTES && |length| == 4
      modifies this
      ensures Valid()
      ensures Contents() == Flush(View(old(h), old(block[..]), old(length), old(nullt), old(log)))
    {
      hide Compress, CounterOf;
      length := length[0 := length[0] + 1024];
      length := LengthCarry(length);
      h := Compress(h, block[..], CounterOf(length, nullt));
      log := log + [Entry(length, nullt)];
      blockOffset := 0;
    }

    /** Append bytes to the open block, as many as `count`. */
    method Store(data: seq<Byte>, from: nat, count: nat)
      requires block.Length == BLOCK_BYTES && blockOffset + count <= BLOCK_BYTES && from + count <= |data|
      modifies this`blockOffset, block
      ensures blockOffset == old(blockOffset) + count
      ensures block[..blockOffset] == old(block[..blockOffset]) + data[from..from + count]
    {
      ghost var before := block[..blockOffset];
      var offset := from;
      while offset < from + count
        invariant from <= offset <= from + count && blockOffset == old(blockOffset) + (offset - from)
        invariant block[..blockOffset] == before + data[from..offset]
      {
        block[blockOffset] := data[offset];
        blockOffset := blockOffset + 1;
        offset := offset + 1;
      }
    }

    /** Absorb `data`, compressing every block it completes. */
    method Update(data: seq<Byte>)
      requires Valid()
      modifies this, block
      ensures Valid() && Contents() == Absorb(old(Contents()), data)
    {
      hide Flush, Absorb;
      var offset := 0;
      assert data[0..] == data;
      while blockOffset + (|data| - offset) >= BLOCK_BYTES
        invariant Valid() && offset <= |data|
        invariant Absorb(Contents(), data[offset..]) == Absorb(old(Contents()), data)
        decreases |data| - offset
      {
        var count := BLOCK_BYTES - blockOffset;
        FilledBlock(Contents(), data, offset, count);
        Store(data, offset, count);
        assert block[..] == block[..blockOffset];
        offset := offset + count;
        CompressBlock();
      }
      AbsorbShort(Contents(), data[offset..]);
      assert data[offset..] == data[offset..offset + (|data| - offset)];
      Store(data, offset, |data| - offset);
    }

    /** An update that leaves the block open. */
    method UpdateShort(data: seq<Byte>)
      requires Valid() && blockOffset + |data| < BLOCK_BYTES
      modifies this, block
      ensures Valid() && Contents() == old(Contents()).(buffer := old(Contents()).buffer + data)
    {
      AbsorbShort(Contents(), data);
      Update(data);
    }

    /** An update that completes the block exactly. */
    method UpdateFull(data: seq<Byte>)
      requires Valid() && blockOffset + |data| == BLOCK_BYTES
      modifies this, block
      ensures Valid() && Contents() == Flush(old(Contents()).(buffer := old(Contents()).buffer + data))
    {
      hide Flush;
      AbsorbFull(Contents(), data);
      Update(data);
    }

    /** Move the lowest limb, possibly below zero. */
    method Adjust(bits: int)
      requires Valid()
      modifies this`length
      ensures Valid() && Contents() == old(Contents()).(length := Plus(old(length), bits))
    {
      length := length[0 := length[0] + bits];
    }

    /** A one bit and zeros up to byte 111. */
    method FillToMarker()
      requires Valid() && blockOffset < 111
      modifies this, block
      ensures Valid()
      ensures Contents() == old(Contents()).(buffer := old(Contents()).buffer + ([0x80] + Zeros(110 - old(blockOffset))),
                                             length := Plus(old(length), 8 * old(blockOffset) - 888))
    {
      hide Plus;
      PaddingPrefix(111 - blockOffset);
      Adjust(-(111 - blockOffset) * 8);
      UpdateShort(PADDING[0..111 - blockOffset]);
    }

    /** The marker does not leave room for the length: finish this block and pad the next one up to its end marker. */
    method FillAndOpen(ghost m: seq<Byte>, ghost q: nat, ghost off: nat)
      requires Valid() && |m| == q * BLOCK_BYTES + off && off == blockOffset > 111
      requires Contents() == WholeView(PaddedMessage(m), |m|, q).(buffer := m[q * BLOCK_BYTES..])
      modifies this, block
      ensures Valid() && (q + 2) * BLOCK_BYTES == |PaddedMessage(m)|
      ensures Contents() == View(Chain(PaddedMessage(m), |m|, q + 1), Zeros(111), Plus(LimbsOf(8 * |m|), -888), true, Entries(|m|, q + 1))
    {
      hide Carried, Flush, CounterOf, LimbsOf, Entries, Chain, PaddedMessage, BigEndian, Marker, Absorb, Low, Plus;
      PaddingPrefix(128 - blockOffset);
      PaddingPrefix(112);
      Adjust(-(128 - blockOffset) * 8);
      UpdateFull(PADDING[0..128 - blockOffset]);
      FirstTail(m, q, off);
      Adjust(-111 * 8);
      UpdateShort(PADDING[1..1 + 111]);
      assert [] + Zeros(111) == Zeros(111);
      nullt := true;
    }

    /** The message length in bits, as 16 big-endian bytes. */
    method LengthBytes(ghost q: nat, ghost off: nat) returns (msglen: seq<Byte>)
      requires Valid() && blockOffset == off && length == LimbsOf(1024 * q)
      ensures msglen == BigEndian(8 * (q * BLOCK_BYTES + off), 16)
    {
      hide Carried, LimbsOf, BigEndian, Plus, Low;
      var len := LengthCarry(Plus(length, blockOffset * 8));
      CarryNothing(1024 * q, 8 * off);
      LimbBytes(1024 * q + 8 * off);
      msglen := BigEndian(Low(len[3]), 4) + BigEndian(Low(len[2]), 4) + BigEndian(Low(len[1]), 4) + BigEndian(Low(len[0]), 4);
    }

    /** Complete the message: marker, length, and the counter adjustments that keep padding out of the count. */
    method Padding(ghost m: seq<Byte>)
      requires Valid() && Contents() == Absorb(FRESH, m)
      modifies this, block
      ensures Valid()
      ensures var blocks := |PaddedMessage(m)| / BLOCK_BYTES;
        h == Chain(PaddedMessage(m), |m|, blocks) && log == Entries(|m|, blocks)
    {
      hide Carried, Flush, CounterOf, LimbsOf, Entries, Chain, PaddedMessage, BigEndian, Marker, Absorb, Plus;
      ghost var q, off := |m| / BLOCK_BYTES, |m| % BLOCK_BYTES;
      MessageView(m, q, off);
      ghost var limbs := length;
      var msglen := LengthBytes(q, off);
      if blockOffset == 111 {
        Adjust(-8);
        UpdateShort([0x81]);
        MarkerValues(0);
        PlusPlus(limbs, -8, -128);
      } else {
        if blockOffset < 111 {
          if blockOffset == 0 {
            nullt := true;
          }
          MarkerValues(111 - blockOffset);
          PlusPlus(limbs, 8 * off - 888, -8);
          PlusPlus(limbs, 8 * off - 896, -128);
          FillToMarker();
        } else {
          FillAndOpen(m, q, off);
          ghost var after := LimbsOf(8 * |m|);
          PlusPlus(after, -888, -8);
          PlusPlus(after, -896, -128);
        }
        UpdateShort([0x01]);
        Adjust(-8);
      }
      Adjust(-128);
      if off <= 111 {
        LastTail(m, q, off, Contents());
      } else {
        SecondTail(m, q, off, Contents());
      }
      UpdateFull(msglen);
    }

    method Digest(ghost m: seq<Byte>) returns (digest: seq<Byte>)
      requires Valid() && Contents() == Absorb(FRESH, m)
      modifies this, block
      ensures digest == Hash(m)
    {
      hide Absorb, Chain, PaddedMessage;
      Padding(m);
      digest := DIGEST_BYTES(h);
    }
  }

  lemma FilledBlock(v: View, data: seq<Byte>, from: nat, count: nat)
    requires Open(v) && from + count <= |data| && |v.buffer| + count == BLOCK_BYTES
    ensures Absorb(v, data[from..]) == Absorb(Flush(v.(buffer := v.buffer + data[from..from + count])), data[from + count..])
  {
    hide Flush;
    assert data[from..][..count] == data[from..from + count] && data[from..][count..] == data[from + count..];
  }

  /** `blake512`: the one-shot digest, and any split of the message, give the standard hash. */
  method Blake512OneShot(data: seq<Byte>) returns (digest: seq<Byte>)
    ensures digest == Hash(data)
  {
    var hasher := new Blake512();
    hasher.Update(data);
    digest := hasher.Digest(data);
  }

  method Blake512Pieces(pieces: seq<seq<Byte>>) returns (digest: seq<Byte>)
    ensures digest == Hash(Joined(pieces))
  {
    hide Absorb, Hash;
    var hasher := new Blake512();
    for i := 0 to |pieces|
      invariant hasher.Valid() && fresh(hasher) && fresh(hasher.block)
      invariant hasher.Contents() == AbsorbAll(FRESH, pieces[..i])
    {
      hasher.Update(pieces[i]);
      assert pieces[..i + 1][..i] == pieces[..i];
    }
    assert pieces[..|pieces|] == pieces;
    SplitInvariant(FRESH, pieces);
    digest := hasher.Digest(Joined(pieces));
  }
}
