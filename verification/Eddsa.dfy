/**
 EdDSA-Poseidon over a group with a base point of known prime order: both key profiles produce
 signatures that satisfy one verification equation.
 */
module Eddsa {
  import opened Binary
  import opened BitOps
  import opened Bytes
  import opened TreeErrors
  import opened AbelianGroup
  import opened LittleEndianBytes
  import opened ScalarMultiplication
  import NodeHash
  import Blake512Hash

  /** The order of the BabyJubJub subgroup. */
  const ORDER: nat := 2736030358979909402780800718157159386076813972158567259200215660948447373041

  /** The largest multiple of the order below `2^512`. */
  const NONCE_LIMIT: nat := 0xfffffffffffffffffffffffffffffffffffffffffffffffffffffffffffffffffbba4adb0e45af571b8d20dfc055ea708b9b93530a07b13bca1bb54118134de2

  /** The subgroup's base point. */
  const BASE8: G

  const CHALLENGE: (G, G, nat) -> nat
  const HMAC_NONCE: (nat, G, nat, nat) -> nat

  /** The Poseidon challenge of a commitment, a public key and a message. */
  function Challenge(r8: G, public: G, message: nat): nat {
    CHALLENGE(r8, public, message % NodeHash.MODULUS)
  }

  /** `HMAC-SHA512` of the nonce label, key, public key, message and counter, as a 512-bit integer. */
  function NonceDigest(secret: nat, public: G, message: nat, counter: nat): nat {
    HMAC_NONCE(secret, public, message, counter)
  }

  ghost predicate NotIdentity(k: nat) {
    0 < k < ORDER ==> Times(k, BASE8) != IDENTITY
  }

  /** The group laws, and a base point of order exactly `ORDER`. */
  ghost predicate CurveOrder() {
    Abelian() && Times(ORDER, BASE8) == IDENTITY && forall k :: NotIdentity(k)
  }

  // ----- arithmetic modulo the order -----

  lemma TimesModOrder(z: nat, a: G)
    requires Abelian() && Times(ORDER, a) == IDENTITY
    ensures Times(z % ORDER, a) == Times(z, a)
  {
    hide Abelian, Times;
    var q, r := z / ORDER, z % ORDER;
    TimesProduct(q, ORDER, a);
    TimesIdentity(q);
    TimesSum(q * ORDER, r, a);
    AddUnit(Times(r, a));
    assert z == q * ORDER + r;
  }

  /** Every multiple of the base point has the order's multiple trivial. */
  lemma OrderOfMultiple(s: nat)
    requires CurveOrder()
    ensures Times(ORDER, Times(s, BASE8)) == IDENTITY
  {
    hide Abelian, Times;
    TimesProduct(ORDER, s, BASE8);
    TimesProduct(s, ORDER, BASE8);
    TimesIdentity(s);
    assert ORDER * s == s * ORDER;
  }

  /** `response`: `nonce + challenge * cofactor * secret`, every operand and product reduced modulo the order. */
  function Response(nonce: nat, challenge: nat, secret: nat, cofactor: nat): (s: nat)
    ensures s < ORDER
  {
    var weighted := ((challenge % ORDER) * (cofactor % ORDER)) % ORDER;
    (nonce % ORDER + (weighted * (secret % ORDER)) % ORDER) % ORDER
  }

  /** What the response is for: its multiple of the base point splits into commitment and key. */
  lemma ResponseEquation(nonce: nat, challenge: nat, secret: nat, cofactor: nat)
    requires CurveOrder()
    ensures Times(Response(nonce, challenge, secret, cofactor), BASE8) ==
      Add(Times(nonce, BASE8), Times(challenge, Times(cofactor, Times(secret, BASE8))))
  {
    hide Abelian, Times;
    var a := Times(secret, BASE8);
    var (h, c, s) := (challenge % ORDER, cofactor % ORDER, secret % ORDER);
    var weighted := (h * c) % ORDER;
    TimesModOrder(nonce % ORDER + (weighted * s) % ORDER, BASE8);
    TimesSum(nonce % ORDER, (weighted * s) % ORDER, BASE8);
    TimesModOrder(nonce, BASE8);
    TimesModOrder(weighted * s, BASE8);
    TimesProduct(weighted, s, BASE8);
    TimesModOrder(secret, BASE8);
    OrderOfMultiple(secret);
    TimesModOrder(h * c, a);
    TimesProduct(h, c, a);
    TimesModOrder(cofactor, a);
    ScaledOrder(cofactor, secret);
    TimesModOrder(challenge, Times(cofactor, a));
  }

  lemma ScaledOrder(cofactor: nat, secret: nat)
    requires CurveOrder()
    ensures Times(ORDER, Times(cofactor, Times(secret, BASE8))) == IDENTITY
  {
    hide Abelian, Times;
    TimesProduct(cofactor, secret, BASE8);
    OrderOfMultiple(cofactor * secret);
  }

  /** `S * Base8 == R8 + (8h mod l) * A`. */
  ghost predicate Verifies(message: nat, public: G, r8: G, s: nat) {
    Times(s, BASE8) == Add(r8, Times((8 * CHALLENGE(r8, public, message % NodeHash.MODULUS)) % ORDER, public))
  }

  /** A response whose key part is eight times the public key's verifies. */
  lemma EquationFromEight(message: nat, public: G, r8: G, s: nat, secret: nat)
    requires CurveOrder() && public == Times(secret, BASE8)
    requires Times(s, BASE8) == Add(r8, Times(Challenge(r8, public, message), Times(8, public)))
    ensures Verifies(message, public, r8, s)
  {
    hide Abelian, Times;
    var h := Challenge(r8, public, message);
    OrderOfMultiple(secret);
    TimesModOrder(8 * h, public);
    TimesProduct(h, 8, public);
    assert h * 8 == 8 * h;
  }

  // ----- clamped seeds -----

  /** The clamp: the low three bits cleared, the top bit cleared, the next one set. */
  function Pruned(b: seq<Byte>): (r: seq<Byte>)
    requires |b| == 32
    ensures |r| == 32
  {
    b[0 := 8 * (b[0] / 8)][31 := b[31] % 64 + 64]
  }

  lemma AndDouble(a: nat, c: nat)
    ensures And(a, 2 * c) == 2 * And(a / 2, c)
  {}

  lemma AndTopFive(x: Byte)
    ensures And(x, 0xf8) == 8 * (x / 8)
  {
    hide And;
    var y := x / 8;
    AndMask(y, 5);
    SmallPowers();
    AndDouble(x / 4, 31);
    AndDouble(x / 2, 62);
    AndDouble(x, 124);
  }

  lemma SmallPowers()
    ensures Pow2(5) == 32 && Pow2(6) == 64 && Pow2(7) == 128
  {
    assert Pow2(7) == 2 * Pow2(6);
  }

  lemma AndLowSeven(x: Byte)
    ensures And(x, 0x7f) == x % 128
  {
    hide And;
    SmallPowers();
    AndMask(x, 7);
  }

  /** Setting bit 6 of a seven-bit number. */
  lemma OrBitSix(x: nat)
    requires x < 128
    ensures Or(x, 0x40) == x % 64 + 64
  {
    hide Or;
    SmallPowers();
    if x < 64 {
      OrDisjoint(x, 1, 6);
    } else {
      OrKeeps(x, 6);
    }
  }

  /** Or-ing the top bit of a `k + 1`-bit number that has it changes nothing. */
  lemma {:induction false} OrKeeps(x: nat, k: nat)
    requires Pow2(k) <= x < 2 * Pow2(k)
    ensures Or(x, Pow2(k)) == x
  {
    if k == 0 {
      assert x == 1;
    } else {
      OrKeeps(x / 2, k - 1);
    }
  }

  /** `pruneBuffer`: the masks on the first and the last byte. */
  method PruneBuffer(b: array<Byte>)
    requires b.Length == 32
    modifies b
    ensures b[..] == Pruned(old(b[..]))
  {
    hide And, Or;
    AndTopFive(b[0]);
    b[0] := And(b[0], 0xf8);
    AndLowSeven(b[31]);
    b[31] := And(b[31], 0x7f);
    OrBitSix(b[31]);
    b[31] := Or(b[31], 0x40);
  }

  lemma TopByte(low: nat, top: nat, p: nat)
    requires low < p && 64 <= top < 128
    ensures 64 * p <= low + top * p < 128 * p
  {
    MulMonotone(64, top, p);
    MulMonotone(top + 1, 128, p);
    MulDistributes(top, 1, p);
  }

  lemma TopSplits(p: seq<Byte>)
    requires |p| == 32
    ensures LittleEndianValue(p) == LittleEndianValue(p[..31]) + p[31] * Pow2(248)
    ensures LittleEndianValue(p[..31]) < Pow2(248)
  {
    hide Pow2, LittleEndianValue;
    assert p == p[..31] + [p[31]];
    LastByte(p[..31], p[31]);
    LittleEndianBound(p[..31]);
  }

  lemma TopPowers()
    ensures Pow2(254) == 64 * Pow2(248) && Pow2(255) == 128 * Pow2(248)
  {
    SmallPowers();
    hide Pow2;
    Pow2Add(248, 6);
    Pow2Add(248, 7);
  }

  /** A clamped scalar is a multiple of eight with its top bit at position 254. */
  lemma PrunedRange(b: seq<Byte>)
    requires |b| == 32
    ensures LittleEndianValue(Pruned(b)) % 8 == 0
    ensures Pow2(254) <= LittleEndianValue(Pruned(b)) < Pow2(255)
  {
    hide Pow2, LittleEndianValue, Pruned;
    PrunedLow(b);
    PrunedTop(b);
    TopSplits(Pruned(b));
    TopPowers();
    TopByte(LittleEndianValue(Pruned(b)[..31]), Pruned(b)[31], Pow2(248));
  }

  lemma PrunedLow(b: seq<Byte>)
    requires |b| == 32
    ensures LittleEndianValue(Pruned(b)) % 8 == 0
  {
    LowBitsOfFirst(Pruned(b));
    hide LittleEndianValue;
  }

  lemma PrunedTop(b: seq<Byte>)
    requires |b| == 32
    ensures 64 <= Pruned(b)[31] < 128
  {}

  lemma LowBitsOfFirst(p: seq<Byte>)
    requires p != []
    ensures LittleEndianValue(p) % 8 == p[0] % 8
  {}

  /** The clamp changes nothing else: the 251 bits from bit 3 to bit 253 of the buffer stay. */
  lemma PrunedValue(b: seq<Byte>) returns (low: nat, middle: nat, high: nat)
    requires |b| == 32
    ensures LittleEndianValue(b) == low + 8 * middle + Pow2(254) * high
    ensures low < 8 && 8 * middle < Pow2(254) && high < 4
    ensures LittleEndianValue(Pruned(b)) == 8 * middle + Pow2(254)
  {
    hide Pow2, LittleEndianValue;
    var cleared := b[0 := 8 * (b[0] / 8)];
    low, high := b[0] % 8, b[31] / 64;
    FirstByteChanges(b, 8 * (b[0] / 8));
    TopSplits(cleared);
    TopSplits(Pruned(b));
    TopPowers();
    assert cleared[..31] == Pruned(b)[..31];
    var (rest, top, p) := (LittleEndianValue(cleared[..31]), b[31], Pow2(248));
    SplitTop(rest, top, p);
    var kept := rest + (top % 64) * p;
    PrunedLow(b);
    EightDivides(kept);
    middle := kept / 8;
  }

  lemma FirstByteChanges(b: seq<Byte>, y: Byte)
    requires b != []
    ensures LittleEndianValue(b[0 := y]) == LittleEndianValue(b) - b[0] + y
  {
    assert b[0 := y][1..] == b[1..];
  }

  lemma SplitTop(rest: nat, top: Byte, p: nat)
    requires rest < p
    ensures rest + top * p == rest + (top % 64) * p + (64 * p) * (top / 64)
    ensures rest + (top % 64 + 64) * p == rest + (top % 64) * p + 64 * p
    ensures rest + (top % 64) * p < 64 * p
  {
    assert top == top % 64 + 64 * (top / 64);
    MulDistributes(top % 64, 64 * (top / 64), p);
    MulAssociates(64, top / 64, p);
    MulAssociates(64, p, top / 64);
    MulDistributes(top % 64, 64, p);
    MulMonotone(top % 64 + 1, 64, p);
    MulDistributes(top % 64, 1, p);
  }

  /** The bit a clamp sets is a multiple of eight. */
  lemma EightDivides(kept: nat)
    requires (kept + Pow2(254)) % 8 == 0
    ensures kept == 8 * (kept / 8)
  {
    assert Pow2(3) == 8;
    hide Pow2;
    Pow2Add(251, 3);
  }

  /** One byte of the shifted string: its own high bits and the next byte's low bits. */
  function ShiftedByte(s: seq<Byte>, i: nat): Byte
    requires i < |s|
  {
    if i + 1 < |s| then s[i] / 8 + (s[i + 1] % 8) * 32 else s[i] / 8
  }

  function Shifted(s: seq<Byte>): (r: seq<Byte>)
    ensures |r| == |s|
  {
    seq(|s|, i requires 0 <= i < |s| => ShiftedByte(s, i))
  }

  /** The byte-wise shift is exact division by eight. */
  lemma {:induction false} ShiftDivides(s: seq<Byte>)
    ensures LittleEndianValue(Shifted(s)) == LittleEndianValue(s) / 8
  {
    if |s| > 1 {
      ShiftDivides(s[1..]);
      assert Shifted(s)[1..] == Shifted(s[1..]);
      LowBitsOfFirst(s[1..]);
      hide Shifted;
      var rest := LittleEndianValue(s[1..]);
      assert rest == 8 * (rest / 8) + s[1] % 8;
      assert LittleEndianValue(s) == s[0] + 256 * rest;
    } else if |s| == 1 {
      assert Shifted(s) == [s[0] / 8];
      assert LittleEndianValue([s[0] / 8][1..]) == 0 && LittleEndianValue(s[1..]) == 0;
    }
  }

  lemma LowThree(b: nat)
    ensures (b * 32) % 256 == (b % 8) * 32
  {
    assert b == 8 * (b / 8) + b % 8;
    assert b * 32 == (b % 8) * 32 + 256 * (b / 8);
  }

  /** `(a >> 3) | (b << 5)` on bytes. */
  lemma ShiftByte(a: Byte, b: Byte)
    ensures Or(a / 8, (b * 32) % 256) == a / 8 + (b % 8) * 32
  {
    hide Or;
    SmallPowers();
    LowThree(b);
    OrDisjoint(a / 8, b % 8, 5);
  }

  /** The in-place shift of a scalar buffer, low byte first. */
  method ShiftRightThree(b: array<Byte>)
    requires b.Length == 32
    modifies b
    ensures b[..] == Shifted(old(b[..]))
  {
    hide Or;
    for i := 0 to 31
      invariant forall j | 0 <= j < i :: b[j] == ShiftedByte(old(b[..]), j)
      invariant forall j | i <= j < 32 :: b[j] == old(b[j])
    {
      var low: nat, next: nat := b[i], b[i + 1];
      ShiftByte(low, next);
      b[i] := Or(low / 8, (next * 32) % 256);
    }
    b[31] := b[31] / 8;
  }

  /** The pruned first half of the seed hash, as an integer. */
  function PrunedScalar(privateKey: seq<Byte>): nat {
    LittleEndianValue(Pruned(Blake512Hash.Hash(privateKey)[..32]))
  }

  /** `deriveSecretScalar`. */
  function DeriveSecretScalar(privateKey: seq<Byte>): nat {
    (PrunedScalar(privateKey) / 8) % ORDER
  }

  lemma PrunedIsEight(privateKey: seq<Byte>)
    ensures PrunedScalar(privateKey) == 8 * (PrunedScalar(privateKey) / 8)
  {
    PrunedRange(Blake512Hash.Hash(privateKey)[..32]);
    hide Pow2, Pruned, LittleEndianValue;
  }

  /** The clamped scalar as bytes, and the public point of its exact eighth. */
  method SeedKey(hash: seq<Byte>) returns (scalar: seq<Byte>, public: G)
    requires Abelian() && |hash| == 64
    ensures scalar == Pruned(hash[..32])
    ensures public == Times(LittleEndianValue(Pruned(hash[..32])) / 8, BASE8)
  {
    hide Pruned, Times, Abelian, LittleEndianValue;
    var buffer := new Byte[32](i requires 0 <= i < 32 => hash[i]);
    assert buffer[..] == hash[..32];
    PruneBuffer(buffer);
    scalar := buffer[..];
    ShiftRightThree(buffer);
    ShiftDivides(scalar);
    public := BaseMul(buffer[..], BASE8);
  }

  /** `derivePublicKey` is the secret scalar's multiple of the base point. */
  method DerivePublicKey(privateKey: seq<Byte>) returns (public: G)
    requires CurveOrder()
    ensures public == Times(DeriveSecretScalar(privateKey), BASE8)
  {
    hide Pruned, Times, Abelian, LittleEndianValue;
    var scalar;
    scalar, public := SeedKey(Blake512Hash.Hash(privateKey));
    TimesModOrder(PrunedScalar(privateKey) / 8, BASE8);
  }

  /** `reduce_wide`: 64 little-endian bytes modulo the order. */
  function ReduceWide(bytes: seq<Byte>): (r: nat)
    ensures r < ORDER
  {
    LittleEndianValue(bytes) % ORDER
  }

  /** `sign` with a seed key: the unshifted clamped scalar enters the response with cofactor 1. */
  method Sign(message: nat, privateKey: seq<Byte>) returns (r8: G, s: nat)
    requires CurveOrder() && message < Pow2(256)
    ensures s < ORDER && Verifies(message, Times(DeriveSecretScalar(privateKey), BASE8), r8, s)
    ensures var input := Blake512Hash.Hash(privateKey)[32..] + LittleEndian(message, 32);
      r8 == Times(LittleEndianValue(Blake512Hash.Hash(input)) % ORDER, BASE8)
  {
    hide Pruned, Times, Abelian, LittleEndianValue, LittleEndian, Response, Challenge, Pow2;
    var hash := Blake512Hash.Hash(privateKey);
    var scalar, public := SeedKey(hash);
    var r := ReduceWide(Blake512Hash.Hash(hash[32..] + LittleEndian(message, 32)));
    OrderBound();
    LittleEndianDecodes(r, 32);
    r8 := BaseMul(LittleEndian(r, 32), BASE8);
    var h := Challenge(r8, public, message);
    s := Response(r, h, LittleEndianValue(scalar), 1);

    var eighth := PrunedScalar(privateKey) / 8;
    TimesModOrder(eighth, BASE8);
    PrunedIsEight(privateKey);
    ResponseEquation(r, h, LittleEndianValue(scalar), 1);
    TimesSmall(Times(8 * eighth, BASE8));
    TimesProduct(8, eighth, BASE8);
    EquationFromEight(message, public, r8, s, DeriveSecretScalar(privateKey));
  }

  /** The base point's multiples below the order are all different. */
  lemma TimesInjective(r: nat, t: nat)
    requires CurveOrder() && r < ORDER && t < ORDER && Times(r, BASE8) == Times(t, BASE8)
    ensures r == t
  {
    hide Abelian, Times;
    var (low, high) := if r <= t then (r, t) else (t, r);
    TimesSum(low, high - low, BASE8);
    assert low + (high - low) == high;
    AddUnit(Times(low, BASE8));
    AddComm(Times(low, BASE8), Times(high - low, BASE8));
    AddComm(Times(low, BASE8), IDENTITY);
    Cancel(Times(high - low, BASE8), IDENTITY, Times(low, BASE8));
    assert NotIdentity(high - low);
  }

  /** One seed key signs two messages with one commitment only if two nonce inputs collide modulo the order. */
  lemma CommitmentBindsMessage(privateKey: seq<Byte>, first: nat, second: nat, r8: G)
    requires CurveOrder() && first < Pow2(256) && second < Pow2(256)
    requires var half := Blake512Hash.Hash(privateKey)[32..];
      && r8 == Times(LittleEndianValue(Blake512Hash.Hash(half + LittleEndian(first, 32))) % ORDER, BASE8)
      && r8 == Times(LittleEndianValue(Blake512Hash.Hash(half + LittleEndian(second, 32))) % ORDER, BASE8)
    ensures var half := Blake512Hash.Hash(privateKey)[32..];
      var (x, y) := (half + LittleEndian(first, 32), half + LittleEndian(second, 32));
      first == second || (|x| == |y| == 64 && x != y && DigestsAgree(x, y))
  {
    hide CurveOrder, Times, LittleEndianValue, LittleEndian, Pow2, DigestsAgree;
    var half := Blake512Hash.Hash(privateKey)[32..];
    var x, y := half + LittleEndian(first, 32), half + LittleEndian(second, 32);
    DigestsFromMultiples(x, y);
    if first != second {
      LittleEndianDecodes(first, 32);
      LittleEndianDecodes(second, 32);
      assert x[32..] == LittleEndian(first, 32) && y[32..] == LittleEndian(second, 32);
      assert |x| == |y| == 64 && x != y;
    }
  }

  /** Two byte strings whose BLAKE-512 digests are the same nonce. */
  ghost predicate DigestsAgree(x: seq<Byte>, y: seq<Byte>) {
    LittleEndianValue(Blake512Hash.Hash(x)) % ORDER == LittleEndianValue(Blake512Hash.Hash(y)) % ORDER
  }

  lemma DigestsFromMultiples(x: seq<Byte>, y: seq<Byte>)
    requires CurveOrder()
    requires Times(LittleEndianValue(Blake512Hash.Hash(x)) % ORDER, BASE8) == Times(LittleEndianValue(Blake512Hash.Hash(y)) % ORDER, BASE8)
    ensures DigestsAgree(x, y)
  {
    TimesInjective(LittleEndianValue(Blake512Hash.Hash(x)) % ORDER, LittleEndianValue(Blake512Hash.Hash(y)) % ORDER);
    hide CurveOrder, Times, LittleEndianValue;
  }

  lemma OrderBound()
    ensures ORDER < Pow2(256)
  {
    PowersOfTwo();
    hide Pow2;
    Pow2Add(32, 32);
    Pow2Add(64, 64);
    Pow2Add(128, 128);
  }

  // ----- scalar keys -----

  /** The nonce bound leaves every residue equally many preimages. */
  lemma NonceLimit()
    ensures NONCE_LIMIT % ORDER == 0
    ensures 0x1_0000_0000_0000_0000_0000_0000_0000_0000_0000_0000_0000_0000_0000_0000_0000_0000_0000_0000_0000_0000_0000_0000_0000_0000_0000_0000_0000_0000_0000_0000_0000_0000 - NONCE_LIMIT < ORDER
  {}

  /** `nonce_candidate`. */
  function NonceCandidate(n: nat): (nonce: Option<nat>)
    ensures nonce.Some? ==> 0 < nonce.value < ORDER
  {
    if n < NONCE_LIMIT && n % ORDER != 0 then Some(n % ORDER) else None
  }

  const MAX_COUNTER: nat := 0xffff_ffff

  function NonceAt(secret: nat, public: G, message: nat, counter: nat): Option<nat> {
    NonceCandidate(NonceDigest(secret, public, message, counter))
  }

  /** A 512-bit digest whose residue is a uniform nonce other than zero. */
  predicate Acceptable(digest: nat) {
    digest < NONCE_LIMIT && digest % ORDER != 0
  }

  /** No counter's digest is acceptable. */
  ghost predicate NoNonce(secret: nat, public: G, message: nat) {
    forall c | 0 <= c <= MAX_COUNTER :: !Acceptable(HMAC_NONCE(secret, public, message, c))
  }

  /** `nonce` is the residue of the first counter's digest that is acceptable. */
  ghost predicate FirstNonce(secret: nat, public: G, message: nat, nonce: nat) {
    exists c | 0 <= c <= MAX_COUNTER ::
      && Acceptable(HMAC_NONCE(secret, public, message, c)) && nonce == HMAC_NONCE(secret, public, message, c) % ORDER
      && forall d | 0 <= d < c :: !Acceptable(HMAC_NONCE(secret, public, message, d))
  }

  /** The first counter whose digest is a candidate, if any counter is. */
  method DeterministicNonce(secret: nat, public: G, message: nat) returns (nonce: Option<nat>)
    ensures nonce.Some? ==> FirstNonce(secret, public, message, nonce.value)
    ensures nonce.None? <==> NoNonce(secret, public, message)
  {
    for counter := 0 to MAX_COUNTER + 1
      invariant forall d | 0 <= d < counter :: !Acceptable(HMAC_NONCE(secret, public, message, d))
    {
      var candidate := NonceAt(secret, public, message, counter);
      if candidate.Some? {
        return candidate;
      }
    }
    nonce := None;
  }

  datatype ScalarSignature = ScalarSignature(r8: G, s: nat)

  datatype Signed = Good(signature: ScalarSignature) | NonceCounterExhausted | InternalVerificationFailed

  /** `public_key_from_scalar`. */
  method PublicKeyFromScalar(secret: nat) returns (public: G)
    requires Abelian() && secret < ORDER
    ensures public == Times(secret, BASE8)
  {
    hide Abelian, Times, LittleEndian, LittleEndianValue, Pow2;
    OrderBound();
    LittleEndianDecodes(secret, 32);
    public := BaseMul(LittleEndian(secret, 32), BASE8);
  }

  /** `verify_scalar_compat` decides the equation, for points other than the identity. */
  method VerifyScalarCompat(message: nat, public: G, signature: ScalarSignature) returns (valid: bool)
    requires Abelian()
    ensures valid <==> public != IDENTITY && signature.r8 != IDENTITY && Verifies(message, public, signature.r8, signature.s)
  {
    hide Abelian, Times;
    if public == IDENTITY || signature.r8 == IDENTITY {
      return false;
    }
    var h := Challenge(signature.r8, public, message);
    var left := MulPointEscalar(BASE8, signature.s);
    var scaled := MulPointEscalar(public, (8 * h) % ORDER);
    valid := left == Add(signature.r8, scaled);
  }

  /**
   `sign_scalar_compat`: the internal verification fails exactly for a public key that is not the
   secret's, and otherwise a verifying signature over the first acceptable nonce is returned unless
   no counter gives one.
   */
  method SignScalarCompat(message: nat, secret: nat, public: G) returns (signed: Signed)
    requires CurveOrder() && 0 < secret < ORDER
    ensures signed == InternalVerificationFailed <==> public != Times(secret, BASE8)
    ensures signed == NonceCounterExhausted <==> public == Times(secret, BASE8) && NoNonce(secret, public, message)
    ensures signed.Good? ==> exists nonce: nat ::
      FirstNonce(secret, public, message, nonce) && signed.signature.r8 == Times(nonce, BASE8)
    ensures signed.Good? ==>
      signed.signature.s < ORDER && signed.signature.r8 != IDENTITY &&
      Verifies(message, public, signed.signature.r8, signed.signature.s)
  {
    hide Abelian, Times, Response, Challenge, NonceCandidate;
    var expected := PublicKeyFromScalar(secret);
    if expected != public {
      return InternalVerificationFailed;
    }
    var nonce := DeterministicNonce(secret, public, message);
    if nonce.None? {
      return NonceCounterExhausted;
    }
    var r := nonce.value;
    var r8 := PublicKeyFromScalar(r);
    var h := Challenge(r8, public, message);
    var s := Response(r, h, secret, 8);
    ResponseEquation(r, h, secret, 8);
    EquationFromEight(message, public, r8, s, secret);
    assert NotIdentity(secret) && NotIdentity(r);
    var signature := ScalarSignature(r8, s);
    var valid := VerifyScalarCompat(message, public, signature);
    if !valid {
      return InternalVerificationFailed;
    }
    signed := Good(signature);
  }
}
