/** The SHA-256 input hash of a list of 256-bit integers: equal hashes mean equal lists, or a collision. */
module InputHashes {
  import opened Binary
  import opened Bytes
  import opened NodeHash
  import opened FieldCodec
  import opened Sha256
  import opened TreeErrors

  predicate FitsWord(n: nat) {
    n < Pow256(32)
  }

  /** Every input as 32 big-endian bytes. */
  function Packed(inputs: seq<nat>): (bytes: seq<Byte>)
    ensures |bytes| == 32 * |inputs|
  {
    if inputs == [] then [] else Packed(inputs[..|inputs| - 1]) + BigEndian(inputs[|inputs| - 1], 32)
  }

  /** The digest as an integer, not reduced modulo anything. */
  function InputHash(inputs: seq<nat>): nat {
    FromBigEndian(Sha(Packed(inputs)))
  }

  /** `sha256_bigint`; `None` is its panic on a value of 2^256 or more. */
  method Sha256BigInt(inputs: seq<nat>) returns (hash: Option<nat>)
    ensures hash.None? <==> exists i | 0 <= i < |inputs| :: !FitsWord(inputs[i])
    ensures hash.Some? ==> hash.value == InputHash(inputs)
  {
    var hashed: seq<Byte> := [];
    for i := 0 to |inputs|
      invariant hashed == Packed(inputs[..i])
      invariant forall k | 0 <= k < i :: FitsWord(inputs[k])
    {
      if !FitsWord(inputs[i]) {
        return None;
      }
      assert inputs[..i + 1][..i] == inputs[..i];
      hashed := hashed + BigEndian(inputs[i], 32);
    }
    assert inputs[..|inputs|] == inputs;
    hash := Some(FromBigEndian(Sha(hashed)));
  }

  lemma {:induction false} PackedInjective(x: seq<nat>, y: seq<nat>)
    requires |x| == |y| && Packed(x) == Packed(y)
    requires forall i | 0 <= i < |x| :: FitsWord(x[i]) && FitsWord(y[i])
    ensures x == y
  {
    hide BigEndian, FromBigEndian, Pow256;
    if x != [] {
      var last := |x| - 1;
      var p, q := Packed(x[..last]), Packed(y[..last]);
      assert p == Packed(x)[..32 * last] && q == Packed(y)[..32 * last];
      assert BigEndian(x[last], 32) == Packed(x)[32 * last..] && BigEndian(y[last], 32) == Packed(y)[32 * last..];
      PackedInjective(x[..last], y[..last]);
      BigEndianDecodes(x[last], 32);
      BigEndianDecodes(y[last], 32);
      assert x == x[..last] + [x[last]] && y == y[..last] + [y[last]];
    }
  }

  /** Two lists with different packings and one SHA-256 digest. */
  ghost predicate WordsCollide(x: seq<nat>, y: seq<nat>) {
    Collision(Packed(x), Packed(y))
  }

  /** Equal input hashes over equally many words bind the words, up to a collision of SHA-256. */
  lemma InputHashBinds(x: seq<nat>, y: seq<nat>)
    requires |x| == |y| && InputHash(x) == InputHash(y)
    requires forall i | 0 <= i < |x| :: FitsWord(x[i]) && FitsWord(y[i])
    ensures x == y || WordsCollide(x, y)
  {
    BigEndianEncodes(Sha(Packed(x)));
    BigEndianEncodes(Sha(Packed(y)));
    if Packed(x) == Packed(y) {
      PackedInjective(x, y);
    }
  }

  lemma PackedOneMore(inputs: seq<nat>, last: nat)
    ensures Packed(inputs + [last]) == Packed(inputs) + BigEndian(last, 32)
  {
    assert (inputs + [last])[..|inputs|] == inputs;
  }

  /** The canonical integers of field elements. */
  function Values(fields: seq<Fr>): (values: seq<nat>)
    ensures |values| == |fields|
  {
    seq(|fields|, i requires 0 <= i < |fields| => fields[i].value)
  }

  /** Field elements are packed as their canonical 32 bytes, in order. */
  lemma {:induction false} PackedFields(fields: seq<Fr>)
    ensures Packed(Values(fields)) == FieldsBytes(fields)
  {
    hide BigEndian;
    if fields != [] {
      var init, last := fields[..|fields| - 1], fields[|fields| - 1];
      PackedFields(init);
      PackedOneMore(Values(init), last.value);
      assert Values(fields) == Values(init) + [last.value];
      hide Packed;
    }
  }

  lemma PackedFourMore(inputs: seq<nat>, a: nat, b: nat, c: nat, d: nat)
    ensures Packed(inputs + [a, b, c, d]) == Packed(inputs) + BigEndian(a, 32) + BigEndian(b, 32) + BigEndian(c, 32) + BigEndian(d, 32)
  {
    hide BigEndian, Packed;
    PackedOneMore(inputs, a);
    PackedOneMore(inputs + [a], b);
    PackedOneMore(inputs + [a] + [b], c);
    PackedOneMore(inputs + [a] + [b] + [c], d);
    assert inputs + [a] + [b] + [c] + [d] == inputs + [a, b, c, d];
  }

  /** The digest of field elements followed by two more and two counts, as one byte string. */
  lemma HashedBytes(fields: seq<Fr>, first: Fr, second: Fr, count: nat, next: nat)
    ensures InputHash(Values(fields) + [first.value, second.value, count, next])
         == FromBigEndian(Sha(FieldsBytes(fields) + FieldBytes(first) + FieldBytes(second) + BigEndian(count, 32) + BigEndian(next, 32)))
  {
    hide BigEndian, FromBigEndian, Packed, Values, FieldsBytes;
    PackedFields(fields);
    PackedFourMore(Values(fields), first.value, second.value, count, next);
  }

  lemma FieldFitsWord(f: Fr)
    ensures FitsWord(f.value)
  {
    ModulusFits();
  }

  /** A leaf count or index of a tree fits a word. */
  lemma CountFitsWord(count: nat, depth: nat)
    requires depth < USIZE_BITS && count <= Pow2(depth)
    ensures FitsWord(count)
  {
    Pow2Monotone(depth, 63);
    PowersOfTwo();
    Pow2Add(32, 31);
    ModulusFits();
    hide Pow2, Pow256;
  }
}
