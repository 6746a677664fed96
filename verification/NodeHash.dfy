/**
 The field, the two-to-one node hash and the padded binary tree they define.

 `NodeAt` is the one definition every tree form of the library is proved against.
 The hash itself is uninterpreted: nothing below depends on Poseidon.
 */
module NodeHash {
  import opened Binary

  /** The BN254 scalar field modulus. */
  const MODULUS: nat := 21888242871839275222246405745257275088548364400416034343698204186575808495617

  type Residue = x: nat | x < MODULUS

  /** A field element, by its canonical integer. */
  datatype Fr = Felt(value: Residue)

  const ZERO: Fr := Felt(0)

  /** Poseidon with two inputs, uninterpreted: any map of pairs of elements to elements. */
  const POSEIDON: (Fr, Fr) -> Fr

  /** The node hash `poseidon([left, right])`. */
  function Poseidon(left: Fr, right: Fr): Fr {
    POSEIDON(left, right)
  }

  /** Root of an all-empty subtree of height `height` over the leaf-level zero `zero`. */
  function ZeroRoot(zero: Fr, height: nat): Fr {
    if height == 0 then zero
    else Poseidon(ZeroRoot(zero, height - 1), ZeroRoot(zero, height - 1))
  }

  /** Node `index` of level `level` over the leaf log `leaves`, padded with `zero`. */
  function NodeAt(leaves: seq<Fr>, zero: Fr, level: nat, index: nat): Fr {
    if level == 0 then
      if index < |leaves| then leaves[index] else zero
    else
      Poseidon(NodeAt(leaves, zero, level - 1, 2 * index), NodeAt(leaves, zero, level - 1, 2 * index + 1))
  }

  /** The depth-`depth` root over `leaves`. */
  function Root(leaves: seq<Fr>, zero: Fr, depth: nat): Fr {
    NodeAt(leaves, zero, depth, 0)
  }

  /** The nodes of level `level` that have a leaf of the log below them. */
  function Row(leaves: seq<Fr>, zero: Fr, level: nat): (row: seq<Fr>)
    ensures |row| == HalvesUp(|leaves|, level)
  {
    seq(HalvesUp(|leaves|, level), i requires 0 <= i => NodeAt(leaves, zero, level, i))
  }

  /** `row.get(i)`, falling back to the level's zero. */
  function Get(row: seq<Fr>, i: nat, zero: Fr): Fr {
    if i < |row| then row[i] else zero
  }

  /** The parent row of `row`; a missing right child reads as `zero`. */
  function ParentRow(row: seq<Fr>, zero: Fr): (parents: seq<Fr>)
    ensures |parents| == (|row| + 1) / 2
    ensures forall i :: 0 <= i < |parents| ==> parents[i] == Poseidon(row[2 * i], Get(row, 2 * i + 1, zero))
  {
    seq((|row| + 1) / 2, i requires 0 <= i < (|row| + 1) / 2 => Poseidon(row[2 * i], Get(row, 2 * i + 1, zero)))
  }

  /** Past the leaf log, every node is the zero root of its height. */
  lemma {:induction false} EmptyNode(leaves: seq<Fr>, zero: Fr, level: nat, index: nat)
    requires HalvesUp(|leaves|, level) <= index
    ensures NodeAt(leaves, zero, level, index) == ZeroRoot(zero, level)
  {
    if level > 0 {
      EmptyNode(leaves, zero, level - 1, 2 * index);
      EmptyNode(leaves, zero, level - 1, 2 * index + 1);
    }
  }

  /** Reading a row with the level's zero as default reads the padded tree. */
  lemma RowGet(leaves: seq<Fr>, zero: Fr, level: nat, index: nat)
    ensures Get(Row(leaves, zero, level), index, ZeroRoot(zero, level)) == NodeAt(leaves, zero, level, index)
  {
    if index >= HalvesUp(|leaves|, level) {
      EmptyNode(leaves, zero, level, index);
    }
  }

  lemma ParentEntry(leaves: seq<Fr>, zero: Fr, level: nat, i: nat)
    requires i < HalvesUp(|leaves|, level + 1)
    ensures ParentRow(Row(leaves, zero, level), ZeroRoot(zero, level))[i] == NodeAt(leaves, zero, level + 1, i)
  {
    RowGet(leaves, zero, level, 2 * i);
    RowGet(leaves, zero, level, 2 * i + 1);
  }

  lemma ParentSuffix(row: seq<Fr>, zero: Fr, first: nat)
    requires 2 * first <= |row|
    ensures ParentRow(row[2 * first..], zero) == ParentRow(row, zero)[first..]
  {
    forall i | 0 <= i < (|row| - 2 * first + 1) / 2
      ensures ParentRow(row[2 * first..], zero)[i] == ParentRow(row, zero)[first + i]
    {
      assert 2 * (first + i) == 2 * first + 2 * i;
      assert row[2 * first..][2 * i] == row[2 * (first + i)];
    }
  }

  /** Folding a row pairwise gives the row above. */
  lemma ParentOfWholeRow(leaves: seq<Fr>, zero: Fr, level: nat)
    ensures ParentRow(Row(leaves, zero, level), ZeroRoot(zero, level)) == Row(leaves, zero, level + 1)
  {
    forall i | 0 <= i < HalvesUp(|leaves|, level + 1)
      ensures ParentRow(Row(leaves, zero, level), ZeroRoot(zero, level))[i] == Row(leaves, zero, level + 1)[i]
    {
      ParentEntry(leaves, zero, level, i);
    }
  }

  /** Folding from any even position on gives that part of the row above. */
  lemma ParentOfRow(leaves: seq<Fr>, zero: Fr, level: nat, first: nat)
    requires 2 * first <= HalvesUp(|leaves|, level)
    ensures ParentRow(Row(leaves, zero, level)[2 * first..], ZeroRoot(zero, level))
         == Row(leaves, zero, level + 1)[first..]
  {
    ParentSuffix(Row(leaves, zero, level), ZeroRoot(zero, level), first);
    ParentOfWholeRow(leaves, zero, level);
  }

  /** Two logs that agree under a node give it the same value. */
  lemma {:induction false} NodeAtLocal(a: seq<Fr>, b: seq<Fr>, zero: Fr, level: nat, index: nat)
    requires forall i: nat :: Shr(i, level) == index ==> Get(a, i, zero) == Get(b, i, zero)
    ensures NodeAt(a, zero, level, index) == NodeAt(b, zero, level, index)
  {
    if level == 0 {
      assert Shr(index, 0) == index;
      assert Get(a, index, zero) == Get(b, index, zero);
    } else {
      NodeAtLocal(a, b, zero, level - 1, 2 * index);
      NodeAtLocal(a, b, zero, level - 1, 2 * index + 1);
    }
  }
}
