/**
 Inclusion proofs at a pinned depth: completeness, and binding up to a hash collision.
 */
module InclusionProofs {
  import opened Binary
  import opened NodeHash
  import opened TreeErrors

  datatype InclusionProof = InclusionProof(leaf: Fr, index: nat, siblings: seq<Fr>, root: Fr)

  /** The other child of the same parent. */
  function Sibling(index: nat): nat {
    if index % 2 == 0 then index + 1 else index - 1
  }

  /** One level of a path: the bit of `index` selects the side. */
  function Step(node: Fr, index: nat, sibling: Fr): Fr {
    if index % 2 == 0 then Poseidon(node, sibling) else Poseidon(sibling, node)
  }

  /** The node reached from `node` at position `index` after climbing past `siblings`. */
  function Fold(node: Fr, index: nat, siblings: seq<Fr>): Fr {
    if siblings == [] then node
    else
      var last := |siblings| - 1;
      Step(Fold(node, index, siblings[..last]), Shr(index, last), siblings[last])
  }

  /** The sibling of leaf `index`'s ancestor at level `level`. */
  function SiblingAt(leaves: seq<Fr>, zero: Fr, index: nat, level: nat): Fr {
    NodeAt(leaves, zero, level, Sibling(Shr(index, level)))
  }

  /** The siblings of leaf `index`, bottom to top. */
  function Siblings(leaves: seq<Fr>, zero: Fr, depth: nat, index: nat): (siblings: seq<Fr>)
    ensures |siblings| == depth
  {
    seq(depth, level requires 0 <= level => SiblingAt(leaves, zero, index, level))
  }

  /** The proof of the node at `index`; past the log this proves the empty slot. */
  function ProofAt(leaves: seq<Fr>, zero: Fr, depth: nat, index: nat): InclusionProof {
    InclusionProof(Get(leaves, index, zero), index, Siblings(leaves, zero, depth, index), Root(leaves, zero, depth))
  }

  /** `verify_path`: hash the path to the root; the index must be used up. */
  method VerifyPath(proof: InclusionProof) returns (ok: bool)
    ensures ok == (Shr(proof.index, |proof.siblings|) == 0 && Fold(proof.leaf, proof.index, proof.siblings) == proof.root)
  {
    var node, index := proof.leaf, proof.index;
    for i := 0 to |proof.siblings|
      invariant node == Fold(proof.leaf, proof.index, proof.siblings[..i])
      invariant index == Shr(proof.index, i)
    {
      var sibling := proof.siblings[i];
      assert proof.siblings[..i + 1][..i] == proof.siblings[..i];
      node := if index % 2 == 0 then Poseidon(node, sibling) else Poseidon(sibling, node);
      index := index / 2;
    }
    assert proof.siblings[..|proof.siblings|] == proof.siblings;
    ok := index == 0 && node == proof.root;
  }

  /** What `verify_proof_at_depth` accepts. */
  predicate Accepts(proof: InclusionProof, depth: nat) {
    && depth < USIZE_BITS
    && |proof.siblings| == depth
    && proof.index < Pow2(depth)
    && Fold(proof.leaf, proof.index, proof.siblings) == proof.root
  }

  method VerifyProofAtDepth(proof: InclusionProof, depth: nat) returns (ok: bool)
    ensures ok <==> Accepts(proof, depth)
  {
    ShrZero(proof.index, |proof.siblings|);
    if TreeCapacity(depth).Err? || |proof.siblings| != depth {
      return false;
    }
    ok := VerifyPath(proof);
  }

  /** Climbing `a` then `b` is climbing `a + b`: the seam of a within-shard and a cap path. */
  lemma {:induction false} FoldConcat(node: Fr, index: nat, a: seq<Fr>, b: seq<Fr>)
    ensures Fold(node, index, a + b) == Fold(Fold(node, index, a), Shr(index, |a|), b)
  {
    if b == [] {
      assert a + b == a;
    } else {
      var last := |b| - 1;
      FoldConcat(node, index, a, b[..last]);
      assert (a + b)[..|a + b| - 1] == a + b[..last];
      ShrShr(index, |a|, last);
    }
  }

  lemma SiblingSplit(index: nat)
    ensures var parent := index / 2;
      if index % 2 == 0 then index == 2 * parent && Sibling(index) == 2 * parent + 1
      else index == 2 * parent + 1 && Sibling(index) == 2 * parent
  {}

  /** A node and its sibling hash to their parent. */
  lemma StepClimbs(leaves: seq<Fr>, zero: Fr, level: nat, index: nat)
    ensures Step(NodeAt(leaves, zero, level, index), index, NodeAt(leaves, zero, level, Sibling(index)))
         == NodeAt(leaves, zero, level + 1, index / 2)
  {
    SiblingSplit(index);
  }

  /** Climbing the tree's own siblings passes through the tree's own nodes. */
  lemma {:induction false} FoldPath(leaves: seq<Fr>, zero: Fr, depth: nat, index: nat, k: nat)
    requires k <= depth
    ensures Fold(Get(leaves, index, zero), index, Siblings(leaves, zero, depth, index)[..k])
         == NodeAt(leaves, zero, k, Shr(index, k))
  {
    if k > 0 {
      FoldPath(leaves, zero, depth, index, k - 1);
      var siblings := Siblings(leaves, zero, depth, index);
      assert siblings[..k][..k - 1] == siblings[..k - 1];
      StepClimbs(leaves, zero, k - 1, Shr(index, k - 1));
    } else {
      assert Siblings(leaves, zero, depth, index)[..0] == [];
    }
  }

  /** Completeness: the tree's proof of any slot, filled or empty, is accepted. */
  lemma ProofAccepted(leaves: seq<Fr>, zero: Fr, depth: nat, index: nat)
    requires depth < USIZE_BITS && index < Pow2(depth)
    ensures Accepts(ProofAt(leaves, zero, depth, index), depth)
  {
    FoldPath(leaves, zero, depth, index, depth);
    ShrZero(index, depth);
    var siblings := Siblings(leaves, zero, depth, index);
    assert siblings[..depth] == siblings;
  }

  /** Two different inputs of the node hash with one output. */
  datatype Collision = Collision(left1: Fr, right1: Fr, left2: Fr, right2: Fr) {
    ghost predicate Valid() {
      && (left1 != left2 || right1 != right2)
      && Poseidon(left1, right1) == Poseidon(left2, right2)
    }
  }

  /**
   Binding: a path that climbs to a node of the tree starts at the tree's own leaf and
   uses the tree's own siblings, or it exhibits a collision of the node hash.
   */
  lemma {:induction false} PathBinding(leaves: seq<Fr>, zero: Fr, depth: nat, leaf: Fr, index: nat, siblings: seq<Fr>)
    returns (c: Option<Collision>)
    requires |siblings| == depth
    requires Fold(leaf, index, siblings) == NodeAt(leaves, zero, depth, Shr(index, depth))
    ensures c.Some? ==> c.value.Valid()
    ensures c.None? ==> leaf == Get(leaves, index, zero) && siblings == Siblings(leaves, zero, depth, index)
  {
    if depth == 0 {
      assert siblings == [] == Siblings(leaves, zero, 0, index);
      return None;
    }
    var last := depth - 1;
    var below := Shr(index, last);
    var node, sibling := Fold(leaf, index, siblings[..last]), siblings[last];
    var treeNode, treeSibling := NodeAt(leaves, zero, last, below), NodeAt(leaves, zero, last, Sibling(below));
    StepClimbs(leaves, zero, last, below);
    if node != treeNode || sibling != treeSibling {
      return Some(if below % 2 == 0 then Collision(node, sibling, treeNode, treeSibling)
                  else Collision(sibling, node, treeSibling, treeNode));
    }
    c := PathBinding(leaves, zero, last, leaf, index, siblings[..last]);
    if c.None? {
      assert siblings == siblings[..last] + [sibling];
      assert Siblings(leaves, zero, depth, index) == Siblings(leaves, zero, last, index) + [sibling];
    }
  }

  /**
   Soundness at a pinned depth: against a tree's root, an accepted proof names the leaf
   stored at its index (the zero leaf when that slot is empty), or yields a collision.
   */
  lemma ProofBinding(leaves: seq<Fr>, zero: Fr, depth: nat, proof: InclusionProof) returns (c: Option<Collision>)
    requires Accepts(proof, depth) && proof.root == Root(leaves, zero, depth)
    ensures c.Some? ==> c.value.Valid()
    ensures c.None? ==> proof == ProofAt(leaves, zero, depth, proof.index)
  {
    ShrZero(proof.index, depth);
    c := PathBinding(leaves, zero, depth, proof.leaf, proof.index, proof.siblings);
  }
}
