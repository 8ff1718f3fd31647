/**
 * The lean incremental Merkle tree of the census.
 *
 * The leaves sit in insertion order. Each level above is built from the one below by
 * hashing adjacent pairs; a node left without a partner at the end of a level is copied
 * up unhashed. The root is the single node left at the top. A proof lists, from the leaf
 * level upward, the partner of the path node at each level that has one.
 *
 * The hash is Poseidon over BN254 in the code, called through a library; here it is any
 * function of two values, passed in as a parameter.
 *
 * The Go (lean-imt-go) and TypeScript (@zk-kit/lean-imt) libraries the census code calls
 * are not part of this model. Their insert, update, indexOf, root and generateProof are
 * specified by class Tree over the same leaf sequence, with the root and the proofs given
 * by the level loop of the delegation tool's hand-written proof generator. That is an
 * assumption about those libraries.
 */
module LeanImt {
  import opened Wrappers

  type Hasher = (nat, nat) -> nat

  /** The node that position j of the next level holds: a hashed pair, or an odd node copied up. */
  function Parent(h: Hasher, level: seq<nat>, j: nat): nat
    requires 2 * j < |level|
  {
    if 2 * j + 1 < |level| then h(level[2 * j], level[2 * j + 1]) else level[2 * j]
  }

  /** One level up: a level of length m becomes one of length ceil(m/2). */
  function NextLevel(h: Hasher, level: seq<nat>): (r: seq<nat>)
    ensures |r| == (|level| + 1) / 2
    ensures forall j :: 0 <= j < |r| ==> r[j] == Parent(h, level, j)
  {
    if |level| <= 1 then level
    else
      var rest := NextLevel(h, level[2..]);
      assert forall j :: 0 <= j < |rest| ==> Parent(h, level[2..], j) == Parent(h, level, j + 1);
      [h(level[0], level[1])] + rest
  }

  /** The root: absent for an empty tree, otherwise the node left once a level has one node. */
  function RootOf(h: Hasher, leaves: seq<nat>): Option<nat>
    decreases |leaves|
  {
    if |leaves| == 0 then None
    else if |leaves| == 1 then Some(leaves[0])
    else RootOf(h, NextLevel(h, leaves))
  }

  /** Position of a node's pair partner: index xor 1. */
  function PartnerIndex(index: nat): nat
  {
    if index % 2 == 0 then index + 1 else index - 1
  }

  /**
   * The proof for the node at index, bottom-up: the partner at each level where there is
   * one; a level where the node is copied up contributes nothing.
   */
  function ProofOf(h: Hasher, level: seq<nat>, index: nat): seq<nat>
    requires index < |level|
    decreases |level|
  {
    if |level| <= 1 then []
    else
      var here := if PartnerIndex(index) < |level| then [level[PartnerIndex(index)]] else [];
      here + ProofOf(h, NextLevel(h, level), index / 2)
  }

  /** One round of the level loop: the partner here, if any, then the proof one level up. */
  lemma {:induction false} ProofStep(h: Hasher, level: seq<nat>, index: nat)
    requires index < |level| && |level| > 1
    ensures ProofOf(h, level, index) ==
      (if PartnerIndex(index) < |level| then [level[PartnerIndex(index)]] else []) + ProofOf(h, NextLevel(h, level), index / 2)
  {
  }

  /** Number of rounds of the level loop for a tree of the given size. */
  function Levels(size: nat): nat
  {
    if size <= 1 then 0 else 1 + Levels((size + 1) / 2)
  }

  /**
   * Folding a leaf with a proof, as a verifier that knows the tree size does it: at each
   * level the index bit decides the order of the pair, and a level where the node has no
   * partner is skipped. None when the proof is too short or too long.
   */
  function FoldProof(h: Hasher, node: nat, index: nat, size: nat, siblings: seq<nat>): Option<nat>
    decreases size
  {
    if size <= 1 then (if siblings == [] then Some(node) else None)
    else if PartnerIndex(index) < size then
      if siblings == [] then None
      else
        var up := if index % 2 == 0 then h(node, siblings[0]) else h(siblings[0], node);
        FoldProof(h, up, index / 2, (size + 1) / 2, siblings[1..])
    else FoldProof(h, node, index / 2, (size + 1) / 2, siblings)
  }

  /** The node on the path of index, one level up, is the fold of that node with its partner. */
  lemma {:induction false} ParentOnPath(h: Hasher, level: seq<nat>, index: nat)
    requires index < |level| && |level| > 1
    ensures var p := PartnerIndex(index);
            NextLevel(h, level)[index / 2] ==
              if p >= |level| then level[index]
              else if index % 2 == 0 then h(level[index], level[p])
              else h(level[p], level[index])
  {
  }

  /** Folding the leaf with its proof reproduces the root of the level loop. */
  lemma {:induction false} FoldProofIsRoot(h: Hasher, leaves: seq<nat>, index: nat)
    requires index < |leaves|
    ensures FoldProof(h, leaves[index], index, |leaves|, ProofOf(h, leaves, index)) == RootOf(h, leaves)
    decreases |leaves|
  {
    if |leaves| > 1 {
      var next := NextLevel(h, leaves);
      ParentOnPath(h, leaves, index);
      FoldProofIsRoot(h, next, index / 2);
      var p := PartnerIndex(index);
      if p < |leaves| {
        assert ProofOf(h, leaves, index) == [leaves[p]] + ProofOf(h, next, index / 2);
        assert ProofOf(h, leaves, index)[1..] == ProofOf(h, next, index / 2);
      } else {
        assert ProofOf(h, leaves, index) == ProofOf(h, next, index / 2);
      }
    }
  }

  /** Every non-empty leaf list has a root. */
  lemma {:induction false} RootOfNonEmpty(h: Hasher, leaves: seq<nat>)
    requires |leaves| > 0
    ensures RootOf(h, leaves).Some?
    decreases |leaves|
  {
    if |leaves| > 1 {
      RootOfNonEmpty(h, NextLevel(h, leaves));
    }
  }

  /** A proof has at most one entry per round of the level loop. */
  lemma {:induction false} ProofLength(h: Hasher, level: seq<nat>, index: nat)
    requires index < |level|
    ensures |ProofOf(h, level, index)| <= Levels(|level|)
    decreases |level|
  {
    if |level| > 1 {
      ProofLength(h, NextLevel(h, level), index / 2);
    }
  }

  /** A one-leaf tree has the leaf as its root, unhashed, and an empty proof. */
  lemma {:induction false} SingleLeaf(h: Hasher, leaf: nat)
    ensures RootOf(h, [leaf]) == Some(leaf) && ProofOf(h, [leaf], 0) == []
  {
  }

  /**
   * In a three-leaf tree the last leaf has no partner at the leaf level; its proof is the
   * hash of the first two leaves, met one level up.
   */
  lemma {:induction false} ThreeLeafProof(h: Hasher, a: nat, b: nat, c: nat)
    ensures ProofOf(h, [a, b, c], 2) == [h(a, b)]
    ensures RootOf(h, [a, b, c]) == Some(h(h(a, b), c))
  {
    var up := NextLevel(h, [a, b, c]);
    assert up == [h(a, b), c];
    var top := NextLevel(h, up);
    assert top == [h(h(a, b), c)];
    assert ProofOf(h, top, 0) == [];
    assert ProofOf(h, up, 1) == [h(a, b)] + ProofOf(h, top, 0);
    assert ProofOf(h, [a, b, c], 2) == [] + ProofOf(h, up, 1);
    assert RootOf(h, up) == RootOf(h, top);
  }

  /** `indexOf`: the first position holding leaf, or -1 when none does. */
  function IndexOf(leaves: seq<nat>, leaf: nat): (r: int)
    ensures -1 <= r < |leaves|
    ensures r == -1 <==> leaf !in leaves
    ensures r >= 0 ==> leaves[r] == leaf && leaf !in leaves[..r]
  {
    if leaves == [] then -1
    else if leaves[0] == leaf then 0
    else
      var k := IndexOf(leaves[1..], leaf);
      assert leaves == [leaves[0]] + leaves[1..];
      if k == -1 then -1
      else
        assert leaves[..k + 1] == [leaves[0]] + leaves[1..][..k];
        k + 1
  }

  /** The inner loop of generateLeanIMTProof: hashes the pairs of a level left to right. */
  method BuildNextLevel(h: Hasher, level: seq<nat>) returns (next: seq<nat>)
    ensures next == NextLevel(h, level)
  {
    next := [];
    var i := 0;
    while i < |level|
      invariant i % 2 == 0 && i <= |level| + 1
      invariant |next| == i / 2
      invariant forall j :: 0 <= j < |next| ==> next[j] == Parent(h, level, j)
    {
      var node;
      if i + 1 < |level| {
        node := h(level[i], level[i + 1]);
      } else {
        node := level[i];
      }
      next := next + [node];
      i := i + 2;
    }
  }

  datatype ProofError = IndexOutOfBounds(index: int, leafCount: nat)

  /**
   * The delegation tool's generateLeanIMTProof: rebuilds the tree level by level and
   * collects the partner of the path node at each level where it exists.
   */
  method GenerateLeanImtProof(h: Hasher, leaves: seq<nat>, targetIndex: int)
    returns (r: Result<seq<nat>, ProofError>)
    requires targetIndex >= 0
    ensures targetIndex >= |leaves| ==> r == Err(IndexOutOfBounds(targetIndex, |leaves|))
    ensures targetIndex < |leaves| ==> r == Ok(ProofOf(h, leaves, targetIndex))
  {
    if targetIndex >= |leaves| {
      return Err(IndexOutOfBounds(targetIndex, |leaves|));
    }
    var siblings := CollectSiblings(h, leaves, targetIndex);
    return Ok(siblings);
  }

  lemma {:induction false} AppendAssoc(a: seq<nat>, b: seq<nat>, c: seq<nat>)
    ensures (a + b) + c == a + (b + c)
  {
  }

  /** The level loop of generateLeanIMTProof, for an index inside the tree. */
  method CollectSiblings(h: Hasher, leaves: seq<nat>, targetIndex: nat) returns (siblings: seq<nat>)
    requires targetIndex < |leaves|
    ensures siblings == ProofOf(h, leaves, targetIndex)
  {
    ghost var proof := ProofOf(h, leaves, targetIndex);
    siblings := [];
    var currentIndex: nat := targetIndex;
    var currentLevel := leaves;
    while |currentLevel| > 1
      invariant currentIndex < |currentLevel|
      invariant siblings + ProofOf(h, currentLevel, currentIndex) == proof
      decreases |currentLevel|
    {
      var siblingIndex := if currentIndex % 2 == 0 then currentIndex + 1 else currentIndex - 1;
      var here: seq<nat> := [];
      if siblingIndex < |currentLevel| {
        here := [currentLevel[siblingIndex]];
      }
      var nextLevel := BuildNextLevel(h, currentLevel);
      ProofStep(h, currentLevel, currentIndex);
      ghost var rest := ProofOf(h, nextLevel, currentIndex / 2);
      AppendAssoc(siblings, here, rest);
      siblings := siblings + here;
      currentLevel := nextLevel;
      currentIndex := currentIndex / 2;
    }
    assert ProofOf(h, currentLevel, currentIndex) == [];
    assert siblings + [] == siblings;
  }

  /**
   * A lean incremental Merkle tree object as the libraries expose it: the leaves in
   * insertion order, changed in place by insert and update.
   */
  class Tree {
    const hash: Hasher
    var leaves: seq<nat>

    constructor (h: Hasher)
      ensures hash == h && leaves == []
    {
      hash := h;
      leaves := [];
    }

    function Size(): nat
      reads this
    {
      |leaves|
    }

    function Root(): Option<nat>
      reads this
    {
      RootOf(hash, leaves)
    }

    /** Appends a leaf at the next index; a zero leaf is refused, as the census contract's tree refuses it. */
    method Insert(leaf: nat) returns (ok: bool)
      modifies this
      ensures ok == (leaf != 0)
      ensures leaves == if ok then old(leaves) + [leaf] else old(leaves)
    {
      ok := leaf != 0;
      if ok {
        leaves := leaves + [leaf];
      }
    }

    /** Overwrites the leaf at index; the size never changes. Fails for an index past the end. */
    method Update(index: nat, leaf: nat) returns (ok: bool)
      modifies this
      ensures ok == (index < old(|leaves|))
      ensures leaves == if ok then old(leaves)[index := leaf] else old(leaves)
    {
      ok := index < |leaves|;
      if ok {
        leaves := leaves[index := leaf];
      }
    }

    method IndexOfLeaf(leaf: nat) returns (index: int)
      ensures index == IndexOf(leaves, leaf)
    {
      index := IndexOf(leaves, leaf);
    }

    method GenerateProof(index: nat) returns (siblings: seq<nat>)
      requires index < |leaves|
      ensures siblings == ProofOf(hash, leaves, index)
    {
      siblings := ProofOf(hash, leaves, index);
    }
  }
}
