/**
 * The delegation tool's view of the census tree. It reads the tree from the contract
 * slot by slot (the account at each index, then that account's delegation record),
 * keeps one node per non-empty slot, and builds proofs over the list of those nodes.
 *
 * The contract calls are an oracle: Contract holds the census root call's answer, the
 * account list the contract stores (0 for a removed account's slot), which account
 * calls fail, and each account's delegation record (None for a failed call).
 */
module CensusScan {
  import opened Wrappers
  import opened Bits
  import LeanImt

  datatype TreeNode = TreeNode(index: nat, address: nat, weight: nat, leaf: nat)

  datatype Tree = Tree(root: nat, nodes: seq<TreeNode>)

  datatype Delegation = Delegation(weight: nat, leaf: nat)

  datatype Contract = Contract(
    censusRoot: Option<nat>,
    accounts: seq<nat>,
    accountCallFails: nat -> bool,
    delegations: nat -> Option<Delegation>)

  datatype ScanError = RootCallFailed | AccountCallFailed(index: nat) | DelegationsCallFailed(address: nat)

  /** getAccountAt: the stored account, or the zero address past the end of the list. */
  function AccountAt(c: Contract, index: nat): nat
  {
    if index < |c.accounts| then c.accounts[index] else 0
  }

  /** The node the scan records for a non-empty slot; the weight is read back as a uint64. */
  function NodeFor(index: nat, address: nat, d: Delegation): TreeNode
  {
    TreeNode(index, address, LowBits(d.weight, 64), d.leaf)
  }

  /**
   * The scan from slot index on, with `consecutive` empty slots just seen. It stops once
   * maxAttempts empty slots in a row have been seen; a non-empty slot resets the count.
   */
  function ScanFrom(c: Contract, maxAttempts: int, index: nat, consecutive: nat): Result<seq<TreeNode>, ScanError>
    requires index >= |c.accounts| ==> consecutive >= index - |c.accounts|
    decreases |c.accounts| + maxAttempts - index
  {
    if consecutive >= maxAttempts then Ok([])
    else if c.accountCallFails(index) then Err(AccountCallFailed(index))
    else
      var address := AccountAt(c, index);
      if address == 0 then ScanFrom(c, maxAttempts, index + 1, consecutive + 1)
      else
        match c.delegations(address)
        case None => Err(DelegationsCallFailed(address))
        case Some(d) =>
          match ScanFrom(c, maxAttempts, index + 1, 0)
          case Err(err) => Err(err)
          case Ok(rest) => Ok([NodeFor(index, address, d)] + rest)
  }

  /** ReconstructTree's outcome: a zero root means an empty tree, with no slot read. */
  function Scan(c: Contract, maxAttempts: int): (r: Result<Tree, ScanError>)
    ensures c.censusRoot == Some(0) ==> r == Ok(Tree(0, []))
    ensures c.censusRoot.None? ==> r == Err(RootCallFailed)
  {
    match c.censusRoot
    case None => Err(RootCallFailed)
    case Some(root) =>
      if root == 0 then Ok(Tree(0, []))
      else
        match ScanFrom(c, maxAttempts, 0, 0)
        case Err(err) => Err(err)
        case Ok(nodes) => Ok(Tree(root, nodes))
  }

  /** The node agrees with the contract: its slot holds its address and its leaf is the account's leaf. */
  predicate NodeMatchesSlot(c: Contract, n: TreeNode)
  {
    n.address != 0 && AccountAt(c, n.index) == n.address
    && c.delegations(n.address).Some?
    && n.leaf == c.delegations(n.address).value.leaf
    && n.weight == LowBits(c.delegations(n.address).value.weight, 64)
  }

  predicate IndicesIncrease(nodes: seq<TreeNode>)
  {
    forall j, k :: 0 <= j < k < |nodes| ==> nodes[j].index < nodes[k].index
  }

  /**
   * Every recorded node comes from a non-empty slot at or after the starting index, with the
   * account's own leaf, and the recorded indices strictly increase.
   */
  lemma {:induction false} ScanSound(c: Contract, maxAttempts: int, index: nat, consecutive: nat)
    requires index >= |c.accounts| ==> consecutive >= index - |c.accounts|
    requires ScanFrom(c, maxAttempts, index, consecutive).Ok?
    ensures var nodes := ScanFrom(c, maxAttempts, index, consecutive).value;
            IndicesIncrease(nodes)
            && forall j :: 0 <= j < |nodes| ==> index <= nodes[j].index && NodeMatchesSlot(c, nodes[j])
    decreases |c.accounts| + maxAttempts - index
  {
    if consecutive < maxAttempts {
      var address := AccountAt(c, index);
      if address == 0 {
        ScanSound(c, maxAttempts, index + 1, consecutive + 1);
      } else {
        ScanSound(c, maxAttempts, index + 1, 0);
      }
    }
  }

  /**
   * With a budget of empty slots larger than the whole account list, no run of removed
   * slots can stop the scan early: every non-empty slot from the starting index on is found.
   */
  lemma {:induction false} ScanComplete(c: Contract, maxAttempts: int, index: nat, consecutive: nat)
    requires maxAttempts > |c.accounts| && consecutive <= index
    requires index >= |c.accounts| ==> consecutive >= index - |c.accounts|
    requires ScanFrom(c, maxAttempts, index, consecutive).Ok?
    ensures var nodes := ScanFrom(c, maxAttempts, index, consecutive).value;
            forall k :: index <= k < |c.accounts| && c.accounts[k] != 0 ==>
              exists j :: 0 <= j < |nodes| && nodes[j].index == k
    decreases |c.accounts| + maxAttempts - index
  {
    var nodes := ScanFrom(c, maxAttempts, index, consecutive).value;
    if index < |c.accounts| {
      var address := AccountAt(c, index);
      if address == 0 {
        ScanComplete(c, maxAttempts, index + 1, consecutive + 1);
      } else {
        ScanComplete(c, maxAttempts, index + 1, 0);
        var rest := ScanFrom(c, maxAttempts, index + 1, 0).value;
        assert nodes == [nodes[0]] + rest;
        forall k | index <= k < |c.accounts| && c.accounts[k] != 0
          ensures exists j :: 0 <= j < |nodes| && nodes[j].index == k
        {
          if k == index {
            assert nodes[0].index == k;
          } else {
            var j :| 0 <= j < |rest| && rest[j].index == k;
            assert nodes[j + 1].index == k;
          }
        }
      }
    }
  }

  lemma {:induction false} ScanUnfold(c: Contract, maxAttempts: int, index: nat, consecutive: nat)
    requires index >= |c.accounts| ==> consecutive >= index - |c.accounts|
    requires consecutive < maxAttempts && !c.accountCallFails(index)
    ensures AccountAt(c, index) == 0 ==>
      ScanFrom(c, maxAttempts, index, consecutive) == ScanFrom(c, maxAttempts, index + 1, consecutive + 1)
    ensures AccountAt(c, index) != 0 && c.delegations(AccountAt(c, index)).Some? ==>
      ScanFrom(c, maxAttempts, index, consecutive) ==
        match ScanFrom(c, maxAttempts, index + 1, 0)
        case Err(err) => Err(err)
        case Ok(rest) => Ok([NodeFor(index, AccountAt(c, index), c.delegations(AccountAt(c, index)).value)] + rest)
  {
  }

  /** The nodes found so far followed by what the rest of the scan yields. */
  function Prepend(found: seq<TreeNode>, rest: Result<seq<TreeNode>, ScanError>): Result<seq<TreeNode>, ScanError>
  {
    match rest
    case Err(err) => Err(err)
    case Ok(nodes) => Ok(found + nodes)
  }

  /** The delegation tool's ReconstructTree: the slot loop over the contract. */
  method ReconstructTree(c: Contract, maxAttempts: int) returns (r: Result<Tree, ScanError>)
    ensures r == Scan(c, maxAttempts)
  {
    if c.censusRoot.None? {
      return Err(RootCallFailed);
    }
    var root := c.censusRoot.value;
    if root == 0 {
      return Ok(Tree(0, []));
    }
    var nodes: seq<TreeNode> := [];
    var consecutiveEmpty: nat := 0;
    var index: nat := 0;
    assert ScanFrom(c, maxAttempts, 0, 0).Ok? ==> [] + ScanFrom(c, maxAttempts, 0, 0).value == ScanFrom(c, maxAttempts, 0, 0).value;
    while consecutiveEmpty < maxAttempts
      invariant index >= |c.accounts| ==> consecutiveEmpty >= index - |c.accounts|
      invariant Prepend(nodes, ScanFrom(c, maxAttempts, index, consecutiveEmpty)) == ScanFrom(c, maxAttempts, 0, 0)
      decreases |c.accounts| + maxAttempts - index
    {
      if c.accountCallFails(index) {
        return Err(AccountCallFailed(index));
      }
      ScanUnfold(c, maxAttempts, index, consecutiveEmpty);
      var address := AccountAt(c, index);
      if address == 0 {
        consecutiveEmpty := consecutiveEmpty + 1;
        index := index + 1;
        continue;
      }
      consecutiveEmpty := 0;
      var result := c.delegations(address);
      if result.None? {
        return Err(DelegationsCallFailed(address));
      }
      var node := NodeFor(index, address, result.value);
      ghost var rest := ScanFrom(c, maxAttempts, index + 1, 0);
      assert rest.Ok? ==> (nodes + [node]) + rest.value == nodes + ([node] + rest.value);
      nodes := nodes + [node];
      index := index + 1;
    }
    assert nodes + [] == nodes;
    return Ok(Tree(root, nodes));
  }

  /** Position of the first node with the given address in the node list, or -1. */
  function FirstNodeOf(nodes: seq<TreeNode>, address: nat): (r: int)
    ensures -1 <= r < |nodes|
    ensures r == -1 <==> forall j :: 0 <= j < |nodes| ==> nodes[j].address != address
    ensures r >= 0 ==> nodes[r].address == address && forall j :: 0 <= j < r ==> nodes[j].address != address
  {
    if nodes == [] then -1
    else if nodes[0].address == address then 0
    else
      var k := FirstNodeOf(nodes[1..], address);
      if k == -1 then -1 else k + 1
  }

  /** The leaves of the node list, in list order. */
  function NodeLeaves(nodes: seq<TreeNode>): (leaves: seq<nat>)
    ensures |leaves| == |nodes|
    ensures forall j :: 0 <= j < |nodes| ==> leaves[j] == nodes[j].leaf
  {
    seq(|nodes|, j requires 0 <= j < |nodes| => nodes[j].leaf)
  }

  /** The search loop of GenerateProof: the first node with the address. */
  method FindNode(nodes: seq<TreeNode>, address: nat) returns (targetIndex: int)
    ensures targetIndex == FirstNodeOf(nodes, address)
  {
    targetIndex := -1;
    var i := 0;
    while i < |nodes|
      invariant i <= |nodes|
      invariant forall j :: 0 <= j < i ==> nodes[j].address != address
    {
      if nodes[i].address == address {
        return i;
      }
      i := i + 1;
    }
  }

  /** The loop of GenerateProof that lists the node leaves. */
  method CollectLeaves(nodes: seq<TreeNode>) returns (leaves: seq<nat>)
    ensures leaves == NodeLeaves(nodes)
  {
    leaves := [];
    var k := 0;
    while k < |nodes|
      invariant k <= |nodes| && |leaves| == k
      invariant forall j :: 0 <= j < k ==> leaves[j] == nodes[j].leaf
    {
      leaves := leaves + [nodes[k].leaf];
      k := k + 1;
    }
  }

  /**
   * Tree.GenerateProof: an empty proof for an address with no node; otherwise the proof of
   * the first matching node's position in the node list, over the list of node leaves.
   */
  method GenerateProof(h: LeanImt.Hasher, t: Tree, address: nat) returns (r: Result<seq<nat>, LeanImt.ProofError>)
    ensures FirstNodeOf(t.nodes, address) == -1 ==> r == Ok([])
    ensures FirstNodeOf(t.nodes, address) >= 0 ==>
      r == Ok(LeanImt.ProofOf(h, NodeLeaves(t.nodes), FirstNodeOf(t.nodes, address)))
  {
    var targetIndex := FindNode(t.nodes, address);
    if targetIndex == -1 {
      return Ok([]);
    }
    var leaves := CollectLeaves(t.nodes);
    r := LeanImt.GenerateLeanImtProof(h, leaves, targetIndex);
  }

  /** The tool's proof for a node folds back to the root of the tree of node leaves. */
  lemma {:induction false} CompactedProofFolds(h: LeanImt.Hasher, nodes: seq<TreeNode>, address: nat)
    requires FirstNodeOf(nodes, address) >= 0
    ensures var k := FirstNodeOf(nodes, address);
            LeanImt.FoldProof(h, nodes[k].leaf, k, |nodes|, LeanImt.ProofOf(h, NodeLeaves(nodes), k))
              == LeanImt.RootOf(h, NodeLeaves(nodes))
  {
    LeanImt.FoldProofIsRoot(h, NodeLeaves(nodes), FirstNodeOf(nodes, address));
  }

  /** The contract's own leaf list: 0 in a removed account's slot, the account's leaf elsewhere. */
  function ChainLeaves(c: Contract): (leaves: seq<nat>)
    ensures |leaves| == |c.accounts|
  {
    seq(|c.accounts|, i requires 0 <= i < |c.accounts| =>
      if c.accounts[i] == 0 || c.delegations(c.accounts[i]).None? then 0
      else c.delegations(c.accounts[i]).value.leaf)
  }

  /** A contract whose slot 0 was removed and whose slot 1 holds an account with record d. */
  function RemovedFirstSlot(root: nat, address: nat, d: Delegation): Contract
  {
    Contract(Some(root), [0, address], _ => false, a => if a == address then Some(d) else None)
  }

  lemma {:induction false} RemovedFirstSlotScan(root: nat, address: nat, d: Delegation)
    requires address != 0
    ensures ScanFrom(RemovedFirstSlot(root, address, d), 2, 0, 0) == Ok([NodeFor(1, address, d)])
    ensures ChainLeaves(RemovedFirstSlot(root, address, d)) == [0, d.leaf]
  {
    var c := RemovedFirstSlot(root, address, d);
    assert ScanFrom(c, 2, 4, 2) == Ok([]);
    ScanUnfold(c, 2, 3, 1);
    ScanUnfold(c, 2, 2, 0);
    ScanUnfold(c, 2, 1, 1);
    ScanUnfold(c, 2, 0, 0);
    assert [NodeFor(1, address, d)] + [] == [NodeFor(1, address, d)];
    assert ChainLeaves(c) == [0, d.leaf];
  }

  /**
   * The tool's proof ignores removed slots. On a contract whose slot 0 was removed and whose
   * slot 1 holds leaf x, the node list is [x]: the tool proves x at position 0 with no
   * siblings against root x, while the contract's tree is [0, x] with root h(0, x), where x
   * sits at index 1 with sibling 0. Under any hash with h(0, x) != x the empty proof does
   * not fold to the contract's root.
   */
  lemma {:induction false} CompactedProofIgnoresTombstone(h: LeanImt.Hasher, address: nat, d: Delegation)
    requires address != 0 && h(0, d.leaf) != d.leaf
    ensures var c := RemovedFirstSlot(h(0, d.leaf), address, d);
            var nodes := [NodeFor(1, address, d)];
            && ScanFrom(c, 2, 0, 0) == Ok(nodes)
            && LeanImt.ProofOf(h, NodeLeaves(nodes), FirstNodeOf(nodes, address)) == []
            && LeanImt.RootOf(h, NodeLeaves(nodes)) == Some(d.leaf)
            && LeanImt.RootOf(h, ChainLeaves(c)) == Some(h(0, d.leaf))
            && LeanImt.ProofOf(h, ChainLeaves(c), 1) == [0]
            && LeanImt.FoldProof(h, d.leaf, 1, 2, []) != Some(h(0, d.leaf))
  {
    RemovedFirstSlotScan(h(0, d.leaf), address, d);
    var nodes := [NodeFor(1, address, d)];
    assert FirstNodeOf(nodes, address) == 0;
    assert NodeLeaves(nodes) == [d.leaf];
    TwoLeafTree(h, 0, d.leaf);
  }

  lemma {:induction false} TwoLeafTree(h: LeanImt.Hasher, a: nat, b: nat)
    ensures LeanImt.RootOf(h, [a, b]) == Some(h(a, b))
    ensures LeanImt.ProofOf(h, [a, b], 1) == [a]
  {
    assert LeanImt.NextLevel(h, [a, b]) == [h(a, b)];
  }

  /** The leaf the node list places in slot i: the leaf of a node with that index, or 0. */
  function SlotLeaf(nodes: seq<TreeNode>, i: nat): nat
  {
    if nodes == [] then 0
    else if nodes[0].index == i then nodes[0].leaf
    else SlotLeaf(nodes[1..], i)
  }

  /** The node list spread back over the contract's slots, removed slots as 0. */
  function SlotLeaves(nodes: seq<TreeNode>, size: nat): (leaves: seq<nat>)
    ensures |leaves| == size
  {
    seq(size, i requires 0 <= i < size => SlotLeaf(nodes, i))
  }

  lemma {:induction false} SlotLeafOfNode(nodes: seq<TreeNode>, j: nat)
    requires IndicesIncrease(nodes) && j < |nodes|
    ensures SlotLeaf(nodes, nodes[j].index) == nodes[j].leaf
  {
    if j > 0 {
      assert nodes[0].index < nodes[j].index;
      SlotLeafOfNode(nodes[1..], j - 1);
    }
  }

  lemma {:induction false} SlotLeafAbsent(nodes: seq<TreeNode>, i: nat)
    requires forall j :: 0 <= j < |nodes| ==> nodes[j].index != i
    ensures SlotLeaf(nodes, i) == 0
  {
    if nodes != [] {
      SlotLeafAbsent(nodes[1..], i);
    }
  }

  /**
   * Proof generation as it should be: over the leaves of every slot, removed ones included,
   * at the node's own slot index. Errors when the node's index is past the given size.
   */
  method GenerateSlotProof(h: LeanImt.Hasher, t: Tree, size: nat, address: nat)
    returns (r: Result<seq<nat>, LeanImt.ProofError>)
    ensures FirstNodeOf(t.nodes, address) == -1 ==> r == Ok([])
    ensures var k := FirstNodeOf(t.nodes, address);
            k >= 0 ==>
              if t.nodes[k].index < size then r == Ok(LeanImt.ProofOf(h, SlotLeaves(t.nodes, size), t.nodes[k].index))
              else r == Err(LeanImt.IndexOutOfBounds(t.nodes[k].index, size))
  {
    var k := FirstNodeOf(t.nodes, address);
    if k == -1 {
      return Ok([]);
    }
    r := LeanImt.GenerateLeanImtProof(h, SlotLeaves(t.nodes, size), t.nodes[k].index);
  }

  /**
   * When the scan's budget of empty slots exceeds the account list, spreading its nodes over
   * the contract's slots gives back the contract's own leaf list, so the corrected proof folds
   * to the contract tree's root.
   */
  lemma {:induction false} ScanRebuildsChainLeaves(h: LeanImt.Hasher, c: Contract, maxAttempts: int, address: nat)
    requires maxAttempts > |c.accounts|
    requires ScanFrom(c, maxAttempts, 0, 0).Ok?
    ensures var nodes := ScanFrom(c, maxAttempts, 0, 0).value;
            SlotLeaves(nodes, |c.accounts|) == ChainLeaves(c)
    ensures var nodes := ScanFrom(c, maxAttempts, 0, 0).value;
            var k := FirstNodeOf(nodes, address);
            k >= 0 ==>
              nodes[k].index < |c.accounts|
              && LeanImt.FoldProof(h, nodes[k].leaf, nodes[k].index, |c.accounts|,
                   LeanImt.ProofOf(h, ChainLeaves(c), nodes[k].index)) == LeanImt.RootOf(h, ChainLeaves(c))
  {
    var nodes := ScanFrom(c, maxAttempts, 0, 0).value;
    ScanSound(c, maxAttempts, 0, 0);
    ScanComplete(c, maxAttempts, 0, 0);
    var chain := ChainLeaves(c);
    forall i | 0 <= i < |c.accounts|
      ensures SlotLeaves(nodes, |c.accounts|)[i] == chain[i]
    {
      SlotMatchesChain(c, nodes, i);
    }
    assert SlotLeaves(nodes, |c.accounts|) == chain;
    var k := FirstNodeOf(nodes, address);
    if k >= 0 {
      assert NodeMatchesSlot(c, nodes[k]);
      SlotLeafOfNode(nodes, k);
      LeanImt.FoldProofIsRoot(h, chain, nodes[k].index);
    }
  }

  /** One slot of a sound and complete scan: its spread-back leaf is the contract's leaf. */
  lemma {:induction false} SlotMatchesChain(c: Contract, nodes: seq<TreeNode>, i: nat)
    requires i < |c.accounts| && IndicesIncrease(nodes)
    requires forall j :: 0 <= j < |nodes| ==> NodeMatchesSlot(c, nodes[j])
    requires c.accounts[i] != 0 ==> exists j :: 0 <= j < |nodes| && nodes[j].index == i
    ensures SlotLeaf(nodes, i) == ChainLeaves(c)[i]
  {
    if c.accounts[i] != 0 {
      var j :| 0 <= j < |nodes| && nodes[j].index == i;
      SlotLeafOfNode(nodes, j);
      assert NodeMatchesSlot(c, nodes[j]);
    } else {
      forall j | 0 <= j < |nodes|
        ensures nodes[j].index != i
      {
        assert NodeMatchesSlot(c, nodes[j]);
      }
      SlotLeafAbsent(nodes, i);
    }
  }
}
