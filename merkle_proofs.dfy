/**
 * The web app's proof lookup for a replayed census tree: for each requested address, the
 * census node filed under it (compared case-insensitively), its leaf's position in the
 * tree and that position's proof, rendered as decimal strings.
 */
module MerkleProofs {
  import opened Wrappers
  import Text
  import LeafCodec
  import LeanImt
  import CensusTreeTs

  /**
   * packLeaf: the decimal string of `(BigInt(address) << 88n) | BigInt(weight)`, or None
   * where BigInt throws on the address. There is no field check here.
   */
  function PackLeaf(address: string, weight: nat): (r: Option<string>)
    ensures r.Some? <==> Text.ParsePrefixedHex(address).Some?
    ensures r.Some? ==> Text.AllDigits(r.value)
                        && Text.DecimalValue(r.value) == LeafCodec.PackLeaf(Text.ParsePrefixedHex(address).value, weight)
  {
    match Text.ParsePrefixedHex(address)
    case None => None
    case Some(a) =>
      Text.DecimalRoundTrip(LeafCodec.PackLeaf(a, weight));
      Some(Text.ToDecimal(LeafCodec.PackLeaf(a, weight)))
  }

  /** Where the census tree helper's packLeaf succeeds, this one renders the same leaf in decimal. */
  lemma {:induction false} PackLeafAgreesWithCensusTree(address: string, weight: nat)
    requires CensusTreeTs.PackLeaf(address, weight).Ok?
    ensures PackLeaf(address, weight) == Some(Text.ToDecimal(CensusTreeTs.PackLeaf(address, weight).value))
  {
  }

  /** A node of the census data: its slot index, address, weight and leaf as a decimal string. */
  datatype CensusNode = CensusNode(index: nat, address: string, weight: nat, leaf: string)

  datatype ProofsError = InvalidLeaf(leaf: string)

  predicate Matches(node: CensusNode, address: string)
  {
    Text.ToLower(node.address) == Text.ToLower(address)
  }

  /** `nodes.find(...)`: the position of the first node whose address matches, ignoring case. */
  function FindNode(nodes: seq<CensusNode>, address: string): (r: Option<nat>)
    ensures r.Some? <==> exists i :: 0 <= i < |nodes| && Matches(nodes[i], address)
    ensures r.Some? ==> r.value < |nodes| && Matches(nodes[r.value], address)
                        && forall j :: 0 <= j < r.value ==> !Matches(nodes[j], address)
  {
    if nodes == [] then None
    else if Matches(nodes[0], address) then Some(0)
    else
      match FindNode(nodes[1..], address)
      case None => None
      case Some(k) =>
        assert forall j :: 1 <= j < k + 1 ==> nodes[j] == nodes[1..][j - 1];
        Some(k + 1)
  }

  /**
   * A leaf string packLeaf wrote reads back, under `BigInt(node.leaf)`, as the packed leaf;
   * any other form BigInt accepts is read as Text.BigIntOf says.
   */
  lemma {:induction false} PackedLeafParses(address: string, weight: nat)
    requires PackLeaf(address, weight).Some?
    ensures Text.BigIntOf(PackLeaf(address, weight).value)
              == Some(LeafCodec.PackLeaf(Text.ParsePrefixedHex(address).value, weight))
  {
    Text.BigIntOfDecimal(LeafCodec.PackLeaf(Text.ParsePrefixedHex(address).value, weight));
  }

  /** `tree.indexOf(leaf)`: no slot holds a negative value. */
  function IndexOfValue(leaves: seq<nat>, leaf: int): (r: int)
    ensures -1 <= r < |leaves|
    ensures r == -1 <==> leaf !in leaves
    ensures r >= 0 ==> leaves[r] == leaf && leaf !in leaves[..r]
  {
    if leaf < 0 then -1 else LeanImt.IndexOf(leaves, leaf)
  }

  /** The siblings converted with `toString()`, in the same order. */
  function Decimals(s: seq<nat>): (r: seq<string>)
    ensures |r| == |s|
    ensures forall i :: 0 <= i < |r| ==> Text.AllDigits(r[i]) && Text.DecimalValue(r[i]) == s[i]
  {
    if s == [] then []
    else
      Text.DecimalRoundTrip(s[0]);
      [Text.ToDecimal(s[0])] + Decimals(s[1..])
  }

  /**
   * What generateProofs records for one address: nothing when no node matches or the
   * node's leaf is not in the tree, the leaf's proof in decimal otherwise, and an error
   * where BigInt throws on the node's leaf.
   */
  function EntryFor(h: LeanImt.Hasher, leaves: seq<nat>, nodes: seq<CensusNode>, address: string)
    : Result<Option<seq<string>>, ProofsError>
  {
    match FindNode(nodes, address)
    case None => Ok(None)
    case Some(i) =>
      match Text.BigIntOf(nodes[i].leaf)
      case None => Err(InvalidLeaf(nodes[i].leaf))
      case Some(leaf) =>
        var index := IndexOfValue(leaves, leaf);
        if index == -1 then Ok(None) else Ok(Some(Decimals(LeanImt.ProofOf(h, leaves, index))))
  }

  /**
   * An entry is present exactly when a node matches and its leaf is in the tree; the
   * decimal siblings, read back, fold from that leaf at its first position to the root.
   */
  lemma {:induction false} EntryFoldsToRoot(h: LeanImt.Hasher, leaves: seq<nat>, nodes: seq<CensusNode>, address: string)
    requires EntryFor(h, leaves, nodes, address).Ok?
    ensures var e := EntryFor(h, leaves, nodes, address).value;
            e.Some? <==> (FindNode(nodes, address).Some?
                          && Text.BigIntOf(nodes[FindNode(nodes, address).value].leaf).value in leaves)
    ensures var e := EntryFor(h, leaves, nodes, address).value;
            e.Some? ==>
              var leaf := Text.BigIntOf(nodes[FindNode(nodes, address).value].leaf).value;
              var index := IndexOfValue(leaves, leaf);
              var siblings := seq(|e.value|, i requires 0 <= i < |e.value| => Text.DecimalValue(e.value[i]));
              0 <= index && LeanImt.FoldProof(h, leaf, index, |leaves|, siblings) == LeanImt.RootOf(h, leaves)
  {
    var e := EntryFor(h, leaves, nodes, address).value;
    if e.Some? {
      var leaf := Text.BigIntOf(nodes[FindNode(nodes, address).value].leaf).value;
      var index := IndexOfValue(leaves, leaf);
      var siblings := seq(|e.value|, i requires 0 <= i < |e.value| => Text.DecimalValue(e.value[i]));
      assert siblings == LeanImt.ProofOf(h, leaves, index);
      LeanImt.FoldProofIsRoot(h, leaves, index);
    }
  }

  /**
   * What generateProofs has gathered after the addresses `done`, each looked up with
   * `entries`: every one of them had an entry or none, and `proofs` holds exactly the
   * entries found, each under its own address.
   */
  ghost predicate Gathered(entries: string -> Result<Option<seq<string>>, ProofsError>, done: seq<string>,
                           proofs: map<string, seq<string>>)
  {
    && (forall i :: 0 <= i < |done| ==> entries(done[i]).Ok?)
    && (forall address :: address in proofs <==> address in done && entries(address) != Ok(None))
    && (forall address :: address in proofs ==> entries(address) == Ok(Some(proofs[address])))
  }

  /** The lookup generateProofs makes for each address, as a function value. */
  ghost function Lookups(h: LeanImt.Hasher, leaves: seq<nat>, nodes: seq<CensusNode>)
    : string -> Result<Option<seq<string>>, ProofsError>
  {
    address => EntryFor(h, leaves, nodes, address)
  }

  /** Gathering every address, spelled out entry by entry. */
  lemma GatheredAll(h: LeanImt.Hasher, leaves: seq<nat>, nodes: seq<CensusNode>, addresses: seq<string>,
                    proofs: map<string, seq<string>>)
    requires Gathered(Lookups(h, leaves, nodes), addresses, proofs)
    ensures forall i :: 0 <= i < |addresses| ==> EntryFor(h, leaves, nodes, addresses[i]).Ok?
    ensures forall address :: address in proofs <==>
              address in addresses && EntryFor(h, leaves, nodes, address) != Ok(None)
    ensures forall address :: address in proofs ==> EntryFor(h, leaves, nodes, address) == Ok(Some(proofs[address]))
  {
    var entries := Lookups(h, leaves, nodes);
    forall address ensures entries(address) == EntryFor(h, leaves, nodes, address) {
    }
  }

  /** One more address with an entry, or none, keeps what was gathered. */
  lemma GatherOne(entries: string -> Result<Option<seq<string>>, ProofsError>, done: seq<string>,
                  proofs: map<string, seq<string>>, address: string)
    requires Gathered(entries, done, proofs)
    requires entries(address).Ok?
    ensures var entry := entries(address).value;
            Gathered(entries, done + [address], if entry.Some? then proofs[address := entry.value] else proofs)
  {
    forall x ensures x in done + [address] <==> x in done || x == address {
    }
  }

  /**
   * generateProofs: one pass over the requested addresses. An address with an entry gets
   * it under its own spelling; the others are left out without an error. The first
   * address, in the given order, whose leaf does not parse decides the error.
   */
  method GenerateProofs(tree: LeanImt.Tree, nodes: seq<CensusNode>, addresses: seq<string>)
    returns (r: Result<map<string, seq<string>>, ProofsError>)
    ensures r.Ok? <==> forall i :: 0 <= i < |addresses| ==> EntryFor(tree.hash, tree.leaves, nodes, addresses[i]).Ok?
    ensures r.Err? ==> exists i :: 0 <= i < |addresses| && EntryFor(tree.hash, tree.leaves, nodes, addresses[i]) == Err(r.error)
                                 && forall j :: 0 <= j < i ==> EntryFor(tree.hash, tree.leaves, nodes, addresses[j]).Ok?
    ensures r.Ok? ==> forall address :: address in r.value <==>
                        address in addresses && EntryFor(tree.hash, tree.leaves, nodes, address) != Ok(None)
    ensures r.Ok? ==> forall address :: address in r.value ==>
                        EntryFor(tree.hash, tree.leaves, nodes, address) == Ok(Some(r.value[address]))
  {
    ghost var entries := Lookups(tree.hash, tree.leaves, nodes);
    var proofs: map<string, seq<string>> := map[];
    var k := 0;
    while k < |addresses|
      invariant k <= |addresses|
      invariant Gathered(entries, addresses[..k], proofs)
    {
      var address := addresses[k];
      var entry := LookUp(tree, nodes, address);
      if entry.Err? {
        forall j | 0 <= j < k
          ensures EntryFor(tree.hash, tree.leaves, nodes, addresses[j]).Ok?
        {
          assert addresses[..k][j] == addresses[j];
        }
        return Err(entry.error);
      }
      GatherOne(entries, addresses[..k], proofs, address);
      assert addresses[..k + 1] == addresses[..k] + [address];
      if entry.value.Some? {
        proofs := proofs[address := entry.value.value];
      }
      k := k + 1;
    }
    assert addresses[..k] == addresses;
    GatheredAll(tree.hash, tree.leaves, nodes, addresses, proofs);
    return Ok(proofs);
  }

  /** The body of generateProofs' loop for one address. */
  method LookUp(tree: LeanImt.Tree, nodes: seq<CensusNode>, address: string)
    returns (entry: Result<Option<seq<string>>, ProofsError>)
    ensures entry == EntryFor(tree.hash, tree.leaves, nodes, address)
  {
    var found := FindNode(nodes, address);
    if found.None? {
      return Ok(None);
    }
    var node := nodes[found.value];
    var leafBigInt := Text.BigIntOf(node.leaf);
    if leafBigInt.None? {
      return Err(InvalidLeaf(node.leaf));
    }
    var leafIndex := -1;
    if leafBigInt.value >= 0 {
      leafIndex := tree.IndexOfLeaf(leafBigInt.value);
    }
    if leafIndex == -1 {
      return Ok(None);
    }
    var proof := tree.GenerateProof(leafIndex);
    return Ok(Some(Decimals(proof)));
  }
}
