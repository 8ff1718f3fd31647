/**
 * The census data the web app rebuilds from the subgraph's accounts: the accounts sorted
 * into the order the contract inserted them (by the block of their first insertion, then
 * by id), each becoming a census node at its position with its packed leaf.
 */
module CensusFetch {
  import opened Wrappers
  import Text
  import Sorting
  import MerkleProofs

  /** An account as the subgraph returns it, its numeric fields already read as integers. */
  datatype SubgraphAccount = SubgraphAccount(id: string, weight: nat, firstInsertedBlock: nat)

  /** The sort's comparator: earlier first insertion first, then the smaller id. */
  predicate InsertionOrder(a: SubgraphAccount, b: SubgraphAccount)
  {
    a.firstInsertedBlock < b.firstInsertedBlock
    || (a.firstInsertedBlock == b.firstInsertedBlock && Text.LexLe(a.id, b.id))
  }

  lemma {:induction false} InsertionOrderIsTotalPreorder()
    ensures Sorting.TotalPreorder(InsertionOrder)
  {
    forall a: SubgraphAccount, b: SubgraphAccount
      ensures InsertionOrder(a, b) || InsertionOrder(b, a)
    {
      Text.LexLeTotal(a.id, b.id);
    }
    forall a: SubgraphAccount, b: SubgraphAccount, c: SubgraphAccount | InsertionOrder(a, b) && InsertionOrder(b, c)
      ensures InsertionOrder(a, c)
    {
      if a.firstInsertedBlock == b.firstInsertedBlock == c.firstInsertedBlock {
        Text.LexLeTransitive(a.id, b.id, c.id);
      }
    }
  }

  /** Two accounts the comparator ties on have the same block and the same id. */
  lemma {:induction false} InsertionOrderTies(a: SubgraphAccount, b: SubgraphAccount)
    requires InsertionOrder(a, b) && InsertionOrder(b, a)
    ensures a.firstInsertedBlock == b.firstInsertedBlock && a.id == b.id
  {
    Text.LexLeAntisymmetric(a.id, b.id);
  }

  /** The accounts' positions become node indices; None where packLeaf throws on an id. */
  function Nodes(sorted: seq<SubgraphAccount>): (r: Option<seq<MerkleProofs.CensusNode>>)
    ensures r.Some? <==> forall i :: 0 <= i < |sorted| ==> Text.ParsePrefixedHex(sorted[i].id).Some?
    ensures r.Some? ==>
              |r.value| == |sorted|
              && forall i :: 0 <= i < |sorted| ==>
                   MerkleProofs.PackLeaf(sorted[i].id, sorted[i].weight).Some?
                   && r.value[i] == MerkleProofs.CensusNode(i, sorted[i].id, sorted[i].weight,
                                                           MerkleProofs.PackLeaf(sorted[i].id, sorted[i].weight).value)
  {
    if sorted == [] then Some([])
    else
      var init := sorted[..|sorted| - 1];
      var account := sorted[|sorted| - 1];
      assert forall i :: 0 <= i < |init| ==> init[i] == sorted[i];
      match Nodes(init)
      case None => None
      case Some(nodes) =>
        match MerkleProofs.PackLeaf(account.id, account.weight)
        case None => None
        case Some(leaf) => Some(nodes + [MerkleProofs.CensusNode(|init|, account.id, account.weight, leaf)])
  }

  /** The sort and map of fetchCensusDataFromSubgraph, once every page has been read. */
  function CensusNodes(accounts: seq<SubgraphAccount>): Option<seq<MerkleProofs.CensusNode>>
  {
    Nodes(Sorting.SortBy(InsertionOrder, accounts))
  }

  /**
   * The sort keeps every account and orders them by first-insertion block and, within a
   * block, by id.
   */
  lemma {:induction false} CensusOrder(accounts: seq<SubgraphAccount>)
    ensures var sorted := Sorting.SortBy(InsertionOrder, accounts);
            multiset(sorted) == multiset(accounts)
            && Sorting.SortedBy(InsertionOrder, sorted)
            && (forall i, j :: 0 <= i < j < |sorted| ==> sorted[i].firstInsertedBlock <= sorted[j].firstInsertedBlock)
  {
    InsertionOrderIsTotalPreorder();
    Sorting.SortByIsSorted(InsertionOrder, accounts);
  }

  /**
   * The nodes exist exactly when every id is a hex address. They then hold every account
   * once, at consecutive indices from 0, in the sorted order; each node's leaf is the
   * account's packed leaf.
   */
  lemma {:induction false} CensusNodesMeaning(accounts: seq<SubgraphAccount>)
    ensures CensusNodes(accounts).Some? <==>
              forall i :: 0 <= i < |accounts| ==> Text.ParsePrefixedHex(accounts[i].id).Some?
    ensures var sorted := Sorting.SortBy(InsertionOrder, accounts);
            CensusNodes(accounts).Some? ==>
              var nodes := CensusNodes(accounts).value;
              |nodes| == |accounts|
              && forall i :: 0 <= i < |nodes| ==>
                   nodes[i].index == i && nodes[i].address == sorted[i].id && nodes[i].weight == sorted[i].weight
                   && MerkleProofs.PackLeaf(sorted[i].id, sorted[i].weight) == Some(nodes[i].leaf)
  {
    var sorted := Sorting.SortBy(InsertionOrder, accounts);
    CensusOrder(accounts);
    AllIdsParse(sorted, accounts);
  }

  predicate IdParses(a: SubgraphAccount)
  {
    Text.ParsePrefixedHex(a.id).Some?
  }

  /** Two lists holding the same accounts either both have only hex ids or both do not. */
  lemma {:induction false} AllIdsParse(xs: seq<SubgraphAccount>, ys: seq<SubgraphAccount>)
    requires multiset(xs) == multiset(ys)
    ensures (forall i :: 0 <= i < |xs| ==> IdParses(xs[i])) <==> (forall i :: 0 <= i < |ys| ==> IdParses(ys[i]))
  {
    if forall i :: 0 <= i < |ys| ==> IdParses(ys[i]) {
      forall i | 0 <= i < |xs|
        ensures IdParses(xs[i])
      {
        assert xs[i] in multiset(ys);
        var j :| 0 <= j < |ys| && ys[j] == xs[i];
      }
    }
    if forall i :: 0 <= i < |xs| ==> IdParses(xs[i]) {
      forall j | 0 <= j < |ys|
        ensures IdParses(ys[j])
      {
        assert ys[j] in multiset(xs);
        var i :| 0 <= i < |xs| && xs[i] == ys[j];
      }
    }
  }
}
