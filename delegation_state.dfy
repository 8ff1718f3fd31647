/**
 * The web app's delegation state: the delegates of the connected account with their
 * current and pending token counts, and the reducers the delegation screen applies to it.
 * A JavaScript Map keeps insertion order, so the delegates are a sequence of entries with
 * distinct addresses; setting an entry replaces it in place or appends it.
 */
module DelegationState {
  import opened Wrappers

  datatype DelegateInfo = DelegateInfo(address: string, currentTokens: seq<string>, pendingTokens: seq<string>,
                                       currentCount: nat, pendingCount: nat, weight: nat)

  datatype DelegationState = DelegationState(ownedTokens: seq<(nat, seq<string>)>,
                                             delegates: seq<DelegateInfo>,
                                             availableTokens: map<nat, nat>,
                                             collectionAddresses: map<nat, string>,
                                             totalOwnedTokens: nat,
                                             totalDelegatedTokens: nat)

  predicate UniqueAddresses(ds: seq<DelegateInfo>)
  {
    forall i, j :: 0 <= i < j < |ds| ==> ds[i].address != ds[j].address
  }

  /** `delegates.get(address)`: the position of the entry for address, if any. */
  function Find(ds: seq<DelegateInfo>, address: string): (r: Option<nat>)
    ensures r.None? <==> forall i :: 0 <= i < |ds| ==> ds[i].address != address
    ensures r.Some? ==> r.value < |ds| && ds[r.value].address == address
  {
    if ds == [] then None
    else if ds[|ds| - 1].address == address then Some(|ds| - 1)
    else Find(ds[..|ds| - 1], address)
  }

  /** The entry Find locates is the only one with that address. */
  lemma {:induction false} FindUnique(ds: seq<DelegateInfo>, address: string, i: nat)
    requires UniqueAddresses(ds) && i < |ds| && ds[i].address == address
    ensures Find(ds, address) == Some(i)
  {
  }

  /** `delegates.set(d.address, d)`: replaces the entry for that address in place, or appends one. */
  function Put(ds: seq<DelegateInfo>, d: DelegateInfo): (r: seq<DelegateInfo>)
    ensures UniqueAddresses(ds) ==> UniqueAddresses(r)
    ensures Find(ds, d.address).Some? ==> r == ds[Find(ds, d.address).value := d]
    ensures Find(ds, d.address).None? ==> r == ds + [d]
  {
    match Find(ds, d.address)
    case Some(i) => ds[i := d]
    case None => ds + [d]
  }

  /** addDelegate: nothing changes for a known address; otherwise a delegate with one pending token joins at the end. */
  function AddDelegate(st: DelegationState, address: string): (r: DelegationState)
    ensures Find(st.delegates, address).Some? ==> r == st
    ensures Find(st.delegates, address).None? ==>
              r == st.(delegates := st.delegates + [DelegateInfo(address, [], [], 0, 1, 0)])
    ensures UniqueAddresses(st.delegates) ==> UniqueAddresses(r.delegates)
  {
    if Find(st.delegates, address).Some? then st
    else st.(delegates := Put(st.delegates, DelegateInfo(address, [], [], 0, 1, 0)))
  }

  /**
   * removeDelegate: the delegate's pending count drops to 0 and its pending tokens are
   * cleared; its current count and every other delegate are untouched.
   */
  function RemoveDelegate(st: DelegationState, address: string): (r: DelegationState)
    ensures Find(st.delegates, address).None? ==> r == st
    ensures Find(st.delegates, address).Some? ==>
              var i := Find(st.delegates, address).value;
              |r.delegates| == |st.delegates|
              && r.delegates[i].pendingCount == 0 && r.delegates[i].pendingTokens == []
              && r.delegates[i].currentCount == st.delegates[i].currentCount
              && r.delegates[i].currentTokens == st.delegates[i].currentTokens
              && (forall j :: 0 <= j < |r.delegates| && j != i ==> r.delegates[j] == st.delegates[j])
              && r.(delegates := st.delegates) == st
  {
    match Find(st.delegates, address)
    case None => st
    case Some(i) =>
      var d := st.delegates[i];
      st.(delegates := Put(st.delegates, d.(pendingCount := 0, pendingTokens := [])))
  }

  /** The increase over its current count that a delegate has pending, never negative. */
  function PendingIncrease(d: DelegateInfo): nat
  {
    if d.pendingCount > d.currentCount then d.pendingCount - d.currentCount else 0
  }

  /** The pending increases of every delegate but the one at address. */
  function PendingToOthers(ds: seq<DelegateInfo>, address: string): nat
  {
    if ds == [] then 0
    else
      var d := ds[|ds| - 1];
      PendingToOthers(ds[..|ds| - 1], address) + (if d.address != address then PendingIncrease(d) else 0)
  }

  /** The summing loop of updateDelegateCount. */
  method SumPendingToOthers(ds: seq<DelegateInfo>, address: string) returns (total: nat)
    ensures total == PendingToOthers(ds, address)
  {
    total := 0;
    var i := 0;
    while i < |ds|
      invariant i <= |ds|
      invariant total == PendingToOthers(ds[..i], address)
    {
      assert ds[..i + 1][..i] == ds[..i];
      var other := ds[i];
      if other.address != address {
        var otherPendingIncrease := if other.pendingCount - other.currentCount > 0 then other.pendingCount - other.currentCount else 0;
        total := total + otherPendingIncrease;
      }
      i := i + 1;
    }
    assert ds[..i] == ds;
  }

  /**
   * The most tokens a delegate may have pending: the undelegated tokens, less what the
   * others have pending as increases, plus what this delegate holds now; never negative.
   */
  function MaxPossible(st: DelegationState, d: DelegateInfo): nat
  {
    var effective := st.totalOwnedTokens - st.totalDelegatedTokens - PendingToOthers(st.delegates, d.address) + d.currentCount;
    if effective > 0 then effective else 0
  }

  /**
   * updateDelegateCount: the delegate's pending count becomes the requested count clamped
   * to [0, MaxPossible]; every other delegate and every other field is untouched.
   */
  method UpdateDelegateCount(st: DelegationState, address: string, newCount: int) returns (r: DelegationState)
    ensures Find(st.delegates, address).None? ==> r == st
    ensures Find(st.delegates, address).Some? ==>
              var i := Find(st.delegates, address).value;
              var d := st.delegates[i];
              var m := MaxPossible(st, d);
              |r.delegates| == |st.delegates|
              && r == st.(delegates := st.delegates[i := d.(pendingCount := r.delegates[i].pendingCount)])
              && r.delegates[i].pendingCount <= m
              && (0 <= newCount <= m ==> r.delegates[i].pendingCount == newCount)
              && (newCount > m ==> r.delegates[i].pendingCount == m)
              && (newCount < 0 ==> r.delegates[i].pendingCount == 0)
  {
    var found := Find(st.delegates, address);
    if found.None? {
      return st;
    }
    var delegate := st.delegates[found.value];
    var totalAvailable := st.totalOwnedTokens - st.totalDelegatedTokens;
    var currentlyAllocated := delegate.currentCount;
    var totalPendingToOthers := SumPendingToOthers(st.delegates, address);
    var effectiveAvailable := totalAvailable - totalPendingToOthers + currentlyAllocated;
    var maxPossible := if effectiveAvailable > 0 then effectiveAvailable else 0;
    var lower := if newCount < maxPossible then newCount else maxPossible;
    var clampedCount := if lower > 0 then lower else 0;
    r := st.(delegates := Put(st.delegates, delegate.(pendingCount := clampedCount)));
  }

  /** The plan's selection of delegates: those whose pending count differs from the current one. */
  predicate Changed(d: DelegateInfo)
  {
    d.currentCount != d.pendingCount
  }

  /** hasPendingChanges: whether some delegate's pending count differs from its current count. */
  function HasPendingChanges(ds: seq<DelegateInfo>): (r: bool)
    ensures r <==> exists i :: 0 <= i < |ds| && Changed(ds[i])
  {
    if ds == [] then false else Changed(ds[0]) || HasPendingChanges(ds[1..])
  }

  /**
   * resetPendingChanges: a new Map with every delegate, in the same order, set back to
   * its current count and current tokens.
   */
  method ResetPendingChanges(st: DelegationState) returns (r: DelegationState)
    ensures r.(delegates := st.delegates) == st
    ensures |r.delegates| == |st.delegates|
    ensures forall i :: 0 <= i < |r.delegates| ==>
              r.delegates[i] == st.delegates[i].(pendingCount := st.delegates[i].currentCount,
                                                  pendingTokens := st.delegates[i].currentTokens)
  {
    var newDelegates: seq<DelegateInfo> := [];
    var i := 0;
    while i < |st.delegates|
      invariant i <= |st.delegates|
      invariant |newDelegates| == i
      invariant forall j :: 0 <= j < i ==>
                  newDelegates[j] == st.delegates[j].(pendingCount := st.delegates[j].currentCount,
                                                      pendingTokens := st.delegates[j].currentTokens)
    {
      var delegate := st.delegates[i];
      newDelegates := newDelegates + [delegate.(pendingCount := delegate.currentCount, pendingTokens := delegate.currentTokens)];
      i := i + 1;
    }
    r := st.(delegates := newDelegates);
  }

  /** After a reset, no change is pending, and adding a delegate makes one pending. */
  lemma {:induction false} ResetClearsPendingChanges(st: DelegationState, r: DelegationState, address: string)
    requires |r.delegates| == |st.delegates|
    requires forall i :: 0 <= i < |r.delegates| ==>
               r.delegates[i] == st.delegates[i].(pendingCount := st.delegates[i].currentCount,
                                                   pendingTokens := st.delegates[i].currentTokens)
    ensures !HasPendingChanges(r.delegates)
    ensures Find(r.delegates, address).None? ==> HasPendingChanges(AddDelegate(r, address).delegates)
  {
    if Find(r.delegates, address).None? {
      var added := AddDelegate(r, address).delegates;
      assert Changed(added[|added| - 1]);
    }
  }

  datatype OperationType = Delegate | Undelegate

  /** One operation of a transaction plan; the token ids of a delegation are placeholders filled in later. */
  datatype Operation = Operation(id: string, opType: OperationType, collectionIndex: nat,
                                 tokenIds: seq<string>, target: string)

  datatype TransactionPlan = TransactionPlan(operations: seq<Operation>, requiresProofs: bool)

  function Placeholders(n: nat): (r: seq<string>)
    ensures |r| == n
  {
    if n == 0 then [] else Placeholders(n - 1) + [""]
  }

  /** The collection the plan uses: the first owned collection with a token, else 0. */
  function ActiveCollection(ownedTokens: seq<(nat, seq<string>)>): nat
  {
    if ownedTokens == [] then 0
    else if |ownedTokens[0].1| > 0 then ownedTokens[0].0
    else ActiveCollection(ownedTokens[1..])
  }

  /**
   * The operation calculateTransactionPlan emits for a delegate: none without a change;
   * undelegate all current tokens when the pending count is 0; delegate the pending count
   * to a delegate with none; otherwise delegate or undelegate the difference.
   */
  function Classify(d: DelegateInfo, collection: nat): Option<Operation>
  {
    if !Changed(d) then None
    else if d.pendingCount == 0 && d.currentCount > 0 then
      Some(Operation("undelegate-" + d.address, Undelegate, collection, d.currentTokens, d.address))
    else if d.currentCount == 0 && d.pendingCount > 0 then
      Some(Operation("delegate-" + d.address, Delegate, collection, Placeholders(d.pendingCount), d.address))
    else if d.pendingCount > d.currentCount then
      Some(Operation("delegate-increase-" + d.address, Delegate, collection,
                     Placeholders(d.pendingCount - d.currentCount), d.address))
    else
      Some(Operation("undelegate-partial-" + d.address, Undelegate, collection,
                     Placeholders(d.currentCount - d.pendingCount), d.address))
  }

  /** The operations for a list of delegates, in delegate order. */
  function Operations(ds: seq<DelegateInfo>, collection: nat): seq<Operation>
  {
    if ds == [] then []
    else
      var init := Operations(ds[..|ds| - 1], collection);
      match Classify(ds[|ds| - 1], collection)
      case None => init
      case Some(op) => init + [op]
  }

  /** A delegate is consistent when it holds as many current tokens as its current count says. */
  predicate Consistent(d: DelegateInfo)
  {
    |d.currentTokens| == d.currentCount
  }

  /** The change an operation makes to its target's token count. */
  function SignedAmount(op: Operation): int
  {
    if op.opType == Delegate then |op.tokenIds| else -|op.tokenIds|
  }

  /**
   * A delegate gets an operation exactly when its counts differ, the operation targets it,
   * and carrying the operation out moves a consistent delegate from its current count to
   * its pending count.
   */
  lemma {:induction false} ClassifyMovesToPending(d: DelegateInfo, collection: nat)
    ensures Classify(d, collection).Some? <==> Changed(d)
    ensures Classify(d, collection).Some? ==>
              var op := Classify(d, collection).value;
              op.target == d.address && op.collectionIndex == collection
              && (Consistent(d) ==> d.currentCount + SignedAmount(op) == d.pendingCount)
  {
  }

  /** The number of delegates with a change. */
  function ChangedCount(ds: seq<DelegateInfo>): nat
  {
    if ds == [] then 0 else ChangedCount(ds[..|ds| - 1]) + (if Changed(ds[|ds| - 1]) then 1 else 0)
  }

  /** One operation per changed delegate, and none for the others. */
  lemma {:induction false} OnePerChange(ds: seq<DelegateInfo>, collection: nat)
    ensures |Operations(ds, collection)| == ChangedCount(ds)
    ensures ChangedCount(ds) == 0 <==> !HasPendingChanges(ds)
  {
    if ds != [] {
      var init := ds[..|ds| - 1];
      OnePerChange(init, collection);
      ClassifyMovesToPending(ds[|ds| - 1], collection);
      assert ds == init + [ds[|ds| - 1]];
      if !HasPendingChanges(init) && !Changed(ds[|ds| - 1]) {
        forall i | 0 <= i < |ds|
          ensures !Changed(ds[i])
        {
          if i < |ds| - 1 {
            assert ds[i] == init[i];
          }
        }
      }
    }
  }

  /** Whether a delegate with a change needs a proof: it holds weight now and keeps some. */
  function NeedsProofs(ds: seq<DelegateInfo>, weightOf: string -> nat): (r: bool)
    ensures r <==> exists i :: 0 <= i < |ds| && Changed(ds[i]) && weightOf(ds[i].address) > 0 && ds[i].pendingCount > 0
  {
    if ds == [] then false
    else
      var d := ds[|ds| - 1];
      NeedsProofs(ds[..|ds| - 1], weightOf) || (Changed(d) && weightOf(d.address) > 0 && d.pendingCount > 0)
  }

  /**
   * calculateTransactionPlan: an empty plan without a contract; otherwise one operation per
   * changed delegate, in delegate order, and whether any of them needs a proof. The
   * contract's getWeightOf is the parameter weightOf.
   */
  method CalculateTransactionPlan(st: DelegationState, hasContract: bool, weightOf: string -> nat)
    returns (plan: TransactionPlan)
    ensures !hasContract ==> plan == TransactionPlan([], false)
    ensures hasContract ==>
              plan.operations == Operations(st.delegates, ActiveCollection(st.ownedTokens))
              && plan.requiresProofs == NeedsProofs(st.delegates, weightOf)
  {
    if !hasContract {
      return TransactionPlan([], false);
    }
    var activeCollectionIndex := ActiveCollection(st.ownedTokens);
    var operations: seq<Operation> := [];
    var needsProof := false;
    var i := 0;
    while i < |st.delegates|
      invariant i <= |st.delegates|
      invariant operations == Operations(st.delegates[..i], activeCollectionIndex)
      invariant needsProof == NeedsProofs(st.delegates[..i], weightOf)
    {
      assert st.delegates[..i + 1][..i] == st.delegates[..i];
      var delegate := st.delegates[i];
      if delegate.currentCount != delegate.pendingCount {
        needsProof := needsProof || (weightOf(delegate.address) > 0 && delegate.pendingCount > 0);
        var op := Classify(delegate, activeCollectionIndex);
        operations := operations + [op.value];
      }
      i := i + 1;
    }
    assert st.delegates[..i] == st.delegates;
    return TransactionPlan(operations, needsProof);
  }
}
