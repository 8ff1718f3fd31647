/**
 * The go-tool census rebuild: every WeightChanged event ever emitted is read from the
 * subgraph, page by page, and replayed in order against an empty lean incremental Merkle
 * tree, so that the rebuilt tree has the on-chain tree's exact shape, including the zero
 * slots that removed accounts leave behind.
 *
 * An event is classified by its previous and new weight:
 *   0 -> positive         insert the new leaf at the next index
 *   positive -> 0         overwrite the slot holding the old leaf with 0 (a tombstone)
 *   positive -> positive  overwrite the slot holding the old leaf with the new leaf
 *   0 -> 0                nothing
 *
 * The event's account arrives already parsed to its 20-byte address (common.HexToAddress
 * is not part of this model). Leaves are packed with the corrected LeafCodec.PackLeaf;
 * the code's int64 cast is modelled separately in LeafCodec.PackLeafAsWritten.
 */
module CensusReplay {
  import opened Wrappers
  import opened Bits
  import Text
  import LeafCodec
  import LeanImt

  const PageSize: nat := 1000

  datatype WeightChangeEvent = WeightChangeEvent(account: nat, previousWeight: string, newWeight: string)

  datatype ReplayError =
    | FetchFailed(skip: nat)
    | InvalidPreviousWeight(event: nat)
    | InvalidNewWeight(event: nat)
    | RemoveNotFound(event: nat, account: nat)
    | UpdateNotFound(event: nat, account: nat)
    | NoRoot

  /** One event applied to the leaf sequence; i is the event's position, reported in errors. */
  function ApplyEvent(leaves: seq<nat>, e: WeightChangeEvent, i: nat): Result<seq<nat>, ReplayError>
  {
    match Text.ParseUint64(e.previousWeight)
    case None => Err(InvalidPreviousWeight(i))
    case Some(prev) =>
      match Text.ParseUint64(e.newWeight)
      case None => Err(InvalidNewWeight(i))
      case Some(next) =>
        var oldLeaf := LeafCodec.PackLeaf(e.account, prev);
        var newLeaf := LeafCodec.PackLeaf(e.account, next);
        if prev == 0 && next > 0 then Ok(leaves + [newLeaf])
        else if next == 0 && prev > 0 then
          var index := LeanImt.IndexOf(leaves, oldLeaf);
          if index == -1 then Err(RemoveNotFound(i, e.account)) else Ok(leaves[index := 0])
        else if prev > 0 && next > 0 then
          var index := LeanImt.IndexOf(leaves, oldLeaf);
          if index == -1 then Err(UpdateNotFound(i, e.account)) else Ok(leaves[index := newLeaf])
        else Ok(leaves)
  }

  /** The events replayed in order from an empty tree; the first failing event decides the error. */
  function Replay(events: seq<WeightChangeEvent>): Result<seq<nat>, ReplayError>
    decreases |events|
  {
    if events == [] then Ok([])
    else
      match Replay(events[..|events| - 1])
      case Err(err) => Err(err)
      case Ok(leaves) => ApplyEvent(leaves, events[|events| - 1], |events| - 1)
  }

  /** ReconstructTree's outcome on a complete event history: the leaves and the root. */
  function Reconstruct(h: LeanImt.Hasher, events: seq<WeightChangeEvent>): Result<(seq<nat>, nat), ReplayError>
  {
    if events == [] then Ok(([], 0))
    else
      match Replay(events)
      case Err(err) => Err(err)
      case Ok(leaves) =>
        match LeanImt.RootOf(h, leaves)
        case None => Err(NoRoot)
        case Some(root) => Ok((leaves, root))
  }

  /** The number of events classified as inserts. */
  function InsertCount(events: seq<WeightChangeEvent>): nat
  {
    if events == [] then 0
    else
      var e := events[|events| - 1];
      InsertCount(events[..|events| - 1]) +
        (if Text.ParseUint64(e.previousWeight) == Some(0)
            && Text.ParseUint64(e.newWeight).Some? && Text.ParseUint64(e.newWeight).value > 0
         then 1 else 0)
  }

  /** An insert appends the new leaf, which is never the zero the tree would refuse. */
  lemma {:induction false} InsertAppends(leaves: seq<nat>, e: WeightChangeEvent, i: nat, next: nat)
    requires Text.ParseUint64(e.previousWeight) == Some(0)
    requires Text.ParseUint64(e.newWeight) == Some(next) && next > 0
    ensures ApplyEvent(leaves, e, i) == Ok(leaves + [LeafCodec.PackLeaf(e.account, next)])
    ensures LeafCodec.PackLeaf(e.account, next) != 0
  {
    LeafCodec.Uint64FitsWeight(next);
    LeafCodec.PackLeafZero(e.account, next);
  }

  /**
   * A removal writes 0 over the first slot holding the old leaf; the size and every other
   * slot stay as they were. Without that leaf in the tree it fails, naming the event.
   */
  lemma {:induction false} RemoveLeavesTombstone(leaves: seq<nat>, e: WeightChangeEvent, i: nat, prev: nat)
    requires Text.ParseUint64(e.previousWeight) == Some(prev) && prev > 0
    requires Text.ParseUint64(e.newWeight) == Some(0)
    ensures var oldLeaf := LeafCodec.PackLeaf(e.account, prev);
            if oldLeaf in leaves then
              ApplyEvent(leaves, e, i).Ok?
              && var r := ApplyEvent(leaves, e, i).value;
                 |r| == |leaves|
                 && exists k :: 0 <= k < |leaves| && leaves[k] == oldLeaf && r[k] == 0
                      && forall j :: 0 <= j < |leaves| && j != k ==> r[j] == leaves[j]
            else ApplyEvent(leaves, e, i) == Err(RemoveNotFound(i, e.account))
  {
    var oldLeaf := LeafCodec.PackLeaf(e.account, prev);
    if oldLeaf in leaves {
      var k := LeanImt.IndexOf(leaves, oldLeaf);
      var r := ApplyEvent(leaves, e, i).value;
      assert r == leaves[k := 0];
      assert leaves[k] == oldLeaf && r[k] == 0;
    }
  }

  /** A weight change with both weights positive replaces the old leaf by the new one in its slot. */
  lemma {:induction false} UpdateInPlace(leaves: seq<nat>, e: WeightChangeEvent, i: nat, prev: nat, next: nat)
    requires Text.ParseUint64(e.previousWeight) == Some(prev) && prev > 0
    requires Text.ParseUint64(e.newWeight) == Some(next) && next > 0
    ensures var oldLeaf := LeafCodec.PackLeaf(e.account, prev);
            var newLeaf := LeafCodec.PackLeaf(e.account, next);
            if oldLeaf in leaves then
              ApplyEvent(leaves, e, i).Ok?
              && var r := ApplyEvent(leaves, e, i).value;
                 |r| == |leaves|
                 && exists k :: 0 <= k < |leaves| && leaves[k] == oldLeaf && r[k] == newLeaf
                      && forall j :: 0 <= j < |leaves| && j != k ==> r[j] == leaves[j]
            else ApplyEvent(leaves, e, i) == Err(UpdateNotFound(i, e.account))
  {
    var oldLeaf := LeafCodec.PackLeaf(e.account, prev);
    if oldLeaf in leaves {
      var k := LeanImt.IndexOf(leaves, oldLeaf);
      var r := ApplyEvent(leaves, e, i).value;
      assert r == leaves[k := LeafCodec.PackLeaf(e.account, next)];
      assert leaves[k] == oldLeaf;
    }
  }

  /** An event whose weights are both 0 leaves the tree as it was. */
  lemma {:induction false} ZeroToZeroIsNoop(leaves: seq<nat>, e: WeightChangeEvent, i: nat)
    requires Text.ParseUint64(e.previousWeight) == Some(0) && Text.ParseUint64(e.newWeight) == Some(0)
    ensures ApplyEvent(leaves, e, i) == Ok(leaves)
  {
  }

  /** A weight that does not parse as a uint64 aborts the replay, naming the event. */
  lemma {:induction false} UnparsableWeightFails(leaves: seq<nat>, e: WeightChangeEvent, i: nat)
    requires Text.ParseUint64(e.previousWeight).None? || Text.ParseUint64(e.newWeight).None?
    ensures ApplyEvent(leaves, e, i) ==
      if Text.ParseUint64(e.previousWeight).None? then Err(InvalidPreviousWeight(i)) else Err(InvalidNewWeight(i))
  {
  }

  lemma {:induction false} ReplayPrefix(events: seq<WeightChangeEvent>, k: nat)
    requires k < |events|
    ensures Replay(events[..k + 1]) ==
      match Replay(events[..k])
      case Err(err) => Err(err)
      case Ok(leaves) => ApplyEvent(leaves, events[k], k)
  {
    assert events[..k + 1][..k] == events[..k];
  }

  /** Once an event fails, the rest of the history is not replayed: the whole replay fails the same way. */
  lemma {:induction false} ErrorPersists(events: seq<WeightChangeEvent>, k: nat)
    requires k <= |events| && Replay(events[..k]).Err?
    ensures Replay(events) == Replay(events[..k])
    decreases |events|
  {
    if k == |events| {
      assert events[..k] == events;
    } else {
      var init := events[..|events| - 1];
      assert init[..k] == events[..k];
      ErrorPersists(init, k);
    }
  }

  /** Slots are never freed: a successful replay leaves exactly one slot per insert event. */
  lemma {:induction false} ReplaySize(events: seq<WeightChangeEvent>)
    requires Replay(events).Ok?
    ensures |Replay(events).value| == InsertCount(events)
    decreases |events|
  {
    if events != [] {
      var init := events[..|events| - 1];
      ReplaySize(init);
      var e := events[|events| - 1];
      var leaves := Replay(init).value;
      match Text.ParseUint64(e.previousWeight)
      case Some(prev) =>
        match Text.ParseUint64(e.newWeight)
        case Some(next) =>
          if prev == 0 && next > 0 {
            InsertAppends(leaves, e, |events| - 1, next);
          }
    }
  }

  /** A history that is not empty but leaves an empty tree (say, only 0 -> 0 events) has no root: an error. */
  lemma {:induction false} NoopHistoryHasNoRoot(h: LeanImt.Hasher, events: seq<WeightChangeEvent>)
    requires events != []
    requires forall k :: 0 <= k < |events| ==>
      Text.ParseUint64(events[k].previousWeight) == Some(0) && Text.ParseUint64(events[k].newWeight) == Some(0)
    ensures Replay(events) == Ok([])
    ensures Reconstruct(h, events) == Err(NoRoot)
    decreases |events|
  {
    var init := events[..|events| - 1];
    if init != [] {
      NoopHistoryHasNoRoot(h, init);
    }
  }

  lemma {:induction false} SmallWeightsParse()
    ensures Text.ParseUint64("0") == Some(0) && Text.ParseUint64("3") == Some(3)
    ensures Text.ParseUint64("5") == Some(5) && Text.ParseUint64("8") == Some(8)
  {
    Pow2Exceeds(64);
    Text.ParseUint64OfDecimal(0);
    Text.ParseUint64OfDecimal(3);
    Text.ParseUint64OfDecimal(5);
    Text.ParseUint64OfDecimal(8);
    assert Text.ToDecimal(0) == "0" && Text.ToDecimal(3) == "3";
    assert Text.ToDecimal(5) == "5" && Text.ToDecimal(8) == "8";
  }

  /** A removal or update of the account whose leaf sits in slot 0. */
  lemma {:induction false} ChangeAtFront(leaves: seq<nat>, e: WeightChangeEvent, i: nat, prev: nat, next: nat)
    requires Text.ParseUint64(e.previousWeight) == Some(prev) && prev > 0
    requires Text.ParseUint64(e.newWeight) == Some(next)
    requires leaves != [] && leaves[0] == LeafCodec.PackLeaf(e.account, prev)
    ensures ApplyEvent(leaves, e, i) == Ok(leaves[0 := if next == 0 then 0 else LeafCodec.PackLeaf(e.account, next)])
  {
    assert LeanImt.IndexOf(leaves, leaves[0]) == 0;
  }

  lemma {:induction false} ReplayStep(events: seq<WeightChangeEvent>, k: nat, before: seq<nat>, after: seq<nat>)
    requires k < |events| && Replay(events[..k]) == Ok(before)
    requires ApplyEvent(before, events[k], k) == Ok(after)
    ensures Replay(events[..k + 1]) == Ok(after)
  {
    ReplayPrefix(events, k);
  }

  /**
   * The history an account goes through in the census: a inserted with weight 5, raised to
   * 8, b inserted with 3, then a removed. The tree keeps a's slot as a zero, so its leaves
   * are [0, leaf(b, 3)] and its root hashes the zero with b's leaf.
   */
  lemma {:induction false} RemovedSlotScenario(h: LeanImt.Hasher, a: nat, b: nat)
    ensures var events := [
              WeightChangeEvent(a, "0", "5"), WeightChangeEvent(a, "5", "8"),
              WeightChangeEvent(b, "0", "3"), WeightChangeEvent(a, "8", "0")];
            Reconstruct(h, events) == Ok(([0, LeafCodec.PackLeaf(b, 3)], h(0, LeafCodec.PackLeaf(b, 3))))
  {
    var events := ScenarioEvents(a, b);
    var lb3 := LeafCodec.PackLeaf(b, 3);
    ScenarioReplays(a, b);
    assert LeanImt.NextLevel(h, [0, lb3]) == [h(0, lb3)];
    assert LeanImt.RootOf(h, [0, lb3]) == Some(h(0, lb3));
  }

  function ScenarioEvents(a: nat, b: nat): seq<WeightChangeEvent>
  {
    [WeightChangeEvent(a, "0", "5"), WeightChangeEvent(a, "5", "8"),
     WeightChangeEvent(b, "0", "3"), WeightChangeEvent(a, "8", "0")]
  }

  lemma {:induction false} ScenarioReplays(a: nat, b: nat)
    ensures Replay(ScenarioEvents(a, b)) == Ok([0, LeafCodec.PackLeaf(b, 3)])
  {
    SmallWeightsParse();
    var events := ScenarioEvents(a, b);
    var la8, lb3 := LeafCodec.PackLeaf(a, 8), LeafCodec.PackLeaf(b, 3);
    ScenarioFirstHalf(a, b);
    InsertAppends([la8], events[2], 2, 3);
    assert [la8] + [lb3] == [la8, lb3];
    ReplayStep(events, 2, [la8], [la8, lb3]);
    ChangeAtFront([la8, lb3], events[3], 3, 8, 0);
    assert [la8, lb3][0 := 0] == [0, lb3];
    ReplayStep(events, 3, [la8, lb3], [0, lb3]);
    assert events[..4] == events;
  }

  lemma {:induction false} ScenarioFirstHalf(a: nat, b: nat)
    ensures Replay(ScenarioEvents(a, b)[..2]) == Ok([LeafCodec.PackLeaf(a, 8)])
  {
    SmallWeightsParse();
    var events := ScenarioEvents(a, b);
    var la5, la8 := LeafCodec.PackLeaf(a, 5), LeafCodec.PackLeaf(a, 8);
    assert events[..0] == [];
    InsertAppends([], events[0], 0, 5);
    assert [] + [la5] == [la5];
    ReplayStep(events, 0, [], [la5]);
    ChangeAtFront([la5], events[1], 1, 5, 8);
    assert [la5][0 := la8] == [la8];
    ReplayStep(events, 1, [la5], [la8]);
  }

  datatype RootError = TreeHasNoRoot | RootMismatch(expected: nat, got: nat)

  /** ValidateRoot: the rebuilt tree must have a root and it must equal the on-chain one. */
  function ValidateRoot(root: Option<nat>, expectedRoot: nat): (r: Result<(), RootError>)
    ensures r.Ok? <==> root == Some(expectedRoot)
    ensures root.None? ==> r == Err(TreeHasNoRoot)
  {
    match root
    case None => Err(TreeHasNoRoot)
    case Some(got) => if got == expectedRoot then Ok(()) else Err(RootMismatch(expectedRoot, got))
  }

  /**
   * An empty history rebuilds to root 0, yet the empty tree itself has no root, so it fails
   * validation even against an on-chain root of 0.
   */
  lemma {:induction false} EmptyHistoryFailsValidation(h: LeanImt.Hasher)
    ensures Reconstruct(h, []) == Ok(([], 0))
    ensures ValidateRoot(LeanImt.RootOf(h, []), 0) == Err(TreeHasNoRoot)
  {
  }

  /** The page the subgraph serves for a skip value, from a fixed event log. */
  function Page(log: seq<WeightChangeEvent>, skip: nat): (page: seq<WeightChangeEvent>)
    ensures |page| <= PageSize
  {
    if skip >= |log| then []
    else if skip + PageSize <= |log| then log[skip..skip + PageSize]
    else log[skip..]
  }

  /**
   * The paging loop of ReconstructTree: pages of 1000 are requested at skip 0, 1000, ...
   * and appended in order, stopping at an empty or short page; a failed request aborts.
   * fetch(skip) stands for the subgraph query, None for a failed request; it is assumed
   * to serve the pages of one fixed log.
   */
  method FetchAllEvents(fetch: nat -> Option<seq<WeightChangeEvent>>, ghost log: seq<WeightChangeEvent>)
    returns (r: Result<seq<WeightChangeEvent>, ReplayError>)
    requires forall skip: nat :: fetch(skip).Some? ==> fetch(skip).value == Page(log, skip)
    ensures r.Ok? ==> r.value == log
    ensures r.Err? ==> r.error.FetchFailed?
    ensures (forall skip: nat :: fetch(skip).Some?) ==> r == Ok(log)
  {
    var allEvents: seq<WeightChangeEvent> := [];
    var skip: nat := 0;
    while true
      invariant skip <= |log| && allEvents == log[..skip]
      decreases |log| - skip
    {
      var response := fetch(skip);
      if response.None? {
        return Err(FetchFailed(skip));
      }
      var events := response.value;
      if |events| == 0 {
        assert allEvents == log;
        break;
      }
      allEvents := allEvents + events;
      if |events| < PageSize {
        assert allEvents == log;
        return Ok(allEvents);
      }
      skip := skip + PageSize;
    }
    return Ok(allEvents);
  }

  /**
   * The replay loop of ReconstructTree against a tree object that starts empty. On success
   * the tree holds the leaves of Replay; otherwise the error is the one Replay reports.
   */
  method ReplayEvents(tree: LeanImt.Tree, events: seq<WeightChangeEvent>) returns (err: Option<ReplayError>)
    requires tree.leaves == []
    modifies tree
    ensures Replay(events) == if err.None? then Ok(tree.leaves) else Err(err.value)
  {
    var i := 0;
    while i < |events|
      invariant i <= |events|
      invariant Replay(events[..i]) == Ok(tree.leaves)
    {
      ReplayPrefix(events, i);
      ghost var before := tree.leaves;
      var e := events[i];
      var prevWeight := Text.ParseUint64(e.previousWeight);
      if prevWeight.None? {
        ErrorPersists(events, i + 1);
        return Some(InvalidPreviousWeight(i));
      }
      var newWeight := Text.ParseUint64(e.newWeight);
      if newWeight.None? {
        ErrorPersists(events, i + 1);
        return Some(InvalidNewWeight(i));
      }
      var prev, next := prevWeight.value, newWeight.value;
      var oldLeaf := LeafCodec.PackLeaf(e.account, prev);
      var newLeaf := LeafCodec.PackLeaf(e.account, next);
      if prev == 0 && next > 0 {
        InsertAppends(tree.leaves, e, i, next);
        // the leaf is not zero, so the tree accepts it
        var _ := tree.Insert(newLeaf);
        assert ApplyEvent(before, e, i) == Ok(tree.leaves);
      } else if next == 0 && prev > 0 {
        var index := tree.IndexOfLeaf(oldLeaf);
        if index == -1 {
          ErrorPersists(events, i + 1);
          return Some(RemoveNotFound(i, e.account));
        }
        // index came from indexOf, so the update is in range
        var _ := tree.Update(index, 0);
        assert ApplyEvent(before, e, i) == Ok(tree.leaves);
      } else if prev > 0 && next > 0 {
        var index := tree.IndexOfLeaf(oldLeaf);
        if index == -1 {
          ErrorPersists(events, i + 1);
          return Some(UpdateNotFound(i, e.account));
        }
        var _ := tree.Update(index, newLeaf);
        assert ApplyEvent(before, e, i) == Ok(tree.leaves);
      }
      i := i + 1;
    }
    assert events[..i] == events;
    return None;
  }

  /**
   * ReconstructTree: fetch the whole history, replay it, and return the tree with its root.
   * Apart from a failed request, the outcome is the one Reconstruct gives for the log;
   * when every page request succeeds, it is exactly that outcome.
   */
  method ReconstructTree(h: LeanImt.Hasher, fetch: nat -> Option<seq<WeightChangeEvent>>, ghost log: seq<WeightChangeEvent>)
    returns (r: Result<(LeanImt.Tree, nat), ReplayError>)
    requires forall skip: nat :: fetch(skip).Some? ==> fetch(skip).value == Page(log, skip)
    ensures (r.Err? && r.error.FetchFailed?)
         || Reconstruct(h, log) == (if r.Ok? then Ok((r.value.0.leaves, r.value.1)) else Err(r.error))
    ensures (forall skip: nat :: fetch(skip).Some?)
         ==> Reconstruct(h, log) == (if r.Ok? then Ok((r.value.0.leaves, r.value.1)) else Err(r.error))
    ensures r.Ok? ==> fresh(r.value.0) && r.value.0.hash == h
  {
    var fetched := FetchAllEvents(fetch, log);
    if fetched.Err? {
      return Err(fetched.error);
    }
    var allEvents := fetched.value;
    var tree := new LeanImt.Tree(h);
    if |allEvents| == 0 {
      return Ok((tree, 0));
    }
    var err := ReplayEvents(tree, allEvents);
    if err.Some? {
      return Err(err.value);
    }
    var root := tree.Root();
    if root.None? {
      return Err(NoRoot);
    }
    return Ok((tree, root.value));
  }
}
