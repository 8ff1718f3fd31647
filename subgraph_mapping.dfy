/**
 * The subgraph indexer's handlers for the census contract's Pledged and CensusRootUpdated
 * events. The entity store is a set of maps keyed by entity id; a handler loads entities,
 * changes their fields and saves them. The handlers hand out tree indices and count
 * pledges: every first pledge takes the next tree index and records a weight change from
 * the account's prior weight to 1, the event the census rebuild replays.
 */
module SubgraphMapping {
  import opened Wrappers
  
  /** The id the one GlobalStats entity is saved under, the string "global"; like every other id it is modelled by a number. */
  const GlobalStatsId: nat := 0

  datatype GlobalStats = GlobalStats(totalPledges: nat, lastPledgeAt: nat, lastPledgeBlock: nat,
                                     currentRoot: nat, nextTreeIndex: nat)

  datatype AccountEntity = AccountEntity(address: nat, currentWeight: nat)

  datatype SignerEntity = SignerEntity(address: nat, pledgeTimestamp: nat, pledgeBlock: nat,
                                       transactionHash: nat, treeIndex: nat)

  datatype WeightChangeEntity = WeightChangeEntity(account: AddressId, previousWeight: nat, newWeight: nat,
                                                   blockNumber: nat, blockTimestamp: nat,
                                                   transactionHash: nat, logIndex: nat)

  datatype PledgeEventEntity = PledgeEventEntity(signer: AddressId, timestamp: nat, blockNumber: nat,
                                                 transactionHash: nat, logIndex: nat)

  datatype CensusRootEntity = CensusRootEntity(root: nat, blockNumber: nat, blockTimestamp: nat,
                                               transactionHash: nat, pledgeCount: nat)

  /** Pledged(signer, timestamp) with the block and transaction it came in. */
  datatype Pledged = Pledged(signer: nat, timestamp: nat, blockNumber: nat, blockTimestamp: nat,
                             transactionHash: nat, logIndex: nat)

  /** CensusRootUpdated(newRoot, blockNumber) with the block and transaction it came in. */
  datatype CensusRootUpdated = CensusRootUpdated(newRoot: nat, rootBlockNumber: nat, blockTimestamp: nat,
                                                 transactionHash: nat, logIndex: nat)

  /** The saved entities. */
  datatype State = State(stats: map<nat, GlobalStats>,
                         accounts: map<AddressId, AccountEntity>,
                         signers: map<AddressId, SignerEntity>,
                         weightChanges: map<EventId, WeightChangeEntity>,
                         pledgeEvents: map<EventId, PledgeEventEntity>,
                         censusRoots: map<EventId, CensusRootEntity>)

  /**
   * Entity ids. An account and a signer are filed under the signer's address as
   * `toHexString().toLowerCase()` renders it, an event's entities under its transaction hash
   * and log index joined by a dash. Both renderings are one-to-one, so the maps are keyed
   * by the values rendered.
   */
  type AddressId = nat

  datatype EventId = EventId(transactionHash: nat, logIndex: nat)

  const DefaultStats := GlobalStats(0, 0, 0, 0, 0)

  /** The statistics loadOrCreateGlobalStats yields: the saved statistics, or all counters at 0 when none are saved. */
  function StatsOf(s: State): (r: GlobalStats)
    ensures GlobalStatsId !in s.stats ==> (r.totalPledges == 0 && r.nextTreeIndex == 0 && r.currentRoot == 0
                                          && r.lastPledgeAt == 0 && r.lastPledgeBlock == 0)
    ensures GlobalStatsId in s.stats ==> r == s.stats[GlobalStatsId]
  {
    if GlobalStatsId in s.stats then s.stats[GlobalStatsId] else DefaultStats
  }

  /** The store after handlePledged: the change it makes to the saved entities. */
  function AfterPledged(s: State, e: Pledged): State
  {
    var id := e.signer;
    var stats := StatsOf(s);
    var eventId := EventId(e.transactionHash, e.logIndex);
    var pledgeEvents := s.pledgeEvents[eventId := PledgeEventEntity(id, e.timestamp, e.blockNumber, e.transactionHash, e.logIndex)];
    if id !in s.signers then
      var account := if id in s.accounts then s.accounts[id] else AccountEntity(e.signer, 0);
      var previousWeight := account.currentWeight;
      var newStats := stats.(totalPledges := stats.totalPledges + 1, nextTreeIndex := stats.nextTreeIndex + 1,
                             lastPledgeAt := e.timestamp, lastPledgeBlock := e.blockNumber);
      State(s.stats[GlobalStatsId := newStats],
            s.accounts[id := account.(currentWeight := 1)],
            s.signers[id := SignerEntity(e.signer, e.timestamp, e.blockNumber, e.transactionHash, stats.nextTreeIndex)],
            s.weightChanges[eventId := WeightChangeEntity(id, previousWeight, 1, e.blockNumber,
                                                          e.blockTimestamp, e.transactionHash, e.logIndex)],
            pledgeEvents,
            s.censusRoots)
    else
      var newStats := stats.(lastPledgeAt := e.timestamp, lastPledgeBlock := e.blockNumber);
      s.(stats := s.stats[GlobalStatsId := newStats], pledgeEvents := pledgeEvents)
  }

  /** The store after handleCensusRootUpdated: the change it makes to the saved entities. */
  function AfterRootUpdated(s: State, e: CensusRootUpdated): State
  {
    var stats := StatsOf(s);
    var rootId := EventId(e.transactionHash, e.logIndex);
    s.(censusRoots := s.censusRoots[rootId := CensusRootEntity(e.newRoot, e.rootBlockNumber, e.blockTimestamp,
                                                               e.transactionHash, stats.totalPledges)],
       stats := s.stats[GlobalStatsId := stats.(currentRoot := e.newRoot)])
  }

  /**
   * What the handlers keep true of the store: one tree index per pledge, with
   * nextTreeIndex == totalPledges == the number of signers; the signers' indices are
   * distinct and below nextTreeIndex; and each signer's account is saved with weight 1.
   */
  ghost predicate Valid(s: State)
  {
    Consistent(StatsOf(s).nextTreeIndex, StatsOf(s).totalPledges, s.signers, s.accounts)
  }

  /** The counters, signers and accounts of a valid store, taken apart. */
  ghost predicate Consistent(next: nat, total: nat, signers: map<AddressId, SignerEntity>,
                             accounts: map<AddressId, AccountEntity>)
  {
    next == total == |signers.Keys|
    && IndicesBelow(signers, next)
    && IndicesDistinct(signers)
    && accounts.Keys == signers.Keys
    && WeightsOne(accounts)
  }

  /** Every signer's tree index is below n. */
  ghost predicate IndicesBelow(signers: map<AddressId, SignerEntity>, n: nat)
  {
    forall id :: id in signers ==> signers[id].treeIndex < n
  }

  /** Distinct signers hold distinct tree indices. */
  ghost predicate IndicesDistinct(signers: map<AddressId, SignerEntity>)
  {
    forall id1, id2 :: id1 in signers && id2 in signers && id1 != id2 ==>
      signers[id1].treeIndex != signers[id2].treeIndex
  }

  /** Every saved account has weight 1. */
  ghost predicate WeightsOne(accounts: map<AddressId, AccountEntity>)
  {
    forall id :: id in accounts ==> accounts[id].currentWeight == 1
  }

  const Empty := State(map[], map[], map[], map[], map[], map[])

  lemma {:induction false} EmptyIsValid()
    ensures Valid(Empty)
    ensures StatsOf(Empty) == GlobalStats(0, 0, 0, 0, 0)
  {
  }

  /**
   * A first pledge: the signer takes the prior nextTreeIndex, both counters grow by one,
   * the account's weight becomes 1 and a weight change from the prior weight (0 in a valid
   * store) to 1 is recorded under the event's id.
   */
  lemma {:induction false} FirstPledge(s: State, e: Pledged)
    requires e.signer !in s.signers
    ensures var s' := AfterPledged(s, e);
            var id := e.signer;
            var before := StatsOf(s);
            var after := StatsOf(s');
            id in s'.signers && s'.signers[id].treeIndex == before.nextTreeIndex
            && after.totalPledges == before.totalPledges + 1
            && after.nextTreeIndex == before.nextTreeIndex + 1
            && s'.accounts[id].currentWeight == 1
            && s'.weightChanges[EventId(e.transactionHash, e.logIndex)]
                 == WeightChangeEntity(id, if id in s.accounts then s.accounts[id].currentWeight else 0, 1,
                                       e.blockNumber, e.blockTimestamp, e.transactionHash, e.logIndex)
            && (forall other :: other in s.signers ==> other in s'.signers && s'.signers[other] == s.signers[other])
    ensures Valid(s) ==> e.signer !in s.accounts
  {
  }

  /**
   * A repeat pledge changes no signer, account, counter or weight change: only the
   * last-pledge fields and the pledge event log move.
   */
  lemma {:induction false} RepeatPledge(s: State, e: Pledged)
    requires e.signer in s.signers
    ensures var s' := AfterPledged(s, e);
            s'.signers == s.signers && s'.accounts == s.accounts && s'.weightChanges == s.weightChanges
            && s'.censusRoots == s.censusRoots
            && StatsOf(s').totalPledges == StatsOf(s).totalPledges
            && StatsOf(s').nextTreeIndex == StatsOf(s).nextTreeIndex
            && StatsOf(s').currentRoot == StatsOf(s).currentRoot
  {
  }

  /** Every pledge sets the last-pledge fields and records a pledge event under its id. */
  lemma {:induction false} EveryPledgeRecorded(s: State, e: Pledged)
    ensures var s' := AfterPledged(s, e);
            StatsOf(s').lastPledgeAt == e.timestamp
            && StatsOf(s').lastPledgeBlock == e.blockNumber
            && s'.pledgeEvents[EventId(e.transactionHash, e.logIndex)]
                 == PledgeEventEntity(e.signer, e.timestamp, e.blockNumber, e.transactionHash, e.logIndex)
  {
  }

  /**
   * Filing a new signer under the next free index keeps the indices distinct and below
   * the counter, which grows with the number of signers.
   */
  lemma {:induction false} AssignNextIndex(signers: map<AddressId, SignerEntity>, id: AddressId, signer: SignerEntity, n: nat)
    requires id !in signers && signer.treeIndex == n && |signers.Keys| == n
    requires IndicesBelow(signers, n) && IndicesDistinct(signers)
    ensures var t := signers[id := signer];
            |t.Keys| == n + 1 && IndicesBelow(t, n + 1) && IndicesDistinct(t)
  {
    var t := signers[id := signer];
    assert t.Keys == signers.Keys + {id};
  }

  /**
   * Filing a new signer and its weight-1 account under the next free index, with both
   * counters raised by one, keeps the store consistent.
   */
  lemma {:induction false} FileSigner(next: nat, signers: map<AddressId, SignerEntity>,
                                      accounts: map<AddressId, AccountEntity>,
                                      id: AddressId, signer: SignerEntity, account: AccountEntity)
    requires Consistent(next, next, signers, accounts) && id !in signers
    requires signer.treeIndex == next && account.currentWeight == 1
    ensures Consistent(next + 1, next + 1, signers[id := signer], accounts[id := account])
  {
    var t := signers[id := signer];
    var a := accounts[id := account];
    AssignNextIndex(signers, id, signer, next);
    assert a.Keys == t.Keys by {
      assert a.Keys == accounts.Keys + {id};
      assert t.Keys == signers.Keys + {id};
    }
    assert WeightsOne(a) by {
      forall k | k in a
        ensures a[k].currentWeight == 1
      {
        if k != id {
          assert k in accounts;
        }
      }
    }
  }

  /** A first pledge keeps the store valid. */
  lemma {:induction false} FirstPledgeKeepsValid(s: State, e: Pledged)
    requires Valid(s) && e.signer !in s.signers
    ensures Valid(AfterPledged(s, e))
  {
    var id := e.signer;
    var s' := AfterPledged(s, e);
    var stats := StatsOf(s);
    var signer := SignerEntity(e.signer, e.timestamp, e.blockNumber, e.transactionHash, stats.nextTreeIndex);
    FirstPledge(s, e);
    assert s'.signers == s.signers[id := signer];
    assert s'.accounts == s.accounts[id := AccountEntity(e.signer, 1)];
    FileSigner(stats.nextTreeIndex, s.signers, s.accounts, id, signer, AccountEntity(e.signer, 1));
  }

  /** A pledge keeps the store valid. */
  lemma {:induction false} PledgeKeepsValid(s: State, e: Pledged)
    requires Valid(s)
    ensures Valid(AfterPledged(s, e))
  {
    if e.signer !in s.signers {
      FirstPledgeKeepsValid(s, e);
    } else {
      var s' := AfterPledged(s, e);
      assert s'.signers == s.signers && s'.accounts == s.accounts;
      assert StatsOf(s').nextTreeIndex == StatsOf(s).nextTreeIndex;
    }
  }

  /**
   * A root update sets currentRoot and records the root with the current pledge count;
   * the counters, signers and accounts do not change, so the store stays valid.
   */
  lemma {:induction false} RootUpdate(s: State, e: CensusRootUpdated)
    ensures var s' := AfterRootUpdated(s, e);
            StatsOf(s').currentRoot == e.newRoot
            && s'.censusRoots[EventId(e.transactionHash, e.logIndex)].pledgeCount == StatsOf(s).totalPledges
            && StatsOf(s').totalPledges == StatsOf(s).totalPledges
            && StatsOf(s').nextTreeIndex == StatsOf(s).nextTreeIndex
            && s'.signers == s.signers && s'.accounts == s.accounts
    ensures Valid(s) ==> Valid(AfterRootUpdated(s, e))
  {
  }

  datatype ChainEvent = PledgedEvent(pledged: Pledged) | RootEvent(updated: CensusRootUpdated)

  function Handle(s: State, e: ChainEvent): State
  {
    match e
    case PledgedEvent(p) => AfterPledged(s, p)
    case RootEvent(u) => AfterRootUpdated(s, u)
  }

  /** The store after indexing a sequence of events from the empty store. */
  function Index(events: seq<ChainEvent>): State
  {
    if events == [] then Empty else Handle(Index(events[..|events| - 1]), events[|events| - 1])
  }

  /**
   * At every point of the indexing, nextTreeIndex equals totalPledges and the number of
   * signers, and distinct signers hold distinct tree indices.
   */
  lemma {:induction false} IndexIsValid(events: seq<ChainEvent>)
    ensures Valid(Index(events))
  {
    if events != [] {
      IndexIsValid(events[..|events| - 1]);
      var s := Index(events[..|events| - 1]);
      match events[|events| - 1]
      case PledgedEvent(p) => PledgeKeepsValid(s, p);
      case RootEvent(u) => RootUpdate(s, u);
    }
  }

  /** The entity store the handlers run against. */
  class Store {
    var stats: map<nat, GlobalStats>
    var accounts: map<AddressId, AccountEntity>
    var signers: map<AddressId, SignerEntity>
    var weightChanges: map<EventId, WeightChangeEntity>
    var pledgeEvents: map<EventId, PledgeEventEntity>
    var censusRoots: map<EventId, CensusRootEntity>

    function Snapshot(): State
      reads this
    {
      State(stats, accounts, signers, weightChanges, pledgeEvents, censusRoots)
    }

    constructor ()
      ensures Snapshot() == Empty
    {
      stats, accounts, signers := map[], map[], map[];
      weightChanges, pledgeEvents, censusRoots := map[], map[], map[];
    }

    method LoadOrCreateGlobalStats() returns (r: GlobalStats)
      ensures r == StatsOf(Snapshot())
    {
      if GlobalStatsId in stats {
        r := stats[GlobalStatsId];
      } else {
        r := GlobalStats(0, 0, 0, 0, 0);
      }
    }

    method HandlePledged(e: Pledged)
      modifies this
      ensures Snapshot() == AfterPledged(old(Snapshot()), e)
    {
      var addressLowercase := e.signer;
      var eventId := EventId(e.transactionHash, e.logIndex);
      var stats := LoadOrCreateGlobalStats();
      var pledgeEvents' := pledgeEvents[eventId := PledgeEventEntity(addressLowercase, e.timestamp, e.blockNumber,
                                                                     e.transactionHash, e.logIndex)];
      if addressLowercase !in signers {
        var account := if addressLowercase in accounts then accounts[addressLowercase] else AccountEntity(e.signer, 0);
        var previousWeight := account.currentWeight;
        var signer := SignerEntity(e.signer, e.timestamp, e.blockNumber, e.transactionHash, stats.nextTreeIndex);
        var change := WeightChangeEntity(addressLowercase, previousWeight, 1, e.blockNumber, e.blockTimestamp,
                                         e.transactionHash, e.logIndex);
        var stats' := stats.(totalPledges := stats.totalPledges + 1, nextTreeIndex := stats.nextTreeIndex + 1,
                             lastPledgeAt := e.timestamp, lastPledgeBlock := e.blockNumber);
        this.stats, accounts, signers := this.stats[GlobalStatsId := stats'],
                                         accounts[addressLowercase := account.(currentWeight := 1)],
                                         signers[addressLowercase := signer];
        weightChanges, pledgeEvents := weightChanges[eventId := change], pledgeEvents';
      } else {
        var stats' := stats.(lastPledgeAt := e.timestamp, lastPledgeBlock := e.blockNumber);
        this.stats, pledgeEvents := this.stats[GlobalStatsId := stats'], pledgeEvents';
      }
    }

    method HandleCensusRootUpdated(e: CensusRootUpdated)
      modifies this
      ensures Snapshot() == AfterRootUpdated(old(Snapshot()), e)
    {
      var stats := LoadOrCreateGlobalStats();
      var rootId := EventId(e.transactionHash, e.logIndex);
      censusRoots := censusRoots[rootId := CensusRootEntity(e.newRoot, e.rootBlockNumber, e.blockTimestamp,
                                                            e.transactionHash, stats.totalPledges)];
      stats := stats.(currentRoot := e.newRoot);
      this.stats := this.stats[GlobalStatsId := stats];
    }
  }
}
