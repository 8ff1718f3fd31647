# DAVINCI DAO census: a verified model

The "We Are Not Spectators" manifesto contract keeps a census of signers. The census is a lean
incremental Merkle tree (LeanIMT) whose leaves are accounts. An account's leaf is its 160-bit
address and its 88-bit weight packed into one integer, `(address << 88) | weight`.

- Leaves are kept in insertion order.
- Removing an account overwrites its slot with 0, so slots are never reused.
- Internal nodes hash pairs of children. A node left without a partner at the end of a level moves
  up unhashed.

The off-chain tools rebuild this tree in three ways:

- The Go census tool replays the subgraph's weight-change events.
- The delegation tool scans the contract's account slots.
- The web app builds the tree from a list of accounts.

Each tool then produces membership proofs from the tree. Around this sit:

- the subgraph handlers that index pledges and root updates;
- the web app's delegation-state reducers and transaction planner;
- its NFT cache, its RPC retry and batching policy;
- its address, URL and network helpers;
- the delegation CLI's formatting and token dealing.

The project models each of these in Dafny and proves what each one promises. Each module below
corresponds to one source file.

| module | models |
|---|---|
| `LeafCodec` | leaf packing and unpacking in `go-tool/census/reconstruct.go` and `delegation-tool/internal/merkle/tree.go` |
| `LeanImt` | the level loop and proof collection of `delegation-tool/internal/merkle/tree.go`; the library tree used by the Go and web tools (class `Tree`) |
| `CensusReplay` | event paging, replay and root validation in `go-tool/census/reconstruct.go` |
| `CensusScan` | the slot scan and proof lookup of `delegation-tool/internal/merkle/tree.go` |
| `CensusTreeTs` | `webapp/src/lib/census/tree.ts` |
| `MerkleProofs` | `webapp/src/lib/merkle.ts` |
| `CensusFetch` | the sort and index step of `fetchCensusDataFromSubgraph` in `webapp/src/hooks/useDelegation.ts` |
| `DelegationInit`, `DelegationState` | the delegation-state initialisation, reducers and transaction plan in `webapp/src/hooks/useDelegation.ts` |
| `SubgraphMapping` | `subgraph/src/mapping.ts` |
| `AlchemyCache` | `webapp/src/lib/alchemy-service.ts` |
| `ContractClient` | `webapp/src/lib/contract.ts` |
| `DelegateCli` | `delegation-tool/cmd/delegate/main.go` |
| `WebUtils` | `webapp/src/lib/utils.ts` and `webapp/src/lib/web3-utils.ts` |
| `UrlAddress` | `webapp/src/lib/url.ts` |
| `Wrappers`, `Bits`, `Text`, `Sorting` | shared helpers: `Option`/`Result`; shifts and masks over `nat`; decimal and hex text; a stable insertion sort |

The hash of the tree is a parameter of type `(nat, nat) -> nat`. In the system it is Poseidon over
BN254. Every tree property below holds for any hash, unless a lemma's `requires` names one.

**Assumption about the LeanIMT libraries.** The Go census tool and the web app build their trees
with the external LeanIMT libraries (lean-imt-go and @zk-kit/lean-imt). Those libraries are not part
of this model. The class `LeanImt.Tree` stands in for both of them:

- `Insert` appends a non-zero leaf;
- `Update` overwrites a slot;
- `IndexOf` finds the first slot holding a leaf;
- the root and the proofs are given by the pairing loop of `delegation-tool/internal/merkle/tree.go`,
  where an odd last node moves up unhashed.

That these libraries behave this way is assumed, not proved.

**Two behaviours of the code that a reader may not expect:**

- `ValidateRoot` (`go-tool/census/reconstruct.go:224-235`) fails on an empty tree even when the expected root is 0. It does so although the rebuild reports root 0 for an empty event history. `CensusReplay.EmptyHistoryFailsValidation` states this.
- An event whose previous and new weights are both 0 takes none of the three branches. The replay skips it rather than reporting an error. `CensusReplay.ZeroToZeroIsNoop` states this.

## Model

| member | source | states |
|---|---|---|
| `LeafCodec.UnpackPackRoundTrip` | go-tool/census/reconstruct.go:183-214 | unpacking a packed leaf gives back the same 160-bit address and 64-bit weight |
| `LeafCodec.PackLeafInjective` | go-tool/census/reconstruct.go:183-193 | two different (address, weight) pairs never pack to the same leaf |
| `LeafCodec.UnpackLeaf` | go-tool/census/reconstruct.go:196-214 | the unpacked address fits in 160 bits and the weight in 64 bits |
| `LeafCodec.PackLeafByAddAgrees` | delegation-tool/internal/merkle/tree.go:182-193 | packing with `Add` equals packing with `Or` for every weight below 2^88 |
| `LeafCodec.PackLeafZero` | delegation-tool/internal/merkle/tree.go:182-193 | a leaf is 0 exactly when both address and weight are 0 |
| `LeafCodec.PackLeafNonZero` | go-tool/census/reconstruct.go:123-126 | a leaf with non-zero weight is never 0, so the library accepts it |
| `LeafCodec.Int64Cast` | go-tool/census/reconstruct.go:189 | the Go `int64(weight)` conversion is in [-2^63, 2^63) and is non-negative exactly when the weight is below 2^63 |
| `LeafCodec.PackLeafAsWrittenAgrees` | go-tool/census/reconstruct.go:183-193 | the as-written packing (through `int64`) agrees with the intended packing for weights below 2^63 |
| `LeafCodec.PackLeafAsWrittenCollides` | go-tool/census/reconstruct.go:183-193 | for a weight of 2^63 or more, the as-written leaf is negative and is the same for every address, while the intended leaves differ |
| `LeanImt.NextLevel` | delegation-tool/internal/merkle/tree.go:156-172 | a level of m nodes becomes a level of ceil(m/2) nodes; node j is the hash of children 2j and 2j+1, or child 2j alone when it has no partner |
| `LeanImt.ParentOnPath` | delegation-tool/internal/merkle/tree.go:143-172 | the parent of a node is the hash of the node and its partner (index xor 1), ordered by the index bit, or the node itself when it has no partner |
| `LeanImt.ProofStep` | delegation-tool/internal/merkle/tree.go:143-153 | each level adds the partner as a sibling only when the partner exists; the index halves |
| `LeanImt.FoldProofIsRoot` | delegation-tool/internal/merkle/tree.go:133-176 | folding a leaf with its proof, ordering each step by the index bit and skipping levels without a sibling, gives the root of the tree |
| `LeanImt.RootOfNonEmpty` | delegation-tool/internal/merkle/tree.go:139-176 | every non-empty leaf list has a root |
| `LeanImt.ProofLength` | delegation-tool/internal/merkle/tree.go:139-176 | a proof has at most as many siblings as the tree has levels |
| `LeanImt.SingleLeaf` | delegation-tool/internal/merkle/tree.go:139 | a one-leaf tree has that leaf as root and an empty proof |
| `LeanImt.ThreeLeafProof` | delegation-tool/internal/merkle/tree.go:156-172 | in a three-leaf tree the third leaf moves up unhashed: its proof is the single sibling h(a, b) and the root is h(h(a, b), c) |
| `LeanImt.IndexOf` | go-tool/census/reconstruct.go:137-140 | the index is -1 exactly when the leaf is absent; otherwise it is the first slot holding the leaf |
| `LeanImt.BuildNextLevel` | delegation-tool/internal/merkle/tree.go:156-172 | the pairing loop computes the next level |
| `LeanImt.CollectSiblings` | delegation-tool/internal/merkle/tree.go:133-176 | the level loop collects exactly the partners along the leaf's path, level by level |
| `LeanImt.GenerateLeanImtProof` | delegation-tool/internal/merkle/tree.go:128-179 | an index at or beyond the leaf count is an error; otherwise the result is the proof of that index |
| `LeanImt.Tree.constructor` | go-tool/census/reconstruct.go:91-95 | a new tree uses the given hash and has no leaves |
| `LeanImt.Tree.Insert` | go-tool/census/reconstruct.go:123-131 | a non-zero leaf is appended and every other slot is kept; a zero leaf is refused |
| `LeanImt.Tree.Update` | go-tool/census/reconstruct.go:133-164 | an index inside the tree has its slot overwritten and nothing else changes; an index outside it is refused |
| `LeanImt.Tree.IndexOfLeaf` | go-tool/census/reconstruct.go:137-140 | the library's `IndexOf` returns the first slot holding the leaf, or -1 |
| `LeanImt.Tree.GenerateProof` | webapp/src/lib/census/tree.ts:117-122 | the library's proof is the level-loop proof of the slot |
| `CensusReplay.InsertAppends` | go-tool/census/reconstruct.go:123-131 | an event from 0 to a positive weight appends the packed leaf, so earlier slots are kept and the size grows by one |
| `CensusReplay.RemoveLeavesTombstone` | go-tool/census/reconstruct.go:133-148 | an event from a positive weight to 0 overwrites the slot holding the old leaf with 0 and keeps the size and all other slots; a missing old leaf is an error naming the event |
| `CensusReplay.UpdateInPlace` | go-tool/census/reconstruct.go:150-164 | an event between positive weights replaces the old leaf with the new one in the same slot; a missing old leaf is an error naming the event |
| `CensusReplay.ZeroToZeroIsNoop` | go-tool/census/reconstruct.go:123-164 | an event from 0 to 0 leaves the tree unchanged |
| `CensusReplay.UnparsableWeightFails` | go-tool/census/reconstruct.go:101-109 | an unparsable previous or new weight aborts with an error naming the event, the previous weight being checked first |
| `CensusReplay.ReplayPrefix` | go-tool/census/reconstruct.go:100-165 | events are applied in log order: replaying k+1 events applies event k to the result of the first k |
| `CensusReplay.ErrorPersists` | go-tool/census/reconstruct.go:100-165 | once an event fails, the replay stops with that error |
| `CensusReplay.ReplaySize` | go-tool/census/reconstruct.go:123-164 | the final tree size equals the number of insert events, because removals leave tombstones |
| `CensusReplay.NoopHistoryHasNoRoot` | go-tool/census/reconstruct.go:167-171 | a non-empty history of 0-to-0 events leaves an empty tree, and the rebuild then fails for lack of a root |
| `CensusReplay.RemovedSlotScenario` | go-tool/census/reconstruct.go:123-171 | insert a, update a, insert b, remove a: the tree is [0, leaf(b, 3)] and the root is h(0, leaf(b, 3)), so the removed slot still takes part in the root |
| `CensusReplay.ValidateRoot` | go-tool/census/reconstruct.go:224-235 | validation succeeds exactly when the tree has a root equal to the expected one; an empty tree is a "no root" error |
| `CensusReplay.EmptyHistoryFailsValidation` | go-tool/census/reconstruct.go:81-89 | zero events give an empty tree with root 0, yet validating that tree against 0 fails because it has no root |
| `CensusReplay.Page` | go-tool/census/reconstruct.go:46-49 | a page never holds more than 1000 events |
| `CensusReplay.FetchAllEvents` | go-tool/census/reconstruct.go:44-79 | paging stops on an empty or short page and returns the whole log in order; it fails only when a page request fails, and it cannot fail when no request fails |
| `CensusReplay.ReplayEvents` | go-tool/census/reconstruct.go:100-165 | the replay loop leaves the tree holding the replayed leaves, or returns the first event error |
| `CensusReplay.ReconstructTree` | go-tool/census/reconstruct.go:39-176 | apart from a failed page request, the result is the replay of the whole log with its root; when every page request succeeds, it is exactly that replay's outcome |
| `CensusScan.Scan` | delegation-tool/internal/merkle/tree.go:28-47 | a census root of 0 gives an empty tree without scanning; a failed root call is an error |
| `CensusScan.ScanSound` | delegation-tool/internal/merkle/tree.go:51-85 | every scanned node matches its slot's address, delegation weight and leaf, and slot indices strictly increase |
| `CensusScan.ScanComplete` | delegation-tool/internal/merkle/tree.go:51-85 | when the attempt limit exceeds the number of slots, every non-zero account slot yields a node |
| `CensusScan.ScanUnfold` | delegation-tool/internal/merkle/tree.go:51-85 | a zero slot extends the run of empty slots; a non-zero slot records a node and resets the run |
| `CensusScan.ReconstructTree` | delegation-tool/internal/merkle/tree.go:28-87 | the scan loop computes the scan |
| `CensusScan.FirstNodeOf` | delegation-tool/internal/merkle/tree.go:98-104 | the result is -1 exactly when no node has the address; otherwise it is the first node that does |
| `CensusScan.NodeLeaves` | delegation-tool/internal/merkle/tree.go:113-116 | the leaf list has one entry per node, in node order |
| `CensusScan.FindNode` | delegation-tool/internal/merkle/tree.go:98-104 | the search loop finds the first node with the address |
| `CensusScan.CollectLeaves` | delegation-tool/internal/merkle/tree.go:113-116 | the collect loop lists the node leaves |
| `CensusScan.GenerateProof` | delegation-tool/internal/merkle/tree.go:94-124 | an absent address gives an empty proof and no error; otherwise the proof is taken at the node's position in the compacted node list |
| `CensusScan.CompactedProofFolds` | delegation-tool/internal/merkle/tree.go:94-124 | that proof folds to the root of the compacted node list |
| `CensusScan.CompactedProofIgnoresTombstone` | delegation-tool/internal/merkle/tree.go:106-124 | with slot 0 removed, the compacted proof is empty and folds to the bare leaf, not to the contract's root h(0, leaf) |
| `CensusScan.TwoLeafTree` | delegation-tool/internal/merkle/tree.go:156-172 | a two-leaf tree has root h(a, b), and the second leaf's proof is [a] |
| `CensusScan.GenerateSlotProof` | delegation-tool/internal/merkle/tree.go:94-124 | the corrected lookup takes the proof at the node's slot index in the full slot list, and reports a slot beyond the tree size as an error |
| `CensusScan.ScanRebuildsChainLeaves` | delegation-tool/internal/merkle/tree.go:51-87 | the scanned nodes, put back at their slots with 0 elsewhere, rebuild the contract's leaf list, and the slot proof of any found address folds to the contract's root |
| `CensusTreeTs.PackLeaf` | webapp/src/lib/census/tree.ts:14-24 | packing succeeds exactly when the address parses and the packed value is below the BN254 scalar field; the value is the packed leaf |
| `CensusTreeTs.PackLeafInField` | webapp/src/lib/census/tree.ts:14-24 | a 160-bit address with a weight below 2^88 always packs inside the field |
| `CensusTreeTs.UnpackLeaf` | webapp/src/lib/census/tree.ts:29-37 | the address is "0x" plus at least 40 hex digits and the weight is below 2^88 |
| `CensusTreeTs.UnpackPackRoundTrip` | webapp/src/lib/census/tree.ts:14-37 | unpacking a packed leaf gives an address string that parses back to the address, and the same weight |
| `CensusTreeTs.ByAddressIsTotalPreorder` | webapp/src/lib/census/tree.ts:67-71 | ordering by numeric address is a total preorder, so the sort is well defined |
| `CensusTreeTs.WithWeight` | webapp/src/lib/census/tree.ts:73-85 | only accounts with a non-zero weight are inserted |
| `CensusTreeTs.InsertionOrder` | webapp/src/lib/census/tree.ts:67-85 | the inserted accounts are sorted by address and are exactly the non-zero-weight accounts, with multiplicity |
| `CensusTreeTs.InsertAllLeaves` | webapp/src/lib/census/tree.ts:73-85 | leaf i of the tree is the packed leaf of the i-th inserted account and is non-zero |
| `CensusTreeTs.InsertAllKeys` | webapp/src/lib/census/tree.ts:83-85 | the leaf map is keyed by the lowercased addresses of the inserted accounts |
| `CensusTreeTs.InsertAllValues` | webapp/src/lib/census/tree.ts:83-85 | every leaf in the map is a leaf of the tree |
| `CensusTreeTs.InsertAllError` | webapp/src/lib/census/tree.ts:73-85 | the first packing failure aborts the build |
| `CensusTreeTs.InsertAccounts` | webapp/src/lib/census/tree.ts:73-85 | the insert loop fills the tree and the leaf map as the build function says |
| `CensusTreeTs.BuildCensusTree` | webapp/src/lib/census/tree.ts:59-93 | building succeeds exactly when the build function does; the size is the number of inserted leaves and the root is the tree's root |
| `CensusTreeTs.GenerateProof` | webapp/src/lib/census/tree.ts:101-123 | there is no proof exactly when the lowercased address is unknown or its leaf is not in the tree; a proof folds from the leaf's slot to the root |
| `CensusTreeTs.VerifyProof` | webapp/src/lib/census/tree.ts:133-158 | the check is false when packing fails; otherwise it folds the leaf with sorted-pair hashing and compares with the root |
| `CensusTreeTs.SortedFoldRejectsTreeProof` | webapp/src/lib/census/tree.ts:143-154 | for leaves [a, b, c] with a < b and h(a, b) > c, the tree's own proof for a fails the sorted-pair check |
| `CensusTreeTs.PositionalProofAccepted` | webapp/src/lib/census/tree.ts:101-123 | with the leaf index and tree size, the positional check accepts every proof the tree generates |
| `CensusTreeTs.GetAccountFromTree` | webapp/src/lib/census/tree.ts:163-182 | there is no account exactly when the lowercased address is unknown or mapped to a leaf of 0; a found account reports the lowercased address and the leaf's slot |
| `CensusTreeTs.InsertAllIndex` | webapp/src/lib/census/tree.ts:74-85 | the insert loop maps a key exactly when a weighted account has it, and then to the packed leaf of the last such account |
| `CensusTreeTs.BuildIndex` | webapp/src/lib/census/tree.ts:59-92 | buildCensusTree maps a key exactly when a weighted account of the input has it, and then to the packed leaf of the last such account in input order |
| `CensusTreeTs.BuiltAccountLookup` | webapp/src/lib/census/tree.ts:163-182 | on a built tree, an address is found exactly when a weighted account has it; the reported index holds its leaf, and the reported weight is the last such account's weight when it fits in 88 bits |
| `CensusTreeTs.AccountWeightRecovered` | webapp/src/lib/census/tree.ts:163-182 | a found account reports the same weight that was packed at build time |
| `MerkleProofs.PackLeaf` | webapp/src/lib/merkle.ts:66-74 | the result is the decimal string of the packed leaf, and exists exactly when the address parses |
| `MerkleProofs.PackLeafAgreesWithCensusTree` | webapp/src/lib/merkle.ts:66-74 | it is the decimal rendering of the census-tree leaf wherever that leaf is defined |
| `MerkleProofs.FindNode` | webapp/src/lib/merkle.ts:31 | the first node whose address matches case-insensitively is found, or none when no node matches |
| `MerkleProofs.PackedLeafParses` | webapp/src/lib/merkle.ts:35 | a leaf string written by the packer reads back under `BigInt` as the packed census-tree leaf |
| `MerkleProofs.IndexOfValue` | webapp/src/lib/merkle.ts:36 | the tree's index of a parsed leaf is -1 exactly when the value is not a leaf (a negative value never is), else its first position |
| `MerkleProofs.Decimals` | webapp/src/lib/merkle.ts:43 | each sibling becomes its decimal string, in the same order |
| `MerkleProofs.EntryFoldsToRoot` | webapp/src/lib/merkle.ts:31-52 | an address gets an entry exactly when a node matches it and the node's leaf is in the tree; the entry's siblings fold to the root |
| `MerkleProofs.GenerateProofs` | webapp/src/lib/merkle.ts:16-57 | the output keys are exactly the given addresses that have an entry, spelled as given; unknown addresses are left out, not rejected; on an error, the first address in the given order whose leaf does not parse decides it |
| `MerkleProofs.LookUp` | webapp/src/lib/merkle.ts:31-52 | the per-address lookup gives the entry function's result |
| `CensusFetch.InsertionOrderIsTotalPreorder` | webapp/src/hooks/useDelegation.ts:48-55 | ordering by first-inserted block, then by id, is a total preorder |
| `CensusFetch.InsertionOrderTies` | webapp/src/hooks/useDelegation.ts:48-55 | two accounts tie only when their block and id are both equal |
| `CensusFetch.Nodes` | webapp/src/hooks/useDelegation.ts:58-69 | every sorted account becomes a node with its position as index and its packed leaf; the result exists exactly when every id parses |
| `CensusFetch.CensusOrder` | webapp/src/hooks/useDelegation.ts:48-55 | the sorted accounts are a permutation of the fetched ones, in non-decreasing first-inserted block |
| `CensusFetch.CensusNodesMeaning` | webapp/src/hooks/useDelegation.ts:48-69 | node i has index i and the address, weight and packed leaf of the i-th account in sorted order |
| `CensusFetch.AllIdsParse` | webapp/src/hooks/useDelegation.ts:48-69 | whether every id parses does not depend on the order of the accounts |
| `DelegationState.Find` | webapp/src/hooks/useDelegation.ts:216-218 | a delegate is found exactly when one has the address |
| `DelegationState.FindUnique` | webapp/src/hooks/useDelegation.ts:216-218 | with unique addresses, the lookup finds the delegate's own slot |
| `DelegationState.Put` | webapp/src/hooks/useDelegation.ts:221-230 | setting a Map key overwrites an existing entry in place or appends a new one, keeping addresses unique |
| `DelegationState.AddDelegate` | webapp/src/hooks/useDelegation.ts:216-237 | an existing address is left alone; a new one is appended with current count 0 and pending count 1 |
| `DelegationState.RemoveDelegate` | webapp/src/hooks/useDelegation.ts:240-259 | the delegate's pending count and tokens are cleared and its current tokens kept; nothing else changes and an unknown address is a no-op |
| `DelegationState.SumPendingToOthers` | webapp/src/hooks/useDelegation.ts:272-279 | the loop sums the positive pending increases of the other delegates |
| `DelegationState.UpdateDelegateCount` | webapp/src/hooks/useDelegation.ts:262-297 | the pending count becomes the new count clamped to [0, max(0, available − others' increases + current)]; nothing else changes |
| `DelegationState.HasPendingChanges` | webapp/src/hooks/useDelegation.ts:806-813 | true exactly when some delegate's pending count differs from its current count |
| `DelegationState.ResetPendingChanges` | webapp/src/hooks/useDelegation.ts:783-802 | every delegate's pending count and tokens are set back to its current ones |
| `DelegationState.ResetClearsPendingChanges` | webapp/src/hooks/useDelegation.ts:783-813 | after a reset there are no pending changes, and adding a new delegate creates one |
| `DelegationState.ClassifyMovesToPending` | webapp/src/hooks/useDelegation.ts:325-392 | a delegate yields an operation exactly when it changed; the operation targets it, and for a consistent delegate it moves the current count to the pending count |
| `DelegationState.OnePerChange` | webapp/src/hooks/useDelegation.ts:325-392 | the plan holds one operation per changed delegate, and none when nothing is pending |
| `DelegationState.NeedsProofs` | webapp/src/hooks/useDelegation.ts:330-338 | proofs are needed exactly when a changed delegate has weight on chain and keeps a positive pending count |
| `DelegationState.CalculateTransactionPlan` | webapp/src/hooks/useDelegation.ts:300-400 | without a contract the plan is empty; otherwise it holds the classified operations for the first collection with tokens |
| `DelegationInit.CollectionKeys` | webapp/src/hooks/useDelegation.ts:128-137 | collections are visited in ascending index order, each once, and exactly those some NFT belongs to |
| `DelegationInit.Group` | webapp/src/hooks/useDelegation.ts:128-134 | a group holds only NFTs of its collection, and every NFT of that collection is in it |
| `DelegationInit.TokenIds` | webapp/src/hooks/useDelegation.ts:139 | a collection's token list is its NFTs' ids in order |
| `DelegationInit.InitialStateCounts` | webapp/src/hooks/useDelegation.ts:119-178 | the owned total is the number of NFTs, the delegated total is the number with a delegate, and each collection's available count is its undelegated NFTs |
| `DelegationInit.InitialStateDelegates` | webapp/src/hooks/useDelegation.ts:149-190 | the delegates found are exactly the addresses some NFT is delegated to, each holding its tokens; the user is added as an empty delegate only when none was found |
| `DelegationInit.DelegatesTotal` | webapp/src/hooks/useDelegation.ts:156-177 | the delegates' current counts add up to the number of delegated NFTs |
| `DelegationInit.InitializeDelegationState` | webapp/src/hooks/useDelegation.ts:104-190 | the initialisation loops compute the initial state |
| `DelegationInit.AddCollectionToTally` | webapp/src/hooks/useDelegation.ts:137-178 | one pass of the collection loop updates the tallies as one collection visit says |
| `DelegationInit.AddCollection` | webapp/src/hooks/useDelegation.ts:150-177 | the delegate loop adds each delegated token and counts them |
| `SubgraphMapping.StatsOf` | subgraph/src/mapping.ts:13-24 | loading missing global stats gives all-zero counters; otherwise the stored stats |
| `SubgraphMapping.EmptyIsValid` | subgraph/src/mapping.ts:17-21 | an empty store is valid: both counters start at 0 |
| `SubgraphMapping.FirstPledge` | subgraph/src/mapping.ts:51-82 | a first pledge gives the signer the prior next tree index, raises both counters by one, sets the account weight to 1 and records a weight change from the prior weight to 1 |
| `SubgraphMapping.RepeatPledge` | subgraph/src/mapping.ts:51-82 | a repeat pledge changes no signer, account, counter or weight change |
| `SubgraphMapping.EveryPledgeRecorded` | subgraph/src/mapping.ts:85-97 | every pledge updates the last-pledge time and block and records a pledge event keyed by transaction hash and log index |
| `SubgraphMapping.PledgeKeepsValid` | subgraph/src/mapping.ts:30-98 | a pledge keeps next tree index equal to total pledges, and keeps tree indices distinct and below it |
| `SubgraphMapping.RootUpdate` | subgraph/src/mapping.ts:104-124 | a root update sets the current root and records a census root with the current pledge count; the counters, signers and accounts are unchanged |
| `SubgraphMapping.IndexIsValid` | subgraph/src/mapping.ts:30-124 | after any sequence of events, distinct signers have distinct tree indices and the counters agree |
| `SubgraphMapping.Store.constructor` | subgraph/src/mapping.ts:13-24 | a new store is empty |
| `SubgraphMapping.Store.LoadOrCreateGlobalStats` | subgraph/src/mapping.ts:13-24 | the handler sees the stored stats or zero defaults |
| `SubgraphMapping.Store.HandlePledged` | subgraph/src/mapping.ts:30-98 | the pledge handler changes the store as the pledge transition says |
| `SubgraphMapping.Store.HandleCensusRootUpdated` | subgraph/src/mapping.ts:104-124 | the root handler changes the store as the root transition says |
| `AlchemyCache.CacheKeyPermutationInvariant` | webapp/src/lib/alchemy-service.ts:135-138 | reordering the contract list does not change the cache key |
| `AlchemyCache.CacheKeyIgnoresOwnerCase` | webapp/src/lib/alchemy-service.ts:135-138 | the owner's letter case does not change the key |
| `AlchemyCache.CacheKeyMixedCase` | webapp/src/lib/alchemy-service.ts:135-138 | the same contracts spelled in different case can give different keys, because the list is sorted before it is lowercased |
| `AlchemyCache.Unexpired` | webapp/src/lib/alchemy-service.ts:174-181 | cleanup keeps exactly the unexpired entries, unchanged |
| `AlchemyCache.StoreThenLook` | webapp/src/lib/alchemy-service.ts:143-163 | a lookup within the TTL of a store returns the stored data and changes nothing; the store keeps other unexpired entries |
| `AlchemyCache.LookedDropsOnlyExpired` | webapp/src/lib/alchemy-service.ts:143-154 | a lookup misses exactly when the key is absent or expired, and deletes only that expired entry |
| `AlchemyCache.FindContract` | webapp/src/lib/alchemy-service.ts:109-111 | the collection index is the first contract matching case-insensitively, or -1 |
| `AlchemyCache.TransformOne` | webapp/src/lib/alchemy-service.ts:107-126 | an NFT of an unlisted contract is dropped; otherwise it gets the index of the first matching contract |
| `AlchemyCache.TransformAppend` | webapp/src/lib/alchemy-service.ts:101-130 | the transform works NFT by NFT, so it keeps input order |
| `AlchemyCache.TransformRecords` | webapp/src/lib/alchemy-service.ts:101-130 | at most one record per input NFT, each with a valid collection index and no delegate |
| `AlchemyCache.TransformAlchemyNfts` | webapp/src/lib/alchemy-service.ts:101-130 | the transform loop computes the transform |
| `AlchemyCache.AlchemyService.constructor` | webapp/src/lib/alchemy-service.ts:15-18 | a new service has an empty cache and is not initialised |
| `AlchemyCache.AlchemyService.Initialize` | webapp/src/lib/alchemy-service.ts:23-47 | initialisation succeeds exactly when an API key is configured and the chain is supported |
| `AlchemyCache.AlchemyService.GetFromCache` | webapp/src/lib/alchemy-service.ts:143-154 | the cache changes as a lookup says |
| `AlchemyCache.AlchemyService.SetCache` | webapp/src/lib/alchemy-service.ts:159-168 | the cache changes as a store says, with cleanup only when the size exceeds 100 |
| `AlchemyCache.AlchemyService.CleanupCache` | webapp/src/lib/alchemy-service.ts:174-181 | the cleanup loop keeps exactly the unexpired entries |
| `AlchemyCache.AlchemyService.ClearCache` | webapp/src/lib/alchemy-service.ts:186-188 | clearing empties the cache |
| `AlchemyCache.AlchemyService.CacheStats` | webapp/src/lib/alchemy-service.ts:193-198 | the reported size is the number of cached keys |
| `AlchemyCache.AlchemyService.GetNftsForOwner` | webapp/src/lib/alchemy-service.ts:59-96 | it fails without querying when uninitialised, serves a cache hit (looked up at the reading `now`) without querying, and otherwise transforms the response and caches it stamped with `storedAt`, the clock reading taken after the query returns |
| `ContractClient.RateLimitCodes` | webapp/src/lib/contract.ts:18-19 | codes -32005 and 429 are rate limits, and an error with no code and no message is not |
| `ContractClient.RateLimitByMessage` | webapp/src/lib/contract.ts:20-22 | a message containing "429" is a rate limit |
| `ContractClient.RateLimitIgnoresCase` | webapp/src/lib/contract.ts:20-24 | message matching ignores letter case |
| `ContractClient.RetryMeaning` | webapp/src/lib/contract.ts:28-57 | the result is the first success or the first error that is not a rate limit, otherwise the last attempt's error; at most maxRetries + 1 attempts; the wait after failed attempt k is baseDelay · 2^k |
| `ContractClient.ExecuteWithRetry` | webapp/src/lib/contract.ts:28-57 | the retry loop behaves as the retry policy says |
| `ContractClient.ContractAddress` | webapp/src/lib/contract.ts:76-85 | the address is accepted exactly when it starts with "0x" and has 42 characters; an empty one is "address required" |
| `ContractClient.GetCensusRoot` | webapp/src/lib/contract.ts:205-220 | the root call is retried as the policy says, with the empty-tree error mapped to 0 |
| `ContractClient.EmptyTreeRootIsZero` | webapp/src/lib/contract.ts:211-216 | a BAD_DATA error with value "0x" gives root 0 at the first attempt |
| `ContractClient.EmptyTreeAsZeroKeepsOthers` | webapp/src/lib/contract.ts:211-218 | any other error is passed on unchanged |
| `ContractClient.Chunk` | webapp/src/lib/contract.ts:881-882 | a batch holds at most 50 tokens |
| `ContractClient.BatchCount` | webapp/src/lib/contract.ts:881 | the number of batches is the token count divided by 50, rounded up |
| `ContractClient.BatchesCover` | webapp/src/lib/contract.ts:881-885 | the batches are consecutive, non-empty and cover the tokens in order; all but the last hold exactly 50 |
| `ContractClient.BatchedKeepsOrder` | webapp/src/lib/contract.ts:881-885 | with an identity operation the concatenated results are the tokens in order |
| `ContractClient.BatchTokenOperation` | webapp/src/lib/contract.ts:873-892 | the batch loop concatenates batch results in order, stops at the first failing batch, and reports min((k+1)·50, n) after batch k |
| `DelegateCli.FormatWithCommas` | delegation-tool/cmd/delegate/main.go:526-536 | the loop groups the decimal digits |
| `DelegateCli.FormatWithCommasMeaning` | delegation-tool/cmd/delegate/main.go:526-536 | removing the commas gives the decimal form; commas sit where the remaining digit count is a multiple of 3; there are (digits − 1) / 3 commas and none below 1000 |
| `DelegateCli.GroupedStrip` | delegation-tool/cmd/delegate/main.go:529-534 | grouping adds exactly (digits − 1) / 3 commas and removing them restores the digits |
| `DelegateCli.GroupedCommas` | delegation-tool/cmd/delegate/main.go:529-534 | the leading group has 1 to 3 digits and every later group exactly 3 |
| `DelegateCli.TokenIdsToString` | delegation-tool/cmd/delegate/main.go:538-551 | the result is the decimal ids joined by ", " inside brackets |
| `DelegateCli.TokenIdsLength` | delegation-tool/cmd/delegate/main.go:538-551 | the result is "[]" exactly for an empty list |
| `DelegateCli.DealTokens` | delegation-tool/cmd/delegate/main.go:321-339 | each delegate receives its chunk of at most tokensPerTx tokens |
| `DelegateCli.DealsCover` | delegation-tool/cmd/delegate/main.go:364-369 | the chunks are disjoint, consecutive and in order; once the tokens run out later delegates get none |
| `WebUtils.FormatAddressKeepsEnds` | webapp/src/lib/utils.ts:15-19 | an empty or short address is returned unchanged; otherwise the result is the prefix, "...", then the suffix, and an end length of 0 appends the whole address |
| `WebUtils.FormatAddressIdempotent` | webapp/src/lib/utils.ts:15-19 | with a positive end length, formatting twice is formatting once |
| `WebUtils.FormatAddressZeroEndGrows` | webapp/src/lib/utils.ts:18 | with an end length of 0, formatting again makes the result longer |
| `WebUtils.FormatValidAddress` | webapp/src/lib/web3-utils.ts:8-13 | a valid address truncates to 13 characters: 6 of prefix, "...", 4 of suffix |
| `WebUtils.NetworkNameOfString` | webapp/src/lib/web3-utils.ts:20-32 | a string id has a name exactly when it is one of the table's own five keys, matched case-sensitively; keys inherited from `Object.prototype` are not modelled |
| `WebUtils.NetworkNameOfNumber` | webapp/src/lib/web3-utils.ts:20-32 | a number is looked up as "0x" plus its hex; it has a name exactly for 1, 5, 11155111, 137 and 80001, and 11155111 is Sepolia |
| `UrlAddress.HashCandidateIsLeftmost` | webapp/src/lib/url.ts:21-25 | the hash candidate is the leftmost "0x" plus 40 hex digits |
| `UrlAddress.HashMatchAtMeaning` | webapp/src/lib/url.ts:21-23 | a hash match skips at most a leading "#" and "/" before the address |
| `UrlAddress.ContractAddressShape` | webapp/src/lib/url.ts:9-28 | any address found is "0x" plus 40 hex digits and passes validation |
| `UrlAddress.PathBeforeHash` | webapp/src/lib/url.ts:14-18 | when the path holds a candidate, the hash is never consulted |
| `UrlAddress.ContractAddressAbsent` | webapp/src/lib/url.ts:9-28 | no address is found exactly when neither path nor hash holds a candidate, or the chosen candidate fails validation |
| `UrlAddress.FormatAddressAgrees` | webapp/src/lib/url.ts:76-79 | the URL helper's formatting is the general one with 6 leading and 4 trailing characters |
| `UrlAddress.ShareableUrl` | webapp/src/lib/url.ts:101-107 | a URL is produced exactly for a valid address and begins with the origin |
| `UrlAddress.ShareableUrlRoundTrip` | webapp/src/lib/url.ts:9-28 | a shareable URL is origin + "/" + address, and reading its path gives the address back |
| `Text.ParseUint64OfDecimal` | go-tool/census/reconstruct.go:101-109 | weight parsing accepts the decimal form of every 64-bit value and returns that value |
| `Text.DecimalRoundTrip` | webapp/src/lib/merkle.ts:73 | a decimal rendering reads back as the number |
| `Text.HexRoundTrip` | webapp/src/lib/census/tree.ts:34 | a hex rendering reads back as the number |
| `Text.BigIntOf` | webapp/src/lib/merkle.ts:35 | `BigInt` of a string: an empty or all-space string is 0, and a negative result comes only from text starting with a minus sign |
| `Text.BigIntOfDigits` | webapp/src/lib/merkle.ts:35 | a non-empty run of decimal digits reads as its decimal value, leading zeros included |
| `Text.BigIntOfDecimal` | webapp/src/lib/merkle.ts:35 | the decimal rendering of every natural number reads back as that number |
| `Text.BigIntOfPrefixedHex` | webapp/src/lib/census/tree.ts:15 | an address of the form "0x" plus hex digits reads under `BigInt` as its hex value |
| `Text.BigIntIgnoresSpace` | webapp/src/lib/merkle.ts:35 | white space (the ECMAScript white-space and line-terminator characters) around the text does not change the result |
| `Text.BigIntOfBlank` | webapp/src/lib/merkle.ts:35 | the empty string and any string of white space read as 0 |
| `Text.BigIntOfRadix` | webapp/src/lib/merkle.ts:35 | "0x", "0o" or "0b" in either case, then digits of that radix, read as their value in that radix |
| `Text.BigIntOfNegative` | webapp/src/lib/merkle.ts:35 | a minus sign before decimal digits gives the negated value |
| `Sorting.SortByIsSorted` | webapp/src/lib/census/tree.ts:67-71 | the sort returns a sorted permutation of its input |
| `Sorting.SortByStable` | webapp/src/lib/census/tree.ts:67-71 | the sort is stable: elements that compare equal keep their input order |
| `Sorting.SortByPermutationInvariant` | webapp/src/hooks/useDelegation.ts:48-55 | under an antisymmetric order, the sorted result does not depend on the input order |

## Left out

- Poseidon and Keccak-256 are not modelled; the hash is a parameter, and no property depends on its arithmetic.
- The external LeanIMT libraries are not part of this model. `LeanImt.Tree` states their insert, update, index-of, root and proof behaviour through the pairing loop of `delegation-tool/internal/merkle/tree.go`, as an assumption.
- Network and chain access is modelled as input values:
  - the subgraph, RPC and Alchemy clients, the contract bindings and ENS are not part of this model;
  - the event pages, contract slot reads, RPC outcomes and Alchemy responses are oracle parameters;
  - an oracle stands for one fixed history: pages of one event log, calls on one contract state.
- Address parsing is a parameter:
  - `common.HexToAddress` and `ethers.isAddress` with its checksum rules are not part of this model;
  - addresses are parsed as "0x" plus hex digits, and `isAddress` is an opaque predicate.
- `CensusTreeTs.PackLeaf`, `MerkleProofs.PackLeaf`, `CensusFetch.Nodes`: an address is read as "0x" plus hex digits. `BigInt(address)` also accepts "0X", decimal text and white space around the text, and gives a negative leaf for "-…"; those spellings are not modelled.
- `Text.ToLower`: lowercases ASCII letters only, where `toLowerCase` follows Unicode. The two agree on hex addresses and on the rate-limit phrases, which are all that the cache key, `AlchemyCache.FindContract`, the `CensusTreeTs` keys and `MerkleProofs.FindNode` lowercase.
- `LeanImt.NextLevel`, `LeanImt.BuildNextLevel`: the hash is a parameter, so the error `poseidon.Hash` returns for an input outside the field (`delegation-tool/internal/merkle/tree.go:162-165`) is not modelled; packed leaves and hashes lie inside the field.
- `WebUtils.NetworkNameOfNumber`: chain ids are natural numbers; negative or fractional numbers, whose `toString(16)` gives "-…" or a fraction, are not modelled.
- CLI plumbing is not modelled: flag parsing, printing, transaction sending and confirmation polling, and `delegation-tool/cmd/verify-tree/main.go`.
- Floating point and locale are not modelled: `weiToEther`, `weiToGwei`, the gas multiplier and `formatNumber`.
- `CensusFetch.InsertionOrder`: `localeCompare` on ids is modelled as code-unit order. The two agree on the lowercase hex ids the subgraph returns.
- `CensusFetch.Nodes`: `parseInt` of the block number and of the weight is modelled on unbounded integers, so the loss of precision above 2^53 is not modelled. The fields of `SubgraphAccount` are natural numbers, so a string `parseInt` cannot read (`NaN`, after which `BigInt` in `packLeaf` throws a `RangeError`) is not covered.
- Timers are not modelled: `sleep`, `debounce` and the `setTimeout` waits. Only the delay values of the retry policy are modelled (`ContractClient.RetryMeaning`).
- The clock is a parameter: the cache's `Date.now()` readings are arguments, `now` for the lookup and `storedAt` for the store in `AlchemyCache.AlchemyService.GetNftsForOwner`.
- `AlchemyCache.AlchemyService.SetCache`: the `Date.now()` that `cleanupCache` reads is modelled as the same reading as the new entry's timestamp; a clock that advances between the two readings is not modelled.
- React components, wallet wiring and `executeDelegationPlan`/`executeOperation` are not modelled; the plan stops at the classified operations.
- `DelegationState.CalculateTransactionPlan`: the per-delegate on-chain weight is a function parameter, and operation descriptions and status fields (display strings) are not modelled.
- The console logging in every handler is not modelled.
- `CensusReplay.ReconstructTree`: weights are parsed as 64-bit values. The Go tool's cast of a weight of 2^63 or more to `int64` is not replayed; it is recorded as a finding against the leaf packing and modelled as the corrected packing.
- `CensusTreeTs.BuildCensusTree`: the browser's sort algorithm is modelled as a stable insertion sort. ECMA-262 requires `Array.prototype.sort` to be stable, so the order is the same. The comparator throws on an unparsable address; with two or more accounts the model returns `SortFailed`, without saying which comparison threw first.
- `CensusTreeTs.BuildCensusTree`, `CensusTreeTs.PackLeaf`, `CensusTreeTs.VerifyProof`: weights are natural numbers. The string `BigInt(account.weight)` parses is not modelled, so a weight that does not parse (an exception) or is negative is not covered. `packLeaf` and `verifyProof` take a `bigint` weight; a negative one gives a negative leaf that passes the field check, and that case is not modelled.
- `ContractClient.ExecuteWithRetry`: `maxRetries` is a natural number. A negative count, which runs no attempt and throws `undefined`, is not modelled. Neither is a fractional count, which never equals the attempt number and so leaves the loop to throw the last error.
- `WebUtils.NetworkNameOfString`: the network table is a plain JavaScript object, so a key it inherits from `Object.prototype` ("constructor", "toString", "__proto__" and the others) gives that inherited member, not "Unknown Network". The model treats every string outside the table's own five keys as unknown.
- `WebUtils.FormatAddress`: the lengths are natural numbers; negative lengths, which `slice` counts from the end, are not modelled. The default lengths 6 and 4 are passed explicitly (`WebUtils.FormatValidAddress`, `UrlAddress.FormatAddressAgrees`).
- `CensusScan.ReconstructTree`: the contract's account list, its failing calls and its delegation records are one fixed state; concurrent changes to the contract during a scan are not modelled.
- `SubgraphMapping.Store.HandlePledged`: entity ids are numbers, not lowercase hex strings. Lowercasing is left out: two spellings of one address are the same id.
- `AlchemyCache.AlchemyService.GetNftsForOwner`: the Alchemy call and the token-id conversion (`parseInt` of the hex id) are parameters.

## Findings

| source | as written | input that shows it | evidently intended | confidence | as-written member | corrected member |
|---|---|---|---|---|---|---|
| go-tool/census/reconstruct.go:183-193 | `PackLeaf` converts the 64-bit weight with `int64(weight)` before the `Or`, so a weight of 2^63 or more becomes negative and the packed leaf no longer depends on the address; the replay loop packs its leaves the same way (lines 117 and 120) | any two addresses with weight 2^63: both pack to -2^63 | `(address << 88) \| weight` for every 64-bit weight, which `UnpackLeaf` inverts | not executed | `LeafCodec.PackLeafAsWrittenCollides` | `LeafCodec.UnpackPackRoundTrip` |
| delegation-tool/internal/merkle/tree.go:106-124 | `GenerateProof` builds the proof over the compacted list of scanned nodes, skipping the zero slots left by removals, while the contract's tree keeps those slots | slot 0 removed, slot 1 holds leaf L, hash with h(0, L) ≠ L: the proof is empty and folds to L, while the contract's root is h(0, L) | the proof over the full slot list, with 0 at removed slots, taken at the node's slot index | not executed | `CensusScan.CompactedProofIgnoresTombstone` | `CensusScan.ScanRebuildsChainLeaves` |
| webapp/src/lib/census/tree.ts:143-154 | `verifyProof` hashes each step as (min, max) of the running value and the sibling, but the tree pairs nodes by position | leaves [a, b, c] with a < b, h(a, b) > c and h(c, h(a, b)) ≠ h(h(a, b), c): the tree's proof [b, c] for a is rejected | fold by position, using the leaf index and tree size as the tree does | not executed | `CensusTreeTs.SortedFoldRejectsTreeProof` | `CensusTreeTs.PositionalProofAccepted` |
