/**
 * initializeDelegationState: the delegation state built from the connected account's NFTs.
 * The NFTs are grouped by collection; the collections are visited in ascending index order
 * (the order Object.entries gives integer keys) and each collection's NFTs in list order.
 */
module DelegationInit {
  import opened Wrappers
  import opened DelegationState

  /** One NFT of the account; delegatedTo is empty when the token is not delegated. */
  datatype NftInfo = NftInfo(collectionIndex: nat, tokenId: string, collectionAddress: string, delegatedTo: string)

  /** The truthiness test on `nft.delegatedTo`. */
  predicate IsDelegated(nft: NftInfo)
  {
    nft.delegatedTo != ""
  }

  predicate StrictlyIncreasing(ks: seq<nat>)
  {
    forall i, j :: 0 <= i < j < |ks| ==> ks[i] < ks[j]
  }

  /** Inserts k into a strictly increasing list, unless it is there already. */
  function InsertKey(ks: seq<nat>, k: nat): (r: seq<nat>)
    requires StrictlyIncreasing(ks)
    ensures StrictlyIncreasing(r)
    ensures forall x :: x in r <==> x in ks || x == k
  {
    if ks == [] then [k]
    else if k < ks[0] then [k] + ks
    else if k == ks[0] then ks
    else
      var rest := InsertKey(ks[1..], k);
      assert forall x :: x in ks <==> x == ks[0] || x in ks[1..];
      assert forall x :: x in rest ==> ks[0] < x;
      ConsIncreasing(ks[0], rest);
      [ks[0]] + rest
  }

  lemma {:induction false} ConsIncreasing(h: nat, rest: seq<nat>)
    requires StrictlyIncreasing(rest) && forall x :: x in rest ==> h < x
    ensures StrictlyIncreasing([h] + rest)
    ensures forall x :: x in [h] + rest <==> x == h || x in rest
  {
    var r := [h] + rest;
    forall i, j | 0 <= i < j < |r|
      ensures r[i] < r[j]
    {
      assert r[j] == rest[j - 1] && rest[j - 1] in rest;
      if i > 0 {
        assert r[i] == rest[i - 1];
      }
    }
  }

  /** The keys of the grouping object, in the order Object.entries visits them. */
  function CollectionKeys(nfts: seq<NftInfo>): (r: seq<nat>)
    ensures StrictlyIncreasing(r)
    ensures forall c :: c in r <==> exists i :: 0 <= i < |nfts| && nfts[i].collectionIndex == c
  {
    if nfts == [] then []
    else
      var init := nfts[..|nfts| - 1];
      var r := InsertKey(CollectionKeys(init), nfts[|nfts| - 1].collectionIndex);
      assert forall i :: 0 <= i < |init| ==> init[i] == nfts[i];
      r
  }

  /** The NFTs of one collection, in list order: every member belongs to it, and every NFT of it is a member. */
  function Group(nfts: seq<NftInfo>, c: nat): (r: seq<NftInfo>)
    ensures |r| <= |nfts|
    ensures forall i :: 0 <= i < |r| ==> r[i].collectionIndex == c
    ensures forall i :: 0 <= i < |nfts| && nfts[i].collectionIndex == c ==> nfts[i] in r
  {
    if nfts == [] then []
    else
      var init := Group(nfts[..|nfts| - 1], c);
      assert forall i :: 0 <= i < |nfts| - 1 ==> nfts[..|nfts| - 1][i] == nfts[i];
      if nfts[|nfts| - 1].collectionIndex == c then init + [nfts[|nfts| - 1]] else init
  }

  function TokenIds(nfts: seq<NftInfo>): (r: seq<string>)
    ensures |r| == |nfts|
    ensures forall i :: 0 <= i < |r| ==> r[i] == nfts[i].tokenId
  {
    if nfts == [] then [] else TokenIds(nfts[..|nfts| - 1]) + [nfts[|nfts| - 1].tokenId]
  }

  lemma {:induction false} TokenIdsAppend(nfts: seq<NftInfo>, nft: NftInfo)
    ensures TokenIds(nfts + [nft]) == TokenIds(nfts) + [nft.tokenId]
  {
    assert (nfts + [nft])[..|nfts|] == nfts;
  }

  function DelegatedCount(nfts: seq<NftInfo>): (r: nat)
    ensures r <= |nfts|
  {
    if nfts == [] then 0
    else DelegatedCount(nfts[..|nfts| - 1]) + (if IsDelegated(nfts[|nfts| - 1]) then 1 else 0)
  }

  /**
   * The number of NFTs whose collection is among cs: all of them, or only the delegated ones.
   */
  function CountIn(nfts: seq<NftInfo>, cs: seq<nat>, delegatedOnly: bool): nat
  {
    if nfts == [] then 0
    else
      var n := nfts[|nfts| - 1];
      CountIn(nfts[..|nfts| - 1], cs, delegatedOnly)
        + (if n.collectionIndex in cs && (!delegatedOnly || IsDelegated(n)) then 1 else 0)
  }

  lemma {:induction false} CountInSplit(nfts: seq<NftInfo>, cs: seq<nat>, c: nat, delegatedOnly: bool)
    requires c !in cs
    ensures CountIn(nfts, cs + [c], delegatedOnly) == CountIn(nfts, cs, delegatedOnly) + CountIn(nfts, [c], delegatedOnly)
  {
    if nfts != [] {
      CountInSplit(nfts[..|nfts| - 1], cs, c, delegatedOnly);
    }
  }

  lemma {:induction false} CountInNone(nfts: seq<NftInfo>, delegatedOnly: bool)
    ensures CountIn(nfts, [], delegatedOnly) == 0
  {
    if nfts != [] {
      CountInNone(nfts[..|nfts| - 1], delegatedOnly);
    }
  }

  lemma {:induction false} GroupCounts(nfts: seq<NftInfo>, c: nat)
    ensures |Group(nfts, c)| == CountIn(nfts, [c], false)
    ensures DelegatedCount(Group(nfts, c)) == CountIn(nfts, [c], true)
  {
    if nfts != [] {
      var init := nfts[..|nfts| - 1];
      GroupCounts(init, c);
      if nfts[|nfts| - 1].collectionIndex == c {
        assert (Group(init, c) + [nfts[|nfts| - 1]])[..|Group(init, c)|] == Group(init, c);
      }
    }
  }

  lemma {:induction false} CountInAll(nfts: seq<NftInfo>, cs: seq<nat>)
    requires forall i :: 0 <= i < |nfts| ==> nfts[i].collectionIndex in cs
    ensures CountIn(nfts, cs, false) == |nfts|
    ensures CountIn(nfts, cs, true) == DelegatedCount(nfts)
  {
    if nfts != [] {
      CountInAll(nfts[..|nfts| - 1], cs);
    }
  }

  /** The NFTs in the order the initialization visits them: collection by collection. */
  function Traversal(nfts: seq<NftInfo>, ks: seq<nat>): seq<NftInfo>
  {
    if ks == [] then [] else Traversal(nfts, ks[..|ks| - 1]) + Group(nfts, ks[|ks| - 1])
  }

  lemma {:induction false} GroupHolds(nfts: seq<NftInfo>, j: nat)
    requires j < |nfts|
    ensures nfts[j] in Group(nfts, nfts[j].collectionIndex)
  {
    if j < |nfts| - 1 {
      GroupHolds(nfts[..|nfts| - 1], j);
    }
  }

  /** The traversal over the collection keys meets every NFT. */
  lemma {:induction false} TraversalHolds(nfts: seq<NftInfo>, ks: seq<nat>, j: nat)
    requires j < |nfts| && nfts[j].collectionIndex in ks
    ensures nfts[j] in Traversal(nfts, ks)
  {
    if ks[|ks| - 1] == nfts[j].collectionIndex {
      GroupHolds(nfts, j);
    } else {
      TraversalHolds(nfts, ks[..|ks| - 1], j);
    }
  }

  /** The traversal only meets NFTs of the list. */
  lemma {:induction false} TraversalWithin(nfts: seq<NftInfo>, ks: seq<nat>, x: NftInfo)
    requires x in Traversal(nfts, ks)
    ensures x in nfts
  {
    if ks != [] {
      if x in Traversal(nfts, ks[..|ks| - 1]) {
        TraversalWithin(nfts, ks[..|ks| - 1], x);
      } else {
        GroupWithin(nfts, ks[|ks| - 1], x);
      }
    }
  }

  lemma {:induction false} GroupWithin(nfts: seq<NftInfo>, c: nat, x: NftInfo)
    requires x in Group(nfts, c)
    ensures x in nfts
  {
    if nfts != [] {
      if x in Group(nfts[..|nfts| - 1], c) {
        GroupWithin(nfts[..|nfts| - 1], c, x);
      }
    }
  }

  /** One delegated NFT seen by the initialization: its delegate gains the token, current and pending alike. */
  function AddToken(ds: seq<DelegateInfo>, nft: NftInfo): seq<DelegateInfo>
  {
    if !IsDelegated(nft) then ds
    else
      var d := match Find(ds, nft.delegatedTo)
               case Some(i) => ds[i]
               case None => DelegateInfo(nft.delegatedTo, [], [], 0, 0, 0);
      var tokens := d.currentTokens + [nft.tokenId];
      Put(ds, d.(currentTokens := tokens, currentCount := d.currentCount + 1,
                 pendingTokens := tokens, pendingCount := d.currentCount + 1))
  }

  function AddTokens(ds: seq<DelegateInfo>, nfts: seq<NftInfo>): seq<DelegateInfo>
  {
    if nfts == [] then ds else AddToken(AddTokens(ds, nfts[..|nfts| - 1]), nfts[|nfts| - 1])
  }

  lemma {:induction false} AddTokensAppend(ds: seq<DelegateInfo>, a: seq<NftInfo>, b: seq<NftInfo>)
    ensures AddTokens(ds, a + b) == AddTokens(AddTokens(ds, a), b)
    decreases |b|
  {
    if b == [] {
      assert a + b == a;
    } else {
      assert (a + b)[..|a + b| - 1] == a + b[..|b| - 1];
      AddTokensAppend(ds, a, b[..|b| - 1]);
    }
  }

  /** The NFTs of a list delegated to one address. */
  function DelegatedTo(nfts: seq<NftInfo>, address: string): seq<NftInfo>
  {
    if nfts == [] then []
    else
      var init := DelegatedTo(nfts[..|nfts| - 1], address);
      if IsDelegated(nfts[|nfts| - 1]) && nfts[|nfts| - 1].delegatedTo == address then init + [nfts[|nfts| - 1]] else init
  }

  /** The delegates of a fresh state hold distinct addresses and agree in their current and pending counts. */
  predicate WellFormed(ds: seq<DelegateInfo>)
  {
    UniqueAddresses(ds)
    && forall i :: 0 <= i < |ds| ==>
         ds[i].address != "" && Consistent(ds[i])
         && ds[i].pendingCount == ds[i].currentCount && ds[i].pendingTokens == ds[i].currentTokens
  }

  function TotalCurrent(ds: seq<DelegateInfo>): nat
  {
    if ds == [] then 0 else TotalCurrent(ds[..|ds| - 1]) + ds[|ds| - 1].currentCount
  }

  lemma {:induction false} TotalCurrentUpdate(ds: seq<DelegateInfo>, i: nat, d: DelegateInfo)
    requires i < |ds|
    ensures TotalCurrent(ds[i := d]) == TotalCurrent(ds) - ds[i].currentCount + d.currentCount
  {
    var n := |ds| - 1;
    if i < n {
      assert ds[i := d][..n] == ds[..n][i := d];
      TotalCurrentUpdate(ds[..n], i, d);
    } else {
      assert ds[i := d][..n] == ds[..n];
    }
  }

  /** One step keeps the delegates well formed. */
  lemma {:induction false} AddTokenWellFormed(ds: seq<DelegateInfo>, nft: NftInfo)
    requires WellFormed(ds)
    ensures WellFormed(AddToken(ds, nft))
  {
    if IsDelegated(nft) && Find(ds, nft.delegatedTo).None? {
      assert [] + [nft.tokenId] == [nft.tokenId];
    }
  }

  /** One step: the delegated-to address gains a delegate, every other lookup is unchanged. */
  lemma {:induction false} AddTokenFind(ds: seq<DelegateInfo>, nft: NftInfo, address: string)
    ensures Find(AddToken(ds, nft), address).Some? <==>
              Find(ds, address).Some? || (IsDelegated(nft) && nft.delegatedTo == address)
  {
    var r := AddToken(ds, nft);
    if IsDelegated(nft) {
      match Find(ds, nft.delegatedTo)
      case Some(k) =>
        assert forall i :: 0 <= i < |r| ==> r[i].address == ds[i].address;
      case None =>
        assert forall i :: 0 <= i < |ds| ==> r[i].address == ds[i].address;
        assert r[|r| - 1].address == nft.delegatedTo;
    }
  }

  /** One step adds one to the current counts exactly when the NFT is delegated. */
  lemma {:induction false} AddTokenTotal(ds: seq<DelegateInfo>, nft: NftInfo)
    ensures TotalCurrent(AddToken(ds, nft)) == TotalCurrent(ds) + (if IsDelegated(nft) then 1 else 0)
  {
    if IsDelegated(nft) {
      match Find(ds, nft.delegatedTo)
      case Some(k) =>
        TotalCurrentUpdate(ds, k, AddToken(ds, nft)[k]);
      case None =>
        var r := AddToken(ds, nft);
        assert r[..|r| - 1] == ds;
    }
  }

  lemma {:induction false} DelegatesWellFormed(nfts: seq<NftInfo>)
    ensures WellFormed(AddTokens([], nfts))
  {
    if nfts != [] {
      DelegatesWellFormed(nfts[..|nfts| - 1]);
      AddTokenWellFormed(AddTokens([], nfts[..|nfts| - 1]), nfts[|nfts| - 1]);
    }
  }

  /** The delegates found are exactly the addresses some NFT is delegated to. */
  lemma {:induction false} DelegatesPresent(nfts: seq<NftInfo>, address: string)
    ensures Find(AddTokens([], nfts), address).Some? <==>
              exists i :: 0 <= i < |nfts| && IsDelegated(nfts[i]) && nfts[i].delegatedTo == address
  {
    if nfts != [] {
      var init := nfts[..|nfts| - 1];
      DelegatesPresent(init, address);
      AddTokenFind(AddTokens([], init), nfts[|nfts| - 1], address);
      assert forall i :: 0 <= i < |init| ==> init[i] == nfts[i];
      if exists i :: 0 <= i < |nfts| && IsDelegated(nfts[i]) && nfts[i].delegatedTo == address {
        var i :| 0 <= i < |nfts| && IsDelegated(nfts[i]) && nfts[i].delegatedTo == address;
        if i < |init| {
          assert IsDelegated(init[i]) && init[i].delegatedTo == address;
        }
      }
    }
  }

  /** The delegates' current counts add up to the delegated NFTs. */
  lemma {:induction false} DelegatesTotal(nfts: seq<NftInfo>)
    ensures TotalCurrent(AddTokens([], nfts)) == DelegatedCount(nfts)
  {
    if nfts != [] {
      DelegatesTotal(nfts[..|nfts| - 1]);
      AddTokenTotal(AddTokens([], nfts[..|nfts| - 1]), nfts[|nfts| - 1]);
    }
  }

  lemma {:induction false} DelegatedCountAppend(a: seq<NftInfo>, b: seq<NftInfo>)
    ensures DelegatedCount(a + b) == DelegatedCount(a) + DelegatedCount(b)
    decreases |b|
  {
    if b == [] {
      assert a + b == a;
    } else {
      assert (a + b)[..|a + b| - 1] == a + b[..|b| - 1];
      DelegatedCountAppend(a, b[..|b| - 1]);
    }
  }

  /** The traversal of distinct collections meets the delegated NFTs of those collections, each once. */
  lemma {:induction false} TraversalDelegated(nfts: seq<NftInfo>, ks: seq<nat>)
    requires StrictlyIncreasing(ks)
    ensures DelegatedCount(Traversal(nfts, ks)) == CountIn(nfts, ks, true)
  {
    if ks == [] {
      CountInNone(nfts, true);
    } else {
      var init := ks[..|ks| - 1];
      var last := ks[|ks| - 1];
      assert StrictlyIncreasing(init);
      TraversalDelegated(nfts, init);
      DelegatedCountAppend(Traversal(nfts, init), Group(nfts, last));
      assert last !in init;
      assert ks == init + [last];
      CountStep(nfts, init, last);
    }
  }

  /** Each delegate holds, as current tokens, exactly the tokens delegated to it, in visiting order. */
  predicate HoldTheirTokens(ds: seq<DelegateInfo>, nfts: seq<NftInfo>)
  {
    forall i :: 0 <= i < |ds| ==> ds[i].currentTokens == TokenIds(DelegatedTo(nfts, ds[i].address))
  }

  lemma {:induction false} DelegatesHoldTheirTokens(nfts: seq<NftInfo>)
    ensures HoldTheirTokens(AddTokens([], nfts), nfts)
  {
    if nfts != [] {
      var init := nfts[..|nfts| - 1];
      var nft := nfts[|nfts| - 1];
      DelegatesHoldTheirTokens(init);
      DelegatesWellFormed(init);
      var before := AddTokens([], init);
      var ds := AddTokens([], nfts);
      if !IsDelegated(nft) {
        assert ds == before;
        assert forall i :: 0 <= i < |ds| ==> DelegatedTo(nfts, ds[i].address) == DelegatedTo(init, ds[i].address);
      } else {
        match Find(before, nft.delegatedTo)
        case Some(k) =>
          forall i | 0 <= i < |ds|
            ensures ds[i].currentTokens == TokenIds(DelegatedTo(nfts, ds[i].address))
          {
            if i != k {
              assert ds[i] == before[i];
              assert before[i].address != before[k].address;
            } else {
              TokenIdsAppend(DelegatedTo(init, nft.delegatedTo), nft);
            }
          }
        case None =>
          assert DelegatedTo(init, nft.delegatedTo) == [] by {
            forall j | 0 <= j < |init| && IsDelegated(init[j])
              ensures init[j].delegatedTo != nft.delegatedTo
            {
              DelegatesPresent(init, init[j].delegatedTo);
            }
            DelegatedToAbsent(init, nft.delegatedTo);
          }
          forall i | 0 <= i < |ds|
            ensures ds[i].currentTokens == TokenIds(DelegatedTo(nfts, ds[i].address))
          {
            var tokens: seq<string> := [] + [nft.tokenId];
            assert ds == before + [DelegateInfo(nft.delegatedTo, tokens, tokens, 1, 1, 0)];
            if i < |before| {
              assert ds[i] == before[i];
              assert before[i].address != nft.delegatedTo;
              assert DelegatedTo(nfts, ds[i].address) == DelegatedTo(init, before[i].address);
              assert before[i].currentTokens == TokenIds(DelegatedTo(init, before[i].address));
            } else {
              assert DelegatedTo(nfts, nft.delegatedTo) == [] + [nft];
              TokenIdsAppend([], nft);
              assert ds[i].currentTokens == tokens;
            }
          }
      }
    }
  }

  lemma {:induction false} DelegatedToAbsent(nfts: seq<NftInfo>, address: string)
    requires forall i :: 0 <= i < |nfts| && IsDelegated(nfts[i]) ==> nfts[i].delegatedTo != address
    ensures DelegatedTo(nfts, address) == []
  {
    if nfts != [] {
      DelegatedToAbsent(nfts[..|nfts| - 1], address);
    }
  }

  /** Adding one collection to the counted ones adds its NFTs, and its delegated NFTs. */
  lemma {:induction false} CountStep(nfts: seq<NftInfo>, seen: seq<nat>, c: nat)
    requires c !in seen
    ensures CountIn(nfts, seen + [c], false) == CountIn(nfts, seen, false) + |Group(nfts, c)|
    ensures CountIn(nfts, seen + [c], true) == CountIn(nfts, seen, true) + DelegatedCount(Group(nfts, c))
  {
    GroupCounts(nfts, c);
    CountInSplit(nfts, seen, c, false);
    CountInSplit(nfts, seen, c, true);
  }

  /** What the initialization has built after some collections. */
  datatype Tally = Tally(ownedTokens: seq<(nat, seq<string>)>, delegates: seq<DelegateInfo>,
                         available: map<nat, nat>, addresses: map<nat, string>, owned: nat, delegated: nat)

  /** One collection's turn: its tokens, its first NFT's address, its undelegated count and its delegates. */
  function VisitCollection(t: Tally, nfts: seq<NftInfo>, c: nat): Tally
  {
    var group := Group(nfts, c);
    Tally(t.ownedTokens + [(c, TokenIds(group))],
          AddTokens(t.delegates, group),
          t.available[c := |group| - DelegatedCount(group)],
          if group != [] then t.addresses[c := group[0].collectionAddress] else t.addresses,
          t.owned + |group|,
          t.delegated + DelegatedCount(group))
  }

  /** The collections visited in the order given. */
  function Visit(nfts: seq<NftInfo>, ks: seq<nat>): Tally
  {
    if ks == [] then Tally([], [], map[], map[], 0, 0)
    else VisitCollection(Visit(nfts, ks[..|ks| - 1]), nfts, ks[|ks| - 1])
  }

  /** initializeDelegationState as a function of the NFTs and the connected account ("" when none). */
  function InitialState(nfts: seq<NftInfo>, userAddress: string): DelegationState
  {
    var t := Visit(nfts, CollectionKeys(nfts));
    var delegates := if userAddress != "" && Find(t.delegates, userAddress).None? && |t.delegates| == 0
                     then Put(t.delegates, DelegateInfo(userAddress, [], [], 0, 0, 0))
                     else t.delegates;
    DelegationState(t.ownedTokens, delegates, t.available, t.addresses, t.owned, t.delegated)
  }

  /** Visiting collections lists each one's tokens in turn. */
  lemma {:induction false} VisitListsTokens(nfts: seq<NftInfo>, ks: seq<nat>)
    ensures |Visit(nfts, ks).ownedTokens| == |ks|
    ensures forall i :: 0 <= i < |ks| ==> Visit(nfts, ks).ownedTokens[i] == (ks[i], TokenIds(Group(nfts, ks[i])))
  {
    if ks != [] {
      VisitListsTokens(nfts, ks[..|ks| - 1]);
    }
  }

  /** Visiting collections gathers the delegates along the traversal. */
  lemma {:induction false} VisitGathersDelegates(nfts: seq<NftInfo>, ks: seq<nat>)
    ensures Visit(nfts, ks).delegates == AddTokens([], Traversal(nfts, ks))
  {
    if ks != [] {
      var init := ks[..|ks| - 1];
      VisitGathersDelegates(nfts, init);
      AddTokensAppend([], Traversal(nfts, init), Group(nfts, ks[|ks| - 1]));
    }
  }

  /** Visiting distinct collections that all hold NFTs fills both maps for exactly those collections. */
  lemma {:induction false} VisitMaps(nfts: seq<NftInfo>, ks: seq<nat>)
    requires forall i :: 0 <= i < |ks| ==> Group(nfts, ks[i]) != []
    ensures forall c :: c in Visit(nfts, ks).available <==> c in ks
    ensures Visit(nfts, ks).addresses.Keys == Visit(nfts, ks).available.Keys
    ensures forall c :: c in Visit(nfts, ks).available ==>
              Group(nfts, c) != [] &&
              Visit(nfts, ks).available[c] == |Group(nfts, c)| - DelegatedCount(Group(nfts, c))
              && Visit(nfts, ks).addresses[c] == Group(nfts, c)[0].collectionAddress
  {
    if ks != [] {
      VisitMaps(nfts, ks[..|ks| - 1]);
      assert forall c :: c in ks <==> c in ks[..|ks| - 1] || c == ks[|ks| - 1];
    }
  }

  lemma {:induction false} VisitStepCounts(nfts: seq<NftInfo>, ks: seq<nat>)
    requires ks != []
    ensures Visit(nfts, ks).owned == Visit(nfts, ks[..|ks| - 1]).owned + |Group(nfts, ks[|ks| - 1])|
    ensures Visit(nfts, ks).delegated == Visit(nfts, ks[..|ks| - 1]).delegated + DelegatedCount(Group(nfts, ks[|ks| - 1]))
  {
  }

  /** Visiting distinct collections counts the NFTs, and the delegated NFTs, of those collections. */
  lemma {:induction false} VisitCounts(nfts: seq<NftInfo>, ks: seq<nat>)
    requires StrictlyIncreasing(ks)
    ensures Visit(nfts, ks).owned == CountIn(nfts, ks, false)
    ensures Visit(nfts, ks).delegated == CountIn(nfts, ks, true)
  {
    if ks == [] {
      CountInNone(nfts, false);
      CountInNone(nfts, true);
    } else {
      var init := ks[..|ks| - 1];
      var last := ks[|ks| - 1];
      assert StrictlyIncreasing(init);
      VisitCounts(nfts, init);
      assert last !in init;
      assert ks == init + [last];
      CountStep(nfts, init, last);
      VisitStepCounts(nfts, ks);
    }
  }

  /**
   * The state the initialization builds. Every NFT is counted as owned and every delegated
   * one as delegated; exactly the collections holding NFTs get an available count, their
   * undelegated NFTs, and an address, their first NFT's; the owned tokens are listed
   * collection by collection in ascending index order.
   */
  lemma {:induction false} InitialStateCounts(nfts: seq<NftInfo>, userAddress: string)
    ensures var st := InitialState(nfts, userAddress);
            st.totalOwnedTokens == |nfts|
            && st.totalDelegatedTokens == DelegatedCount(nfts)
            && (forall c :: c in st.availableTokens <==> exists i :: 0 <= i < |nfts| && nfts[i].collectionIndex == c)
            && st.collectionAddresses.Keys == st.availableTokens.Keys
            && (forall c :: c in st.availableTokens ==>
                  Group(nfts, c) != []
                  && st.availableTokens[c] == |Group(nfts, c)| - DelegatedCount(Group(nfts, c))
                  && st.collectionAddresses[c] == Group(nfts, c)[0].collectionAddress)
            && |st.ownedTokens| == |CollectionKeys(nfts)|
            && (forall i :: 0 <= i < |st.ownedTokens| ==>
                  st.ownedTokens[i] == (CollectionKeys(nfts)[i], TokenIds(Group(nfts, CollectionKeys(nfts)[i]))))
  {
    var keys := CollectionKeys(nfts);
    forall i | 0 <= i < |keys|
      ensures Group(nfts, keys[i]) != []
    {
      GroupOfKey(nfts, keys[i]);
    }
    VisitListsTokens(nfts, keys);
    VisitMaps(nfts, keys);
    VisitCounts(nfts, keys);
    CountInAll(nfts, keys);
  }

  /**
   * The delegates the initialization builds: well formed, exactly the addresses some NFT
   * is delegated to, each holding exactly those NFTs' tokens in visiting order (the traversal
   * holds the same NFTs, collection by collection), their counts adding up to the delegated
   * total; the connected account is added, as an empty delegate, only when no NFT is
   * delegated.
   */
  lemma {:induction false} InitialStateDelegates(nfts: seq<NftInfo>, userAddress: string)
    ensures var found := Visit(nfts, CollectionKeys(nfts)).delegates;
            var traversal := Traversal(nfts, CollectionKeys(nfts));
            WellFormed(found)
            && HoldTheirTokens(found, traversal)
            && TotalCurrent(found) == DelegatedCount(nfts)
            && (forall address :: Find(found, address).Some? <==>
                  exists i :: 0 <= i < |nfts| && IsDelegated(nfts[i]) && nfts[i].delegatedTo == address)
            && InitialState(nfts, userAddress).delegates ==
                 if userAddress != "" && found == [] then [DelegateInfo(userAddress, [], [], 0, 0, 0)] else found
  {
    var keys := CollectionKeys(nfts);
    VisitGathersDelegates(nfts, keys);
    var traversal := Traversal(nfts, keys);
    DelegatesWellFormed(traversal);
    DelegatesHoldTheirTokens(traversal);
    DelegatesTotal(traversal);
    TraversalDelegated(nfts, keys);
    CountInAll(nfts, keys);
    forall address
      ensures Find(AddTokens([], traversal), address).Some? <==>
                exists i :: 0 <= i < |nfts| && IsDelegated(nfts[i]) && nfts[i].delegatedTo == address
    {
      DelegateFound(nfts, address);
    }
  }

  /** An address has a delegate after the traversal exactly when some NFT of the list is delegated to it. */
  lemma {:induction false} DelegateFound(nfts: seq<NftInfo>, address: string)
    ensures Find(AddTokens([], Traversal(nfts, CollectionKeys(nfts))), address).Some? <==>
              exists i :: 0 <= i < |nfts| && IsDelegated(nfts[i]) && nfts[i].delegatedTo == address
  {
    var keys := CollectionKeys(nfts);
    var traversal := Traversal(nfts, keys);
    DelegatesPresent(traversal, address);
    if exists i :: 0 <= i < |nfts| && IsDelegated(nfts[i]) && nfts[i].delegatedTo == address {
      var i :| 0 <= i < |nfts| && IsDelegated(nfts[i]) && nfts[i].delegatedTo == address;
      TraversalHolds(nfts, keys, i);
      var j :| 0 <= j < |traversal| && traversal[j] == nfts[i];
    }
    if exists j :: 0 <= j < |traversal| && IsDelegated(traversal[j]) && traversal[j].delegatedTo == address {
      var j :| 0 <= j < |traversal| && IsDelegated(traversal[j]) && traversal[j].delegatedTo == address;
      TraversalWithin(nfts, keys, traversal[j]);
    }
  }

  /**
   * initializeDelegationState: the collections in ascending index order, each one's NFTs in
   * list order; the state it builds is the one InitialStateCounts and
   * InitialStateDelegates describe.
   */
  method InitializeDelegationState(nfts: seq<NftInfo>, userAddress: string) returns (st: DelegationState)
    ensures st == InitialState(nfts, userAddress)
  {
    var keys := CollectionKeys(nfts);
    var t := Tally([], [], map[], map[], 0, 0);
    var k := 0;
    while k < |keys|
      invariant k <= |keys|
      invariant t == Visit(nfts, keys[..k])
    {
      VisitNext(nfts, keys, k);
      t := AddCollectionToTally(t, nfts, keys[k]);
      k := k + 1;
    }
    assert keys[..k] == keys;
    var delegates := t.delegates;
    if userAddress != "" && Find(delegates, userAddress).None? && |delegates| == 0 {
      delegates := Put(delegates, DelegateInfo(userAddress, [], [], 0, 0, 0));
    }
    st := DelegationState(t.ownedTokens, delegates, t.available, t.addresses, t.owned, t.delegated);
  }

  /**
   * One collection of the outer forEach: its token ids are listed, its NFTs counted, its
   * address and available count filed, and its delegated NFTs added to their delegates.
   */
  method AddCollectionToTally(t: Tally, nfts: seq<NftInfo>, collectionIndex: nat) returns (r: Tally)
    ensures r == VisitCollection(t, nfts, collectionIndex)
  {
    var group := Group(nfts, collectionIndex);
    var collectionAddresses := t.addresses;
    if |group| > 0 {
      collectionAddresses := collectionAddresses[collectionIndex := group[0].collectionAddress];
    }
    var delegates, delegatedCount := AddCollection(t.delegates, group);
    r := Tally(t.ownedTokens + [(collectionIndex, TokenIds(group))], delegates,
               t.available[collectionIndex := |group| - delegatedCount], collectionAddresses,
               t.owned + |group|, t.delegated + delegatedCount);
  }

  lemma {:induction false} VisitNext(nfts: seq<NftInfo>, keys: seq<nat>, k: nat)
    requires k < |keys|
    ensures Visit(nfts, keys[..k + 1]) == VisitCollection(Visit(nfts, keys[..k]), nfts, keys[k])
  {
    assert keys[..k + 1][..k] == keys[..k];
  }

  /** Every collection key has NFTs. */
  lemma {:induction false} GroupOfKey(nfts: seq<NftInfo>, c: nat)
    requires c in CollectionKeys(nfts)
    ensures Group(nfts, c) != []
  {
    var j :| 0 <= j < |nfts| && nfts[j].collectionIndex == c;
    GroupHas(nfts, c, j);
  }

  lemma {:induction false} GroupHas(nfts: seq<NftInfo>, c: nat, j: nat)
    requires j < |nfts| && nfts[j].collectionIndex == c
    ensures Group(nfts, c) != []
  {
    if j < |nfts| - 1 {
      GroupHas(nfts[..|nfts| - 1], c, j);
    }
  }

  /** The inner forEach of the initialization: each delegated NFT of a collection, in order. */
  method AddCollection(ds: seq<DelegateInfo>, group: seq<NftInfo>) returns (r: seq<DelegateInfo>, delegated: nat)
    ensures r == AddTokens(ds, group)
    ensures delegated == DelegatedCount(group)
  {
    r := ds;
    delegated := 0;
    var j := 0;
    while j < |group|
      invariant j <= |group|
      invariant r == AddTokens(ds, group[..j])
      invariant delegated == DelegatedCount(group[..j])
    {
      assert group[..j + 1][..j] == group[..j];
      var nft := group[j];
      if nft.delegatedTo != "" {
        var delegateAddress := nft.delegatedTo;
        var found := Find(r, delegateAddress);
        var delegate := if found.Some? then r[found.value] else DelegateInfo(delegateAddress, [], [], 0, 0, 0);
        var tokens := delegate.currentTokens + [nft.tokenId];
        delegate := delegate.(currentTokens := tokens, currentCount := delegate.currentCount + 1);
        delegate := delegate.(pendingTokens := delegate.currentTokens, pendingCount := delegate.currentCount);
        r := Put(r, delegate);
        delegated := delegated + 1;
      }
      j := j + 1;
    }
    assert group[..j] == group;
  }
}
