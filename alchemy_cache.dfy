/**
 * The web app's NFT discovery service: a time-limited cache of NFT lists keyed by owner and
 * contract list, the conversion of the provider's NFTs into the app's NFT records, and the
 * guards around initialization and lookup. The clock is a parameter (`now`, milliseconds).
 */
module AlchemyCache {
  import opened Wrappers
  import Text
  import Sorting
  import DelegationInit

  /** Entries older than five minutes are stale. */
  const CacheTtl: int := 5 * 60 * 1000

  /** Cleanup runs once the cache holds more than this many entries. */
  const CleanupThreshold: nat := 100

  /**
   * getCacheKey: the lowercased owner, a dash, and the contracts in default string order,
   * joined by commas and then lowercased.
   */
  function CacheKey(owner: string, contracts: seq<string>): string
  {
    Text.ToLower(owner) + "-" + Text.ToLower(Text.Join(Sorting.SortBy(Text.LexLe, contracts), ","))
  }

  /** The key does not depend on the order the contracts are listed in. */
  lemma {:induction false} CacheKeyPermutationInvariant(owner: string, contracts: seq<string>, reordered: seq<string>)
    requires multiset(contracts) == multiset(reordered)
    ensures CacheKey(owner, contracts) == CacheKey(owner, reordered)
  {
    Text.LexLeIsTotalOrder();
    Sorting.SortByPermutationInvariant(Text.LexLe, contracts, reordered);
  }

  /** The key depends on the owner only through its lowercase form. */
  lemma {:induction false} CacheKeyIgnoresOwnerCase(owner: string, contracts: seq<string>)
    ensures CacheKey(owner, contracts) == CacheKey(Text.ToLower(owner), contracts)
  {
    Text.ToLowerIdempotent(owner);
  }

  /**
   * The contracts are sorted before they are lowercased, so one contract list spelled in two
   * cases can give two keys: "0xB" sorts before "0xa", but "0xb" after it.
   */
  lemma {:induction false} CacheKeyMixedCase()
    ensures Text.ToLower("0xB") == "0xb"
    ensures CacheKey("o", ["0xB", "0xa"]) != CacheKey("o", ["0xb", "0xa"])
  {
    assert Text.LexLe("0xB", "0xa");
    assert !Text.LexLe("0xb", "0xa");
    assert Sorting.SortBy(Text.LexLe, ["0xB", "0xa"]) == ["0xB", "0xa"];
    assert Sorting.SortBy(Text.LexLe, ["0xb", "0xa"]) == ["0xa", "0xb"];
    var k1 := CacheKey("o", ["0xB", "0xa"]);
    var k2 := CacheKey("o", ["0xb", "0xa"]);
    assert k1[4] == 'b';
    assert k2[4] == 'a';
  }

  /** A cached NFT list and the time it was stored. */
  datatype CacheEntry = CacheEntry(data: seq<DelegationInit.NftInfo>, timestamp: int)

  predicate Expired(entry: CacheEntry, now: int)
  {
    now - entry.timestamp > CacheTtl
  }

  /** The entries cleanup keeps: exactly the unexpired ones. */
  function Unexpired(cache: map<string, CacheEntry>, now: int): (r: map<string, CacheEntry>)
    ensures forall key :: key in r <==> key in cache && !Expired(cache[key], now)
    ensures forall key :: key in r ==> r[key] == cache[key]
  {
    map key | key in cache && !Expired(cache[key], now) :: cache[key]
  }

  /** setCache: the entry stamped now, then a cleanup once the cache has grown past the threshold. */
  function Stored(cache: map<string, CacheEntry>, key: string, data: seq<DelegationInit.NftInfo>, now: int)
    : map<string, CacheEntry>
  {
    var grown := cache[key := CacheEntry(data, now)];
    if |grown| > CleanupThreshold then Unexpired(grown, now) else grown
  }

  /** getFromCache: the stored data if the entry is at most the TTL old; a stale entry is dropped. */
  function Looked(cache: map<string, CacheEntry>, key: string, now: int)
    : (Option<seq<DelegationInit.NftInfo>>, map<string, CacheEntry>)
  {
    if key !in cache then (None, cache)
    else if Expired(cache[key], now) then (None, cache - {key})
    else (Some(cache[key].data), cache)
  }

  /**
   * What was stored is read back, unchanged, for the whole TTL after storing it (the bound is
   * inclusive), whatever else the cache held; other keys' entries survive storing unless
   * the cleanup drops them as expired.
   */
  lemma {:induction false} StoreThenLook(cache: map<string, CacheEntry>, key: string, data: seq<DelegationInit.NftInfo>,
                      stored: int, now: int)
    requires stored <= now <= stored + CacheTtl
    ensures Looked(Stored(cache, key, data, stored), key, now) == (Some(data), Stored(cache, key, data, stored))
    ensures forall other :: other != key && other in cache && !Expired(cache[other], stored) ==>
              other in Stored(cache, key, data, stored) && Stored(cache, key, data, stored)[other] == cache[other]
  {
  }

  /** A stale read or a cleanup only ever removes expired entries. */
  lemma {:induction false} LookedDropsOnlyExpired(cache: map<string, CacheEntry>, key: string, now: int)
    ensures var (r, after) := Looked(cache, key, now);
            after.Keys <= cache.Keys
            && (forall k :: k in cache && k !in after ==> k == key && Expired(cache[k], now))
            && (r.None? <==> (key !in cache || Expired(cache[key], now)))
  {
  }

  /** An NFT as the provider returns it. */
  datatype OwnedNft = OwnedNft(contractAddress: string, tokenId: string)

  /** `findIndex` with a case-insensitive comparison: the first matching contract, or -1. */
  function FindContract(contracts: seq<string>, address: string): (r: int)
    ensures -1 <= r < |contracts|
    ensures r == -1 <==> forall i :: 0 <= i < |contracts| ==> Text.ToLower(contracts[i]) != Text.ToLower(address)
    ensures r >= 0 ==> Text.ToLower(contracts[r]) == Text.ToLower(address)
                       && forall i :: 0 <= i < r ==> Text.ToLower(contracts[i]) != Text.ToLower(address)
  {
    if contracts == [] then -1
    else if Text.ToLower(contracts[0]) == Text.ToLower(address) then 0
    else
      var k := FindContract(contracts[1..], address);
      assert forall i :: 1 <= i < |contracts| ==> contracts[i] == contracts[1..][i - 1];
      if k == -1 then -1 else k + 1
  }

  /**
   * transformAlchemyNFTs, one NFT at a time: skipped when its contract is not listed,
   * otherwise a record with the listed contract's index, its token id converted by
   * `tokenIdOf`, its own contract address and no delegate.
   */
  function Transform(owned: seq<OwnedNft>, contracts: seq<string>, tokenIdOf: string -> string)
    : seq<DelegationInit.NftInfo>
  {
    if owned == [] then []
    else
      var init := Transform(owned[..|owned| - 1], contracts, tokenIdOf);
      var nft := owned[|owned| - 1];
      var index := FindContract(contracts, nft.contractAddress);
      if index == -1 then init
      else init + [DelegationInit.NftInfo(index, tokenIdOf(nft.tokenId), nft.contractAddress, "")]
  }

  /**
   * The conversion works element by element, keeping the input order: converting a
   * concatenation concatenates the conversions, and one NFT gives nothing or one record.
   */
  lemma {:induction false} TransformAppend(a: seq<OwnedNft>, b: seq<OwnedNft>, contracts: seq<string>,
                                           tokenIdOf: string -> string)
    ensures Transform(a + b, contracts, tokenIdOf) == Transform(a, contracts, tokenIdOf) + Transform(b, contracts, tokenIdOf)
    decreases |b|
  {
    if b == [] {
      assert a + b == a;
    } else {
      assert (a + b)[..|a + b| - 1] == a + b[..|b| - 1];
      TransformAppend(a, b[..|b| - 1], contracts, tokenIdOf);
    }
  }

  lemma {:induction false} TransformOne(nft: OwnedNft, contracts: seq<string>, tokenIdOf: string -> string)
    ensures var index := FindContract(contracts, nft.contractAddress);
            Transform([nft], contracts, tokenIdOf) ==
              if index == -1 then []
              else [DelegationInit.NftInfo(index, tokenIdOf(nft.tokenId), nft.contractAddress, "")]
  {
    assert [nft][..0] == [];
  }

  /** Every record names a listed contract that matches its address, and none is delegated. */
  lemma {:induction false} TransformRecords(owned: seq<OwnedNft>, contracts: seq<string>, tokenIdOf: string -> string)
    ensures var r := Transform(owned, contracts, tokenIdOf);
            |r| <= |owned|
            && forall i :: 0 <= i < |r| ==>
                 r[i].collectionIndex < |contracts|
                 && r[i].collectionIndex == FindContract(contracts, r[i].collectionAddress)
                 && r[i].delegatedTo == ""
  {
    if owned != [] {
      TransformRecords(owned[..|owned| - 1], contracts, tokenIdOf);
    }
  }

  datatype ServiceError = NotInitialized | FetchFailed(reason: string)

  /** The service: its cache, and whether a provider client was set up. */
  class AlchemyService {
    var cache: map<string, CacheEntry>
    var initialized: bool

    constructor ()
      ensures cache == map[] && !initialized
    {
      cache := map[];
      initialized := false;
    }

    /**
     * initialize: fails without an API key or for a chain the provider does not serve
     * (`networkOf` is the network table); otherwise the service is ready.
     */
    method Initialize(chainId: nat, apiKeyConfigured: bool, networkOf: nat -> Option<string>) returns (r: bool)
      modifies this
      ensures r <==> apiKeyConfigured && networkOf(chainId).Some?
      ensures initialized == (r || old(initialized))
      ensures cache == old(cache)
    {
      if !apiKeyConfigured {
        return false;
      }
      var network := networkOf(chainId);
      if network.None? {
        return false;
      }
      initialized := true;
      return true;
    }

    /** getFromCache at time now. */
    method GetFromCache(key: string, now: int) returns (r: Option<seq<DelegationInit.NftInfo>>)
      modifies this
      ensures (r, cache) == Looked(old(cache), key, now)
      ensures initialized == old(initialized)
    {
      if key !in cache {
        return None;
      }
      var entry := cache[key];
      if now - entry.timestamp > CacheTtl {
        cache := cache - {key};
        return None;
      }
      return Some(entry.data);
    }

    /** setCache at time now. */
    method SetCache(key: string, data: seq<DelegationInit.NftInfo>, now: int)
      modifies this
      ensures cache == Stored(old(cache), key, data, now)
      ensures initialized == old(initialized)
    {
      cache := cache[key := CacheEntry(data, now)];
      if |cache| > CleanupThreshold {
        CleanupCache(now);
      }
    }

    /** cleanupCache: one pass over the entries, deleting the expired ones. */
    method CleanupCache(now: int)
      modifies this
      ensures cache == Unexpired(old(cache), now)
      ensures initialized == old(initialized)
    {
      var pending := cache.Keys;
      while pending != {}
        invariant pending <= old(cache).Keys
        invariant forall key :: key in cache <==>
                    key in old(cache) && (key in pending || !Expired(old(cache)[key], now))
        invariant forall key :: key in cache ==> cache[key] == old(cache)[key]
        invariant initialized == old(initialized)
        decreases pending
      {
        var key :| key in pending;
        var entry := cache[key];
        if now - entry.timestamp > CacheTtl {
          cache := cache - {key};
        }
        pending := pending - {key};
      }
    }

    /** clearCache. */
    method ClearCache()
      modifies this
      ensures cache == map[]
      ensures initialized == old(initialized)
    {
      cache := map[];
    }

    /** getCacheStats: the number of entries and their keys. */
    function CacheStats(): (r: (nat, set<string>))
      reads this
      ensures r.0 == |r.1| && r.1 == cache.Keys
    {
      (|cache|, cache.Keys)
    }

    /**
     * getNFTsForOwner. The clock is read twice: `now` when the cache is consulted, before
     * the provider is queried, and `storedAt` when the converted response is cached, after
     * the query returns. `response` is what the provider's query would return; it is
     * consulted only on a cache miss, which `queried` reports. A hit serves the cached list
     * (even an empty one); a miss converts the response and caches it.
     */
    method GetNftsForOwner(owner: string, contracts: seq<string>, now: int, storedAt: int,
                           response: Result<seq<OwnedNft>, string>, tokenIdOf: string -> string)
      returns (r: Result<seq<DelegationInit.NftInfo>, ServiceError>, queried: bool)
      modifies this
      ensures !old(initialized) ==> r == Err(NotInitialized) && !queried && cache == old(cache)
      ensures old(initialized) ==>
                var key := CacheKey(owner, contracts);
                var (hit, afterLook) := Looked(old(cache), key, now);
                if hit.Some? then r == Ok(hit.value) && !queried && cache == afterLook
                else queried &&
                     match response
                     case Err(e) => r == Err(FetchFailed(e)) && cache == afterLook
                     case Ok(owned) =>
                       r == Ok(Transform(owned, contracts, tokenIdOf))
                       && cache == Stored(afterLook, key, Transform(owned, contracts, tokenIdOf), storedAt)
      ensures initialized == old(initialized)
    {
      queried := false;
      if !initialized {
        return Err(NotInitialized), false;
      }
      var cacheKey := CacheKey(owner, contracts);
      var cached := GetFromCache(cacheKey, now);
      if cached.Some? {
        return Ok(cached.value), false;
      }
      queried := true;
      if response.Err? {
        return Err(FetchFailed(response.error)), true;
      }
      var nfts := TransformAlchemyNfts(response.value, contracts, tokenIdOf);
      SetCache(cacheKey, nfts, storedAt);
      return Ok(nfts), true;
    }
  }

  /** transformAlchemyNFTs: one pass over the provider's NFTs, appending the listed ones. */
  method TransformAlchemyNfts(owned: seq<OwnedNft>, contracts: seq<string>, tokenIdOf: string -> string)
    returns (nfts: seq<DelegationInit.NftInfo>)
    ensures nfts == Transform(owned, contracts, tokenIdOf)
  {
    nfts := [];
    var k := 0;
    while k < |owned|
      invariant k <= |owned|
      invariant nfts == Transform(owned[..k], contracts, tokenIdOf)
    {
      assert owned[..k + 1][..k] == owned[..k];
      var nft := owned[k];
      var collectionIndex := FindContract(contracts, nft.contractAddress);
      if collectionIndex != -1 {
        nfts := nfts + [DelegationInit.NftInfo(collectionIndex, tokenIdOf(nft.tokenId), nft.contractAddress, "")];
      }
      k := k + 1;
    }
    assert owned[..k] == owned;
  }
}
