/**
 * The contract address the web app reads from its own URL, and the URLs it hands out for
 * a contract. The browser location is passed in (its pathname and its hash), and ethers'
 * `isAddress` is a parameter.
 */
module UrlAddress {
  import opened Wrappers
  import WebUtils

  /** The first position in [from, to) where p holds, as a left-to-right regex scan finds it. */
  function FirstWhere(p: nat -> bool, from: nat, to: nat): (r: Option<nat>)
    ensures r.Some? ==> from <= r.value < to && p(r.value) && (forall k: nat :: from <= k < r.value ==> !p(k))
    ensures r.None? ==> (forall k: nat :: from <= k < to ==> !p(k))
    decreases if from < to then to - from else 0
  {
    if from >= to then None
    else if p(from) then Some(from)
    else FirstWhere(p, from + 1, to)
  }

  /** `0x[a-fA-F0-9]{40}` matches at position j: forty-two characters there form a valid address. */
  predicate CandidateAt(s: string, j: nat)
  {
    j + 42 <= |s| && WebUtils.IsValidAddress(s[j..j + 42])
  }

  /** `\/0x[a-fA-F0-9]{40}` matches at position i. */
  predicate PathMatchAt(path: string, i: nat)
  {
    i < |path| && path[i] == '/' && CandidateAt(path, i + 1)
  }

  /**
   * `#?\/?0x[a-fA-F0-9]{40}` tried at position i: the greedy optional "#" and "/" are tried
   * taken before skipped, in the order "#/", "#", "/", nothing. The result is where the
   * "0x" of the match begins.
   */
  function HashMatchAt(hash: string, i: nat): Option<nat>
  {
    var hashed := i < |hash| && hash[i] == '#';
    if hashed && i + 1 < |hash| && hash[i + 1] == '/' && CandidateAt(hash, i + 2) then Some(i + 2)
    else if hashed && CandidateAt(hash, i + 1) then Some(i + 1)
    else if i < |hash| && hash[i] == '/' && CandidateAt(hash, i + 1) then Some(i + 1)
    else if CandidateAt(hash, i) then Some(i)
    else None
  }

  /** `replace(/^#?\/?/, '')`: drop one leading "#", then one leading "/". */
  function StripLead(m: string): string
  {
    var m1 := if m != [] && m[0] == '#' then m[1..] else m;
    if m1 != [] && m1[0] == '/' then m1[1..] else m1
  }

  /** Where the path pattern first matches. */
  function PathMatchPos(path: string): (r: Option<nat>)
    ensures r.Some? ==> PathMatchAt(path, r.value) && forall k :: 0 <= k < r.value ==> !PathMatchAt(path, k)
    ensures r.None? <==> forall k :: 0 <= k < |path| ==> !PathMatchAt(path, k)
  {
    var p := (i: nat) => PathMatchAt(path, i);
    assert forall k: nat :: p(k) == PathMatchAt(path, k);
    FirstWhere(p, 0, |path|)
  }

  /** Where the hash pattern first matches. */
  function HashMatchPos(hash: string): (r: Option<nat>)
    ensures r.Some? ==> HashMatchAt(hash, r.value).Some? && forall k :: 0 <= k < r.value ==> HashMatchAt(hash, k).None?
    ensures r.None? <==> forall k :: 0 <= k < |hash| ==> HashMatchAt(hash, k).None?
  {
    var p := (i: nat) => HashMatchAt(hash, i).Some?;
    assert forall k: nat :: p(k) == HashMatchAt(hash, k).Some?;
    FirstWhere(p, 0, |hash|)
  }

  /** Where "0x" and forty hex digits first occur. */
  function CandidatePos(s: string): (r: Option<nat>)
    ensures r.Some? ==> CandidateAt(s, r.value) && forall k :: 0 <= k < r.value ==> !CandidateAt(s, k)
    ensures r.None? <==> forall k :: 0 <= k < |s| ==> !CandidateAt(s, k)
  {
    var p := (j: nat) => CandidateAt(s, j);
    assert forall k: nat :: p(k) == CandidateAt(s, k);
    FirstWhere(p, 0, |s|)
  }

  /** The path's candidate: the leftmost "/0x…" match without its slash. */
  function PathCandidate(path: string): Option<string>
  {
    match PathMatchPos(path)
    case Some(i) => Some(path[i + 1..i + 43])
    case None => None
  }

  /** The hash's candidate: the leftmost match of the hash pattern, its "#" and "/" stripped. */
  function HashCandidate(hash: string): Option<string>
  {
    match HashMatchPos(hash)
    case Some(i) =>
      var j := HashMatchAt(hash, i).value;
      if j + 42 <= |hash| && i <= j then Some(StripLead(hash[i..j + 42])) else None
    case None => None
  }

  /**
   * getContractAddressFromUrl: the path is searched first, and a candidate there decides
   * alone — an invalid one gives null without looking at the hash; otherwise the hash's
   * candidate, if it passes `isAddress`.
   */
  function ContractAddressFromUrl(path: string, hash: string, isAddress: string -> bool): Option<string>
  {
    match PathCandidate(path)
    case Some(a) => if isAddress(a) then Some(a) else None
    case None =>
      match HashCandidate(hash)
      case Some(a) => if isAddress(a) then Some(a) else None
      case None => None
  }

  /** What the hash pattern settles on at i is a candidate at most two characters on, behind "#" or "/" characters. */
  lemma {:induction false} HashMatchAtMeaning(hash: string, i: nat)
    ensures HashMatchAt(hash, i).Some? ==>
              var j := HashMatchAt(hash, i).value;
              i <= j <= i + 2 && CandidateAt(hash, j)
              && (forall k :: i <= k < j ==> hash[k] == '#' || hash[k] == '/')
              && StripLead(hash[i..j + 42]) == hash[j..j + 42]
    ensures CandidateAt(hash, i) ==> HashMatchAt(hash, i) == Some(i)
  {
    if HashMatchAt(hash, i).Some? {
      var j := HashMatchAt(hash, i).value;
      var m := hash[i..j + 42];
      assert hash[j] == '0' by { assert hash[j..j + 42][0] == hash[j]; }
      if j == i + 2 {
        assert m[2..] == hash[j..j + 42];
      } else if j == i + 1 {
        assert m[1..] == hash[j..j + 42];
        assert m[1] == '0';
      } else {
        assert m == hash[j..j + 42];
      }
    }
    if CandidateAt(hash, i) {
      assert hash[i] == '0' by { assert hash[i..i + 42][0] == hash[i]; }
    }
  }

  /**
   * The hash pattern's optional "#" and "/" never change which address is found: the hash
   * candidate is the leftmost "0x" and forty hex digits anywhere in the hash.
   */
  lemma {:induction false} HashCandidateIsLeftmost(hash: string)
    ensures HashCandidate(hash) ==
              match CandidatePos(hash)
              case Some(j) => Some(hash[j..j + 42])
              case None => None
  {
    var lead := CandidatePos(hash);
    var first := HashMatchPos(hash);
    match first
    case Some(i) =>
      HashMatchAtMeaning(hash, i);
      var j := HashMatchAt(hash, i).value;
      assert CandidateAt(hash, j);
      assert lead.Some?;
      var j0 := lead.value;
      HashMatchAtMeaning(hash, j0);
      assert i <= j0;
      assert hash[j0] == '0' by { assert hash[j0..j0 + 42][0] == hash[j0]; }
      assert j == j0;
    case None =>
      if lead.Some? {
        HashMatchAtMeaning(hash, lead.value);
      }
  }

  /** Any address read from the URL is "0x" and forty hex digits that `isAddress` accepts. */
  lemma {:induction false} ContractAddressShape(path: string, hash: string, isAddress: string -> bool)
    ensures var r := ContractAddressFromUrl(path, hash, isAddress);
            r.Some? ==> WebUtils.IsValidAddress(r.value) && isAddress(r.value)
  {
    if PathCandidate(path).None? {
      var first := HashMatchPos(hash);
      if first.Some? {
        HashMatchAtMeaning(hash, first.value);
      }
    }
  }

  /** A candidate in the path decides alone: whatever the hash holds, the answer is the same. */
  lemma {:induction false} PathBeforeHash(path: string, hash1: string, hash2: string, isAddress: string -> bool)
    requires exists i :: 0 <= i < |path| && PathMatchAt(path, i)
    ensures ContractAddressFromUrl(path, hash1, isAddress) == ContractAddressFromUrl(path, hash2, isAddress)
  {
    var i :| 0 <= i < |path| && PathMatchAt(path, i);
    assert PathCandidate(path).Some?;
  }

  /** Null exactly when neither the path nor the hash has a candidate, or the one chosen fails `isAddress`. */
  lemma {:induction false} ContractAddressAbsent(path: string, hash: string, isAddress: string -> bool)
    ensures ContractAddressFromUrl(path, hash, isAddress).None? <==>
              ((forall i :: 0 <= i < |path| ==> !PathMatchAt(path, i))
                 && (forall j :: 0 <= j < |hash| ==> !CandidateAt(hash, j)))
              || (PathCandidate(path).Some? && !isAddress(PathCandidate(path).value))
              || (PathCandidate(path).None? && HashCandidate(hash).Some? && !isAddress(HashCandidate(hash).value))
  {
    HashCandidateIsLeftmost(hash);
  }

  /** url.ts formatAddress: unchanged when empty or under ten characters, else six, "...", four. */
  function FormatAddress(address: string): string
  {
    if address == "" || |address| < 10 then address
    else address[..6] + "..." + address[|address| - 4..]
  }

  /** It agrees everywhere with the shortener of utils.ts at its default ends, 6 and 4. */
  lemma {:induction false} FormatAddressAgrees(address: string)
    ensures FormatAddress(address) == WebUtils.FormatAddress(address, 6, 4)
  {
  }

  datatype UrlError = InvalidContractAddress

  /** getShareableUrl: the origin, "/", and the address; an address `isAddress` refuses throws. */
  function ShareableUrl(origin: string, contractAddress: string, isAddress: string -> bool): (r: Result<string, UrlError>)
    ensures r.Ok? <==> isAddress(contractAddress)
    ensures r.Ok? ==> |r.value| == |origin| + 1 + |contractAddress| && r.value[..|origin|] == origin
  {
    if isAddress(contractAddress) then Ok(origin + "/" + contractAddress) else Err(InvalidContractAddress)
  }

  /**
   * A shared URL leads back to its contract: its path is "/" and the address, and reading
   * the address from that path gives the address again, whatever the hash.
   */
  lemma {:induction false} ShareableUrlRoundTrip(origin: string, contractAddress: string, hash: string, isAddress: string -> bool)
    requires WebUtils.IsValidAddress(contractAddress) && isAddress(contractAddress)
    ensures ShareableUrl(origin, contractAddress, isAddress) == Ok(origin + "/" + contractAddress)
    ensures ContractAddressFromUrl("/" + contractAddress, hash, isAddress) == Some(contractAddress)
  {
    var path := "/" + contractAddress;
    assert path[1..43] == contractAddress;
    assert PathMatchAt(path, 0);
  }
}
