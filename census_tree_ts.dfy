/**
 * The web app's census tree helpers: the BN254-checked leaf codec, building a lean
 * incremental Merkle tree from the subgraph's account list, proof lookup, proof checking
 * and account lookup.
 *
 * Addresses are the strings the subgraph returns; JavaScript's BigInt reads them as
 * `0x`-prefixed hexadecimal. An account's weight arrives as a non-negative integer.
 */
module CensusTreeTs {
  import opened Wrappers
  import opened Bits
  import Text
  import Sorting
  import LeafCodec
  import LeanImt

  /** The BN254 scalar field modulus. */
  const SnarkScalarField: nat := 21888242871839275222246405745257275088548364400416034343698204186575808495617

  /** Why packing or the sort throws: an address BigInt cannot read, a leaf outside the field, or the sort's comparator throwing. */
  datatype PackError = InvalidAddress(address: string) | ExceedsField(packed: nat) | SortFailed

  /**
   * packLeaf: `(BigInt(address) << 88n) | weight`, thrown out when the address does not
   * parse or the result is not below the field modulus.
   */
  function PackLeaf(address: string, weight: nat): (r: Result<nat, PackError>)
    ensures r.Ok? <==> (Text.ParsePrefixedHex(address).Some?
                        && LeafCodec.PackLeaf(Text.ParsePrefixedHex(address).value, weight) < SnarkScalarField)
    ensures r.Ok? ==> r.value == LeafCodec.PackLeaf(Text.ParsePrefixedHex(address).value, weight)
  {
    match Text.ParsePrefixedHex(address)
    case None => Err(InvalidAddress(address))
    case Some(addr) =>
      var packed := BitOr(Shl(addr, 88), weight);
      if packed >= SnarkScalarField then Err(ExceedsField(packed)) else Ok(packed)
  }

  lemma {:induction false} Pow2Of16()
    ensures Pow2(16) == 65536
  {
    assert Pow2(2) == 4;
    Pow2Add(2, 2);
    Pow2Add(4, 4);
    Pow2Add(8, 8);
  }

  lemma {:induction false} Pow2Of64()
    ensures Pow2(64) == 18446744073709551616
  {
    Pow2Of16();
    Pow2Add(16, 16);
    Pow2Add(32, 32);
  }

  lemma {:induction false} Pow2Of256()
    ensures Pow2(256) == 115792089237316195423570985008687907853269984665640564039457584007913129639936
  {
    Pow2Of64();
    Pow2Add(64, 64);
    Pow2Add(128, 128);
  }

  /** The field modulus lies above every 248-bit value, so a 160-bit address over an 88-bit weight fits. */
  lemma {:induction false} FieldExceeds248Bits()
    ensures Pow2(248) < SnarkScalarField
  {
    Pow2Of256();
    Pow2Add(248, 8);
    Pow2Of16();
    Pow2Add(8, 8);
  }

  /** A 20-byte address with a weight that fits in 88 bits always packs below the field modulus. */
  lemma {:induction false} PackLeafInField(address: string, weight: nat)
    requires Text.ParsePrefixedHex(address).Some? && LeafCodec.IsAddress(Text.ParsePrefixedHex(address).value)
    requires weight < Pow2(88)
    ensures PackLeaf(address, weight).Ok?
  {
    var a := Text.ParsePrefixedHex(address).value;
    LeafCodec.PackLeafByAddAgrees(a, weight);
    ShiftedBelow(a, 160, 88, weight);
    FieldExceeds248Bits();
  }

  /** unpackLeaf: the low 88 bits as the weight, `0x` and the bits above as at least 40 hex digits. */
  function UnpackLeaf(leaf: nat): (r: (string, nat))
    ensures |r.0| >= 42 && r.0[..2] == "0x"
    ensures r.1 < Pow2(88)
  {
    LowBitsBelow(leaf, 88);
    ("0x" + Text.PadStart(Text.ToHex(Shr(leaf, 88)), 40, '0'), LowBits(leaf, 88))
  }

  /** The address string unpackLeaf renders reads back as the number it renders. */
  lemma {:induction false} RenderedAddressParses(n: nat)
    ensures Text.ParsePrefixedHex("0x" + Text.PadStart(Text.ToHex(n), 40, '0')) == Some(n)
  {
    var hex := Text.ToHex(n);
    var padded := Text.PadStart(hex, 40, '0');
    Text.PadStartHexValue(hex, 40);
    Text.HexRoundTrip(n);
    var s := "0x" + padded;
    assert s[2..] == padded;
  }

  /** Unpacking a packed leaf gives back an address string worth the address, and the weight. */
  lemma {:induction false} UnpackPackRoundTrip(address: nat, weight: nat)
    requires weight < Pow2(88)
    ensures Text.ParsePrefixedHex(UnpackLeaf(LeafCodec.PackLeaf(address, weight)).0) == Some(address)
    ensures UnpackLeaf(LeafCodec.PackLeaf(address, weight)).1 == weight
  {
    SplitOr(address, LeafCodec.WeightBits, weight);
    RenderedAddressParses(address);
  }

  datatype Account = Account(address: string, weight: nat)

  /** The key an account is filed under: its address in lower case. */
  function Key(a: Account): string
  {
    Text.ToLower(a.address)
  }

  /** The numeric address the sort compares; never reached for an address that does not parse. */
  function AddressKey(a: Account): nat
  {
    match Text.ParsePrefixedHex(Key(a))
    case Some(v) => v
    case None => 0
  }

  /** The sort's comparator as a "not after" relation: ascending numeric address. */
  function ByAddress(a: Account, b: Account): bool
  {
    AddressKey(a) <= AddressKey(b)
  }

  lemma {:induction false} ByAddressIsTotalPreorder()
    ensures Sorting.TotalPreorder(ByAddress)
  {
  }

  predicate AllAddressesParse(accounts: seq<Account>)
  {
    forall i :: 0 <= i < |accounts| ==> Text.ParsePrefixedHex(Key(accounts[i])).Some?
  }

  /** The accounts the tree receives: those with a non-zero weight, in the given order. */
  function WithWeight(accounts: seq<Account>): (r: seq<Account>)
    ensures |r| <= |accounts|
    ensures forall i :: 0 <= i < |r| ==> r[i].weight != 0
  {
    if accounts == [] then []
    else
      var init := WithWeight(accounts[..|accounts| - 1]);
      if accounts[|accounts| - 1].weight == 0 then init else init + [accounts[|accounts| - 1]]
  }

  /**
   * The insert loop of buildCensusTree over accounts already sorted: each account with a
   * non-zero weight is packed, recorded under its key (a later account overwrites an earlier
   * one with the same key) and appended to the tree.
   */
  function InsertAll(accounts: seq<Account>): Result<(seq<nat>, map<string, nat>), PackError>
  {
    if accounts == [] then Ok(([], map[]))
    else
      match InsertAll(accounts[..|accounts| - 1])
      case Err(err) => Err(err)
      case Ok((leaves, index)) =>
        var a := accounts[|accounts| - 1];
        if a.weight == 0 then Ok((leaves, index))
        else
          match PackLeaf(Key(a), a.weight)
          case Err(err) => Err(err)
          case Ok(packed) => Ok((leaves + [packed], index[Key(a) := packed]))
  }

  /**
   * buildCensusTree's outcome on the leaf list and the address map. With two or more accounts
   * the sort compares every account, so one whose address does not parse makes it throw.
   */
  function Build(accounts: seq<Account>): Result<(seq<nat>, map<string, nat>), PackError>
  {
    if |accounts| >= 2 && !AllAddressesParse(accounts) then Err(SortFailed)
    else InsertAll(Sorting.SortBy(ByAddress, accounts))
  }

  /**
   * The tree receives exactly the accounts with a non-zero weight, in order, each as its
   * packed leaf, and no leaf is the empty-slot value 0.
   */
  lemma {:induction false} InsertAllLeaves(accounts: seq<Account>)
    requires InsertAll(accounts).Ok?
    ensures var leaves := InsertAll(accounts).value.0;
            var inserted := WithWeight(accounts);
            |leaves| == |inserted|
            && forall i :: 0 <= i < |leaves| ==>
                 leaves[i] != 0 && PackLeaf(Key(inserted[i]), inserted[i].weight) == Ok(leaves[i])
  {
    if accounts != [] {
      var init := accounts[..|accounts| - 1];
      InsertAllLeaves(init);
      var a := accounts[|accounts| - 1];
      if a.weight != 0 {
        LeafCodec.PackLeafNonZero(Text.ParsePrefixedHex(Key(a)).value, a.weight);
      }
    }
  }

  /** The address map holds exactly the keys of the accounts with a non-zero weight. */
  lemma {:induction false} InsertAllKeys(accounts: seq<Account>)
    requires InsertAll(accounts).Ok?
    ensures InsertAll(accounts).value.1.Keys == set a | a in WithWeight(accounts) :: Key(a)
  {
    if accounts != [] {
      var init := accounts[..|accounts| - 1];
      InsertAllKeys(init);
      var a := accounts[|accounts| - 1];
      if a.weight != 0 {
        assert WithWeight(accounts) == WithWeight(init) + [a];
        assert (set x | x in WithWeight(accounts) :: Key(x))
            == (set x | x in WithWeight(init) :: Key(x)) + {Key(a)};
      }
    }
  }

  /** Every leaf in the address map is a leaf of the tree. */
  lemma {:induction false} InsertAllValues(accounts: seq<Account>)
    requires InsertAll(accounts).Ok?
    ensures var (leaves, index) := InsertAll(accounts).value;
            forall key :: key in index ==> index[key] in leaves
  {
    if accounts != [] {
      InsertAllValues(accounts[..|accounts| - 1]);
    }
  }

  /** Whether an account is filed under key with a non-zero weight. */
  function HoldsKey(key: string): Account -> bool
  {
    a => Key(a) == key && a.weight != 0
  }

  /** The accounts with a non-zero weight filed under key, in list order. */
  function Holders(accounts: seq<Account>, key: string): seq<Account>
  {
    Sorting.Filter(HoldsKey(key), accounts)
  }

  /**
   * The insert loop's address map holds a key exactly when some account with a non-zero
   * weight is filed under it, and then the packed leaf of the last such account: each later
   * insert under the same key overwrites the earlier one.
   */
  lemma {:induction false} InsertAllIndex(accounts: seq<Account>, key: string)
    requires InsertAll(accounts).Ok?
    ensures var index := InsertAll(accounts).value.1;
            var holders := Holders(accounts, key);
            (key in index <==> holders != [])
            && (holders != [] ==> PackLeaf(key, holders[|holders| - 1].weight) == Ok(index[key]))
  {
    if accounts != [] {
      var init := accounts[..|accounts| - 1];
      var a := accounts[|accounts| - 1];
      InsertAllStep(accounts);
      InsertAllIndex(init, key);
      HoldersSnoc(accounts, key);
      IndexStep(InsertAll(init).value.1, InsertAll(accounts).value.1, Holders(init, key), Holders(accounts, key), a, key);
    }
  }

  /** The map and holder facts of InsertAllIndex carry over one account. */
  lemma {:induction false} IndexStep(before: map<string, nat>, after: map<string, nat>,
                                     initHolders: seq<Account>, holders: seq<Account>, a: Account, key: string)
    requires a.weight != 0 ==> PackLeaf(Key(a), a.weight).Ok?
    requires after == if a.weight == 0 then before else before[Key(a) := PackLeaf(Key(a), a.weight).value]
    requires holders == if Key(a) == key && a.weight != 0 then initHolders + [a] else initHolders
    requires (key in before <==> initHolders != [])
             && (initHolders != [] ==> PackLeaf(key, initHolders[|initHolders| - 1].weight) == Ok(before[key]))
    ensures (key in after <==> holders != [])
            && (holders != [] ==> PackLeaf(key, holders[|holders| - 1].weight) == Ok(after[key]))
  {
    if a.weight != 0 && Key(a) == key {
      assert holders[|holders| - 1] == a;
    }
  }

  /** One step of the insert loop on the address map: the last account, if weighted, overwrites its key. */
  lemma {:induction false} InsertAllStep(accounts: seq<Account>)
    requires accounts != [] && InsertAll(accounts).Ok?
    ensures var init := accounts[..|accounts| - 1];
            var a := accounts[|accounts| - 1];
            InsertAll(init).Ok? && (a.weight != 0 ==> PackLeaf(Key(a), a.weight).Ok?)
            && InsertAll(accounts).value.1
               == if a.weight == 0 then InsertAll(init).value.1
                  else InsertAll(init).value.1[Key(a) := PackLeaf(Key(a), a.weight).value]
  {
  }

  /** The holders of a key in a list are those of all but its last account, then the last if it holds the key. */
  lemma {:induction false} HoldersSnoc(accounts: seq<Account>, key: string)
    requires accounts != []
    ensures var init := accounts[..|accounts| - 1];
            var a := accounts[|accounts| - 1];
            Holders(accounts, key)
            == if Key(a) == key && a.weight != 0 then Holders(init, key) + [a] else Holders(init, key)
  {
    var init := accounts[..|accounts| - 1];
    var a := accounts[|accounts| - 1];
    assert accounts == init + [a];
    Sorting.FilterAppend(HoldsKey(key), init, [a]);
    assert [a][1..] == [];
  }

  /** Sorting by address keeps the holders of a key in their input order, as they compare equal. */
  lemma {:induction false} HoldersSorted(accounts: seq<Account>, key: string)
    ensures Holders(Sorting.SortBy(ByAddress, accounts), key) == Holders(accounts, key)
  {
    assert forall a, b :: HoldsKey(key)(a) && HoldsKey(key)(b) ==> ByAddress(a, b);
    Sorting.SortByStable(ByAddress, HoldsKey(key), accounts);
  }

  /**
   * buildCensusTree's address map holds a key exactly when some account of the input with a
   * non-zero weight is filed under it, and then the packed leaf of the last such account in
   * the input: the sort keeps accounts with one address in their input order.
   */
  lemma {:induction false} BuildIndex(accounts: seq<Account>, key: string)
    requires Build(accounts).Ok?
    ensures var index := Build(accounts).value.1;
            var holders := Holders(accounts, key);
            (key in index <==> holders != [])
            && (holders != [] ==> PackLeaf(key, holders[|holders| - 1].weight) == Ok(index[key]))
  {
    var sorted := Sorting.SortBy(ByAddress, accounts);
    var index := InsertAll(sorted).value.1;
    var holders := Holders(accounts, key);
    assert Build(accounts).value.1 == index;
    HoldersSorted(accounts, key);
    InsertAllIndex(sorted, key);
  }

  /** Dropping the zero-weight accounts keeps a sorted list sorted. */
  lemma {:induction false} WithWeightKeepsSorted(accounts: seq<Account>)
    requires Sorting.SortedBy(ByAddress, accounts)
    ensures Sorting.SortedBy(ByAddress, WithWeight(accounts))
  {
    if accounts != [] {
      var init := accounts[..|accounts| - 1];
      assert Sorting.SortedBy(ByAddress, init);
      WithWeightKeepsSorted(init);
      WithWeightFrom(init);
    }
  }

  /** Every account WithWeight keeps comes from the list. */
  lemma {:induction false} WithWeightFrom(accounts: seq<Account>)
    ensures forall i :: 0 <= i < |WithWeight(accounts)| ==> WithWeight(accounts)[i] in accounts
  {
    if accounts != [] {
      WithWeightFrom(accounts[..|accounts| - 1]);
    }
  }

  /** WithWeight keeps each account with a non-zero weight as often as it occurs, and drops the rest. */
  lemma {:induction false} WithWeightMultiset(accounts: seq<Account>)
    ensures forall a :: multiset(WithWeight(accounts))[a] == if a.weight == 0 then 0 else multiset(accounts)[a]
  {
    if accounts != [] {
      var init := accounts[..|accounts| - 1];
      WithWeightMultiset(init);
      assert accounts == init + [accounts[|accounts| - 1]];
    }
  }

  /**
   * buildCensusTree inserts the accounts with a non-zero weight in ascending numeric address
   * order: the inserted list is sorted by address and holds each such account as often as
   * the input does.
   */
  lemma {:induction false} InsertionOrder(accounts: seq<Account>)
    ensures var inserted := WithWeight(Sorting.SortBy(ByAddress, accounts));
            Sorting.SortedBy(ByAddress, inserted)
            && forall a :: multiset(inserted)[a] == if a.weight == 0 then 0 else multiset(accounts)[a]
  {
    var sorted := Sorting.SortBy(ByAddress, accounts);
    Sorting.SortByIsSorted(ByAddress, accounts);
    WithWeightKeepsSorted(sorted);
    WithWeightMultiset(sorted);
  }

  /** The object buildCensusTree returns. */
  datatype CensusTree = CensusTree(tree: LeanImt.Tree, root: Option<nat>, size: nat, leaves: map<string, nat>)

  /** The insert loop of buildCensusTree, over the sorted accounts, against a fresh tree. */
  method InsertAccounts(tree: LeanImt.Tree, sorted: seq<Account>) returns (r: Result<map<string, nat>, PackError>)
    requires tree.leaves == []
    modifies tree
    ensures InsertAll(sorted) == if r.Ok? then Ok((tree.leaves, r.value)) else Err(r.error)
  {
    var leaves: map<string, nat> := map[];
    var i := 0;
    while i < |sorted|
      invariant i <= |sorted|
      invariant InsertAll(sorted[..i]) == Ok((tree.leaves, leaves))
    {
      assert sorted[..i + 1][..i] == sorted[..i];
      var account := sorted[i];
      if account.weight == 0 {
        i := i + 1;
        continue;
      }
      var packed := PackLeaf(Key(account), account.weight);
      if packed.Err? {
        InsertAllError(sorted, i + 1);
        return Err(packed.error);
      }
      leaves := leaves[Key(account) := packed.value];
      var v := Text.ParsePrefixedHex(Key(account)).value;
      LeafCodec.PackLeafNonZero(v, account.weight);
      var _ := tree.Insert(packed.value);
      i := i + 1;
    }
    assert sorted[..i] == sorted;
    return Ok(leaves);
  }

  lemma {:induction false} InsertAllError(accounts: seq<Account>, k: nat)
    requires k <= |accounts| && InsertAll(accounts[..k]).Err?
    ensures InsertAll(accounts) == InsertAll(accounts[..k])
    decreases |accounts|
  {
    if k == |accounts| {
      assert accounts[..k] == accounts;
    } else {
      var init := accounts[..|accounts| - 1];
      assert init[..k] == accounts[..k];
      InsertAllError(init, k);
    }
  }

  /** buildCensusTree: sort by address, insert the accounts with weight, report root and size. */
  method BuildCensusTree(h: LeanImt.Hasher, accounts: seq<Account>) returns (r: Result<CensusTree, PackError>)
    ensures r.Ok? <==> Build(accounts).Ok?
    ensures r.Err? ==> Build(accounts) == Err(r.error)
    ensures r.Ok? ==> (fresh(r.value.tree) && r.value.tree.hash == h
                       && Build(accounts).value == (r.value.tree.leaves, r.value.leaves)
                       && r.value.size == |r.value.tree.leaves|
                       && r.value.root == LeanImt.RootOf(h, r.value.tree.leaves))
  {
    var tree := new LeanImt.Tree(h);
    if |accounts| >= 2 && !AllAddressesParse(accounts) {
      return Err(SortFailed);
    }
    var sorted := Sorting.SortBy(ByAddress, accounts);
    var leaves := InsertAccounts(tree, sorted);
    if leaves.Err? {
      return Err(leaves.error);
    }
    return Ok(CensusTree(tree, tree.Root(), tree.Size(), leaves.value));
  }

  /**
   * generateProof: null when the lower-cased address has no leaf in the map, when that leaf
   * is 0 (JavaScript's `!leaf`) or when the tree does not hold it; otherwise the tree's proof
   * for the leaf's first position.
   */
  function GenerateProof(ct: CensusTree, address: string): (r: Option<seq<nat>>)
    reads ct.tree
    ensures var key := Text.ToLower(address);
            r.None? <==> key !in ct.leaves || ct.leaves[key] == 0 || ct.leaves[key] !in ct.tree.leaves
    ensures r.Some? ==>
              var leaf := ct.leaves[Text.ToLower(address)];
              var index := LeanImt.IndexOf(ct.tree.leaves, leaf);
              0 <= index < |ct.tree.leaves| && ct.tree.leaves[index] == leaf
              && LeanImt.FoldProof(ct.tree.hash, leaf, index, |ct.tree.leaves|, r.value)
                   == LeanImt.RootOf(ct.tree.hash, ct.tree.leaves)
  {
    var key := Text.ToLower(address);
    if key !in ct.leaves || ct.leaves[key] == 0 then None
    else
      var index := LeanImt.IndexOf(ct.tree.leaves, ct.leaves[key]);
      if index == -1 then None
      else
        LeanImt.FoldProofIsRoot(ct.tree.hash, ct.tree.leaves, index);
        Some(LeanImt.ProofOf(ct.tree.hash, ct.tree.leaves, index))
  }

  /** The fold verifyProof performs: at each step the smaller value goes first. */
  function SortedFold(h: LeanImt.Hasher, node: nat, proof: seq<nat>): nat
    decreases |proof|
  {
    if proof == [] then node
    else SortedFold(h, if node < proof[0] then h(node, proof[0]) else h(proof[0], node), proof[1..])
  }

  /** verifyProof: false when packing throws, otherwise whether the sorted fold reaches the root. */
  method VerifyProof(h: LeanImt.Hasher, root: nat, address: string, weight: nat, proof: seq<nat>) returns (ok: bool)
    ensures ok <==> PackLeaf(Text.ToLower(address), weight).Ok?
                    && SortedFold(h, PackLeaf(Text.ToLower(address), weight).value, proof) == root
  {
    var leaf := PackLeaf(Text.ToLower(address), weight);
    if leaf.Err? {
      return false;
    }
    var computedHash := leaf.value;
    var i := 0;
    while i < |proof|
      invariant i <= |proof|
      invariant SortedFold(h, computedHash, proof[i..]) == SortedFold(h, leaf.value, proof)
    {
      var sibling := proof[i];
      assert proof[i..][1..] == proof[i + 1..];
      if computedHash < sibling {
        computedHash := h(computedHash, sibling);
      } else {
        computedHash := h(sibling, computedHash);
      }
      i := i + 1;
    }
    return computedHash == root;
  }

  /**
   * The ordering by value does not match the tree's ordering by position. In a three-leaf
   * tree [a, b, c] built in ascending order, the tree's proof for a is [b, c] and its root
   * is h(h(a, b), c); when h(a, b) exceeds c the sorted fold computes h(c, h(a, b)) instead,
   * so a proof the tree itself produced is rejected under any hash where the two differ.
   */
  lemma {:induction false} SortedFoldRejectsTreeProof(h: LeanImt.Hasher, a: nat, b: nat, c: nat)
    requires a < b && h(a, b) > c && h(c, h(a, b)) != h(h(a, b), c)
    ensures LeanImt.ProofOf(h, [a, b, c], 0) == [b, c]
    ensures LeanImt.RootOf(h, [a, b, c]) == Some(h(h(a, b), c))
    ensures SortedFold(h, a, [b, c]) != h(h(a, b), c)
  {
    LeanImt.ThreeLeafProof(h, a, b, c);
    var up := LeanImt.NextLevel(h, [a, b, c]);
    assert up == [h(a, b), c];
    var top := LeanImt.NextLevel(h, up);
    assert top == [h(h(a, b), c)];
    assert LeanImt.ProofOf(h, up, 0) == [c] + LeanImt.ProofOf(h, top, 0);
    assert LeanImt.ProofOf(h, [a, b, c], 0) == [b] + LeanImt.ProofOf(h, up, 0);
    assert [b, c][1..] == [c] && [c][1..] == [];
    assert SortedFold(h, a, [b, c]) == SortedFold(h, h(a, b), [c]);
    assert SortedFold(h, h(a, b), [c]) == SortedFold(h, h(c, h(a, b)), []);
  }

  /**
   * The check the proofs of this tree call for: fold by the position of the leaf, as the
   * lean incremental Merkle tree orders each pair, given the leaf's index and the tree size.
   */
  function VerifyPositionalProof(h: LeanImt.Hasher, root: nat, address: string, weight: nat,
                                 index: nat, size: nat, proof: seq<nat>): bool
  {
    match PackLeaf(Text.ToLower(address), weight)
    case Err(_) => false
    case Ok(leaf) => LeanImt.FoldProof(h, leaf, index, size, proof) == Some(root)
  }

  /**
   * Every proof generateProof returns for an account of the tree passes the positional check
   * against the tree's root, given the account's own address and weight.
   */
  lemma {:induction false} PositionalProofAccepted(ct: CensusTree, address: string, weight: nat)
    requires GenerateProof(ct, address).Some?
    requires PackLeaf(Text.ToLower(address), weight) == Ok(ct.leaves[Text.ToLower(address)])
    ensures var leaf := ct.leaves[Text.ToLower(address)];
            var index := LeanImt.IndexOf(ct.tree.leaves, leaf);
            index >= 0
            && LeanImt.RootOf(ct.tree.hash, ct.tree.leaves).Some?
            && VerifyPositionalProof(ct.tree.hash, LeanImt.RootOf(ct.tree.hash, ct.tree.leaves).value,
                 address, weight, index, |ct.tree.leaves|, GenerateProof(ct, address).value)
  {
    LeanImt.RootOfNonEmpty(ct.tree.hash, ct.tree.leaves);
  }

  datatype AccountInfo = AccountInfo(address: string, weight: nat, index: int)

  /**
   * getAccountFromTree: null when the lower-cased address has no (non-zero) leaf; otherwise
   * the lower-cased address, the weight unpacked from the leaf and the leaf's index in the tree.
   */
  function GetAccountFromTree(ct: CensusTree, address: string): (r: Option<AccountInfo>)
    reads ct.tree
    ensures var key := Text.ToLower(address);
            r.None? <==> key !in ct.leaves || ct.leaves[key] == 0
    ensures r.Some? ==> (r.value.address == Text.ToLower(address)
                         && r.value.index == LeanImt.IndexOf(ct.tree.leaves, ct.leaves[Text.ToLower(address)]))
  {
    var key := Text.ToLower(address);
    if key !in ct.leaves || ct.leaves[key] == 0 then None
    else
      var leaf := ct.leaves[key];
      Some(AccountInfo(key, UnpackLeaf(leaf).1, LeanImt.IndexOf(ct.tree.leaves, leaf)))
  }

  /**
   * getAccountFromTree on the tree buildCensusTree returned: an address is found exactly when
   * some account with a non-zero weight has it in lower case; the account reported is at a
   * position of the tree holding its leaf, and its weight is that of the last such account in
   * the input whenever that weight fits in 88 bits.
   */
  lemma {:induction false} BuiltAccountLookup(accounts: seq<Account>, ct: CensusTree, address: string)
    requires Build(accounts).Ok? && Build(accounts).value == (ct.tree.leaves, ct.leaves)
    ensures var holders := Holders(accounts, Text.ToLower(address));
            (GetAccountFromTree(ct, address).Some? <==> holders != [])
            && (holders != [] ==>
                  var info := GetAccountFromTree(ct, address).value;
                  0 <= info.index < |ct.tree.leaves|
                  && ct.tree.leaves[info.index] == ct.leaves[Text.ToLower(address)]
                  && (holders[|holders| - 1].weight < Pow2(88) ==> info.weight == holders[|holders| - 1].weight))
  {
    BuiltLeaf(accounts, Text.ToLower(address));
    LookupByHolders(ct, address, Holders(accounts, Text.ToLower(address)));
  }

  /** getAccountFromTree, given that the map files a key's leaf as the last of holders packs it. */
  lemma {:induction false} LookupByHolders(ct: CensusTree, address: string, holders: seq<Account>)
    requires var key := Text.ToLower(address);
             (key in ct.leaves <==> holders != [])
             && (holders != [] ==>
                   Text.ParsePrefixedHex(key).Some? && holders[|holders| - 1].weight != 0
                   && ct.leaves[key] == LeafCodec.PackLeaf(Text.ParsePrefixedHex(key).value, holders[|holders| - 1].weight)
                   && ct.leaves[key] != 0 && ct.leaves[key] in ct.tree.leaves)
    ensures (GetAccountFromTree(ct, address).Some? <==> holders != [])
            && (holders != [] ==>
                  var info := GetAccountFromTree(ct, address).value;
                  0 <= info.index < |ct.tree.leaves|
                  && ct.tree.leaves[info.index] == ct.leaves[Text.ToLower(address)]
                  && (holders[|holders| - 1].weight < Pow2(88) ==> info.weight == holders[|holders| - 1].weight))
  {
    if holders != [] {
      var w := holders[|holders| - 1].weight;
      FoundAtLeaf(ct, address);
      if w < Pow2(88) {
        AccountWeightRecovered(ct, address, Text.ParsePrefixedHex(Text.ToLower(address)).value, w);
      }
    }
  }

  lemma {:induction false} FoundAtLeaf(ct: CensusTree, address: string)
    requires Text.ToLower(address) in ct.leaves
    requires ct.leaves[Text.ToLower(address)] != 0 && ct.leaves[Text.ToLower(address)] in ct.tree.leaves
    ensures GetAccountFromTree(ct, address).Some?
    ensures var index := GetAccountFromTree(ct, address).value.index;
            0 <= index < |ct.tree.leaves| && ct.tree.leaves[index] == ct.leaves[Text.ToLower(address)]
  {
  }

  /** The leaf buildCensusTree files under a key is non-zero, in the tree, and packs the last holder's weight. */
  lemma {:induction false} BuiltLeaf(accounts: seq<Account>, key: string)
    requires Build(accounts).Ok?
    ensures var (leaves, index) := Build(accounts).value;
            var holders := Holders(accounts, key);
            (key in index <==> holders != [])
            && (holders != [] ==>
                  Text.ParsePrefixedHex(key).Some? && holders[|holders| - 1].weight != 0
                  && index[key] == LeafCodec.PackLeaf(Text.ParsePrefixedHex(key).value, holders[|holders| - 1].weight)
                  && index[key] != 0 && index[key] in leaves)
  {
    BuildIndex(accounts, key);
    InsertAllValues(Sorting.SortBy(ByAddress, accounts));
    var holders := Holders(accounts, key);
    if holders != [] {
      var w := holders[|holders| - 1].weight;
      assert HoldsKey(key)(holders[|holders| - 1]);
      LeafCodec.PackLeafNonZero(Text.ParsePrefixedHex(key).value, w);
    }
  }

  /** The weight getAccountFromTree reports is the weight packed into the account's leaf. */
  lemma {:induction false} AccountWeightRecovered(ct: CensusTree, address: string, a: nat, weight: nat)
    requires Text.ToLower(address) in ct.leaves
    requires ct.leaves[Text.ToLower(address)] == LeafCodec.PackLeaf(a, weight)
    requires weight != 0 && weight < Pow2(88)
    ensures GetAccountFromTree(ct, address).Some?
    ensures GetAccountFromTree(ct, address).value.weight == weight
  {
    LeafCodec.PackLeafNonZero(a, weight);
    UnpackPackRoundTrip(a, weight);
  }
}
