/**
 * The web app's contract client policies: which RPC errors count as rate limiting, the
 * retry loop with exponential back-off, the contract-address check at construction, the
 * empty-tree census root, and batching token operations in chunks of fifty. Every call to
 * the chain is an oracle parameter; waiting is represented by the delays it would use.
 */
module ContractClient {
  import opened Wrappers
  import Text
  import Bits

  /** The `code` field of a thrown error: absent, numeric (JSON-RPC, HTTP) or textual (ethers). */
  datatype ErrorCode = NoCode | NumericCode(n: int) | TextCode(s: string)

  /** The fields of a thrown error the client inspects; "" stands for an absent message. */
  datatype RpcError = RpcError(message: string, code: ErrorCode, originalMessage: string, value: Option<string>)

  /** isRateLimitError. */
  predicate IsRateLimitError(e: RpcError)
  {
    var errorMessage := Text.ToLower(e.message);
    var errorData := Text.ToLower(e.originalMessage);
    e.code == NumericCode(-32005)
    || e.code == NumericCode(429)
    || Text.Contains(errorMessage, "rate limit")
    || Text.Contains(errorMessage, "too many requests")
    || Text.Contains(errorMessage, "429")
    || Text.Contains(errorData, "rate limit")
    || Text.Contains(errorData, "too many requests")
  }

  /** The detection ignores the case of both messages. */
  lemma {:induction false} RateLimitIgnoresCase(e: RpcError)
    ensures IsRateLimitError(e) == IsRateLimitError(e.(message := Text.ToLower(e.message),
                                                       originalMessage := Text.ToLower(e.originalMessage)))
  {
    Text.ToLowerIdempotent(e.message);
    Text.ToLowerIdempotent(e.originalMessage);
  }

  /** Either code is enough on its own; an error with no code and no message is not rate limiting. */
  lemma {:induction false} RateLimitCodes(message: string, originalMessage: string, value: Option<string>)
    ensures IsRateLimitError(RpcError(message, NumericCode(-32005), originalMessage, value))
    ensures IsRateLimitError(RpcError(message, NumericCode(429), originalMessage, value))
    ensures !IsRateLimitError(RpcError("", NoCode, "", value))
  {
  }

  /** A provider message that contains "429" is enough, whatever the code. */
  lemma {:induction false} RateLimitByMessage(before: string, after: string, code: ErrorCode, value: Option<string>)
    ensures IsRateLimitError(RpcError(before + "429" + after, code, "", value))
  {
    var message := before + "429" + after;
    var lowered := Text.ToLower(message);
    var i := |before|;
    assert message[i] == '4' && message[i + 1] == '2' && message[i + 2] == '9';
    assert lowered[i..i + 3] == "429";
    assert Text.OccursAt(lowered, "429", i);
  }

  /**
   * executeWithRetry from attempt k on: `outcome(k)` is what the k-th call of the operation
   * gives. Returns the result, the number of calls made, and the waits between them.
   */
  function Retry<T>(outcome: nat -> Result<T, RpcError>, maxRetries: nat, baseDelay: nat, k: nat)
    : (Result<T, RpcError>, nat, seq<nat>)
    requires k <= maxRetries
    decreases maxRetries - k
  {
    match outcome(k)
    case Ok(v) => (Ok(v), k + 1, [])
    case Err(e) =>
      if k == maxRetries || !IsRateLimitError(e) then (Err(e), k + 1, [])
      else
        var (r, attempts, delays) := Retry(outcome, maxRetries, baseDelay, k + 1);
        (r, attempts, [baseDelay * Bits.Pow2(k)] + delays)
  }

  /**
   * The retry loop makes between one and maxRetries + 1 calls; it returns the first success
   * and stops at the first error that is not rate limiting or that the last call gave; every
   * earlier call failed with a rate-limit error; and the wait after failed call j is
   * baseDelay · 2^j.
   */
  lemma {:induction false} RetryMeaning<T>(outcome: nat -> Result<T, RpcError>, maxRetries: nat, baseDelay: nat, k: nat)
    requires k <= maxRetries
    ensures var (r, attempts, delays) := Retry(outcome, maxRetries, baseDelay, k);
            k < attempts <= maxRetries + 1
            && r == outcome(attempts - 1)
            && (r.Err? ==> attempts - 1 == maxRetries || !IsRateLimitError(r.error))
            && (forall j :: k <= j < attempts - 1 ==> outcome(j).Err? && IsRateLimitError(outcome(j).error))
            && |delays| == attempts - 1 - k
            && (forall j :: 0 <= j < |delays| ==> delays[j] == baseDelay * Bits.Pow2(k + j))
    decreases maxRetries - k
  {
    match outcome(k)
    case Ok(v) =>
    case Err(e) =>
      if k < maxRetries && IsRateLimitError(e) {
        RetryMeaning(outcome, maxRetries, baseDelay, k + 1);
        var (r, attempts, delays) := Retry(outcome, maxRetries, baseDelay, k + 1);
        assert forall j :: 1 <= j < |delays| + 1 ==> ([baseDelay * Bits.Pow2(k)] + delays)[j] == delays[j - 1];
      }
  }

  /** RateLimitHandler.executeWithRetry. */
  method ExecuteWithRetry<T>(outcome: nat -> Result<T, RpcError>, maxRetries: nat, baseDelay: nat)
    returns (r: Result<T, RpcError>, attempts: nat, delays: seq<nat>)
    ensures (r, attempts, delays) == Retry(outcome, maxRetries, baseDelay, 0)
  {
    var attempt := 0;
    delays := [];
    assert forall ds: seq<nat> :: [] + ds == ds;
    while attempt <= maxRetries
      invariant attempt <= maxRetries
      invariant Retry(outcome, maxRetries, baseDelay, 0)
                == (var (r', n', ds') := Retry(outcome, maxRetries, baseDelay, attempt); (r', n', delays + ds'))
      decreases maxRetries - attempt
    {
      var result := outcome(attempt);
      if result.Ok? {
        assert delays + [] == delays;
        return Ok(result.value), attempt + 1, delays;
      }
      var error := result.error;
      if attempt == maxRetries {
        assert delays + [] == delays;
        return Err(error), attempt + 1, delays;
      }
      if IsRateLimitError(error) {
        var delay := baseDelay * Bits.Pow2(attempt);
        assert forall ds: seq<nat> :: delays + ([delay] + ds) == (delays + [delay]) + ds;
        delays := delays + [delay];
      } else {
        assert delays + [] == delays;
        return Err(error), attempt + 1, delays;
      }
      attempt := attempt + 1;
    }
    assert false;
  }

  datatype AddressError = AddressRequired | InvalidAddressFormat(address: string)

  /**
   * The constructor's address check: the given address, or the configured one when none (or
   * "") is given; refused when empty, when it does not start with "0x", or when it is not
   * 42 characters long.
   */
  function ContractAddress(contractAddress: string, configured: string): (r: Result<string, AddressError>)
    ensures var address := if contractAddress != "" then contractAddress else configured;
            (r.Ok? <==> |address| == 42 && Text.StartsWith(address, "0x"))
            && (r.Ok? ==> r.value == address)
            && (r == Err(AddressRequired) <==> address == "")
  {
    var address := if contractAddress != "" then contractAddress else configured;
    if address == "" then Err(AddressRequired)
    else if !Text.StartsWith(address, "0x") || |address| != 42 then Err(InvalidAddressFormat(address))
    else Ok(address)
  }

  /** getCensusRoot's handler: the empty tree answers with the bytes "0x", read as root 0. */
  function EmptyTreeAsZero(call: Result<nat, RpcError>): (r: Result<nat, RpcError>)
  {
    match call
    case Ok(root) => Ok(root)
    case Err(e) => if e.code == TextCode("BAD_DATA") && e.value == Some("0x") then Ok(0) else Err(e)
  }

  /** getCensusRoot: the handled call, retried with the defaults (three retries, two seconds). */
  method GetCensusRoot(call: nat -> Result<nat, RpcError>) returns (r: Result<nat, RpcError>, attempts: nat)
    ensures var (r', n', _) := Retry((k: nat) => EmptyTreeAsZero(call(k)), 3, 2000, 0); r == r' && attempts == n'
  {
    var delays;
    r, attempts, delays := ExecuteWithRetry((k: nat) => EmptyTreeAsZero(call(k)), 3, 2000);
  }

  /**
   * The empty-tree answer is a root of 0 at the first call, never a retry; any other error
   * is passed on unchanged.
   */
  lemma {:induction false} EmptyTreeRootIsZero(call: nat -> Result<nat, RpcError>)
    requires call(0).Err? && call(0).error.code == TextCode("BAD_DATA") && call(0).error.value == Some("0x")
    ensures Retry((k: nat) => EmptyTreeAsZero(call(k)), 3, 2000, 0) == (Ok(0), 1, [])
  {
  }

  lemma {:induction false} EmptyTreeAsZeroKeepsOthers(call: Result<nat, RpcError>)
    requires call.Err? && (call.error.code != TextCode("BAD_DATA") || call.error.value != Some("0x"))
    ensures EmptyTreeAsZero(call) == call
  {
  }

  /** UI_CONFIG.MAX_BATCH_SIZE. */
  const BatchSize: nat := 50

  function Min(a: int, b: int): int { if a <= b then a else b }

  /** The k-th batch: the tokens from 50·k up to, not including, min(50·k + 50, n). */
  function Chunk(tokens: seq<string>, k: nat): (r: seq<string>)
    requires k * BatchSize <= |tokens|
    ensures |r| <= BatchSize
  {
    tokens[k * BatchSize..Min(k * BatchSize + BatchSize, |tokens|)]
  }

  /** The number of batches: ⌈n / 50⌉. */
  function BatchCount(n: nat): (r: nat)
    ensures (r - 1) * BatchSize < n <= r * BatchSize || (n == 0 && r == 0)
  {
    (n + BatchSize - 1) / BatchSize
  }

  /** The results after k batches, or the first batch's error. */
  function Batched<T>(tokens: seq<string>, operation: seq<string> -> Result<seq<T>, RpcError>, k: nat)
    : Result<seq<T>, RpcError>
    requires k * BatchSize <= |tokens| + BatchSize - 1
    decreases k
  {
    if k == 0 then Ok([])
    else
      match Batched(tokens, operation, k - 1)
      case Err(e) => Err(e)
      case Ok(results) =>
        match operation(Chunk(tokens, k - 1))
        case Err(e) => Err(e)
        case Ok(batch) => Ok(results + batch)
  }

  /** The tokens the first k batches cover, in order. */
  function Covered(tokens: seq<string>, k: nat): seq<string>
    requires k * BatchSize <= |tokens| + BatchSize - 1
  {
    if k == 0 then [] else Covered(tokens, k - 1) + Chunk(tokens, k - 1)
  }

  /**
   * The batches are consecutive, disjoint and in order: the first k cover exactly the first
   * min(50·k, n) tokens; every batch but the last is full and none is empty.
   */
  lemma {:induction false} BatchesCover(tokens: seq<string>, k: nat)
    requires k * BatchSize <= |tokens| + BatchSize - 1
    ensures Covered(tokens, k) == tokens[..Min(k * BatchSize, |tokens|)]
    ensures k > 0 ==> 0 < |Chunk(tokens, k - 1)|
    ensures k > 0 && k < BatchCount(|tokens|) ==> |Chunk(tokens, k - 1)| == BatchSize
  {
    if k > 0 {
      BatchesCover(tokens, k - 1);
      assert tokens[..Min(k * BatchSize, |tokens|)]
          == tokens[..(k - 1) * BatchSize] + tokens[(k - 1) * BatchSize..Min(k * BatchSize, |tokens|)];
    }
  }

  /** With an operation that hands each batch back, the batched results are the tokens themselves. */
  lemma {:induction false} BatchedKeepsOrder(tokens: seq<string>, operation: seq<string> -> Result<seq<string>, RpcError>, k: nat)
    requires k * BatchSize <= |tokens| + BatchSize - 1
    requires forall batch :: operation(batch) == Ok(batch)
    ensures Batched(tokens, operation, k) == Ok(Covered(tokens, k))
  {
    if k > 0 {
      BatchedKeepsOrder(tokens, operation, k - 1);
    }
  }

  /**
   * batchTokenOperation: the operation on each batch in turn, the results concatenated; the
   * progress reported after batch k is min(50·(k + 1), n). A failing batch ends the loop
   * with its error.
   */
  method BatchTokenOperation<T>(tokens: seq<string>, operation: seq<string> -> Result<seq<T>, RpcError>)
    returns (r: Result<seq<T>, RpcError>, progress: seq<nat>)
    ensures r.Ok? ==> |progress| == BatchCount(|tokens|) && r == Batched(tokens, operation, BatchCount(|tokens|))
    ensures r.Err? ==> |progress| < BatchCount(|tokens|) && r == Batched(tokens, operation, |progress| + 1)
    ensures forall k :: 0 <= k < |progress| ==> progress[k] == Min((k + 1) * BatchSize, |tokens|)
  {
    var results: seq<T> := [];
    progress := [];
    var i := 0;
    while i < |tokens|
      invariant i == |progress| * BatchSize
      invariant i <= |tokens| + BatchSize - 1
      invariant Batched(tokens, operation, |progress|) == Ok(results)
      invariant forall k :: 0 <= k < |progress| ==> progress[k] == Min((k + 1) * BatchSize, |tokens|)
    {
      var batch := tokens[i..Min(i + BatchSize, |tokens|)];
      assert batch == Chunk(tokens, |progress|);
      var batchResults := operation(batch);
      if batchResults.Err? {
        return Err(batchResults.error), progress;
      }
      results := results + batchResults.value;
      progress := progress + [Min(i + BatchSize, |tokens|)];
      i := i + BatchSize;
    }
    assert |progress| == BatchCount(|tokens|);
    r := Ok(results);
  }
}
