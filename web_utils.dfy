/**
 * The web app's display helpers for addresses and chains: shortening an address to its
 * ends around "...", the address-format test, and naming a chain from its id. The address
 * shortener appears twice in the app with the same code (formatAddress in utils.ts and
 * truncateAddress in web3-utils.ts), and so does the format test; each is defined once here.
 */
module WebUtils {
  import Text

  /**
   * formatAddress / truncateAddress: the empty string stays empty, an address shorter than
   * both ends together is kept whole, anything else becomes its first startLength
   * characters, "...", and `address.slice(-endLength)` — the last endLength characters,
   * or the whole address when endLength is 0, since -0 is 0.
   */
  function FormatAddress(address: string, startLength: nat, endLength: nat): string
  {
    if address == "" then ""
    else if |address| < startLength + endLength then address
    else address[..startLength] + "..." + (if endLength == 0 then address else address[|address| - endLength..])
  }

  /**
   * A shortened address keeps the address's first startLength and last endLength
   * characters around "...", and is startLength + 3 + endLength long; only endLength 0
   * breaks the pattern, putting the whole address after the dots.
   */
  lemma {:induction false} FormatAddressKeepsEnds(address: string, startLength: nat, endLength: nat)
    ensures var r := FormatAddress(address, startLength, endLength);
            (address == "" || |address| < startLength + endLength) ==> r == address
    ensures var r := FormatAddress(address, startLength, endLength);
            address != "" && |address| >= startLength + endLength ==>
              Text.StartsWith(r, address[..startLength])
              && r[startLength..startLength + 3] == "..."
              && r[startLength + 3..] == (if endLength == 0 then address else address[|address| - endLength..])
              && |r| == startLength + 3 + (if endLength == 0 then |address| else endLength)
  {
    var r := FormatAddress(address, startLength, endLength);
    if address != "" && |address| >= startLength + endLength {
      var tail := if endLength == 0 then address else address[|address| - endLength..];
      assert r == address[..startLength] + "..." + tail;
      assert r[..startLength] == address[..startLength];
      assert r[startLength + 3..] == tail;
    }
  }

  /**
   * Shortening a shortened address changes nothing when endLength > 0: the result is at
   * least startLength + endLength long and has the same two ends.
   */
  lemma {:induction false} FormatAddressIdempotent(address: string, startLength: nat, endLength: nat)
    requires endLength > 0
    ensures FormatAddress(FormatAddress(address, startLength, endLength), startLength, endLength)
         == FormatAddress(address, startLength, endLength)
  {
    var r := FormatAddress(address, startLength, endLength);
    if address != "" && |address| >= startLength + endLength {
      var tail := address[|address| - endLength..];
      assert r == address[..startLength] + "..." + tail;
      assert r[..startLength] == address[..startLength];
      assert r[|r| - endLength..] == tail;
    }
  }

  /** With endLength 0 a second shortening does not settle: it grows by the dots and the prefix again. */
  lemma {:induction false} FormatAddressZeroEndGrows(address: string, startLength: nat)
    requires address != "" && |address| >= startLength
    ensures |FormatAddress(FormatAddress(address, startLength, 0), startLength, 0)|
         == |FormatAddress(address, startLength, 0)| + startLength + 3
  {
    var r := FormatAddress(address, startLength, 0);
    assert |r| == startLength + 3 + |address|;
  }

  /** isValidAddress: exactly "0x" and forty hexadecimal digits of either case. */
  predicate IsValidAddress(address: string)
  {
    |address| == 42 && address[0] == '0' && address[1] == 'x' && Text.AllHex(address[2..])
  }

  /** With the default ends a valid address shows as "0x", four digits, "...", and its last four digits. */
  lemma {:induction false} FormatValidAddress(address: string)
    requires IsValidAddress(address)
    ensures var r := FormatAddress(address, 6, 4);
            |r| == 13 && r[..2] == "0x" && r[6..9] == "..."
            && r[..6] == address[..6] && r[9..] == address[38..]
  {
    FormatAddressKeepsEnds(address, 6, 4);
  }

  /** A chain id as getNetworkName takes it: a number, or a string used as it is. */
  datatype ChainId = ChainNumber(n: nat) | ChainString(s: string)

  /** The lookup key: a number becomes "0x" and its lower-case hexadecimal digits. */
  function ChainKey(id: ChainId): string
  {
    match id
    case ChainNumber(n) => "0x" + Text.ToHex(n)
    case ChainString(s) => s
  }

  const UnknownNetwork := "Unknown Network"

  /** The network table; a key missing from it falls back to "Unknown Network". */
  function NetworkName(id: ChainId): string
  {
    var key := ChainKey(id);
    if key == "0x1" then "Ethereum"
    else if key == "0x5" then "Goerli"
    else if key == "0xaa36a7" then "Sepolia"
    else if key == "0x89" then "Polygon"
    else if key == "0x13881" then "Mumbai"
    else UnknownNetwork
  }

  /** The keys of the network table. */
  predicate IsKnownKey(key: string)
  {
    key in ["0x1", "0x5", "0xaa36a7", "0x89", "0x13881"]
  }

  /** A string id is named exactly when it is one of the table's keys, character for character. */
  lemma {:induction false} NetworkNameOfString(s: string)
    ensures NetworkName(ChainString(s)) != UnknownNetwork <==> IsKnownKey(s)
    ensures NetworkName(ChainString("0xAA36A7")) == UnknownNetwork
  {
    assert "0xAA36A7" != "0xaa36a7" by { assert "0xAA36A7"[2] != "0xaa36a7"[2]; }
  }

  /** One more hexadecimal digit: ToHex(16 · q + d) is ToHex(q) followed by d's digit. */
  lemma {:induction false} HexStep(q: nat, d: nat, c: char)
    requires 1 <= q && d < 16 && Text.HexDigitChar(d) == c
    ensures Text.ToHex(16 * q + d) == Text.ToHex(q) + [c]
  {
    var n := 16 * q + d;
    assert n / 16 == q && n % 16 == d;
  }

  lemma {:induction false} HexOfSepolia()
    ensures Text.ToHex(11155111) == "aa36a7"
  {
    assert Text.ToHex(10) == "a";
    HexStep(10, 10, 'a');
    HexStep(170, 3, '3');
    HexStep(2723, 6, '6');
    HexStep(43574, 10, 'a');
    HexStep(697194, 7, '7');
  }

  lemma {:induction false} HexOfSmallIds()
    ensures Text.ToHex(1) == "1" && Text.ToHex(5) == "5"
    ensures Text.ToHex(137) == "89" && Text.ToHex(80001) == "13881"
  {
    assert Text.ToHex(1) == "1" && Text.ToHex(5) == "5" && Text.ToHex(8) == "8";
    HexStep(8, 9, '9');
    HexStep(1, 3, '3');
    HexStep(19, 8, '8');
    HexStep(312, 8, '8');
    HexStep(5000, 1, '1');
  }

  lemma {:induction false} SepoliaKey()
    ensures "0x" + Text.ToHex(11155111) == "0xaa36a7"
  {
    HexOfSepolia();
  }

  lemma {:induction false} SmallIdKeys(n: nat)
    requires n in {1, 5, 137, 80001}
    ensures "0x" + Text.ToHex(n) in ["0x1", "0x5", "0x89", "0x13881"]
  {
    HexOfSmallIds();
    if n == 1 {
      assert "0x" + Text.ToHex(n) == "0x1";
    } else if n == 5 {
      assert "0x" + Text.ToHex(n) == "0x5";
    } else if n == 137 {
      assert "0x" + Text.ToHex(n) == "0x89";
    } else {
      assert "0x" + Text.ToHex(n) == "0x13881";
    }
  }

  /** Only the five table ids render to a table key. */
  lemma {:induction false} KnownKeyOfNumber(n: nat)
    requires IsKnownKey("0x" + Text.ToHex(n))
    ensures n in {1, 5, 11155111, 137, 80001}
  {
    var key := "0x" + Text.ToHex(n);
    assert key[2..] == Text.ToHex(n);
    if key == "0x1" {
      HexOfSmallIds();
      assert key[2..] == "1";
      Text.ToHexInjective(n, 1);
    } else if key == "0x5" {
      HexOfSmallIds();
      assert key[2..] == "5";
      Text.ToHexInjective(n, 5);
    } else if key == "0xaa36a7" {
      HexOfSepolia();
      assert key[2..] == "aa36a7";
      Text.ToHexInjective(n, 11155111);
    } else if key == "0x89" {
      HexOfSmallIds();
      assert key[2..] == "89";
      Text.ToHexInjective(n, 137);
    } else {
      HexOfSmallIds();
      assert key[2..] == "13881";
      Text.ToHexInjective(n, 80001);
    }
  }

  /**
   * A numeric id is looked up under its hexadecimal string, so it names a network exactly
   * when it is 1, 5, 11155111, 137 or 80001, with the same name as that string.
   */
  lemma {:induction false} NetworkNameOfNumber(n: nat)
    ensures NetworkName(ChainNumber(n)) == NetworkName(ChainString("0x" + Text.ToHex(n)))
    ensures NetworkName(ChainNumber(n)) != UnknownNetwork <==> n in {1, 5, 11155111, 137, 80001}
    ensures n == 11155111 ==> NetworkName(ChainNumber(n)) == "Sepolia"
    ensures n == 1 ==> NetworkName(ChainNumber(n)) == "Ethereum"
  {
    var key := "0x" + Text.ToHex(n);
    NetworkNameOfString(key);
    if IsKnownKey(key) {
      KnownKeyOfNumber(n);
    }
    if n == 11155111 {
      SepoliaKey();
    } else if n in {1, 5, 137, 80001} {
      SmallIdKeys(n);
    }
  }
}
