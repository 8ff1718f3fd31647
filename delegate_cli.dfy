/**
 * Helpers of the delegation command-line tool: thousands separators for numbers, the
 * bracketed token-id list it prints, and how the tokens to delegate are dealt out to the
 * delegates, a fixed number per transaction.
 */
module DelegateCli {
  import Text

  /** A comma goes before the digit at position i when i > 0 and a multiple of three digits follow from it. */
  predicate CommaBefore(digits: string, i: nat)
  {
    i > 0 && (|digits| - i) % 3 == 0
  }

  /** What formatWithCommas has built after the first i digits. */
  function FormattedPrefix(digits: string, i: nat): string
    requires i <= |digits|
  {
    if i == 0 then ""
    else FormattedPrefix(digits, i - 1) + (if CommaBefore(digits, i - 1) then "," else "") + [digits[i - 1]]
  }

  /** The grouping defined from the right: the last three digits, after the grouped rest. */
  function Grouped(digits: string): string
    decreases |digits|
  {
    if |digits| <= 3 then digits else Grouped(digits[..|digits| - 3]) + "," + digits[|digits| - 3..]
  }

  /** The digits without their separators. */
  function StripCommas(s: string): string
  {
    if s == [] then ""
    else StripCommas(s[..|s| - 1]) + (if s[|s| - 1] == ',' then "" else [s[|s| - 1]])
  }

  function CommaCount(s: string): nat
  {
    if s == [] then 0 else CommaCount(s[..|s| - 1]) + (if s[|s| - 1] == ',' then 1 else 0)
  }

  /** Below the last three digits, the comma test is the same for the digits and for their prefix. */
  lemma {:induction false} FormattedPrefixDropsLastGroup(digits: string, i: nat)
    requires |digits| > 3 && i <= |digits| - 3
    ensures FormattedPrefix(digits, i) == FormattedPrefix(digits[..|digits| - 3], i)
  {
    if i > 0 {
      FormattedPrefixDropsLastGroup(digits, i - 1);
      assert (|digits| - (i - 1)) % 3 == (|digits| - 3 - (i - 1)) % 3;
    }
  }

  /** Up to three digits, the loop adds no comma. */
  lemma {:induction false} ShortFormatted(digits: string)
    requires |digits| <= 3
    ensures FormattedPrefix(digits, |digits|) == digits
  {
    var n := |digits|;
    if n >= 1 { assert FormattedPrefix(digits, 1) == digits[..1]; }
    if n >= 2 { assert FormattedPrefix(digits, 2) == digits[..2]; }
    if n >= 3 { assert FormattedPrefix(digits, 3) == digits[..3]; }
    assert digits[..n] == digits;
  }

  /** The loop's last three steps add a comma and the last three digits. */
  lemma {:induction false} LastGroupFormatted(digits: string)
    requires |digits| > 3
    ensures FormattedPrefix(digits, |digits|)
         == FormattedPrefix(digits, |digits| - 3) + "," + digits[|digits| - 3..]
  {
    var n := |digits|;
    var head := FormattedPrefix(digits, n - 3);
    assert CommaBefore(digits, n - 3) && !CommaBefore(digits, n - 2) && !CommaBefore(digits, n - 1);
    assert FormattedPrefix(digits, n - 2) == head + "," + [digits[n - 3]];
    assert FormattedPrefix(digits, n - 1) == head + "," + [digits[n - 3]] + [digits[n - 2]];
    assert digits[n - 3..] == [digits[n - 3]] + [digits[n - 2]] + [digits[n - 1]];
  }

  /** The left-to-right loop and the right-to-left grouping agree. */
  lemma {:induction false} FormattedIsGrouped(digits: string)
    ensures FormattedPrefix(digits, |digits|) == Grouped(digits)
    decreases |digits|
  {
    var n := |digits|;
    if n <= 3 {
      ShortFormatted(digits);
    } else {
      FormattedIsGrouped(digits[..n - 3]);
      FormattedPrefixDropsLastGroup(digits, n - 3);
      LastGroupFormatted(digits);
    }
  }

  lemma {:induction false} StripAppend(a: string, b: string)
    ensures StripCommas(a + b) == StripCommas(a) + StripCommas(b)
    ensures CommaCount(a + b) == CommaCount(a) + CommaCount(b)
    decreases |b|
  {
    if b == [] {
      assert a + b == a;
    } else {
      assert (a + b)[..|a + b| - 1] == a + b[..|b| - 1];
      StripAppend(a, b[..|b| - 1]);
    }
  }

  lemma {:induction false} StripDigits(s: string)
    requires Text.AllDigits(s)
    ensures StripCommas(s) == s && CommaCount(s) == 0
  {
    if s != [] {
      StripDigits(s[..|s| - 1]);
      assert s[..|s| - 1] + [s[|s| - 1]] == s;
    }
  }

  /** Removing the commas from grouped digits gives the digits back; there are (n − 1) / 3 of them. */
  lemma {:induction false} GroupedStrip(digits: string)
    requires |digits| >= 1 && Text.AllDigits(digits)
    ensures StripCommas(Grouped(digits)) == digits
    ensures CommaCount(Grouped(digits)) == (|digits| - 1) / 3
    ensures |Grouped(digits)| == |digits| + (|digits| - 1) / 3
    decreases |digits|
  {
    var n := |digits|;
    if n <= 3 {
      StripDigits(digits);
    } else {
      var rest := digits[..n - 3];
      var last := digits[n - 3..];
      GroupedStrip(rest);
      StripJoin(Grouped(rest), last);
      assert rest + last == digits;
    }
  }

  /** A comma and a group of digits add the digits and one comma. */
  lemma {:induction false} StripJoin(head: string, last: string)
    requires Text.AllDigits(last)
    ensures StripCommas(head + "," + last) == StripCommas(head) + last
    ensures CommaCount(head + "," + last) == CommaCount(head) + 1
  {
    StripDigits(last);
    StripAppend(head + ",", last);
    StripAppend(head, ",");
    assert StripCommas(",") == "" && CommaCount(",") == 1 by { assert ","[..0] == ""; }
  }

  /**
   * A character is a comma exactly when it is not the first and a multiple of four
   * characters, the comma included, start at it: a leading group of one to three digits,
   * then groups of three each behind a comma.
   */
  predicate CommaPositions(g: string)
  {
    forall p :: 0 <= p < |g| ==> (g[p] == ',' <==> p > 0 && (|g| - p) % 4 == 0)
  }

  /** Appending a comma and three digits keeps the comma positions. */
  lemma {:induction false} CommaPositionsStep(h: string, last: string)
    requires CommaPositions(h) && |h| >= 1 && |last| == 3 && Text.AllDigits(last)
    ensures CommaPositions(h + "," + last)
  {
    var g := h + "," + last;
    forall p | 0 <= p < |g|
      ensures g[p] == ',' <==> p > 0 && (|g| - p) % 4 == 0
    {
      if p < |h| {
        assert g[p] == h[p];
        ModShift(|h| - p);
      } else if p > |h| {
        assert g[p] == last[p - |h| - 1];
        assert Text.IsDigit(last[p - |h| - 1]);
      }
    }
  }

  /** Grouped digits have their commas exactly where the grouping puts them. */
  lemma {:induction false} GroupedCommas(digits: string)
    requires Text.AllDigits(digits)
    ensures CommaPositions(Grouped(digits))
    decreases |digits|
  {
    var n := |digits|;
    if n > 3 {
      GroupedCommas(digits[..n - 3]);
      GroupedStrip(digits[..n - 3]);
      CommaPositionsStep(Grouped(digits[..n - 3]), digits[n - 3..]);
    } else {
      forall p | 0 <= p < n
        ensures digits[p] != ','
      {
        assert Text.IsDigit(digits[p]);
      }
    }
  }

  lemma {:induction false} ModShift(x: int)
    ensures (x + 4) % 4 == x % 4
  {
  }

  /** formatWithCommas: the decimal digits of n, a comma before each later group of three. */
  method FormatWithCommas(n: nat) returns (result: string)
    ensures result == Grouped(Text.ToDecimal(n))
  {
    var str := Text.ToDecimal(n);
    result := "";
    var i := 0;
    while i < |str|
      invariant i <= |str|
      invariant result == FormattedPrefix(str, i)
    {
      if i > 0 && (|str| - i) % 3 == 0 {
        result := result + ",";
      }
      result := result + [str[i]];
      i := i + 1;
    }
    FormattedIsGrouped(str);
  }

  /**
   * Removing the commas from the formatted number gives its decimal digits; the commas
   * stand every three digits from the right, and numbers below 1000 get none.
   */
  lemma {:induction false} FormatWithCommasMeaning(n: nat)
    ensures CommaPositions(Grouped(Text.ToDecimal(n)))
    ensures StripCommas(Grouped(Text.ToDecimal(n))) == Text.ToDecimal(n)
    ensures CommaCount(Grouped(Text.ToDecimal(n))) == (|Text.ToDecimal(n)| - 1) / 3
    ensures n < 1000 ==> Grouped(Text.ToDecimal(n)) == Text.ToDecimal(n)
  {
    GroupedStrip(Text.ToDecimal(n));
    GroupedCommas(Text.ToDecimal(n));
    if n < 1000 {
      DecimalLength(n);
    }
  }

  lemma {:induction false} DecimalLength(n: nat)
    requires n < 1000
    ensures |Text.ToDecimal(n)| <= 3
  {
    if n >= 10 {
      DecimalLengthBelow100(n / 10);
    }
  }

  lemma {:induction false} DecimalLengthBelow100(n: nat)
    requires n < 100
    ensures |Text.ToDecimal(n)| <= 2
  {
    if n >= 10 {
      assert |Text.ToDecimal(n / 10)| == 1;
    }
  }

  /** The token ids' decimal strings. */
  function Decimals(ids: seq<nat>): (r: seq<string>)
    ensures |r| == |ids|
    ensures forall i :: 0 <= i < |ids| ==> r[i] == Text.ToDecimal(ids[i])
  {
    if ids == [] then [] else Decimals(ids[..|ids| - 1]) + [Text.ToDecimal(ids[|ids| - 1])]
  }

  lemma {:induction false} JoinAppend(parts: seq<string>, part: string, sep: string)
    ensures Text.Join(parts + [part], sep) == if parts == [] then part else Text.Join(parts, sep) + sep + part
    decreases |parts|
  {
    if |parts| == 1 {
      assert (parts + [part])[1..] == [part];
    } else if |parts| > 1 {
      assert (parts + [part])[1..] == parts[1..] + [part];
      JoinAppend(parts[1..], part, sep);
    }
  }

  /** tokenIDsToString: "[]" for no ids, otherwise the ids in decimal, separated by ", ", in brackets. */
  method TokenIdsToString(ids: seq<nat>) returns (result: string)
    ensures result == "[" + Text.Join(Decimals(ids), ", ") + "]"
  {
    if |ids| == 0 {
      return "[]";
    }
    result := "[";
    var i := 0;
    while i < |ids|
      invariant i <= |ids|
      invariant result == "[" + Text.Join(Decimals(ids[..i]), ", ")
    {
      assert ids[..i + 1][..i] == ids[..i];
      JoinAppend(Decimals(ids[..i]), Text.ToDecimal(ids[i]), ", ");
      if i > 0 {
        result := result + ", ";
      }
      result := result + Text.ToDecimal(ids[i]);
      i := i + 1;
    }
    assert ids[..i] == ids;
    result := result + "]";
  }

  /** The list is empty exactly when the rendering is "[]"; each id adds its digits and each later one a separator. */
  lemma {:induction false} TokenIdsLength(ids: seq<nat>)
    ensures var r := "[" + Text.Join(Decimals(ids), ", ") + "]";
            (r == "[]" <==> ids == [])
            && |r| >= 2 + |ids|
  {
    if ids != [] {
      var n := |ids| - 1;
      assert ids[..n] + [ids[n]] == ids;
      TokenIdsLength(ids[..n]);
      JoinAppend(Decimals(ids[..n]), Text.ToDecimal(ids[n]), ", ");
    }
  }

  function Min(a: int, b: int): int { if a <= b then a else b }

  /** The tokens delegate i is dealt: the next tokensPerTx tokens, or what is left of them. */
  function Deal(nfts: seq<nat>, tokensPerTx: nat, i: nat): seq<nat>
  {
    nfts[Min(i * tokensPerTx, |nfts|)..Min((i + 1) * tokensPerTx, |nfts|)]
  }

  /** The tokens the first k delegates are dealt, in turn. */
  function Dealt(nfts: seq<nat>, tokensPerTx: nat, k: nat): seq<nat>
  {
    if k == 0 then [] else Dealt(nfts, tokensPerTx, k - 1) + Deal(nfts, tokensPerTx, k - 1)
  }

  /**
   * simulateDelegations' token dealing: delegate i gets the next tokensPerTx tokens, or what
   * is left of them; once the tokens run out, the remaining delegates get none.
   */
  method DealTokens(delegates: nat, nfts: seq<nat>, tokensPerTx: nat) returns (dealt: seq<seq<nat>>)
    requires tokensPerTx >= 1
    ensures |dealt| == delegates
    ensures forall i :: 0 <= i < delegates ==> dealt[i] == Deal(nfts, tokensPerTx, i)
  {
    var nftIndex := 0;
    dealt := [];
    var i := 0;
    while i < delegates
      invariant i <= delegates
      invariant |dealt| == i
      invariant nftIndex == Min(i * tokensPerTx, |nfts|)
      invariant forall k :: 0 <= k < i ==> dealt[k] == Deal(nfts, tokensPerTx, k)
    {
      var tokens: seq<nat> := [];
      var j := 0;
      ghost var start := nftIndex;
      while j < tokensPerTx && nftIndex < |nfts|
        invariant j <= tokensPerTx
        invariant nftIndex == start + j <= |nfts|
        invariant tokens == nfts[start..nftIndex]
      {
        tokens := tokens + [nfts[nftIndex]];
        nftIndex := nftIndex + 1;
        j := j + 1;
      }
      assert nftIndex == Min((i + 1) * tokensPerTx, |nfts|) by {
        assert (i + 1) * tokensPerTx == i * tokensPerTx + tokensPerTx;
      }
      dealt := dealt + [tokens];
      i := i + 1;
    }
  }

  /**
   * The deals are disjoint, consecutive and in order: together the first k delegates receive
   * exactly the first min(k · tokensPerTx, n) tokens, and a delegate after those is dealt
   * nothing.
   */
  lemma {:induction false} DealsCover(nfts: seq<nat>, tokensPerTx: nat, k: nat)
    requires tokensPerTx >= 1
    ensures Dealt(nfts, tokensPerTx, k) == nfts[..Min(k * tokensPerTx, |nfts|)]
    ensures k * tokensPerTx >= |nfts| ==> Deal(nfts, tokensPerTx, k) == []
  {
    assert (k + 1) * tokensPerTx == k * tokensPerTx + tokensPerTx;
    if k > 0 {
      DealsCover(nfts, tokensPerTx, k - 1);
      assert (k - 1) * tokensPerTx + tokensPerTx == k * tokensPerTx;
      assert nfts[..Min(k * tokensPerTx, |nfts|)]
          == nfts[..Min((k - 1) * tokensPerTx, |nfts|)] + Deal(nfts, tokensPerTx, k - 1);
    }
  }
}
