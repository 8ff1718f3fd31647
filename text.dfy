/**
 * Character-level text helpers shared by the Go and TypeScript code: ASCII case
 * folding, decimal and hexadecimal rendering and parsing, substring search and joining.
 * Strings are sequences of characters; only the ASCII letters are case-folded.
 */
module Text {
  import opened Wrappers
  import Bits
  import Sorting

  predicate IsDigit(c: char) { '0' <= c <= '9' }

  predicate IsHexChar(c: char) { '0' <= c <= '9' || 'a' <= c <= 'f' || 'A' <= c <= 'F' }

  predicate AllDigits(s: string) { forall i :: 0 <= i < |s| ==> IsDigit(s[i]) }

  predicate AllHex(s: string) { forall i :: 0 <= i < |s| ==> IsHexChar(s[i]) }

  function DigitChar(d: nat): (c: char)
    requires d < 10
    ensures IsDigit(c) && c as int - '0' as int == d
  {
    ('0' as int + d) as char
  }

  /** Lower-case hexadecimal digit, as JavaScript's `toString(16)` writes it. */
  function HexDigitChar(d: nat): (c: char)
    requires d < 16
    ensures IsHexChar(c) && !('A' <= c <= 'F')
  {
    if d < 10 then DigitChar(d) else ('a' as int + d - 10) as char
  }

  function HexCharValue(c: char): (v: nat)
    requires IsHexChar(c)
    ensures v < 16
  {
    if '0' <= c <= '9' then c as int - '0' as int
    else if 'a' <= c <= 'f' then c as int - 'a' as int + 10
    else c as int - 'A' as int + 10
  }

  lemma {:induction false} HexDigitRoundTrip(d: nat)
    requires d < 16
    ensures HexCharValue(HexDigitChar(d)) == d
  {
  }

  /** Decimal rendering without leading zeros (Go's `%d`, `big.Int.String`, JavaScript's `toString()`). */
  function ToDecimal(n: nat): (s: string)
    ensures |s| >= 1 && AllDigits(s)
    ensures |s| > 1 ==> s[0] != '0'
  {
    if n < 10 then [DigitChar(n)] else ToDecimal(n / 10) + [DigitChar(n % 10)]
  }

  /** Lower-case hexadecimal rendering without leading zeros (JavaScript's `toString(16)`). */
  function ToHex(n: nat): (s: string)
    ensures |s| >= 1 && AllHex(s)
  {
    if n < 16 then [HexDigitChar(n)] else ToHex(n / 16) + [HexDigitChar(n % 16)]
  }

  function DecimalValue(s: string): nat
    requires AllDigits(s)
  {
    if s == [] then 0
    else 10 * DecimalValue(s[..|s| - 1]) + (s[|s| - 1] as int - '0' as int)
  }

  function HexValue(s: string): nat
    requires AllHex(s)
  {
    if s == [] then 0
    else 16 * HexValue(s[..|s| - 1]) + HexCharValue(s[|s| - 1])
  }

  lemma {:induction false} DecimalRoundTrip(n: nat)
    ensures DecimalValue(ToDecimal(n)) == n
  {
    if n >= 10 {
      var s := ToDecimal(n);
      assert s[..|s| - 1] == ToDecimal(n / 10);
      DecimalRoundTrip(n / 10);
    }
  }

  lemma {:induction false} HexRoundTrip(n: nat)
    ensures HexValue(ToHex(n)) == n
  {
    if n < 16 {
      HexDigitRoundTrip(n);
    } else {
      var s := ToHex(n);
      assert s[..|s| - 1] == ToHex(n / 16);
      HexRoundTrip(n / 16);
      HexDigitRoundTrip(n % 16);
    }
  }

  /** Distinct numbers have distinct hexadecimal renderings. */
  lemma {:induction false} ToHexInjective(a: nat, b: nat)
    requires ToHex(a) == ToHex(b)
    ensures a == b
  {
    HexRoundTrip(a);
    HexRoundTrip(b);
  }

  /**
   * Go's `strconv.ParseUint(s, 10, 64)`: a non-empty run of decimal digits (no sign, no
   * underscore, no prefix) whose value fits in 64 bits; anything else is an error.
   */
  function ParseUint64(s: string): (r: Option<nat>)
    ensures r.Some? ==> r.value < Bits.Pow2(64)
  {
    if |s| > 0 && AllDigits(s) && DecimalValue(s) < Bits.Pow2(64) then Some(DecimalValue(s)) else None
  }

  /** Every 64-bit value written in decimal parses back to itself. */
  lemma {:induction false} ParseUint64OfDecimal(n: nat)
    requires n < Bits.Pow2(64)
    ensures ParseUint64(ToDecimal(n)) == Some(n)
  {
    DecimalRoundTrip(n);
  }

  /**
   * JavaScript's `BigInt(s)` for the hexadecimal form `0x…` / `0X…` with at least one
   * digit, the only form the address strings here take; anything else throws.
   */
  function ParsePrefixedHex(s: string): (r: Option<nat>)
    ensures r.Some? <==> |s| > 2 && s[0] == '0' && (s[1] == 'x' || s[1] == 'X') && AllHex(s[2..])
  {
    if |s| > 2 && s[0] == '0' && (s[1] == 'x' || s[1] == 'X') && AllHex(s[2..]) then Some(HexValue(s[2..]))
    else None
  }

  /**
   * The characters JavaScript strips around a numeric string: the WhiteSpace code points
   * (tab, vertical tab, form feed, no-break space, byte-order mark and the space separators)
   * and the LineTerminator code points, as section 7.1.4.1.1 of ECMA-262 lists them.
   */
  predicate IsJsSpace(c: char)
  {
    c == '\t' || c == '\n' || c == '\U{000B}' || c == '\U{000C}' || c == '\r' || c == ' '
    || c == '\U{00A0}' || c == '\U{1680}' || ('\U{2000}' <= c <= '\U{200A}') || c == '\U{2028}'
    || c == '\U{2029}' || c == '\U{202F}' || c == '\U{205F}' || c == '\U{3000}' || c == '\U{FEFF}'
  }

  predicate AllJsSpace(s: string) { forall i :: 0 <= i < |s| ==> IsJsSpace(s[i]) }

  /** The string without its leading white space. */
  function TrimStart(s: string): (r: string)
    ensures |r| <= |s| && r == s[|s| - |r|..]
    ensures AllJsSpace(s[..|s| - |r|])
    ensures r != [] ==> !IsJsSpace(r[0])
  {
    if s != [] && IsJsSpace(s[0]) then
      var r := TrimStart(s[1..]);
      assert s[..|s| - |r|] == [s[0]] + s[1..][..|s| - 1 - |r|];
      r
    else s
  }

  /** The string without its trailing white space. */
  function TrimEnd(s: string): (r: string)
    ensures |r| <= |s| && r == s[..|r|]
    ensures AllJsSpace(s[|r|..])
    ensures r != [] ==> !IsJsSpace(r[|r| - 1])
  {
    if s != [] && IsJsSpace(s[|s| - 1]) then
      var r := TrimEnd(s[..|s| - 1]);
      assert s[|r|..] == s[..|s| - 1][|r|..] + [s[|s| - 1]];
      r
    else s
  }

  /** White space stripped from both ends. */
  function Trim(s: string): string
  {
    TrimEnd(TrimStart(s))
  }

  /** Leading white space is dropped whatever follows it. */
  lemma {:induction false} TrimStartSpace(w: string, s: string)
    requires AllJsSpace(w)
    ensures TrimStart(w + s) == TrimStart(s)
  {
    if w != [] {
      assert (w + s)[1..] == w[1..] + s;
      TrimStartSpace(w[1..], s);
    } else {
      assert w + s == s;
    }
  }

  /** Trailing white space is dropped whatever precedes it. */
  lemma {:induction false} TrimEndSpace(s: string, w: string)
    requires AllJsSpace(w)
    ensures TrimEnd(s + w) == TrimEnd(s)
  {
    if w != [] {
      assert (s + w)[..|s + w| - 1] == s + w[..|w| - 1];
      TrimEndSpace(s, w[..|w| - 1]);
    } else {
      assert s + w == s;
    }
  }

  /** Text that starts with a non-space keeps its trailing part when trimmed at the start. */
  lemma {:induction false} TrimStartAppend(s: string, w: string)
    requires TrimStart(s) != []
    ensures TrimStart(s + w) == TrimStart(s) + w
  {
    var sw := s + w;
    AppendHeadTail(s, w);
    if IsJsSpace(s[0]) {
      TrimStartStep(s);
      TrimStartStep(sw);
      TrimStartAppend(s[1..], w);
    } else {
      TrimStartStop(s);
      TrimStartStop(sw);
    }
  }

  lemma {:induction false} AppendHeadTail(s: string, w: string)
    requires s != []
    ensures (s + w)[0] == s[0] && (s + w)[1..] == s[1..] + w
  {
  }

  lemma {:induction false} TrimStartStep(s: string)
    requires s != [] && IsJsSpace(s[0])
    ensures TrimStart(s) == TrimStart(s[1..])
  {
  }

  lemma {:induction false} TrimStartStop(s: string)
    requires s != [] && !IsJsSpace(s[0])
    ensures TrimStart(s) == s
  {
  }

  /** A string of white space trims to nothing. */
  lemma {:induction false} TrimStartBlank(s: string)
    requires AllJsSpace(s)
    ensures TrimStart(s) == []
  {
    if s != [] {
      TrimStartBlank(s[1..]);
    }
  }

  /** White space around a string does not change what it trims to. */
  lemma {:induction false} TrimSpaceAround(w1: string, s: string, w2: string)
    requires AllJsSpace(w1) && AllJsSpace(w2)
    ensures Trim(w1 + s + w2) == Trim(s)
  {
    assert w1 + s + w2 == w1 + (s + w2);
    TrimStartSpace(w1, s + w2);
    var t := TrimStart(s);
    if t == [] {
      assert s[..|s|] == s;
      assert AllJsSpace(s + w2);
      TrimStartBlank(s + w2);
    } else {
      TrimStartAppend(s, w2);
      TrimEndSpace(t, w2);
    }
  }

  /** A digit of the given radix (2, 8, 10 or 16), in either case. */
  predicate IsRadixDigit(c: char, radix: nat)
  {
    IsHexChar(c) && HexCharValue(c) < radix
  }

  predicate AllRadix(s: string, radix: nat) { forall i :: 0 <= i < |s| ==> IsRadixDigit(s[i], radix) }

  function RadixValue(s: string, radix: nat): nat
    requires AllRadix(s, radix)
  {
    if s == [] then 0
    else radix * RadixValue(s[..|s| - 1], radix) + HexCharValue(s[|s| - 1])
  }

  /** The radix a `0x`, `0o` or `0b` prefix selects, either case; 0 for any other letter. */
  function PrefixRadix(c: char): nat
  {
    if c == 'x' || c == 'X' then 16
    else if c == 'o' || c == 'O' then 8
    else if c == 'b' || c == 'B' then 2
    else 0
  }

  /** The value of a string of decimal digits, with an optional sign in front. */
  function SignedDecimal(t: string): (r: Option<int>)
    ensures r.Some? && r.value < 0 ==> t != [] && t[0] == '-'
  {
    if t != [] && (t[0] == '+' || t[0] == '-') then
      if |t| > 1 && AllDigits(t[1..]) then
        var v: int := DecimalValue(t[1..]);
        Some(if t[0] == '-' then -v else v)
      else None
    else if t != [] && AllDigits(t) then Some(DecimalValue(t))
    else None
  }

  /**
   * JavaScript's `BigInt(s)` on a string (StringToBigInt, section 7.1.14 of ECMA-262): white
   * space around the text is ignored; an empty or all-space string is 0; otherwise the text
   * is `0x`, `0o` or `0b` (either case) followed by digits of that radix, or decimal digits
   * with an optional sign. Anything else throws a SyntaxError, here None.
   */
  function BigIntOf(s: string): (r: Option<int>)
    ensures Trim(s) == [] ==> r == Some(0)
    ensures r.Some? && r.value < 0 ==> Trim(s) != [] && Trim(s)[0] == '-'
  {
    var t := Trim(s);
    if t == [] then Some(0)
    else if |t| >= 2 && t[0] == '0' && PrefixRadix(t[1]) != 0 then
      if |t| > 2 && AllRadix(t[2..], PrefixRadix(t[1])) then
        Some(RadixValue(t[2..], PrefixRadix(t[1])))
      else None
    else SignedDecimal(t)
  }

  /** Text with no white space at either end is its own trimming. */
  lemma {:induction false} TrimWord(s: string)
    requires s != [] && !IsJsSpace(s[0]) && !IsJsSpace(s[|s| - 1])
    ensures Trim(s) == s
  {
    assert TrimStart(s) == s;
  }

  /** A string of decimal digits parses to its decimal value. */
  lemma {:induction false} BigIntOfDigits(s: string)
    requires |s| > 0 && AllDigits(s)
    ensures BigIntOf(s) == Some(DecimalValue(s))
  {
    TrimWord(s);
    assert s[0] != '+' && s[0] != '-';
    if |s| >= 2 && s[0] == '0' {
      assert PrefixRadix(s[1]) == 0;
    }
  }

  /** Every natural number written in decimal parses back to itself. */
  lemma {:induction false} BigIntOfDecimal(n: nat)
    ensures BigIntOf(ToDecimal(n)) == Some(n)
  {
    BigIntOfDigits(ToDecimal(n));
    DecimalRoundTrip(n);
  }

  lemma {:induction false} RadixValueHex(s: string)
    requires AllHex(s)
    ensures AllRadix(s, 16) && RadixValue(s, 16) == HexValue(s)
  {
    if s != [] {
      RadixValueHex(s[..|s| - 1]);
    }
  }

  /** The `0x` form the addresses take parses to the same value under BigInt. */
  lemma {:induction false} BigIntOfPrefixedHex(s: string)
    requires ParsePrefixedHex(s).Some?
    ensures BigIntOf(s) == Some(ParsePrefixedHex(s).value)
  {
    assert IsHexChar(s[|s| - 1]);
    TrimWord(s);
    RadixValueHex(s[2..]);
  }

  /** White space around the text does not change what BigInt reads. */
  lemma {:induction false} BigIntIgnoresSpace(w1: string, s: string, w2: string)
    requires AllJsSpace(w1) && AllJsSpace(w2)
    ensures BigIntOf(w1 + s + w2) == BigIntOf(s)
  {
    TrimSpaceAround(w1, s, w2);
  }

  /** The empty string and a string of white space are 0. */
  lemma {:induction false} BigIntOfBlank(s: string)
    requires AllJsSpace(s)
    ensures BigIntOf(s) == Some(0)
  {
    TrimStartBlank(s);
  }

  /** `0x`, `0o` or `0b`, in either case, followed by digits of that radix. */
  lemma {:induction false} BigIntOfRadix(c: char, digits: string)
    requires PrefixRadix(c) != 0 && |digits| > 0 && AllRadix(digits, PrefixRadix(c))
    ensures BigIntOf(['0', c] + digits) == Some(RadixValue(digits, PrefixRadix(c)))
  {
    var t := ['0', c] + digits;
    assert IsHexChar(t[|t| - 1]);
    TrimWord(t);
    assert t[2..] == digits;
  }

  /** A minus sign in front of decimal digits gives the negated value. */
  lemma {:induction false} BigIntOfNegative(digits: string)
    requires |digits| > 0 && AllDigits(digits)
    ensures BigIntOf(['-'] + digits) == Some(-(DecimalValue(digits) as int))
  {
    var t := ['-'] + digits;
    assert IsDigit(t[|t| - 1]);
    BigIntOfSigned(t);
    assert t[1..] == digits;
  }

  /** Text without surrounding space that does not start with 0 is read as an optionally signed decimal. */
  lemma {:induction false} BigIntOfSigned(t: string)
    requires t != [] && t[0] != '0' && !IsJsSpace(t[0]) && !IsJsSpace(t[|t| - 1])
    ensures BigIntOf(t) == SignedDecimal(t)
  {
    TrimWord(t);
  }

  function ToLowerChar(c: char): (r: char)
    ensures !('A' <= r <= 'Z')
    ensures !('A' <= c <= 'Z') ==> r == c
  {
    if 'A' <= c <= 'Z' then (c as int - 'A' as int + 'a' as int) as char else c
  }

  /** `toLowerCase()` on ASCII text. */
  function ToLower(s: string): (r: string)
    ensures |r| == |s|
    ensures forall i :: 0 <= i < |s| ==> r[i] == ToLowerChar(s[i])
  {
    if s == [] then [] else [ToLowerChar(s[0])] + ToLower(s[1..])
  }

  lemma {:induction false} ToLowerIdempotent(s: string)
    ensures ToLower(ToLower(s)) == ToLower(s)
  {
  }

  lemma {:induction false} ToLowerCharKeepsHex(c: char)
    requires IsHexChar(c)
    ensures IsHexChar(ToLowerChar(c)) && HexCharValue(ToLowerChar(c)) == HexCharValue(c)
  {
  }

  lemma {:induction false} ToLowerKeepsHex(s: string)
    requires AllHex(s)
    ensures AllHex(ToLower(s)) && HexValue(ToLower(s)) == HexValue(s)
  {
    var r := ToLower(s);
    forall i | 0 <= i < |r|
      ensures IsHexChar(r[i])
    {
      ToLowerCharKeepsHex(s[i]);
    }
    if s != [] {
      var init := s[..|s| - 1];
      ToLowerKeepsHex(init);
      assert r[..|s| - 1] == ToLower(init);
      ToLowerCharKeepsHex(s[|s| - 1]);
      assert HexValue(r) == 16 * HexValue(ToLower(init)) + HexCharValue(r[|s| - 1]);
    }
  }

  predicate AllZeroChars(z: string) { forall i :: 0 <= i < |z| ==> z[i] == '0' }

  lemma {:induction false} HexValueOfZeros(z: string)
    requires AllZeroChars(z)
    ensures AllHex(z) && HexValue(z) == 0
  {
    if z != [] {
      HexValueOfZeros(z[..|z| - 1]);
    }
  }

  /** Leading zeros do not change a hexadecimal value. */
  lemma {:induction false} HexValueLeadingZeros(z: string, s: string)
    requires AllZeroChars(z) && AllHex(s)
    ensures AllHex(z + s) && HexValue(z + s) == HexValue(s)
  {
    if s == [] {
      assert z + s == z;
      HexValueOfZeros(z);
    } else {
      HexValueLeadingZeros(z, s[..|s| - 1]);
      assert (z + s)[..|z + s| - 1] == z + s[..|s| - 1];
    }
  }

  /** Zero-padding a hexadecimal rendering on the left keeps its value. */
  lemma {:induction false} PadStartHexValue(s: string, n: nat)
    requires AllHex(s)
    ensures AllHex(PadStart(s, n, '0')) && HexValue(PadStart(s, n, '0')) == HexValue(s)
  {
    var r := PadStart(s, n, '0');
    var z := r[..|r| - |s|];
    assert r == z + s;
    HexValueLeadingZeros(z, s);
  }

  predicate StartsWith(s: string, prefix: string)
  {
    |prefix| <= |s| && s[..|prefix|] == prefix
  }

  /** sub occurs in s starting at position i. */
  predicate OccursAt(s: string, sub: string, i: nat)
  {
    i + |sub| <= |s| && s[i..i + |sub|] == sub
  }

  lemma {:induction false} OccursAtShift(s: string, sub: string, i: nat)
    requires |s| > 0
    ensures OccursAt(s[1..], sub, i) <==> OccursAt(s, sub, i + 1)
  {
    if i + 1 + |sub| <= |s| {
      assert s[1..][i..i + |sub|] == s[i + 1..i + 1 + |sub|];
    }
  }

  /** `s.includes(sub)` / `strings.Contains`: sub occurs somewhere in s. */
  function Contains(s: string, sub: string): (r: bool)
    ensures r <==> exists i: nat :: OccursAt(s, sub, i)
    decreases |s|
  {
    if |sub| > |s| then false
    else if s[..|sub|] == sub then (assert OccursAt(s, sub, 0); true)
    else
      var r := Contains(s[1..], sub);
      assert r ==> exists i: nat :: OccursAt(s, sub, i) by {
        if r {
          var j: nat :| OccursAt(s[1..], sub, j);
          OccursAtShift(s, sub, j);
        }
      }
      assert (exists i: nat :: OccursAt(s, sub, i)) ==> r by {
        if exists i: nat :: OccursAt(s, sub, i) {
          var i: nat :| OccursAt(s, sub, i);
          assert i != 0;
          OccursAtShift(s, sub, i - 1);
        }
      }
      r
  }

  /** `parts.join(sep)`. */
  function Join(parts: seq<string>, sep: string): string
  {
    if parts == [] then ""
    else if |parts| == 1 then parts[0]
    else parts[0] + sep + Join(parts[1..], sep)
  }

  /** `s.padStart(n, c)`: c repeated on the left until the length reaches n. */
  function PadStart(s: string, n: nat, c: char): (r: string)
    ensures |r| == if |s| >= n then |s| else n
    ensures r[|r| - |s|..] == s
    ensures forall i :: 0 <= i < |r| - |s| ==> r[i] == c
    decreases n - |s|
  {
    if |s| >= n then s else PadStart([c] + s, n, c)
  }

  /**
   * JavaScript's default string order (by character codes): a prefix comes first, otherwise
   * the first differing character decides.
   */
  predicate LexLe(a: string, b: string)
  {
    if a == [] then true
    else if b == [] then false
    else if a[0] != b[0] then a[0] < b[0]
    else LexLe(a[1..], b[1..])
  }

  lemma {:induction false} LexLeTotal(a: string, b: string)
    ensures LexLe(a, b) || LexLe(b, a)
  {
    if a != [] && b != [] && a[0] == b[0] {
      LexLeTotal(a[1..], b[1..]);
    }
  }

  lemma {:induction false} LexLeTransitive(a: string, b: string, c: string)
    requires LexLe(a, b) && LexLe(b, c)
    ensures LexLe(a, c)
  {
    if a != [] && b != [] && c != [] && a[0] == b[0] && b[0] == c[0] {
      LexLeTransitive(a[1..], b[1..], c[1..]);
    }
  }

  lemma {:induction false} LexLeAntisymmetric(a: string, b: string)
    requires LexLe(a, b) && LexLe(b, a)
    ensures a == b
  {
    if a != [] && b != [] {
      LexLeAntisymmetric(a[1..], b[1..]);
      assert a == [a[0]] + a[1..] && b == [b[0]] + b[1..];
    }
  }

  /** Under this order two sorts of one multiset of strings agree. */
  lemma {:induction false} LexLeIsTotalOrder()
    ensures Sorting.TotalPreorder(LexLe) && Sorting.Antisymmetric(LexLe)
  {
    forall a: string, b: string
      ensures LexLe(a, b) || LexLe(b, a)
    {
      LexLeTotal(a, b);
    }
    forall a: string, b: string, c: string | LexLe(a, b) && LexLe(b, c)
      ensures LexLe(a, c)
    {
      LexLeTransitive(a, b, c);
    }
    forall a: string, b: string | LexLe(a, b) && LexLe(b, a)
      ensures a == b
    {
      LexLeAntisymmetric(a, b);
    }
  }
}
