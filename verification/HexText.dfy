/** Hex texts: the strict form, and numbers and bytes written in it. */
module HexText {
  import opened Wrappers
  import opened Strings
  import opened Numerals

  type Byte = n: nat | n < 256

  predicate IsHexDigit(c: char) {
    DigitValue(c) < 16
  }

  predicate Prefixed(t: string) {
    && |t| >= 2 && t[0] == '0' && Lower(t[1]) == 'x'
    && forall i :: 2 <= i < |t| ==> IsHexDigit(t[i])
  }

  /** `/^((-)?0x[0-9a-f]+|(0x))$/i` */
  predicate IsHexStrict(s: string) {
    var t := if s != "" && s[0] == '-' then s[1..] else s;
    Prefixed(t) && (|t| > 2 || |s| == 2)
  }

  predicate HexFigures(s: string) {
    forall i :: 0 <= i < |s| ==> '0' <= s[i] <= '9' || 'a' <= s[i] <= 'f' || 'A' <= s[i] <= 'F'
  }

  /** Strict hex is `0x` or `0X` and hex digits, with a minus in front only if there is a digit. */
  lemma {:induction false} StrictExactly(s: string)
    ensures IsHexStrict(s) <==>
            || (|s| >= 2 && s[0] == '0' && (s[1] == 'x' || s[1] == 'X') && HexFigures(s[2..]))
            || (|s| >= 4 && s[0] == '-' && s[1] == '0' && (s[2] == 'x' || s[2] == 'X') && HexFigures(s[3..]))
  {
    if s != "" && s[0] == '-' {
      assert |s| >= 3 ==> s[3..] == s[1..][2..] && s[2] == s[1..][1] && s[1] == s[1..][0];
      StrictBody(s[1..]);
    } else {
      StrictBody(s);
    }
  }

  lemma {:induction false} StrictBody(t: string)
    ensures Prefixed(t) <==> |t| >= 2 && t[0] == '0' && (t[1] == 'x' || t[1] == 'X') && HexFigures(t[2..])
  {
    if |t| >= 2 {
      var d := t[2..];
      assert forall i :: 2 <= i < |t| ==> IsHexDigit(t[i]) == IsHexDigit(d[i - 2]);
      assert forall i :: 0 <= i < |d| ==> IsHexDigit(d[i]) == IsHexDigit(t[i + 2]);
    }
  }

  /** `parseInt(pair, 16)`, stored in a byte: NaN becomes 0 and a negative number wraps around. */
  function ByteOf(pair: string): Byte
    requires |pair| == 2
  {
    var first, second := DigitValue(pair[0]), DigitValue(pair[1]);
    if first < 16 then if second < 16 then first * 16 + second else first
    else if second >= 16 then 0
    else if pair[0] == '-' then (256 - second) % 256
    else if pair[0] == '+' || IsSpace(pair[0]) then second
    else 0
  }

  /** Pairs that are not two digits, read as `parseInt` reads them. */
  lemma {:induction false} OddPairs(c: char)
    requires IsHexDigit(c)
    ensures ByteOf([c, 'g']) == DigitValue(c) == ByteOf(['+', c]) == ByteOf([' ', c])
    ensures ByteOf(['-', c]) == (if c == '0' then 0 else 256 - DigitValue(c))
    ensures ByteOf(['g', c]) == ByteOf(['x', c]) == ByteOf("gg") == ByteOf("--") == 0
  {}

  function HexBytes(digits: string): seq<Byte>
    requires |digits| % 2 == 0
    decreases |digits|
  {
    if digits == "" then [] else [ByteOf(digits[..2])] + HexBytes(digits[2..])
  }

  // Numbers.

  /** The sign and the digits after `0x`. */
  predicate IsNegative(s: string) {
    s != "" && s[0] == '-'
  }

  function Digits(s: string): string
    requires IsHexStrict(s)
  {
    if IsNegative(s) then s[3..] else s[2..]
  }

  function Signed(negative: bool, n: nat): int {
    if negative then -(n as int) else n
  }

  /** `BigInt` refuses a bare `0x`. */
  function HexToNumber(s: string): Option<int> {
    if !IsHexStrict(s) || Digits(s) == "" then None
    else Some(Signed(IsNegative(s), Value(16, Digits(s))))
  }

  function NumberToHex(v: int): string {
    if v < 0 then "-0x" + Text(16, -v) else "0x" + Text(16, v)
  }

  function LowerAll(s: string): (r: string)
    ensures |r| == |s| && forall i :: 0 <= i < |s| ==> r[i] == Lower(s[i])
  {
    if s == "" then "" else [Lower(s[0])] + LowerAll(s[1..])
  }

  function StripLeading(digits: string): string {
    if digits != "" && digits[0] == '0' then StripLeading(digits[1..]) else digits
  }

  /** `numberToHex` of a text that is strict hex already. */
  function HexToHex(s: string): string
    requires IsHexStrict(s)
  {
    (if IsNegative(s) then "-0x" else "0x") + LowerAll(StripLeading(Digits(s)))
  }

  function PadLeft(s: string, characterAmount: nat): string
    requires IsHexStrict(s)
  {
    (if IsNegative(s) then "-0x" else "0x") + PadStart(Digits(s), characterAmount)
  }

  lemma {:induction false} StrictForm(negative: bool, digits: string)
    requires Numeral(16, digits) && digits != ""
    ensures var s := (if negative then "-0x" else "0x") + digits;
            IsHexStrict(s) && IsNegative(s) == negative && Digits(s) == digits
  {
    var s := (if negative then "-0x" else "0x") + digits;
    var t := if s[0] == '-' then s[1..] else s;
    assert t == "0x" + digits;
    forall i | 2 <= i < |t| ensures IsHexDigit(t[i]) { assert t[i] == digits[i - 2]; }
    assert |t| == |digits| + 2 && t[0] == '0' && t[1] == 'x';
  }

  lemma {:induction false} DigitsAreHex(s: string)
    requires IsHexStrict(s)
    ensures Numeral(16, Digits(s))
  {
    var t := if s[0] == '-' then s[1..] else s;
    var d := Digits(s);
    forall i | 0 <= i < |d| ensures DigitValue(d[i]) < 16 { assert d[i] == t[i + 2] && IsHexDigit(t[i + 2]); }
  }

  /** Every integer survives the way to hex and back. */
  lemma {:induction false} NumberRoundTrip(v: int)
    ensures HexToNumber(NumberToHex(v)) == Some(v)
  {
    var n: nat := if v < 0 then -v else v;
    ValueOfText(16, n);
    StrictForm(v < 0, Text(16, n));
  }

  /** The hex text of a number: a sign, `0x`, and lower-case digits without a leading zero but for zero. */
  lemma {:induction false} NumberText(v: int) returns (digits: string)
    ensures NumberToHex(v) == if v < 0 then "-0x" + digits else "0x" + digits
    ensures digits != "" && (v != 0 ==> digits[0] != '0') && LowerCase(digits) && Numeral(16, digits)
    ensures Value(16, digits) == if v < 0 then -v else v
  {
    var n: nat := if v < 0 then -v else v;
    digits := Text(16, n);
    ValueOfText(16, n);
    TextIsCanonical(16, n);
    hide Text, Value;
  }

  /** Padding keeps the number; only a bare `0x` becomes one. */
  lemma {:induction false} PaddingKeepsTheNumber(s: string, k: nat)
    requires IsHexStrict(s)
    ensures IsHexStrict(PadLeft(s, k))
    ensures HexToNumber(PadLeft(s, k)) == HexToNumber(s) <==> Digits(s) != "" || k == 0
    ensures Digits(s) == "" && k > 0 ==> HexToNumber(PadLeft(s, k)) == Some(0)
  {
    DigitsAreHex(s);
    var d := Digits(s);
    var p := PadStart(d, k);
    ValueOfPadded(16, d, k);
    PaddedHex(d, k);
    assert HexToNumber(s) == if d == "" then None else Some(Signed(IsNegative(s), Value(16, d)));
    if p != "" {
      StrictNumber(IsNegative(s), p);
      if d == "" { BareForm(s); }
    } else {
      BareForm(s);
    }
    hide Value, Numeral, PadStart, IsHexStrict, HexToNumber, Digits;
  }

  lemma {:induction false} StrictNumber(negative: bool, digits: string)
    requires Numeral(16, digits) && digits != ""
    ensures var s := (if negative then "-0x" else "0x") + digits;
            IsHexStrict(s) && HexToNumber(s) == Some(Signed(negative, Value(16, digits)))
  {
    StrictForm(negative, digits);
  }

  lemma {:induction false} PaddedHex(d: string, k: nat)
    requires Numeral(16, d)
    ensures Numeral(16, PadStart(d, k)) && (PadStart(d, k) == "" <==> d == "" && k == 0)
  {}

  lemma {:induction false} BareForm(s: string)
    requires IsHexStrict(s) && Digits(s) == ""
    ensures !IsNegative(s) && IsHexStrict("0x" + "") && HexToNumber("0x" + "") == None
    ensures HexToNumber("0x" + PadStart("", 0)) == None && Value(16, "") == 0
  {}

  /** Hex texts of one number get one form, that of the number itself; only zero is left without digits. */
  lemma {:induction false} HexNormalForm(s: string)
    requires IsHexStrict(s) && Digits(s) != ""
    ensures HexToNumber(s).Some?
    ensures HexToHex(s) == NumberToHex(HexToNumber(s).value) <==> HexToNumber(s).value != 0
    ensures HexToNumber(s).value == 0 ==> HexToNumber(HexToHex(s)) == None
  {
    hide Prefixed, DigitValue, Lower;
    var d, n := Digits(s), Value(16, Digits(s));
    var t := StripLeading(d);
    DigitsAreHex(s);
    StripSpec(d);
    LowerValue(t);
    assert HexToNumber(s) == Some(Signed(IsNegative(s), n));
    assert HexToHex(s) == (if IsNegative(s) then "-0x" else "0x") + LowerAll(t);
    hide IsHexStrict, StripLeading, HexToHex;
    if t == "" {
      NoDigits(IsNegative(s));
    } else {
      hide LowerAll, IsNegative, HexToNumber;
      TextOfDigits(IsNegative(s), LowerAll(t));
    }
  }

  lemma {:induction false} NoDigits(negative: bool)
    ensures var r := if negative then "-0x" else "0x"; HexToNumber(r) == None && r != NumberToHex(0)
    ensures Value(16, "") == 0
  {}

  lemma {:induction false} TextOfDigits(negative: bool, u: string)
    requires u != "" && Numeral(16, u) && LowerCase(u) && u[0] != '0' && DigitValue(u[0]) > 0
    ensures Value(16, u) > 0 && (if negative then "-0x" else "0x") + u == NumberToHex(Signed(negative, Value(16, u)))
  {
    ValueAtLeast(16, u);
    TextOfValue(16, u);
    hide Text, Value;
  }

  lemma {:induction false} StripSpec(digits: string)
    ensures var t := StripLeading(digits);
      && Value(16, t) == Value(16, digits) && (t != "" ==> t[0] != '0')
      && (Numeral(16, digits) ==> Numeral(16, t))
    decreases |digits|
  {
    if digits != "" && digits[0] == '0' {
      StripSpec(digits[1..]);
      assert digits == "0" + digits[1..];
      ValueAppend(16, "0", digits[1..]);
      ValueOfDigit(16, '0');
    }
  }

  lemma {:induction false} LowerValue(digits: string)
    requires Numeral(16, digits)
    ensures var t := LowerAll(digits);
      && Numeral(16, t) && LowerCase(t) && Value(16, t) == Value(16, digits)
      && (digits != "" && digits[0] != '0' ==> t[0] != '0' && DigitValue(t[0]) > 0)
    decreases |digits|
  {
    if digits != "" {
      LowerValue(digits[..|digits| - 1]);
      assert LowerAll(digits)[..|digits| - 1] == LowerAll(digits[..|digits| - 1]);
    }
  }

  // Bytes.

  /** Two digits for one byte. */
  function Pair(b: Byte): string {
    var hex := Text(16, b);
    if |hex| == 1 then "0" + hex else hex
  }

  function HexOfBytes(bytes: seq<Byte>): string {
    if bytes == [] then "" else Pair(bytes[0]) + HexOfBytes(bytes[1..])
  }

  lemma {:induction false} HexOfBytesSnoc(bytes: seq<Byte>, b: Byte)
    ensures HexOfBytes(bytes + [b]) == HexOfBytes(bytes) + Pair(b)
    decreases |bytes|
  {
    hide Pair;
    if bytes == [] {
      assert [b][1..] == [] && bytes + [b] == [b];
      assert HexOfBytes([b]) == Pair(b) + "" == Pair(b);
    } else {
      HexOfBytesSnoc(bytes[1..], b);
      assert (bytes + [b])[1..] == bytes[1..] + [b];
    }
  }

  method Uint8ArrayToHexString(uint8Array: array<Byte>) returns (hexString: string)
    ensures hexString == "0x" + HexOfBytes(uint8Array[..])
  {
    hexString := "0x";
    for i := 0 to uint8Array.Length
      invariant hexString == "0x" + HexOfBytes(uint8Array[..i])
    {
      var hex := Text(16, uint8Array[i]);
      assert uint8Array[..i + 1] == uint8Array[..i] + [uint8Array[i]];
      HexOfBytesSnoc(uint8Array[..i], uint8Array[i]);
      hexString := hexString + (if |hex| == 1 then "0" + hex else hex);
    }
    assert uint8Array[..uint8Array.Length] == uint8Array[..];
  }

  /** The text without an optional `0x`. */
  function Body(hex: string): string {
    if |hex| >= 2 && hex[0] == '0' && Lower(hex[1]) == 'x' then hex[2..] else hex
  }

  /** The two digits of byte k. */
  function PairAt(digits: string, k: nat): (pair: string)
    requires 2 * k + 1 < |digits|
    ensures |pair| == 2
  {
    [digits[2 * k], digits[2 * k + 1]]
  }

  lemma {:induction false} HexBytesAt(digits: string, k: nat)
    requires |digits| % 2 == 0 && 2 * k + 1 < |digits|
    ensures |HexBytes(digits)| == |digits| / 2
    ensures HexBytes(digits)[k] == ByteOf(PairAt(digits, k))
    decreases |digits|
  {
    hide ByteOf;
    var rest := digits[2..];
    assert digits[..2] == PairAt(digits, 0);
    assert HexBytes(digits) == [ByteOf(digits[..2])] + HexBytes(rest);
    if k > 0 {
      HexBytesAt(rest, k - 1);
      assert PairAt(rest, k - 1) == PairAt(digits, k);
    } else if rest != "" {
      HexBytesAt(rest, 0);
    }
  }

  /** An odd number of digits is an error; otherwise one byte for each pair. */
  method HexToUint8Array(hex: string) returns (bytes: array?<Byte>)
    ensures bytes == null <==> |Body(hex)| % 2 != 0
    ensures bytes != null ==> fresh(bytes) && bytes[..] == HexBytes(Body(hex))
  {
    var value := Body(hex);
    if |value| % 2 != 0 {
      return null;
    }
    var n := |value| / 2;
    var filled := new Byte[n](_ => 0);
    for i := 0 to n
      invariant forall k :: 0 <= k < i ==> filled[k] == ByteOf(PairAt(value, k))
    {
      assert value[2 * i..2 * i + 2] == PairAt(value, i);
      filled[i] := ByteOf(value[2 * i..2 * i + 2]);
    }
    ghost var want := HexBytes(value);
    if n > 0 { HexBytesAt(value, 0); }
    forall k | 0 <= k < n ensures filled[k] == want[k] { HexBytesAt(value, k); }
    assert filled[..] == want;
    return filled;
  }

  lemma {:induction false} PairRoundTrip(b: Byte)
    ensures |Pair(b)| == 2 && Numeral(16, Pair(b)) && LowerCase(Pair(b)) && ByteOf(Pair(b)) == b
  {
    assert Pow(16, 1) == 16 * Pow(16, 0) && Pow(16, 2) == 16 * Pow(16, 1);
    TextLength(16, b, 2);
    ValueOfText(16, b);
    ValueOfPadded(16, Text(16, b), 2);
    PaddedNumeral(16, Text(16, b), 2);
    PairIsPadded(b);
    TwoDigitValue(16, Pair(b));
  }

  lemma {:induction false} PairIsPadded(b: Byte)
    requires |Text(16, b)| <= 2
    ensures Pair(b) == PadStart(Text(16, b), 2)
  {
    if |Text(16, b)| == 1 { assert Zeros(1) == Zeros(0) + "0" == "0"; }
  }

  /** Bytes to hex and back. */
  lemma {:induction false} BytesRoundTrip(bytes: seq<Byte>)
    ensures var h := HexOfBytes(bytes); |h| == 2 * |bytes| && Numeral(16, h) && LowerCase(h) && HexBytes(h) == bytes
    decreases |bytes|
  {
    if bytes != [] {
      var rest := HexOfBytes(bytes[1..]);
      PairRoundTrip(bytes[0]);
      BytesRoundTrip(bytes[1..]);
      var h := Pair(bytes[0]) + rest;
      assert h[..2] == Pair(bytes[0]) && h[2..] == rest;
    }
  }

  /** A text of even length to bytes and back gives it in lower case, exactly if it is all hex digits. */
  lemma {:induction false} HexRoundTrip(digits: string)
    requires |digits| % 2 == 0
    ensures HexOfBytes(HexBytes(digits)) == LowerAll(digits) <==> Numeral(16, digits)
  {
    BytesRoundTrip(HexBytes(digits));
    if Numeral(16, digits) {
      HexComesBack(digits);
    } else {
      var i :| 0 <= i < |digits| && DigitValue(digits[i]) >= 16;
      assert DigitValue(LowerAll(digits)[i]) >= 16;
    }
  }

  lemma {:induction false} HexComesBack(digits: string)
    requires |digits| % 2 == 0 && Numeral(16, digits)
    ensures HexOfBytes(HexBytes(digits)) == LowerAll(digits)
    decreases |digits|
  {
    if digits != "" {
      var pair, rest := digits[..2], digits[2..];
      HexComesBack(rest);
      PairOfByte(pair);
      hide ByteOf, Pair, LowerAll, Numeral;
      LowerJoin(pair, rest);
      assert digits == pair + rest;
      assert ([ByteOf(pair)] + HexBytes(rest))[1..] == HexBytes(rest);
    }
  }

  lemma {:induction false} LowerJoin(x: string, y: string)
    ensures LowerAll(x + y) == LowerAll(x) + LowerAll(y)
  {}

  lemma {:induction false} PairOfByte(pair: string)
    requires |pair| == 2 && Numeral(16, pair)
    ensures Pair(ByteOf(pair)) == LowerAll(pair)
  {
    var low, b := LowerAll(pair), ByteOf(pair);
    PairRoundTrip(b);
    assert LowerCase(low) && Numeral(16, low);
    TwoDigitValue(16, pair);
    TwoDigitValue(16, low);
    SameLengthSameText(16, Pair(b), low);
  }
}
