/** IBANs of the country XE: the MOD 97-10 check of ISO 7064 and ISO 13616, and direct IBANs for addresses. */
module Iban {
  import opened Wrappers
  import opened Strings
  import opened Numerals
  import opened Parsing
  import opened HexText
  import opened Mod97

  datatype Error = InvalidIban | IndirectIban | InvalidAddress | NotHex | NotBase36

  predicate IsDigit(c: char) { '0' <= c <= '9' }

  predicate IsCapital(c: char) { 'A' <= c <= 'Z' }

  predicate Alphanumeric(s: string) {
    forall i :: 0 <= i < |s| ==> DigitValue(s[i]) < 36
  }

  predicate Capitals(s: string) {
    forall i :: 0 <= i < |s| ==> IsDigit(s[i]) || IsCapital(s[i])
  }

  function UpperAll(s: string): (r: string)
    ensures |r| == |s| && forall i :: 0 <= i < |s| ==> r[i] == Upper(s[i])
  {
    if s == "" then "" else [Upper(s[0])] + UpperAll(s[1..])
  }

  /** A = 10, B = 11, ..., Z = 35; anything else stays. */
  function ExpandChar(c: char): string {
    if IsCapital(c) then Text(10, c as int - 'A' as int + 10) else [c]
  }

  function Expand(s: string): string {
    if s == "" then "" else Expand(s[..|s| - 1]) + ExpandChar(s[|s| - 1])
  }

  /** The first four characters go to the end. */
  function Rotate(s: string): string
    requires |s| >= 4
  {
    s[4..] + s[..4]
  }

  function Prepare(iban: string): string
    requires |iban| >= 4
  {
    Expand(Rotate(UpperAll(iban)))
  }

  // The check number of a text, without writing its digits out.

  function Weight(c: char): nat {
    if IsCapital(c) then 100 else 10
  }

  function CheckNumber(s: string): nat {
    if s == "" then 0 else CheckNumber(s[..|s| - 1]) * Weight(s[|s| - 1]) + DigitValue(s[|s| - 1])
  }

  lemma {:induction false} ExpandedValue(s: string)
    requires Capitals(s)
    ensures Numeral(10, Expand(s)) && Value(10, Expand(s)) == CheckNumber(s)
  {
    assert Value(10, "") == 0;
    assert s != "" ==> IsDigit(s[|s| - 1]) || IsCapital(s[|s| - 1]);
    hide Value, DigitValue, Text, Pow, ExpandChar, Weight, IsDigit, IsCapital;
    if s != "" {
      var t, c := s[..|s| - 1], s[|s| - 1];
      ExpandedValue(t);
      ExpandedChar(c);
      ValueAppend(10, Expand(t), ExpandChar(c));
      JoinNumerals(Expand(t), ExpandChar(c));
    }
  }

  lemma {:induction false} JoinNumerals(x: string, y: string)
    requires Numeral(10, x) && Numeral(10, y)
    ensures Numeral(10, x + y)
  {}

  lemma {:induction false} ExpandedChar(c: char)
    requires IsDigit(c) || IsCapital(c)
    ensures var x := ExpandChar(c); Numeral(10, x) && Value(10, x) == DigitValue(c) && Pow(10, |x|) == Weight(c)
  {
    SmallPowers();
    if IsCapital(c) {
      TwoDigits(c as int - 'A' as int + 10);
    } else {
      ValueOfDigit(10, c);
    }
  }

  lemma {:induction false} TwoDigits(n: nat)
    requires 10 <= n < 100
    ensures var x := Text(10, n); Numeral(10, x) && Value(10, x) == n && |x| == 2
  {
    hide Text, Value;
    SmallPowers();
    ValueOfText(10, n);
    TextLength(10, n, 2);
    TextLength(10, n, 1);
  }

  // Validity.

  /** `/^XE[0-9]{2}(ETH[0-9A-Z]{13}|[0-9A-Z]{30,31})$/` */
  predicate WellShaped(s: string) {
    |s| >= 4 && s[0] == 'X' && s[1] == 'E' && IsDigit(s[2]) && IsDigit(s[3]) && ShapedBban(s[4..])
  }

  predicate ShapedBban(b: string) {
    Capitals(b) && ((|b| == 16 && b[..3] == "ETH") || |b| == 30 || |b| == 31)
  }

  predicate IsValid(s: string) {
    WellShaped(s) && Value(10, Prepare(s)) % 97 == 1
  }

  /** The shape character by character. */
  lemma {:induction false} ShapeSpelled(s: string)
    ensures WellShaped(s) <==>
            && (|s| == 20 || |s| == 34 || |s| == 35)
            && s[0] == 'X' && s[1] == 'E' && '0' <= s[2] <= '9' && '0' <= s[3] <= '9'
            && (|s| == 20 ==> s[4] == 'E' && s[5] == 'T' && s[6] == 'H')
            && forall i :: 4 <= i < |s| ==> '0' <= s[i] <= '9' || 'A' <= s[i] <= 'Z'
  {
    if |s| >= 4 {
      var b := s[4..];
      assert forall i :: 4 <= i < |s| ==> s[i] == b[i - 4];
      assert forall i :: 0 <= i < |b| ==> b[i] == s[i + 4];
      assert |b| >= 3 ==> (b[..3] == "ETH" <==> b[0] == 'E' && b[1] == 'T' && b[2] == 'H');
    }
  }

  /** The example of the documentation: of the check digits from 80 to 89 only 81 is right. */
  lemma {:induction false} DocumentedIbans(d: char)
    requires '0' <= d <= '9'
    ensures IsValid("XE8" + [d] + ("ETHX" + "REGG" + "AVOF" + "YORK")) <==> d == '1'
  {
    hide WellShaped, CheckNumber, Rotate;
    var bban := "ETHX" + "REGG" + "AVOF" + "YORK";
    var s := "XE8" + [d] + bban;
    ExampleShape(bban, d);
    PreparedNumber(s);
    ExampleRemainder(bban);
    CheckEnd(bban, d);
  }

  lemma {:induction false} ExampleShape(bban: string, d: char)
    requires bban == "ETHX" + "REGG" + "AVOF" + "YORK" && IsDigit(d)
    ensures WellShaped("XE8" + [d] + bban) && Rotate("XE8" + [d] + bban) == bban + ['X'] + ['E'] + ['8'] + [d]
  {
    assert ("XE8" + [d] + bban)[4..] == bban;
    assert bban[..3] == "ETH";
  }

  /** The remainder of the letters, four by four. */
  lemma {:induction false} ExampleRemainder(bban: string)
    requires bban == "ETHX" + "REGG" + "AVOF" + "YORK"
    ensures CheckNumber(bban) % 97 == 24
  {
    assert CheckNumber("") == 0 && "ETHX" == "" + "ETHX";
    hide CheckNumber;
    FourLetters("", 'E', 'T', 'H', 'X', [0, 14, 71, 36, 44]);
    FourLetters("ETHX", 'R', 'E', 'G', 'G', [44, 62, 6, 34, 21]);
    FourLetters("ETHX" + "REGG", 'A', 'V', 'O', 'F', [21, 73, 56, 95, 9]);
    FourLetters("ETHX" + "REGG" + "AVOF", 'Y', 'O', 'R', 'K', [9, 61, 13, 66, 24]);
  }

  /** Four letters with the remainders before, between and after them. */
  lemma {:induction false} FourLetters(s: string, a: char, b: char, c: char, d: char, rs: seq<nat>)
    requires IsCapital(a) && IsCapital(b) && IsCapital(c) && IsCapital(d)
    requires |rs| == 5 && CheckNumber(s) % 97 == rs[0]
    requires (rs[0] * 100 + DigitValue(a)) % 97 == rs[1] && (rs[1] * 100 + DigitValue(b)) % 97 == rs[2]
    requires (rs[2] * 100 + DigitValue(c)) % 97 == rs[3] && (rs[3] * 100 + DigitValue(d)) % 97 == rs[4]
    ensures CheckNumber(s + [a, b, c, d]) % 97 == rs[4]
  {
    assert s + [a] + [b] + [c] + [d] == s + [a, b, c, d];
    hide CheckNumber, DigitValue;
    CheckStep(s, a, rs[0]);
    CheckStep(s + [a], b, rs[1]);
    CheckStep(s + [a] + [b], c, rs[2]);
    CheckStep(s + [a] + [b] + [c], d, rs[3]);
  }

  lemma {:induction false} CheckEnd(bban: string, d: char)
    requires CheckNumber(bban) % 97 == 24 && IsDigit(d)
    ensures CheckNumber(bban + ['X'] + ['E'] + ['8'] + [d]) % 97 == (0 + DigitValue(d)) % 97
  {
    hide CheckNumber;
    CheckStep(bban, 'X', 24);
    CheckStep(bban + ['X'], 'E', 8);
    CheckStep(bban + ['X'] + ['E'], '8', 38);
    CheckStep(bban + ['X'] + ['E'] + ['8'], d, 0);
  }

  lemma {:induction false} CheckStep(s: string, c: char, r: nat)
    requires CheckNumber(s) % 97 == r && (IsCapital(c) || IsDigit(c))
    ensures CheckNumber(s + [c]) % 97 == (r * (if IsCapital(c) then 100 else 10) + DigitValue(c)) % 97
  {
    CheckSnoc(s, c);
    var n, w, v := CheckNumber(s), Weight(c), DigitValue(c);
    hide CheckNumber, DigitValue;
    Replace(n, w, v, r);
  }

  lemma {:induction false} Replace(n: nat, w: nat, v: nat, r: nat)
    requires n % 97 == r
    ensures (n * w + v) % 97 == (r * w + v) % 97
  {
    var q := n / 97;
    assert n == 97 * q + r;
    assert n * w == 97 * (q * w) + r * w;
    AddMultiple(r * w + v, q * w);
  }

  method CheckValid(iban: string) returns (b: bool)
    ensures b <==> IsValid(iban)
  {
    if !WellShaped(iban) {
      return false;
    }
    PreparedNumber(iban);
    RemainderOfNumeral(Prepare(iban));
    var r := Mod9710(Prepare(iban));
    return r == Some(1);
  }

  lemma {:induction false} PreparedNumber(s: string)
    requires WellShaped(s)
    ensures UpperAll(s) == s && Capitals(s)
    ensures Numeral(10, Prepare(s)) && Prepare(s) != "" && Value(10, Prepare(s)) == CheckNumber(Rotate(s))
  {
    assert forall i :: 4 <= i < |s| ==> s[i] == s[4..][i - 4];
    assert UpperAll(s) == s;
    ExpandedValue(Rotate(s));
    assert Expand(Rotate(s)) != "";
  }

  // Error detection.

  predicate SameKind(c: char, d: char) {
    (IsDigit(c) && IsDigit(d)) || (IsCapital(c) && IsCapital(d))
  }

  lemma {:induction false} CheckSnoc(s: string, c: char)
    ensures CheckNumber(s + [c]) == CheckNumber(s) * Weight(c) + DigitValue(c)
  {
    assert (s + [c])[..|s|] == s;
  }

  /** 10 and 100 are invertible modulo 97, by 68 and 65. */
  lemma {:induction false} Cancel(a: nat, b: nat, w: nat, v: nat)
    requires w == 10 || w == 100
    requires (a * w + v) % 97 == (b * w + v) % 97
    ensures a % 97 == b % 97
  {
    var k := (a * w + v) / 97 - (b * w + v) / 97;
    assert a * w - b * w == 97 * k;
    if w == 10 {
      assert a - b == 97 * (68 * k - 7 * (a - b));
      MultipleApart(a, b, 68 * k - 7 * (a - b));
    } else {
      assert a - b == 97 * (65 * k - 67 * (a - b));
      MultipleApart(a, b, 65 * k - 67 * (a - b));
    }
  }

  lemma {:induction false} MultipleApart(a: nat, b: nat, n: int)
    requires a - b == 97 * n
    ensures a % 97 == b % 97
  {}

  /** A difference modulo 97 survives whatever follows. */
  lemma {:induction false} DifferenceStays(a: string, b: string, y: string)
    requires CheckNumber(a) % 97 != CheckNumber(b) % 97
    ensures CheckNumber(a + y) % 97 != CheckNumber(b + y) % 97
    decreases |y|
  {
    if y == "" {
      assert a + y == a && b + y == b;
    } else {
      var z, c := y[..|y| - 1], y[|y| - 1];
      DifferenceStays(a, b, z);
      assert a + y == (a + z) + [c] && b + y == (b + z) + [c];
      CheckSnoc(a + z, c);
      CheckSnoc(b + z, c);
      var p, q := CheckNumber(a + z), CheckNumber(b + z);
      if (p * Weight(c) + DigitValue(c)) % 97 == (q * Weight(c) + DigitValue(c)) % 97 {
        Cancel(p, q, Weight(c), DigitValue(c));
      }
    }
  }

  lemma {:induction false} CloseNumbersDiffer(a: nat, v: nat, w: nat)
    requires v != w && v < w + 97 && w < v + 97
    ensures (a + v) % 97 != (a + w) % 97
  {}

  lemma {:induction false} SubstitutionShows(x: string, c: char, d: char, y: string)
    requires SameKind(c, d) && c != d
    ensures CheckNumber(x + [c] + y) % 97 != CheckNumber(x + [d] + y) % 97
  {
    CheckSnoc(x, c);
    CheckSnoc(x, d);
    CloseNumbersDiffer(CheckNumber(x) * Weight(c), DigitValue(c), DigitValue(d));
    DifferenceStays(x + [c], x + [d], y);
  }

  lemma {:induction false} SwapShows(x: string, c: char, d: char, y: string)
    requires SameKind(c, d) && c != d
    ensures CheckNumber(x + [c, d] + y) % 97 != CheckNumber(x + [d, c] + y) % 97
  {
    var a, v, w := CheckNumber(x), DigitValue(c), DigitValue(d);
    assert x + [c, d] == (x + [c]) + [d] && x + [d, c] == (x + [d]) + [c];
    CheckSnoc(x, c);
    CheckSnoc(x, d);
    CheckSnoc(x + [c], d);
    CheckSnoc(x + [d], c);
    if IsDigit(c) {
      CloseNumbersDiffer(a * 100, v * 10 + w, w * 10 + v);
    } else {
      LetterSwap(a, v, w);
    }
    DifferenceStays(x + [c, d], x + [d, c], y);
  }

  lemma {:induction false} LetterSwap(a: nat, v: nat, w: nat)
    requires v != w && 10 <= v < 36 && 10 <= w < 36
    ensures ((a * 100 + v) * 100 + w) % 97 != ((a * 100 + w) * 100 + v) % 97
  {
    // 100 is 3 modulo 97, so the two sides are 9a + 3v + w and 9a + 3w + v.
    var p, q := (a * 100 + v) * 100 + w, (a * 100 + w) * 100 + v;
    assert p == (9 * a + (3 * v + w)) + 97 * (103 * a + v);
    assert q == (9 * a + (3 * w + v)) + 97 * (103 * a + w);
    AddMultiple(9 * a + (3 * v + w), 103 * a + v);
    AddMultiple(9 * a + (3 * w + v), 103 * a + w);
    CloseNumbersDiffer(9 * a, 3 * v + w, 3 * w + v);
  }

  /** One digit for another digit, or one letter for another letter, anywhere in a valid IBAN, is rejected. */
  lemma {:induction false} SubstitutionIsDetected(s: string, i: nat, c: char)
    requires IsValid(s) && i < |s| && SameKind(s[i], c) && c != s[i]
    ensures !IsValid(s[i := c])
  {
    var t := s[i := c];
    if WellShaped(t) {
      PreparedNumber(s);
      PreparedNumber(t);
      hide IsValid, WellShaped, Prepare;
      var x, y := RotatedSubstitution(s, i, c);
      SubstitutionShows(x, s[i], c, y);
    }
  }

  lemma {:induction false} RotatedSubstitution(s: string, i: nat, c: char) returns (x: string, y: string)
    requires |s| >= 4 && i < |s|
    ensures Rotate(s) == x + [s[i]] + y && Rotate(s[i := c]) == x + [c] + y
  {
    if i < 4 {
      x, y := s[4..] + s[..i], s[i + 1..4];
      assert s[..4] == s[..i] + [s[i]] + s[i + 1..4];
      assert s[i := c][4..] == s[4..];
    } else {
      x, y := s[4..i], s[i + 1..] + s[..4];
      assert s[4..] == s[4..i] + [s[i]] + s[i + 1..];
      assert s[i := c][..4] == s[..4];
    }
  }

  lemma {:induction false} RotatedSwap(s: string, i: nat) returns (x: string, y: string)
    requires 4 <= i < |s| - 1
    ensures Rotate(s) == x + [s[i], s[i + 1]] + y
    ensures Rotate(s[i := s[i + 1]][i + 1 := s[i]]) == x + [s[i + 1], s[i]] + y
  {
    x, y := s[4..i], s[i + 2..] + s[..4];
    var t := s[i := s[i + 1]][i + 1 := s[i]];
    assert s[4..] == s[4..i] + [s[i], s[i + 1]] + s[i + 2..];
    assert t[4..] == s[4..i] + [s[i + 1], s[i]] + s[i + 2..];
    assert t[..4] == s[..4];
  }

  /** So is a swap of two different neighbours of one kind in the BBAN. */
  lemma {:induction false} TranspositionIsDetected(s: string, i: nat)
    requires IsValid(s) && 4 <= i < |s| - 1 && SameKind(s[i], s[i + 1]) && s[i] != s[i + 1]
    ensures !IsValid(s[i := s[i + 1]][i + 1 := s[i]])
  {
    var t := s[i := s[i + 1]][i + 1 := s[i]];
    if WellShaped(t) {
      PreparedNumber(s);
      PreparedNumber(t);
      hide IsValid, WellShaped, Prepare;
      var x, y := RotatedSwap(s, i);
      SwapShows(x, s[i], s[i + 1], y);
    }
  }

  // Building an IBAN.

  /** The text the check digits of a BBAN are computed from. */
  function Base(bban: string): (s: string)
    ensures |s| > 2
  {
    ExpandStart(Rotate(UpperAll("XE00" + bban)));
    Prepare("XE00" + bban)
  }

  /** 98 minus the remainder, in two digits; computed only if the loop ends. */
  function CheckDigits(bban: string): (r: string)
    requires LoopEnds(Base(bban))
  {
    RemainderRange(Base(bban));
    var t := "0" + TextOfInt(98 - Remainder(Base(bban)).value);
    t[|t| - 2..]
  }

  function New(iban: string): Result<string, Error> {
    if |iban| == 20 || |iban| == 34 || |iban| == 35 then Ok(iban) else Err(InvalidIban)
  }

  function FromBban(bban: string): Result<string, Error>
    requires LoopEnds(Base(bban))
  {
    New("XE" + CheckDigits(bban) + bban)
  }

  lemma {:induction false} ExpandStart(s: string)
    ensures |Expand(s)| >= |s|
    ensures s != "" && !IsCapital(s[0]) ==> Expand(s)[0] == s[0]
    ensures s != "" && IsCapital(s[0]) ==> IsDigit(Expand(s)[0])
    decreases |s|
  {
    if s != "" {
      ExpandStart(s[..|s| - 1]);
      ExpandedStart(s[|s| - 1]);
      assert Expand(s) == Expand(s[..|s| - 1]) + ExpandChar(s[|s| - 1]);
    }
  }

  lemma {:induction false} ExpandedStart(c: char)
    ensures var x := ExpandChar(c); x != "" && if IsCapital(c) then IsDigit(x[0]) else x == [c]
  {
    if IsCapital(c) { TwoDigits(c as int - 'A' as int + 10); }
  }

  /** The check number of an IBAN is the number of its BBAN and country with 00, plus the check digits. */
  lemma {:induction false} CheckOfIban(d: string, bban: string)
    requires |d| == 2 && IsDigit(d[0]) && IsDigit(d[1]) && Capitals(bban)
    ensures var s, z := "XE" + d + bban, "XE00" + bban;
            && Numeral(10, Prepare(s)) && Value(10, Prepare(s)) == CheckNumber(bban + "XE00") + Value(10, d)
            && Value(10, Prepare(z)) == CheckNumber(bban + "XE00")
  {
    CheckOfRotated(d, bban);
    CheckOfRotated("00", bban);
    var x := bban + "XE";
    assert "XE" + "00" + bban == "XE00" + bban;
    CheckTwo(x, d);
    CheckTwo(x, "00");
    assert bban + "XE" + "00" == bban + "XE00";
    TwoDigitValue(10, d);
    TwoDigitValue(10, "00");
  }

  lemma {:induction false} CheckOfRotated(d: string, bban: string)
    requires |d| == 2 && IsDigit(d[0]) && IsDigit(d[1]) && Capitals(bban)
    ensures Numeral(10, Prepare("XE" + d + bban)) && Value(10, Prepare("XE" + d + bban)) == CheckNumber(bban + "XE" + d)
  {
    var s := "XE" + d + bban;
    assert UpperAll(s) == s;
    assert s[4..] == bban && s[..4] == "XE" + d;
    assert Rotate(s) == bban + "XE" + d;
    ExpandedValue(Rotate(s));
  }

  lemma {:induction false} CheckTwo(x: string, d: string)
    requires |d| == 2 && IsDigit(d[0]) && IsDigit(d[1])
    ensures CheckNumber(x + d) == CheckNumber(x) * 100 + DigitValue(d[0]) * 10 + DigitValue(d[1])
  {
    assert x + d == (x + [d[0]]) + [d[1]];
    CheckSnoc(x, d[0]);
    CheckSnoc(x + [d[0]], d[1]);
    var a, v, w := CheckNumber(x), DigitValue(d[0]), DigitValue(d[1]);
    assert CheckNumber(x + d) == (a * 10 + v) * 10 + w;
  }

  /** For letters and digits the loop ends. */
  lemma {:induction false} AlphanumericEnds(bban: string)
    requires Alphanumeric(bban)
    ensures Numeral(10, Base(bban)) && LoopEnds(Base(bban))
    ensures Remainder(Base(bban)) == Some(Value(10, Base(bban)) % 97)
  {
    var s := UpperAll("XE00" + bban);
    assert Alphanumeric("XE00" + bban);
    UpperValue("XE00" + bban);
    ExpandedValue(Rotate(s));
    RemainderOfNumeral(Base(bban));
  }

  lemma {:induction false} CheckDigitsSpec(bban: string)
    requires LoopEnds(Base(bban))
    ensures var d := CheckDigits(bban);
            && |d| == 2 && IsDigit(d[0]) && IsDigit(d[1])
            && (Alphanumeric(bban) ==> Value(10, d) == 98 - Value(10, Base(bban)) % 97)
  {
    hide Value, Text, TextOfInt, Base, Remainder, LoopEnds, Alphanumeric;
    RemainderRange(Base(bban));
    if Alphanumeric(bban) { AlphanumericEnds(bban); }
    TwoFigures(98 - Remainder(Base(bban)).value);
  }

  lemma {:induction false} TwoFigures(n: nat)
    ensures var t := "0" + TextOfInt(n);
            var d := t[|t| - 2..];
            |d| == 2 && IsDigit(d[0]) && IsDigit(d[1]) && (n < 100 ==> Value(10, d) == n)
  {
    var t := Text(10, n);
    hide Text, Value;
    SmallPowers();
    ValueOfText(10, n);
    TextLength(10, n, 2);
    TextLength(10, n, 1);
    if n < 100 { TwoDigitsOf(t); } else { LastTwo(t); }
  }

  lemma {:induction false} LastTwo(t: string)
    requires |t| > 2 && Numeral(10, t)
    ensures var d := ("0" + t)[|t| - 1..]; |d| == 2 && IsDigit(d[0]) && IsDigit(d[1])
  {}

  lemma {:induction false} TwoDigitsOf(t: string)
    requires 1 <= |t| <= 2 && Numeral(10, t)
    ensures var d := ("0" + t)[|t| - 1..]; |d| == 2 && IsDigit(d[0]) && IsDigit(d[1]) && Value(10, d) == Value(10, t)
  {
    var d := ("0" + t)[|t| - 1..];
    if |t| == 1 {
      assert d == PadStart(t, 2) by { assert Zeros(1) == Zeros(0) + "0" == "0"; assert d == "0" + t; }
      ValueOfPadded(10, t, 2);
    } else {
      assert d == t;
    }
  }

  /**
   * If the loop ends, building succeeds for BBANs of 16, 30 or 31 characters, and what it builds is valid exactly
   * if the BBAN has the right shape (capitals and digits, `ETH` first if there are 16); for letters and digits the
   * loop ends and the check digits are 02 to 98.
   */
  lemma {:induction false} FromBbanIsValid(bban: string)
    ensures Alphanumeric(bban) ==> LoopEnds(Base(bban)) && 2 <= Value(10, CheckDigits(bban)) <= 98
    ensures LoopEnds(Base(bban)) ==>
              && (FromBban(bban).Ok? <==> |bban| in {16, 30, 31})
              && (FromBban(bban).Ok? ==> (IsValid(FromBban(bban).value) <==> ShapedBban(bban)))
  {
    if Alphanumeric(bban) { AlphanumericEnds(bban); }
    if LoopEnds(Base(bban)) {
      CheckDigitsSpec(bban);
      IbanShape(CheckDigits(bban), bban);
      hide Value, Prepare, CheckDigits, WellShaped, Base, LoopEnds;
      if ShapedBban(bban) { ValidCheckDigits(CheckDigits(bban), bban); }
    }
  }

  // When building ends at all. Characters outside ASCII, which may change under toUpperCase, are left aside.

  predicate IsAscii(c: char) {
    c < '\U{80}'
  }

  lemma {:induction false} BaseStarts(bban: string)
    ensures var s := Base(bban);
      if bban == "" || DigitValue(bban[0]) < 36 then IsDigit(s[0]) else s[0] == bban[0]
  {
    var s := UpperAll("XE00" + bban);
    assert Rotate(s)[0] == if bban == "" then 'X' else Upper(bban[0]);
    ExpandStart(Rotate(s));
  }

  /** Without space or sign in front, building ends exactly if the BBAN starts with a letter or digit, or is empty. */
  lemma {:induction false} BuildingEnds(bban: string)
    requires bban != "" ==> IsAscii(bban[0]) && !IsSpace(bban[0]) && bban[0] !in {'+', '-'}
    ensures Ends(Base(bban)) <==> bban == "" || DigitValue(bban[0]) < 36
  {
    BaseStarts(bban);
    hide Base;
    assert forall c :: IsDigit(c) ==> DigitValue(c) < 10 && !IsSpace(c) && c !in {'+', '-'};
    FirstCharacterDecides(Base(bban));
  }

  /** What follows a leading sign stands in the text behind the sign. */
  lemma {:induction false} SignedBase(sign: char, bban: string)
    requires sign in {'+', '-'}
    ensures Base([sign] + bban) == [sign] + Base(bban)
  {
    var s, t := UpperAll("XE00" + bban), UpperAll("XE00" + ([sign] + bban));
    assert Rotate(t) == [sign] + Rotate(s);
    ExpandSign(sign, Rotate(s));
  }

  lemma {:induction false} ExpandSign(sign: char, s: string)
    requires sign in {'+', '-'}
    ensures Expand([sign] + s) == [sign] + Expand(s)
    decreases |s|
  {
    hide Expand, ExpandChar;
    if s == "" {
      ExpandSnoc("", sign);
      EmptyExpand();
      ExpandedStart(sign);
      assert "" + [sign] == [sign] == [sign] + s;
    } else {
      var t, c := s[..|s| - 1], s[|s| - 1];
      ExpandSign(sign, t);
      ExpandSnoc(t, c);
      ExpandSnoc([sign] + t, c);
      assert t + [c] == s && ([sign] + t) + [c] == [sign] + s;
    }
  }

  lemma {:induction false} EmptyExpand()
    ensures Expand("") == ""
  {}

  /**
   * A sign in front of a symbol never ends. A plus in front of a letter or digit, or of nothing, always does. So
   * does a minus in front of letters and digits whose number is at most 9 modulo 97; up to 8 digits, no others do.
   */
  lemma {:induction false} SignedBuildingEnds(sign: char, bban: string)
    requires sign in {'+', '-'} && (bban != "" ==> IsAscii(bban[0]))
    ensures var s := Base([sign] + bban);
      && (bban != "" && DigitValue(bban[0]) == 36 ==> !Ends(s))
      && (sign == '+' && (bban == "" || DigitValue(bban[0]) < 36) ==> Ends(s))
      && (sign == '-' && Alphanumeric(bban) ==>
            && (Value(10, Base(bban)) % 97 <= 9 ==> Ends(s))
            && (|Base(bban)| <= 8 ==> (Ends(s) <==> Value(10, Base(bban)) % 97 <= 9)))
  {
    hide Base, Ends, Value;
    SignedBase(sign, bban);
    BaseStarts(bban);
    if Alphanumeric(bban) {
      AlphanumericEnds(bban);
      if sign == '-' { MinusDecides(Base(bban)); }
    }
    SignDecides(sign, Base(bban));
  }

  lemma {:induction false} SignDecides(sign: char, t: string)
    requires sign in {'+', '-'} && |t| > 1
    ensures DigitValue(t[0]) >= 10 ==> !Ends([sign] + t)
    ensures DigitValue(t[0]) < 10 && sign == '+' ==> Ends([sign] + t)
  {
    var s := [sign] + t;
    assert Block(s)[0] == sign && Block(s)[1] == t[0];
    assert SkipSpace(Block(s)) == Block(s) && Figures(Block(s))[0] == t[0];
    hide Ends, ParseInt;
    FigureDecides(s);
  }

  /** No check digits for "-5": the loop is stuck at "-86". */
  lemma {:induction false} MinusFiveNeverEnds()
    ensures !Ends(Base("-5"))
  {
    SignedBase('-', "5");
    BaseOfFive();
    ValueOfFive();
    assert "-" + "5" == "-5";
    MinusDecides("5331400");
  }

  lemma {:induction false} BaseOfFive()
    ensures Base("5") == "5331400"
  {
    assert UpperAll("XE005") == "XE005";
    assert "XE00" + "5" == "XE005" && "XE005"[4..] == "5" && "XE005"[..4] == "XE00" && "5" + "XE00" == "5XE00";
    ExpandedFive();
    hide Expand, UpperAll;
  }

  lemma {:induction false} ExpandedFive()
    ensures Expand("5XE00") == "5331400"
  {
    CapitalsXE();
    EmptyExpand();
    hide Expand, ExpandChar;
    ExpandSnoc("", '5');
    ExpandSnoc("5", 'X');
    ExpandSnoc("5X", 'E');
    ExpandSnoc("5XE", '0');
    ExpandSnoc("5XE0", '0');
    assert "" + "5" == "5" && "5" + "X" == "5X" && "5X" + "E" == "5XE";
    assert "5XE" + "0" == "5XE0" && "5XE0" + "0" == "5XE00";
    assert "5" + "33" == "533" && "533" + "14" == "53314" && "53314" + "0" == "533140" && "533140" + "0" == "5331400";
  }

  lemma {:induction false} ExpandSnoc(s: string, c: char)
    ensures Expand(s + [c]) == Expand(s) + ExpandChar(c)
  {
    assert (s + [c])[..|s|] == s;
  }

  lemma {:induction false} CapitalsXE()
    ensures ExpandChar('X') == "33" && ExpandChar('E') == "14" && ExpandChar('0') == "0" && ExpandChar('5') == "5"
  {
    TextStep(10, 33);
    TextStep(10, 14);
    TextStep(10, 3);
    TextStep(10, 1);
  }

  lemma {:induction false} ValueOfFive()
    ensures Value(10, "5331400") % 97 == 86 && Numeral(10, "5331400")
  {
    ValueOfDigit(10, '5');
    ValueSnoc(10, "5", '3');
    ValueSnoc(10, "53", '3');
    ValueSnoc(10, "533", '1');
    ValueSnoc(10, "5331", '4');
    ValueSnoc(10, "53314", '0');
    ValueSnoc(10, "533140", '0');
    assert "5" + "3" == "53" && "53" + "3" == "533" && "533" + "1" == "5331" && "5331" + "4" == "53314";
    assert "53314" + "0" == "533140" && "533140" + "0" == "5331400";
  }

  lemma {:induction false} IbanShape(d: string, bban: string)
    requires |d| == 2 && IsDigit(d[0]) && IsDigit(d[1])
    ensures WellShaped("XE" + d + bban) <==> ShapedBban(bban)
  {
    assert ("XE" + d + bban)[4..] == bban;
  }

  /** Exactly the check digits that agree with the built ones modulo 97 make a BBAN valid: 02 and 99, or 97 and 00. */
  lemma {:induction false} ValidCheckDigits(d: string, bban: string)
    requires |d| == 2 && IsDigit(d[0]) && IsDigit(d[1]) && Capitals(bban)
    ensures LoopEnds(Base(bban))
    ensures IsValid("XE" + d + bban) <==> ShapedBban(bban) && Value(10, d) % 97 == Value(10, CheckDigits(bban)) % 97
  {
    hide Value, Prepare, CheckNumber, CheckDigits, WellShaped, ShapedBban, LoopEnds, Remainder;
    AlphanumericEnds(bban);
    CheckDigitsSpec(bban);
    CheckOfIban(d, bban);
    IbanShape(d, bban);
    SameRemainder(CheckNumber(bban + "XE00"), Value(10, d), Value(10, CheckDigits(bban)));
  }

  lemma {:induction false} SameRemainder(n: nat, x: nat, y: nat)
    requires y == 98 - n % 97
    ensures (n + x) % 97 == 1 <==> x % 97 == y % 97
  {
    assert n == 97 * (n / 97) + n % 97;
    assert n + x == (n % 97 + x) + 97 * (n / 97);
    AddMultiple(n % 97 + x, n / 97);
    assert x == 97 * (x / 97) + x % 97;
    AddMultiple(n % 97 + x % 97, x / 97);
  }

  // Direct IBANs.

  /** The checksum of addresses: which mixed-case digits it accepts, and the case it gives to digits. */
  datatype Checksum = Checksum(accepts: string -> bool, casing: string -> string)

  predicate IsAddress(cs: Checksum, value: string) {
    var digits := Body(value);
    && |digits| == 40 && Numeral(16, digits)
    && (LowerAll(digits) == digits || UpperAll(digits) == digits || cs.accepts(digits))
  }

  lemma {:induction false} AddressNumber(address: string)
    requires IsHexStrict(address) && |Body(address)| == 40 && Numeral(16, Body(address))
    ensures HexToNumber(address) == Some(Value(16, Body(address)))
  {
    assert DigitValue('-') == 36;
  }

  function FromAddress(cs: Checksum, address: string): Result<string, Error> {
    if !IsAddress(cs, address) then Err(InvalidAddress)
    else if !IsHexStrict(address) then Err(NotHex)
    else
      AddressNumber(address);
      var num := HexToNumber(address).value;
      FromBban(AddressBban(num))
  }

  /** The value in base 36, at least 15 digits long and in capitals. */
  function AddressBban(num: nat): (b: string)
    ensures Alphanumeric(b) && LoopEnds(Base(b))
  {
    CapitalsOfText(num);
    AlphanumericEnds(UpperAll(PadStart(Text(36, num), 15)));
    UpperAll(PadStart(Text(36, num), 15))
  }

  function ToAddress(cs: Checksum, iban: string): Result<string, Error> {
    if |iban| == 34 || |iban| == 35 then
      var base36 := iban[4..];
      if !Numeral(36, base36) then Err(NotBase36)
      else
        var hex := PadStart(Text(16, Value(36, base36)), 40);
        if |hex| == 40 then Ok("0x" + cs.casing(hex)) else Err(InvalidAddress)
    else if |iban| == 20 then Err(IndirectIban)
    else Err(InvalidIban)
  }

  lemma {:induction false} CapitalsOfText(num: nat)
    ensures var p := PadStart(Text(36, num), 15);
            var u := UpperAll(p);
            |u| == |p| && Capitals(u) && Numeral(36, u) && Value(36, u) == num
  {
    ValueOfText(36, num);
    ValueOfPadded(36, Text(36, num), 15);
    PaddedNumeral(36, Text(36, num), 15);
    var p := PadStart(Text(36, num), 15);
    UpperValue(p);
  }

  lemma {:induction false} UpperValue(s: string)
    requires Numeral(36, s)
    ensures Capitals(UpperAll(s)) && Numeral(36, UpperAll(s)) && Value(36, UpperAll(s)) == Value(36, s)
  {
    var u := UpperAll(s);
    assert forall i :: 0 <= i < |s| ==> DigitValue(u[i]) == DigitValue(s[i]);
    SameDigitsSameValue(u, s);
  }

  lemma {:induction false} SameDigitsSameValue(s: string, t: string)
    requires |s| == |t| && forall i :: 0 <= i < |s| ==> DigitValue(s[i]) == DigitValue(t[i])
    ensures Value(36, s) == Value(36, t)
    decreases |s|
  {
    if s != "" { SameDigitsSameValue(s[..|s| - 1], t[..|t| - 1]); }
  }

  /** 2^160 < 36^31: an address has at most 31 digits in base 36. */
  lemma {:induction false} AddressBound(address: string)
    requires |address| == 40 && Numeral(16, address)
    ensures Value(16, address) < Pow(36, 31)
  {
    ValueBelow(16, address);
    TwoPowers();
  }

  lemma {:induction false} TwoPowers()
    ensures Pow(16, 40) < Pow(36, 31)
  {
    hide Pow;
    FourthPowers();
    PowSum(16, 4, 4);
    PowSum(16, 8, 8);
    PowSum(16, 16, 16);
    PowSum(16, 32, 8);
    PowSum(36, 4, 4);
    PowSum(36, 8, 8);
    PowSum(36, 16, 8);
    PowSum(36, 24, 4);
    PowSum(36, 28, 3);
  }

  lemma {:induction false} FourthPowers()
    ensures Pow(16, 4) == 65536 && Pow(36, 3) == 46656 && Pow(36, 4) == 1679616
  {
    assert Pow(16, 1) == 16 * Pow(16, 0);
    assert Pow(16, 2) == 16 * Pow(16, 1);
    assert Pow(16, 3) == 16 * Pow(16, 2);
    assert Pow(16, 4) == 16 * Pow(16, 3);
    assert Pow(36, 1) == 36 * Pow(36, 0);
    assert Pow(36, 2) == 36 * Pow(36, 1);
    assert Pow(36, 3) == 36 * Pow(36, 2);
    assert Pow(36, 4) == 36 * Pow(36, 3);
  }

  /** How long the BBAN of an address is. */
  lemma {:induction false} BbanLength(v: nat)
    requires v < Pow(36, 31)
    ensures var n := |PadStart(Text(36, v), 15)|;
            && (n == 16 <==> Pow(36, 15) <= v < Pow(36, 16))
            && (n == 30 || n == 31 <==> v >= Pow(36, 29))
  {
    hide Text, Pow;
    TextLength(36, v, 15);
    TextLength(36, v, 16);
    TextLength(36, v, 29);
    TextLength(36, v, 31);
  }

  /**
   * The direct round trip, exactly. Building an IBAN from an address works for values of 16, 30 or 31 digits
   * in base 36 and throws for the others; it gives a valid direct IBAN that leads back to the address, in its
   * checksum case, exactly from 36^29 on.
   */
  lemma {:induction false} AddressRoundTrip(cs: Checksum, address: string)
    requires IsAddress(cs, address) && IsHexStrict(address)
    ensures HexToNumber(address).Some? && HexToNumber(address).value >= 0
    ensures var v, r := HexToNumber(address).value, FromAddress(cs, address);
            && (r.Ok? <==> Pow(36, 15) <= v < Pow(36, 16) || Pow(36, 29) <= v)
            && (r.Ok? && ToAddress(cs, r.value) == Ok("0x" + cs.casing(LowerAll(Body(address)))) <==> Pow(36, 29) <= v)
            && (Pow(36, 29) <= v ==> IsValid(r.value) && (|r.value| == 34 || |r.value| == 35))
  {
    hide Prefixed, Numeral, LowerAll, Text, Alphanumeric, LoopEnds;
    var digits, v := Body(address), Value(16, Body(address));
    var bban := AddressBban(v);
    AddressNumber(address);
    AddressBound(digits);
    BbanLength(v);
    PowMonotone(36, 16, 29);
    CapitalsOfText(v);
    FromBbanIsValid(bban);
    CheckDigitsSpec(bban);
    hide IsAddress, IsHexStrict, Value, Body, LowerAll, ToAddress, HexToNumber, CheckDigits, AddressBban, IsValid, Pow;
    assert FromAddress(cs, address) == FromBban(bban);
    AddressBack(cs, digits);
  }

  lemma {:induction false} AddressBack(cs: Checksum, digits: string)
    requires |digits| == 40 && Numeral(16, digits)
    ensures var bban := AddressBban(Value(16, digits));
            var s := "XE" + CheckDigits(bban) + bban;
            ToAddress(cs, s) == if |bban| in {30, 31} then Ok("0x" + cs.casing(LowerAll(digits)))
                                else if |bban| == 16 then Err(IndirectIban) else Err(InvalidIban)
  {
    var v := Value(16, digits);
    var bban := AddressBban(v);
    CapitalsOfText(v);
    CheckDigitsSpec(bban);
    LowerValue(digits);
    PaddedTextOfValue(16, LowerAll(digits));
    hide Value, Text, PadStart, LowerAll, CheckDigits, AddressBban;
    assert ("XE" + CheckDigits(bban) + bban)[4..] == bban;
  }

  /**
   * Which texts lead to an address: 34 or 35 characters whose last 30 or 31 are a number in base 36 below 2^160.
   * The address is that number in 40 hex digits.
   */
  lemma {:induction false} ToAddressExactly(cs: Checksum, iban: string) returns (digits: string)
    ensures ToAddress(cs, iban) ==
            if |iban| == 20 then Err(IndirectIban)
            else if |iban| != 34 && |iban| != 35 then Err(InvalidIban)
            else if !Numeral(36, iban[4..]) then Err(NotBase36)
            else if Value(36, iban[4..]) < Pow(16, 40) then Ok("0x" + cs.casing(digits))
            else Err(InvalidAddress)
    ensures ToAddress(cs, iban).Ok? ==>
              |digits| == 40 && Numeral(16, digits) && LowerCase(digits) && Value(16, digits) == Value(36, iban[4..])
  {
    hide Value, Text, Numeral, LowerCase, Pow;
    digits := "";
    if (|iban| == 34 || |iban| == 35) && Numeral(36, iban[4..]) {
      var v := Value(36, iban[4..]);
      digits := PadStart(Text(16, v), 40);
      ValueOfText(16, v);
      TextLength(16, v, 40);
      ValueOfPadded(16, Text(16, v), 40);
      PaddedNumeral(16, Text(16, v), 40);
    }
  }
}
