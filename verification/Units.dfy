/** Ether units: the decimal point moved by string surgery, in both directions. */
module Units {
  import opened Wrappers
  import opened Strings
  import opened Numerals

  datatype Error = InvalidUnit

  /** The number of zeros of each unit's denomination; `noether` is 0 and no unit to convert to. */
  function UnitZeros(): map<string, nat> {
    map[
    "wei" := 0,
    "kwei" := 3, "Kwei" := 3, "babbage" := 3, "femtoether" := 3,
    "mwei" := 6, "Mwei" := 6, "lovelace" := 6, "picoether" := 6,
    "gwei" := 9, "Gwei" := 9, "shannon" := 9, "nanoether" := 9, "nano" := 9,
    "szabo" := 12, "microether" := 12, "micro" := 12,
    "finney" := 15, "milliether" := 15, "milli" := 15,
    "ether" := 18, "kether" := 21, "grand" := 21, "mether" := 24, "gether" := 27, "tether" := 30]
  }

  function Denomination(unit: string): nat {
    if unit in UnitZeros() then Pow(10, UnitZeros()[unit]) else 0
  }

  /** `denomination.toString().length - 1` */
  function NumberOfZeros(denomination: nat): nat {
    |Text(10, denomination)| - 1
  }

  /** `replace(/\.?0+$/, '')` on digits */
  function StripZeros(s: string): (r: string)
    ensures |r| <= |s|
  {
    if s != "" && s[|s| - 1] == '0' then StripZeros(s[..|s| - 1]) else s
  }

  function FromWei(n: nat, unit: string): Result<string, Error> {
    var denomination := Denomination(unit);
    if denomination == 0 then Err(InvalidUnit) else Ok(ShiftDown(n, NumberOfZeros(denomination)))
  }

  /** The decimal text of n with the point k digits from the right. */
  function ShiftDown(n: nat, k: nat): string {
    var value := Text(10, n);
    if k <= 0 then value
    else
      var padded := PadStart(value, k);
      var integer := padded[..|padded| - k];
      var fraction := StripZeros(padded[|padded| - k..]);
      if integer == "" then "0" + "." + fraction
      else if fraction == "" then integer
      else integer + "." + fraction
  }

  // Decimal texts: digits with at most one point.

  function IntegerPart(s: string): string {
    s[..IndexOf(s, '.')]
  }

  function FractionPart(s: string): string {
    if IndexOf(s, '.') == |s| then "" else s[IndexOf(s, '.') + 1..]
  }

  predicate Decimal(s: string) {
    Numeral(10, IntegerPart(s)) && Numeral(10, FractionPart(s))
  }

  function Min(x: nat, y: nat): nat {
    if x < y then x else y
  }

  function ToWei(number: string, unit: string): Result<string, Error>
    requires Decimal(number)
  {
    var denomination := Denomination(unit);
    if denomination == 0 then Err(InvalidUnit) else Ok(ShiftUp(number, denomination))
  }

  function ShiftUp(number: string, denomination: nat): string {
    var fraction := FractionPart(number);
    var value := Value(10, IntegerPart(number) + fraction);
    var updated := Text(10, value * denomination);
    var decimals := Min(|fraction|, NumberOfZeros(denomination));
    if decimals == 0 then updated
    else
      var padded := PadStart(updated, decimals);
      padded[..|padded| - decimals]
  }

  // Proofs.

  lemma {:induction false} ZerosOfPow(k: nat)
    ensures NumberOfZeros(Pow(10, k)) == k
  {
    PowMonotone(10, 0, k);
    PowGrows(k);
    TextLength(10, Pow(10, k), k + 1);
    if k > 0 { TextLength(10, Pow(10, k), k); }
  }

  lemma {:induction false} PowGrows(k: nat)
    ensures Pow(10, k) < Pow(10, k + 1)
  {}

  /** Multiplying by a power of ten appends zeros. */
  lemma {:induction false} TextShift(p: nat, m: nat)
    requires p > 0
    ensures Text(10, p * Pow(10, m)) == Text(10, p) + Zeros(m)
    decreases m
  {
    hide Text;
    if m == 0 {
      assert p * Pow(10, 0) == p;
      assert Text(10, p) + "" == Text(10, p);
    } else {
      var x, q := Pow(10, m - 1), p * Pow(10, m - 1);
      TextShift(p, m - 1);
      MulPositive(p, x);
      TimesTen(p, x);
      TextTimesTen(q);
      assert Text(10, p) + Zeros(m - 1) + "0" == Text(10, p) + Zeros(m);
    }
  }

  lemma {:induction false} TimesTen(p: nat, x: nat)
    ensures p * (10 * x) == (p * x) * 10
  {}

  lemma {:induction false} TextTimesTen(q: nat)
    requires q > 0
    ensures Text(10, q * 10) == Text(10, q) + "0"
  {
    assert q * 10 / 10 == q && q * 10 % 10 == 0;
    TextStep(10, q * 10);
    assert DigitChar(0) == '0';
  }

  lemma {:induction false} StripSpec(s: string)
    requires Numeral(10, s)
    ensures var f := StripZeros(s);
            && s == f + Zeros(|s| - |f|) && Numeral(10, f)
            && (f != "" ==> f[|f| - 1] != '0')
  {
    hide DigitValue;
    if s != "" && s[|s| - 1] == '0' {
      var t := s[..|s| - 1];
      StripSpec(t);
      assert s == t + "0";
      var f := StripZeros(t);
      assert f + Zeros(|t| - |f|) + "0" == f + Zeros(|s| - |f|);
    } else {
      assert s + "" == s;
    }
  }

  lemma {:induction false} LastDigitCounts(s: string)
    requires s != "" && s[|s| - 1] != '0'
    ensures Value(10, s) > 0
  {
    NonZeroDigit(s[|s| - 1]);
  }

  lemma {:induction false} ValueShift(s: string, m: nat)
    ensures Value(10, s + Zeros(m)) == Value(10, s) * Pow(10, m)
  {
    ValueAppend(10, s, Zeros(m));
    ValueOfZeros(10, m);
  }

  lemma {:induction false} Parts(integer: string, fraction: string)
    requires Numeral(10, integer) && Numeral(10, fraction)
    ensures IntegerPart(integer + "." + fraction) == integer && FractionPart(integer + "." + fraction) == fraction
    ensures IntegerPart(integer) == integer && FractionPart(integer) == ""
    ensures Decimal(integer + "." + fraction) && Decimal(integer)
  {
    var s := integer + "." + fraction;
    assert DigitValue('.') == 36;
    assert s[|integer|] == '.';
    assert forall i :: 0 <= i < |integer| ==> s[i] == integer[i] && integer[i] != '.';
    assert IndexOf(s, '.') == |integer| && IndexOf(integer, '.') == |integer|;
    assert s[..|integer|] == integer && s[|integer| + 1..] == fraction && integer[..|integer|] == integer;
  }

  // The units in numbers.

  lemma {:induction false} PowersOfThousand()
    ensures Pow(10, 0) == 1
    ensures Pow(10, 3) == 1_000
    ensures Pow(10, 6) == 1_000_000
    ensures Pow(10, 9) == 1_000_000_000
    ensures Pow(10, 12) == 1_000_000_000_000
    ensures Pow(10, 15) == 1_000_000_000_000_000
    ensures Pow(10, 18) == 1_000_000_000_000_000_000
    ensures Pow(10, 21) == 1_000_000_000_000_000_000_000
    ensures Pow(10, 24) == 1_000_000_000_000_000_000_000_000
    ensures Pow(10, 27) == 1_000_000_000_000_000_000_000_000_000
    ensures Pow(10, 30) == 1_000_000_000_000_000_000_000_000_000_000
  {
    assert Pow(10, 1) == 10 * Pow(10, 0) && Pow(10, 2) == 10 * Pow(10, 1) && Pow(10, 3) == 10 * Pow(10, 2);
    hide Pow;
    PowSum(10, 3, 3);
    PowSum(10, 6, 3);
    PowSum(10, 9, 3);
    PowSum(10, 12, 3);
    PowSum(10, 15, 3);
    PowSum(10, 18, 3);
    PowSum(10, 21, 3);
    PowSum(10, 24, 3);
    PowSum(10, 27, 3);
  }

  /** Every unit and its denomination; `noether` and all other names are no units to convert with. */
  lemma {:induction false} Denominations(unit: string)
    ensures unit == "wei" ==> Denomination(unit) == 1
    ensures unit in {"kwei", "Kwei", "babbage", "femtoether"} ==> Denomination(unit) == 1_000
    ensures unit in {"mwei", "Mwei", "lovelace", "picoether"} ==> Denomination(unit) == 1_000_000
    ensures unit in {"gwei", "Gwei", "shannon", "nanoether", "nano"} ==> Denomination(unit) == 1_000_000_000
    ensures unit in {"szabo", "microether", "micro"} ==> Denomination(unit) == 1_000_000_000_000
    ensures unit in {"finney", "milliether", "milli"} ==> Denomination(unit) == 1_000_000_000_000_000
    ensures unit in {"ether"} ==> Denomination(unit) == 1_000_000_000_000_000_000
    ensures unit in {"kether", "grand"} ==> Denomination(unit) == 1_000_000_000_000_000_000_000
    ensures unit in {"mether"} ==> Denomination(unit) == 1_000_000_000_000_000_000_000_000
    ensures unit in {"gether"} ==> Denomination(unit) == 1_000_000_000_000_000_000_000_000_000
    ensures unit in {"tether"} ==> Denomination(unit) == 1_000_000_000_000_000_000_000_000_000_000
    ensures Denomination(unit) == 0 <==>
            && unit != "wei" && unit !in {"kwei", "Kwei", "babbage", "femtoether"}
            && unit !in {"mwei", "Mwei", "lovelace", "picoether"}
            && unit !in {"gwei", "Gwei", "shannon", "nanoether", "nano"}
            && unit !in {"szabo", "microether", "micro"} && unit !in {"finney", "milliether", "milli"}
            && unit !in {"ether"} && unit !in {"kether", "grand"}
            && unit !in {"mether"} && unit !in {"gether"}
            && unit !in {"tether"}
  {
    PowersOfThousand();
    SmallUnits(unit);
    MiddleUnits(unit);
    LargeUnits(unit);
    if unit in UnitZeros() { Units(unit); }
    hide Pow, UnitZeros;
  }

  lemma {:induction false} SmallUnits(unit: string)
    ensures unit == "wei" ==> unit in UnitZeros() && UnitZeros()[unit] == 0
    ensures unit in {"kwei", "Kwei", "babbage", "femtoether"} ==> unit in UnitZeros() && UnitZeros()[unit] == 3
  {}

  lemma {:induction false} MiddleUnits(unit: string)
    ensures unit in {"mwei", "Mwei", "lovelace", "picoether"} ==> unit in UnitZeros() && UnitZeros()[unit] == 6
    ensures unit in {"gwei", "Gwei", "shannon", "nanoether", "nano"} ==> unit in UnitZeros() && UnitZeros()[unit] == 9
  {}

  lemma {:induction false} LargeUnits(unit: string)
    ensures unit in {"szabo", "microether", "micro"} ==> unit in UnitZeros() && UnitZeros()[unit] == 12
    ensures unit in {"finney", "milliether", "milli"} ==> unit in UnitZeros() && UnitZeros()[unit] == 15
    ensures unit in {"ether"} ==> unit in UnitZeros() && UnitZeros()[unit] == 18
    ensures unit in {"kether", "grand"} ==> unit in UnitZeros() && UnitZeros()[unit] == 21
    ensures unit in {"mether"} ==> unit in UnitZeros() && UnitZeros()[unit] == 24
    ensures unit in {"gether"} ==> unit in UnitZeros() && UnitZeros()[unit] == 27
    ensures unit in {"tether"} ==> unit in UnitZeros() && UnitZeros()[unit] == 30
  {}

  lemma {:induction false} Units(unit: string)
    requires unit in UnitZeros()
    ensures || unit == "wei" || unit in {"kwei", "Kwei", "babbage", "femtoether"}
            || unit in {"mwei", "Mwei", "lovelace", "picoether"}
            || unit in {"gwei", "Gwei", "shannon", "nanoether", "nano"}
            || unit in {"szabo", "microether", "micro"} || unit in {"finney", "milliether", "milli"}
            || unit in {"ether"} || unit in {"kether", "grand"}
            || unit in {"mether"} || unit in {"gether"}
            || unit in {"tether"}
  {}

  /** s stands for n / 10^k, with at most k fraction digits and no trailing zero. */
  predicate StandsFor(s: string, n: nat, k: nat) {
    var f := FractionPart(s);
    && Decimal(s) && |f| <= k && (f != "" ==> f[|f| - 1] != '0')
    && Value(10, IntegerPart(s) + f) * Pow(10, k) == n * Pow(10, |f|)
  }

  /** `fromWei` is exact. */
  lemma {:induction false} FromWeiIsExact(n: nat, unit: string)
    ensures FromWei(n, unit).Ok? <==> unit in UnitZeros()
    ensures unit in UnitZeros() ==> StandsFor(FromWei(n, unit).value, n, UnitZeros()[unit])
  {
    hide UnitZeros, ShiftDown, StandsFor, NumberOfZeros;
    if unit in UnitZeros() {
      var k := UnitZeros()[unit];
      ZerosOfPow(k);
      ShiftDownIsExact(n, k);
    }
  }

  lemma {:induction false} ShiftDownIsExact(n: nat, k: nat)
    ensures StandsFor(ShiftDown(n, k), n, k)
  {
    hide Text, Value, StripZeros;
    ValueOfText(10, n);
    if k == 0 {
      var value := Text(10, n);
      assert Pow(10, 0) == 1;
      Parts(value, "");
      assert value + "" == value;
    } else {
      var padded := PadStart(Text(10, n), k);
      var integer, tail := padded[..|padded| - k], padded[|padded| - k..];
      ValueOfPadded(10, Text(10, n), k);
      PaddedNumeral(10, Text(10, n), k);
      assert padded == integer + tail;
      StripSpec(tail);
      SplitIsExact(integer, StripZeros(tail), k, n);
    }
  }

  lemma {:induction false} SplitIsExact(integer: string, f: string, k: nat, n: nat)
    requires Numeral(10, integer) && Numeral(10, f) && |f| <= k && (f != "" ==> f[|f| - 1] != '0')
    requires Value(10, integer + (f + Zeros(k - |f|))) == n
    ensures StandsFor(if integer == "" then "0" + "." + f else if f == "" then integer else integer + "." + f, n, k)
  {
    SplitNumber(integer, f, k, n);
    hide Value, Pow, StandsFor, Numeral, Zeros;
    if integer == "" {
      assert integer + f == f;
      ZeroStands(f, k, n);
    } else if f == "" {
      assert integer + "" == integer;
      WholeStands(integer, k, n);
    } else {
      PointStands(integer, f, k, n);
    }
  }

  lemma {:induction false} ZeroStands(f: string, k: nat, n: nat)
    requires Numeral(10, f) && |f| <= k && (f != "" ==> f[|f| - 1] != '0')
    requires Value(10, f) * Pow(10, k) == n * Pow(10, |f|)
    ensures StandsFor("0" + "." + f, n, k)
  {
    assert Numeral(10, "0");
    hide Value, Pow, StandsFor, Numeral;
    LeadingZero(f);
    PointStands("0", f, k, n);
  }

  lemma {:induction false} PointStands(integer: string, f: string, k: nat, n: nat)
    requires Numeral(10, integer) && Numeral(10, f) && |f| <= k && (f != "" ==> f[|f| - 1] != '0')
    requires Value(10, integer + f) * Pow(10, k) == n * Pow(10, |f|)
    ensures StandsFor(integer + "." + f, n, k)
  {
    hide Value, Pow, IndexOf, Numeral;
    Parts(integer, f);
  }

  lemma {:induction false} WholeStands(integer: string, k: nat, n: nat)
    requires Numeral(10, integer) && Value(10, integer) * Pow(10, k) == n * Pow(10, 0)
    ensures StandsFor(integer, n, k)
  {
    assert Numeral(10, "");
    hide Value, Pow, IndexOf, Numeral;
    Parts(integer, "");
    assert integer + "" == integer;
  }

  lemma {:induction false} SplitNumber(integer: string, f: string, k: nat, n: nat)
    requires |f| <= k && Value(10, integer + (f + Zeros(k - |f|))) == n
    ensures Value(10, integer + f) * Pow(10, k) == n * Pow(10, |f|)
  {
    hide Value, Pow;
    ValueShift(integer + f, k - |f|);
    assert integer + f + Zeros(k - |f|) == integer + (f + Zeros(k - |f|));
    PowSum(10, k - |f|, |f|);
    Product(Value(10, integer + f), Pow(10, k - |f|), Pow(10, |f|), n);
  }

  lemma {:induction false} Product(v: nat, x: nat, y: nat, n: nat)
    requires v * x == n
    ensures v * (x * y) == n * y
  {
    assert v * (x * y) == (v * x) * y;
  }

  /** f are the k fraction digits of n / 10^k without the zeros at the end. */
  predicate FractionDigits(f: string, n: nat, k: nat) {
    && Numeral(10, f) && |f| <= k && (f != "" ==> f[|f| - 1] != '0')
    && Value(10, f) * Pow(10, k - |f|) == n % Pow(10, k)
  }

  /** n / 10^k with the fraction digits f: no point without a fraction, except below one. */
  function WithPoint(n: nat, k: nat, f: string): string {
    var d := Pow(10, k);
    if k == 0 then Text(10, n)
    else if n < d then "0." + f
    else if n % d == 0 then Text(10, n / d)
    else Text(10, n / d) + "." + f
  }

  /**
   * The text of `fromWei` in a unit of 10^k: below one unit a zero and a point, with nothing behind the point for
   * the number zero; from one unit on the whole units, and the rest behind a point unless it is zero.
   */
  lemma {:induction false} FromWeiText(n: nat, unit: string, k: nat) returns (f: string)
    requires Denomination(unit) == Pow(10, k)
    ensures FractionDigits(f, n, k) && FromWei(n, unit) == Ok(WithPoint(n, k, f))
  {
    hide Denomination, ShiftDown, FractionDigits, NumberOfZeros, WithPoint;
    ZerosOfPow(k);
    f := ShiftDownText(n, k);
  }

  lemma {:induction false} ShiftDownText(n: nat, k: nat) returns (f: string)
    ensures FractionDigits(f, n, k) && ShiftDown(n, k) == WithPoint(n, k, f)
  {
    hide Text, Value, StripZeros, FractionDigits;
    if k == 0 {
      NoFraction(n);
      f := "";
    } else {
      var integer, tail := PaddedDigits(n, k);
      SplitValue(integer, tail);
      f := StripZeros(tail);
      StripTail(tail, n);
      assert "0" + "." == "0.";
    }
  }

  lemma {:induction false} NoFraction(n: nat)
    ensures FractionDigits("", n, 0)
  {}

  /** Without the zeros at its end a run of digits has the same value as a fraction. */
  lemma {:induction false} StripTail(tail: string, n: nat)
    requires Numeral(10, tail)
    ensures Value(10, tail) == n % Pow(10, |tail|) ==> FractionDigits(StripZeros(tail), n, |tail|)
    ensures StripZeros(tail) == "" <==> Value(10, tail) == 0
  {
    hide StripZeros, DigitValue;
    StripSpec(tail);
    var f := StripZeros(tail);
    ValueShift(f, |tail| - |f|);
    hide Numeral;
    if f == "" {
      assert 0 * Pow(10, |tail|) == 0;
    } else {
      LastDigitCounts(f);
      hide Value;
      MulPositive(Value(10, f), Pow(10, |tail| - |f|));
    }
  }

  /** The digits before the last k of the padded text print as themselves. */
  lemma {:induction false} PaddedDigits(n: nat, k: nat) returns (integer: string, tail: string)
    requires k > 0
    ensures var padded := PadStart(Text(10, n), k);
            integer == padded[..|padded| - k] && tail == padded[|padded| - k..]
    ensures Numeral(10, tail) && |tail| == k && Value(10, integer + tail) == n
    ensures integer == "" <==> n < Pow(10, k)
    ensures integer != "" ==> Text(10, Value(10, integer)) == integer
  {
    hide Value, Text, Pow, DigitValue;
    var text := Text(10, n);
    var padded := PadStart(text, k);
    integer, tail := padded[..|padded| - k], padded[|padded| - k..];
    ValueOfText(10, n);
    ValueOfPadded(10, text, k);
    PaddedNumeral(10, text, k);
    TextLength(10, n, k);
    assert padded == integer + tail;
    if integer != "" {
      TextIsCanonical(10, n);
      assert integer[0] == text[0];
      hide Numeral, LowerCase;
      WholeDigits(integer, text, n);
    }
  }

  /** The last digits are the rest and those before them the quotient. */
  lemma {:induction false} SplitValue(integer: string, tail: string)
    requires Numeral(10, tail)
    ensures var d := Pow(10, |tail|);
            && Value(10, integer) == Value(10, integer + tail) / d
            && Value(10, tail) == Value(10, integer + tail) % d
  {
    hide Value, Pow, Numeral;
    ValueAppend(10, integer, tail);
    ValueBelow(10, tail);
    Quotient(Value(10, integer + tail), Pow(10, |tail|), Value(10, integer), Value(10, tail));
  }

  lemma {:induction false} Quotient(n: nat, d: nat, q: nat, r: nat)
    requires n == q * d + r && r < d
    ensures n / d == q && n % d == r
  {
    assert n == (n / d) * d + n % d;
    if n / d < q { MulMonotone(n / d + 1, q, d); }
    if n / d > q { MulMonotone(q + 1, n / d, d); }
  }

  lemma {:induction false} WholeDigits(integer: string, text: string, n: nat)
    requires integer != "" && integer <= text && text[0] != '0' && Numeral(10, text) && LowerCase(text)
    ensures Text(10, Value(10, integer)) == integer
  {
    hide Text, Value, DigitValue, Lower;
    assert forall i :: 0 <= i < |integer| ==> integer[i] == text[i];
    TextOfValue(10, integer);
  }

  lemma {:induction false} LeadingZero(f: string)
    ensures Value(10, "0" + f) == Value(10, f)
  {
    ValueAppend(10, "0", f);
    ValueOfDigit(10, '0');
  }

  /** Cutting the zeros off a shifted number. */
  lemma {:induction false} CutShifted(p: nat, m: nat)
    requires p > 0
    ensures var t := PadStart(Text(10, p * Pow(10, m)), m); t[..|t| - m] == Text(10, p)
  {
    TextShift(p, m);
    assert (Text(10, p) + Zeros(m))[..|Text(10, p)|] == Text(10, p);
  }

  /** Wei to a unit and back: the number's own text, zero included. */
  lemma {:induction false} WeiRoundTrip(n: nat, unit: string)
    requires unit in UnitZeros()
    ensures FromWei(n, unit).Ok? && Decimal(FromWei(n, unit).value)
    ensures ToWei(FromWei(n, unit).value, unit) == Ok(Text(10, n))
  {
    var k := UnitZeros()[unit];
    FromWeiIsExact(n, unit);
    hide UnitZeros, ShiftDown, ShiftUp, NumberOfZeros;
    ZerosOfPow(k);
    ShiftUpUndoes(FromWei(n, unit).value, n, k);
  }

  lemma {:induction false} ShiftUpUndoes(s: string, n: nat, k: nat)
    requires StandsFor(s, n, k)
    ensures ShiftUp(s, Pow(10, k)) == Text(10, n)
  {
    hide Text, Value, PadStart;
    var f := FractionPart(s);
    ZerosOfPow(k);
    if f == "" {
      assert n * Pow(10, 0) == n;
    } else {
      LastDigitCounts(IntegerPart(s) + f);
      MulPositive(Value(10, IntegerPart(s) + f), Pow(10, k));
      ZeroTimes(Pow(10, |f|));
      CutShifted(n, |f|);
    }
  }

  lemma {:induction false} ZeroTimes(x: nat)
    ensures 0 * x == 0
  {}

  /** r is the text of the number that the decimal text s stands for, in wei. */
  ghost predicate IsProduct(s: string, k: nat, r: string) {
    var f := FractionPart(s);
    exists p: nat :: r == Text(10, p) && p * Pow(10, |f|) == Value(10, IntegerPart(s) + f) * Pow(10, k)
  }

  /**
   * When `toWei` gives the product: exactly when the fraction has no more digits than the unit has zeros and
   * the number is not a zero written with a fraction, or it is a zero in wei. (`0.0` ether gives the empty
   * text; `1.2345` kwei gives 12345.)
   */
  lemma {:induction false} ToWeiIsProduct(s: string, unit: string)
    requires Decimal(s)
    ensures ToWei(s, unit).Ok? <==> unit in UnitZeros()
    ensures unit in UnitZeros() ==>
              var k, f, v := UnitZeros()[unit], FractionPart(s), Value(10, IntegerPart(s) + FractionPart(s));
              IsProduct(s, k, ToWei(s, unit).value) <==> (|f| <= k && (v > 0 || f == "")) || (v == 0 && k == 0)
  {
    if unit in UnitZeros() { ScaledIsProduct(s, unit); }
  }

  lemma {:induction false} ScaledIsProduct(s: string, unit: string)
    requires Decimal(s) && unit in UnitZeros()
    ensures var k, f, v := UnitZeros()[unit], FractionPart(s), Value(10, IntegerPart(s) + FractionPart(s));
            && ToWei(s, unit).Ok?
            && (IsProduct(s, k, ToWei(s, unit).value) <==> (|f| <= k && (v > 0 || f == "")) || (v == 0 && k == 0))
  {
    var k, f, v := UnitZeros()[unit], FractionPart(s), Value(10, IntegerPart(s) + FractionPart(s));
    hide UnitZeros, ShiftUp, NumberOfZeros, IsProduct, Value;
    ZerosOfPow(k);
    if v == 0 {
      ZeroShiftUp(s, k);
    } else if |f| <= k {
      ShortFraction(s, k);
    } else {
      LongFraction(s, k);
    }
  }

  /** A zero with a fraction gives the empty text, except in wei. */
  lemma {:induction false} ZeroShiftUp(s: string, k: nat)
    requires Decimal(s) && Value(10, IntegerPart(s) + FractionPart(s)) == 0
    ensures ShiftUp(s, Pow(10, k)) == if FractionPart(s) == "" || k == 0 then "0" else ""
    ensures IsProduct(s, k, ShiftUp(s, Pow(10, k))) <==> FractionPart(s) == "" || k == 0
  {
    hide Value;
    var f, r := FractionPart(s), ShiftUp(s, Pow(10, k));
    ZerosOfPow(k);
    ZeroTimes(Pow(10, k));
    ZeroTimes(Pow(10, |f|));
    assert Text(10, 0) == "0";
    if Min(|f|, k) == 0 {
      assert r == Text(10, 0) && 0 * Pow(10, |f|) == Value(10, IntegerPart(s) + f) * Pow(10, k);
    } else {
      assert r == "";
    }
  }

  /** Exactly the zeros with a fraction, in any unit but wei, are converted to the empty text. */
  lemma {:induction false} EmptyWei(s: string, unit: string)
    requires Decimal(s)
    ensures ToWei(s, unit) == Ok("") <==>
      && unit in UnitZeros() && UnitZeros()[unit] > 0
      && FractionPart(s) != "" && Value(10, IntegerPart(s) + FractionPart(s)) == 0
  {
    hide UnitZeros, ShiftUp, NumberOfZeros, IsProduct, Value;
    if unit in UnitZeros() {
      var k := UnitZeros()[unit];
      ZerosOfPow(k);
      if Value(10, IntegerPart(s) + FractionPart(s)) == 0 {
        ZeroShiftUp(s, k);
      } else if |FractionPart(s)| <= k {
        ShortFraction(s, k);
        ProductIsText(s, k, ShiftUp(s, Pow(10, k)));
      } else {
        LongFraction(s, k);
      }
    }
  }

  lemma {:induction false} ProductIsText(s: string, k: nat, r: string)
    requires IsProduct(s, k, r)
    ensures r != ""
  {}

  lemma {:induction false} ShortFraction(s: string, k: nat)
    requires Decimal(s) && Value(10, IntegerPart(s) + FractionPart(s)) > 0 && |FractionPart(s)| <= k
    ensures IsProduct(s, k, ShiftUp(s, Pow(10, k)))
  {
    hide Text, Value, PadStart;
    var f, v := FractionPart(s), Value(10, IntegerPart(s) + FractionPart(s));
    var p := v * Pow(10, k - |f|);
    ZerosOfPow(k);
    PowSum(10, k - |f|, |f|);
    Product(v, Pow(10, k - |f|), Pow(10, |f|), p);
    MulPositive(v, Pow(10, k - |f|));
    if f == "" { assert p * Pow(10, 0) == p; } else { CutShifted(p, |f|); }
    assert ShiftUp(s, Pow(10, k)) == Text(10, p);
  }

  lemma {:induction false} LongFraction(s: string, k: nat)
    requires Decimal(s) && Value(10, IntegerPart(s) + FractionPart(s)) > 0 && |FractionPart(s)| > k
    ensures ShiftUp(s, Pow(10, k)) == Text(10, Value(10, IntegerPart(s) + FractionPart(s)))
    ensures !IsProduct(s, k, ShiftUp(s, Pow(10, k)))
  {
    hide Text, Value, PadStart;
    var f, v := FractionPart(s), Value(10, IntegerPart(s) + FractionPart(s));
    var r := ShiftUp(s, Pow(10, k));
    ZerosOfPow(k);
    if k == 0 { assert v * Pow(10, 0) == v; } else { CutShifted(v, k); }
    assert r == Text(10, v);
    ValueOfText(10, v);
    PowSum(10, k, |f| - k);
    PowMonotone(10, 1, |f| - k);
    assert Pow(10, 1) == 10 * Pow(10, 0);
    TooBig(v, Pow(10, k), Pow(10, |f| - k));
    forall p: nat ensures !(r == Text(10, p) && p * Pow(10, |f|) == v * Pow(10, k)) {
      ValueOfText(10, p);
    }
  }

  lemma {:induction false} TooBig(v: nat, x: nat, y: nat)
    requires v > 0 && x > 0 && y >= 10
    ensures v * (x * y) != v * x
  {
    MulPositive(v, x);
    assert v * (x * y) == (v * x) * y;
    MulMonotone(10, y, v * x);
  }
}
