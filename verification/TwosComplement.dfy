/** Two's complement hex texts of a given nibble width. */
module TwosComplement {
  import opened Wrappers
  import opened Numerals
  import opened HexText

  datatype Error = NotAnInt | NibbleWidth

  /** The validator's `int`: from -2^255 up to and including 2^255. */
  predicate IsInt(v: int) {
    -IntLimit() <= v <= IntLimit()
  }

  function IntLimit(): int {
    Pow(2, 255)
  }

  /** The base is multiplied in at least once, so the power 0 gives the base, too. */
  method BigintPower(base: nat, expo: nat) returns (res: nat)
    ensures res == if expo == 0 then base else Pow(base, expo)
  {
    res := base;
    var index := 1;
    assert Pow(base, 1) == base * Pow(base, 0) == base;
    while index < expo
      invariant index >= 1 && (expo > 0 ==> index <= expo)
      invariant res == Pow(base, index) && (expo == 0 ==> res == base)
    {
      assert Pow(base, index + 1) == base * Pow(base, index) == Pow(base, index) * base;
      res := res * base;
      index := index + 1;
    }
  }

  function ToTwosComplement(v: int, nibbleWidth: nat): Result<string, Error>
    requires nibbleWidth > 0
  {
    if !IsInt(v) then Err(NotAnInt)
    else if v >= 0 then Ok(PadNumber(v, nibbleWidth))
    else
      var largestBit := Pow(2, nibbleWidth * 4);
      if -v >= largestBit then Err(NibbleWidth) else Ok(PadNumber(v + largestBit, nibbleWidth))
  }

  /** `padLeft(numberToHex(n), width)` */
  function PadNumber(n: int, width: nat): string
    requires n >= 0
  {
    PaddedForm(n, width);
    PadLeft(NumberToHex(n), width)
  }

  lemma {:induction false} PaddedForm(n: nat, width: nat)
    ensures IsHexStrict(NumberToHex(n))
    ensures PadLeft(NumberToHex(n), width) == "0x" + PadStart(Text(16, n), width)
    ensures HexToNumber(PadLeft(NumberToHex(n), width)) == Some(n)
  {
    ValueOfText(16, n);
    StrictForm(false, Text(16, n));
    NumberRoundTrip(n);
    PaddingKeepsTheNumber(NumberToHex(n), width);
  }

  /** `Math.ceil(Math.log(n) / Math.log(2))`, read as the exact logarithm; 0 for n = 0. */
  function CeilLog2(n: nat): nat {
    if n <= 1 then 0 else 1 + CeilLog2((n + 1) / 2)
  }

  function FromTwosComplement(value: string, nibbleWidth: nat): Result<int, Error>
    requires nibbleWidth > 0
  {
    match HexToNumber(value)
    case None => Err(NotAnInt)
    case Some(val) =>
      if !IsInt(val) then Err(NotAnInt)
      else if val < 0 then Ok(val)
      else
        var largestBit := CeilLog2(val);
        if largestBit > nibbleWidth * 4 then Err(NibbleWidth)
        else if nibbleWidth * 4 != largestBit then Ok(val)
        else Ok(val - Pow(2, nibbleWidth * 4))
  }

  lemma {:induction false} LogSpec(n: nat)
    ensures n <= Pow(2, CeilLog2(n)) && (CeilLog2(n) > 0 ==> Pow(2, CeilLog2(n) - 1) < n)
  {
    if n > 1 {
      var m := (n + 1) / 2;
      LogSpec(m);
      var k := CeilLog2(m);
      assert Pow(2, k + 1) == 2 * Pow(2, k);
      if k > 0 {
        assert Pow(2, k) == 2 * Pow(2, k - 1);
      } else {
        assert Pow(2, 0) == 1;
      }
    }
  }

  /** The logarithm is k > 0 exactly in the upper half of the numbers up to 2^k. */
  lemma {:induction false} LogIs(n: nat, k: nat)
    requires k > 0
    ensures CeilLog2(n) == k <==> Pow(2, k - 1) < n <= Pow(2, k)
    ensures CeilLog2(n) > k <==> n > Pow(2, k)
  {
    LogSpec(n);
    var c := CeilLog2(n);
    if c < k { PowMonotone(2, c, k - 1); PowMonotone(2, k - 1, k); }
    if c > k { PowMonotone(2, k, c - 1); PowMonotone(2, k - 1, k); }
  }

  lemma {:induction false} NibblePower(w: nat)
    ensures Pow(2, w * 4) == Pow(16, w)
  {
    if w > 0 {
      NibblePower(w - 1);
      var e := (w - 1) * 4;
      assert w * 4 == e + 4;
      assert Pow(2, e + 1) == 2 * Pow(2, e);
      assert Pow(2, e + 2) == 2 * Pow(2, e + 1);
      assert Pow(2, e + 3) == 2 * Pow(2, e + 2);
      assert Pow(2, e + 4) == 2 * Pow(2, e + 3);
    }
  }

  /** What a text of width w reads as a number: v itself, or v plus 2^(4w) for a negative v. */
  function Wrapped(v: int, w: nat): int {
    if v >= 0 then v else v + Pow(2, w * 4)
  }

  /**
   * Only what is no `int`, or minus 2^(4w) or less, is refused. The text stands for v modulo 2^(4w); it has exactly w
   * digits unless v is 2^(4w) or more: that is printed too wide, without an error.
   */
  lemma {:induction false} TextSpec(v: int, w: nat)
    requires w > 0
    ensures var r, size := ToTwosComplement(v, w), Pow(2, w * 4);
            && (r.Ok? <==> IsInt(v) && v > -(size as int))
            && (r.Ok? ==>
                  && |r.value| >= 2 + w && r.value[..2] == "0x" && (|r.value| == 2 + w <==> v < size)
                  && HexToNumber(r.value) == Some(Wrapped(v, w)) && 0 <= Wrapped(v, w)
                  && (Wrapped(v, w) < size <==> v < size))
  {
    hide Pow, IntLimit, HexToNumber, PadLeft, NumberToHex, Text;
    if ToTwosComplement(v, w).Ok? {
      var n: nat := Wrapped(v, w);
      PaddedForm(n, w);
      NibblePower(w);
      TextLength(16, n, w);
    }
  }

  /**
   * The round trip, exactly: an `int` comes back just when it is at most half the range, and, if negative,
   * greater than minus half the range and the width is at most 63 nibbles.
   */
  lemma {:induction false} RoundTrip(v: int, w: nat)
    requires w > 0
    ensures var r, half := ToTwosComplement(v, w), Pow(2, w * 4 - 1);
            r.Ok? && FromTwosComplement(r.value, w) == Ok(v) <==>
              IsInt(v) && (0 <= v <= half || (-(half as int) < v < 0 && w <= 63))
  {
    hide CeilLog2, Pow, HexToNumber, ToTwosComplement, FromTwosComplement, IntLimit;
    TextSpec(v, w);
    var r, k := ToTwosComplement(v, w), w * 4;
    PowStep(k - 1);
    Limits(k);
    if r.Ok? {
      ReadBack(r.value, Wrapped(v, w), w);
      RangeCases(v, Pow(2, k - 1), IntLimit(), w <= 63);
    }
  }

  /**
   * From 64 nibbles on, the default width, the text of a negative number is no `int` for the way back; only the
   * least number is read, as its opposite.
   */
  lemma {:induction false} WideNegative(v: int, w: nat)
    requires w >= 64 && IsInt(v) && v < 0
    ensures var r := ToTwosComplement(v, w);
            r.Ok? && FromTwosComplement(r.value, w) ==
              if w == 64 && v == -IntLimit() then Ok(IntLimit()) else Err(NotAnInt)
  {
    hide CeilLog2, Pow, HexToNumber, ToTwosComplement, FromTwosComplement, IntLimit;
    var k := w * 4;
    WideLimits(k);
    TextSpec(v, w);
    ReadBack(ToTwosComplement(v, w).value, Wrapped(v, w), w);
  }

  lemma {:induction false} WideLimits(k: nat)
    requires k >= 256
    ensures IntLimit() > 0 && Pow(2, k) == 2 * Pow(2, k - 1)
    ensures k == 256 ==> Pow(2, k - 1) == IntLimit()
    ensures k > 256 ==> Pow(2, k - 1) >= 2 * IntLimit()
  {
    PowStep(k - 1);
    PowStep(255);
    hide Pow;
    if k > 256 { PowMonotone(2, 256, k - 1); }
  }

  /** The cases of the way back, as arithmetic: `half` is half the range, `limit` the bound of an `int`. */
  lemma {:induction false} RangeCases(v: int, half: int, limit: int, narrow: bool)
    requires half > 0 && -limit <= v <= limit && -2 * half < v
    requires if narrow then 2 * half <= limit else half >= limit
    ensures var n: int := if v >= 0 then v else v + 2 * half;
            var back: int := if n > half then n - 2 * half else n;
            n <= limit && n <= 2 * half && back == v <==> 0 <= v <= half || (-half < v < 0 && narrow)
  {}

  /** The way back of a non-negative number: the upper half of the range is read as negative. */
  lemma {:induction false} ReadBack(text: string, n: nat, w: nat)
    requires w > 0 && HexToNumber(text) == Some(n)
    ensures FromTwosComplement(text, w) ==
            if !IsInt(n) then Err(NotAnInt)
            else if n > Pow(2, w * 4) then Err(NibbleWidth)
            else if n > Pow(2, w * 4 - 1) then Ok(n - Pow(2, w * 4))
            else Ok(n)
  {
    hide CeilLog2, Pow, HexToNumber, IntLimit;
    LogIs(n, w * 4);
  }

  /** A hex text with a minus is read as the number it spells, at any width. */
  lemma {:induction false} SignedTextBack(v: int, w: nat)
    requires w > 0 && v < 0
    ensures FromTwosComplement(NumberToHex(v), w) == if IsInt(v) then Ok(v) else Err(NotAnInt)
  {
    NumberRoundTrip(v);
    hide NumberToHex, HexToNumber, IntLimit, CeilLog2, Pow;
  }

  /** 63 nibbles stay below 2^255; from 64 on, half the range is at least that. */
  lemma {:induction false} Limits(k: nat)
    requires k > 0
    ensures k <= 252 ==> Pow(2, k) <= IntLimit()
    ensures k >= 256 ==> Pow(2, k - 1) >= IntLimit()
  {
    if k <= 252 { PowMonotone(2, k, 255); }
    if k >= 256 { PowMonotone(2, 255, k - 1); }
  }

  lemma {:induction false} PowStep(e: nat)
    ensures Pow(2, e + 1) == 2 * Pow(2, e)
  {}
}
