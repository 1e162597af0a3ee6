/** Numbers written in base 2 to 36, as parseInt reads them and toString prints them. */
module Numerals {

  function Pow(b: nat, e: nat): (r: nat)
    ensures b > 0 ==> r > 0
  {
    if e == 0 then 1 else
      assert b > 0 ==> b * Pow(b, e - 1) > 0 by { if b > 0 { MulPositive(b, Pow(b, e - 1)); } }
      b * Pow(b, e - 1)
  }

  lemma {:induction false} MulPositive(x: nat, y: nat)
    requires x > 0 && y > 0
    ensures x * y > 0
  {}

  /** The value of a digit or letter; 36 for anything else. */
  function DigitValue(c: char): (d: nat)
    ensures d <= 36
  {
    if '0' <= c <= '9' then c as int - '0' as int
    else if 'a' <= c <= 'z' then c as int - 'a' as int + 10
    else if 'A' <= c <= 'Z' then c as int - 'A' as int + 10
    else 36
  }

  function DigitChar(d: nat): (c: char)
    requires d < 36
    ensures DigitValue(c) == d && Lower(c) == c
  {
    if d < 10 then ('0' as int + d) as char else ('a' as int + d - 10) as char
  }

  function Lower(c: char): char {
    if 'A' <= c <= 'Z' then (c as int + 32) as char else c
  }

  function Upper(c: char): char {
    if 'a' <= c <= 'z' then (c as int - 32) as char else c
  }

  /** The digits in their order; nothing else is a digit. */
  lemma {:induction false} DigitsInOrder(c: char)
    ensures DigitValue('0') == 0 && DigitValue('a') == DigitValue('A') == 10
    ensures '0' < c <= '9' || 'a' < c <= 'z' || 'A' < c <= 'Z' ==>
              DigitValue(c) == DigitValue((c as int - 1) as char) + 1
    ensures DigitValue(c) == 36 <==> !('0' <= c <= '9') && !('a' <= c <= 'z') && !('A' <= c <= 'Z')
  {}

  predicate Numeral(b: nat, s: string) {
    forall i :: 0 <= i < |s| ==> DigitValue(s[i]) < b
  }

  predicate LowerCase(s: string) {
    forall i :: 0 <= i < |s| ==> Lower(s[i]) == s[i]
  }

  /** The value of a digit string, by Horner's rule. */
  function Value(b: nat, s: string): nat
  {
    if s == "" then 0 else Value(b, s[..|s| - 1]) * b + DigitValue(s[|s| - 1])
  }

  /** `n.toString(b)`: no leading zeros. */
  function Text(b: nat, n: nat): (s: string)
    requires 2 <= b <= 36
    ensures |s| > 0
    decreases n
  {
    if n < b then [DigitChar(n)]
    else
      DivSmaller(n, b);
      Text(b, n / b) + [DigitChar(n % b)]
  }

  lemma {:induction false} DivSmaller(n: nat, b: nat)
    requires 2 <= b <= n
    ensures n / b < n
  {
    assert n == (n / b) * b + n % b;
    assert (n / b) * b >= (n / b) * 2 by { MulMonotone(2, b, n / b); }
  }

  lemma {:induction false} MulMonotone(x: nat, y: nat, z: nat)
    requires x <= y
    ensures z * x <= z * y && x * z <= y * z
  {
    if z > 0 { MulMonotone(x, y, z - 1); assert z * x == (z - 1) * x + x && z * y == (z - 1) * y + y; }
  }

  function Zeros(k: nat): (s: string)
    ensures |s| == k && forall i :: 0 <= i < k ==> s[i] == '0'
  {
    if k == 0 then "" else Zeros(k - 1) + "0"
  }

  /** `s.padStart(k, '0')` */
  function PadStart(s: string, k: nat): (r: string)
    ensures |r| == if |s| >= k then |s| else k
  {
    if |s| >= k then s else Zeros(k - |s|) + s
  }

  lemma {:induction false} ValueOfText(b: nat, n: nat)
    requires 2 <= b <= 36
    ensures Value(b, Text(b, n)) == n && Numeral(b, Text(b, n)) && LowerCase(Text(b, n))
    decreases n
  {
    hide DigitValue, Lower, Text, Value;
    TextStep(b, n);
    if n < b {
      ValueOfDigit(b, DigitChar(n));
    } else {
      DivSmaller(n, b);
      var m := n / b;
      ValueOfText(b, m);
      ValueSnoc(b, Text(b, m), DigitChar(n % b));
      assert n == m * b + n % b;
    }
  }

  lemma {:induction false} TextStep(b: nat, n: nat)
    requires 2 <= b <= 36
    ensures n < b ==> Text(b, n) == [DigitChar(n)]
    ensures n >= b ==> Text(b, n) == Text(b, n / b) + [DigitChar(n % b)]
  {}

  lemma {:induction false} ValueSnoc(b: nat, t: string, c: char)
    ensures Value(b, t + [c]) == Value(b, t) * b + DigitValue(c)
  {
    assert (t + [c])[..|t|] == t;
  }

  lemma {:induction false} ValueOfDigit(b: nat, c: char)
    ensures Value(b, [c]) == DigitValue(c)
  {
    assert [c][..0] == "";
    assert Value(b, "") * b == 0;
  }

  lemma {:induction false} TwoDigitValue(b: nat, d: string)
    requires |d| == 2
    ensures Value(b, d) == DigitValue(d[0]) * b + DigitValue(d[1])
  {
    assert d[..1] == [d[0]];
    ValueOfDigit(b, d[0]);
  }

  /** No leading zero, except for zero itself. */
  lemma {:induction false} TextIsCanonical(b: nat, n: nat)
    requires 2 <= b <= 36
    ensures n > 0 ==> Text(b, n)[0] != '0'
    decreases n
  {
    if n >= b {
      DivSmaller(n, b);
      assert n == (n / b) * b + n % b;
      assert n / b > 0;
      TextIsCanonical(b, n / b);
    }
  }

  lemma {:induction false} ValueAppend(b: nat, s: string, t: string)
    ensures Value(b, s + t) == Value(b, s) * Pow(b, |t|) + Value(b, t)
    decreases |t|
  {
    if t == "" {
      assert s + t == s;
    } else {
      var t' := t[..|t| - 1];
      var d := DigitValue(t[|t| - 1]);
      assert (s + t)[..|s + t| - 1] == s + t';
      ValueAppend(b, s, t');
      var x, p, y := Value(b, s), Pow(b, |t'|), Value(b, t');
      Horner(x, p, y, b, d);
    }
  }

  lemma {:induction false} Horner(x: nat, p: nat, y: nat, b: nat, d: nat)
    ensures (x * p + y) * b + d == x * (b * p) + (y * b + d)
  {
    assert (x * p + y) * b == (x * p) * b + y * b;
    assert (x * p) * b == x * (p * b);
    assert p * b == b * p;
  }

  lemma {:induction false} ValueOfZeros(b: nat, k: nat)
    ensures Value(b, Zeros(k)) == 0
  {
    if k > 0 {
      var s := Zeros(k);
      assert s[..k - 1] == Zeros(k - 1);
      ValueOfZeros(b, k - 1);
      assert 0 * b == 0;
    }
  }

  lemma {:induction false} ValueOfPadded(b: nat, s: string, k: nat)
    ensures Value(b, PadStart(s, k)) == Value(b, s)
  {
    if |s| < k {
      ValueAppend(b, Zeros(k - |s|), s);
      ValueOfZeros(b, k - |s|);
      assert 0 * Pow(b, |s|) == 0;
    }
  }

  lemma {:induction false} ValueBelow(b: nat, s: string)
    requires b > 0 && Numeral(b, s)
    ensures Value(b, s) < Pow(b, |s|)
    decreases |s|
  {
    hide DigitValue;
    if s != "" {
      var t, d := s[..|s| - 1], DigitValue(s[|s| - 1]);
      ValueBelow(b, t);
      StepBelow(b, Value(b, t), Pow(b, |t|), d);
    }
  }

  lemma {:induction false} StepBelow(b: nat, v: nat, p: nat, d: nat)
    requires v < p && d < b
    ensures v * b + d < b * p
  {
    MulMonotone(v + 1, p, b);
    assert (v + 1) * b == v * b + b;
  }

  lemma {:induction false} ValueAtLeast(b: nat, s: string)
    requires b > 0 && s != "" && DigitValue(s[0]) > 0
    ensures Value(b, s) >= Pow(b, |s| - 1)
    decreases |s|
  {
    if |s| == 1 {
      assert s[..0] == "";
      assert Value(b, "") * b == 0;
    } else {
      var t := s[..|s| - 1];
      assert t[0] == s[0];
      ValueAtLeast(b, t);
      MulMonotone(Pow(b, |t| - 1), Value(b, t), b);
    }
  }

  lemma {:induction false} PowSum(b: nat, x: nat, y: nat)
    ensures Pow(b, x + y) == Pow(b, x) * Pow(b, y)
    decreases y
  {
    if y > 0 {
      PowSum(b, x, y - 1);
      assert b * (Pow(b, x) * Pow(b, y - 1)) == Pow(b, x) * (b * Pow(b, y - 1));
    }
  }

  lemma {:induction false} PowMonotone(b: nat, x: nat, y: nat)
    requires b > 0 && x <= y
    ensures Pow(b, x) <= Pow(b, y)
    decreases y
  {
    if x < y {
      PowMonotone(b, x, y - 1);
      MulMonotone(1, b, Pow(b, y - 1));
    }
  }

  /** The number of digits of n is the place of n among the powers of the base. */
  lemma {:induction false} TextLength(b: nat, n: nat, k: nat)
    requires 2 <= b <= 36 && k > 0
    ensures |Text(b, n)| <= k <==> n < Pow(b, k)
  {
    var s := Text(b, n);
    ValueOfText(b, n);
    ValueBelow(b, s);
    if |s| <= k {
      PowMonotone(b, |s|, k);
    } else {
      TextIsCanonical(b, n);
      NonZeroDigit(s[0]);
      ValueAtLeast(b, s);
      PowMonotone(b, k, |s| - 1);
    }
  }

  lemma {:induction false} NonZeroDigit(c: char)
    requires c != '0'
    ensures DigitValue(c) > 0
  {}

  /** Two lower-case numerals of one length with one value are the same text. */
  lemma {:induction false} SameLengthSameText(b: nat, s: string, t: string)
    requires 0 < b <= 36 && Numeral(b, s) && Numeral(b, t) && LowerCase(s) && LowerCase(t)
    requires |s| == |t| && Value(b, s) == Value(b, t)
    ensures s == t
    decreases |s|
  {
    if s != "" {
      var s', t' := s[..|s| - 1], t[..|t| - 1];
      var c, d := s[|s| - 1], t[|t| - 1];
      LastDigit(Value(b, s'), DigitValue(c), Value(b, t'), DigitValue(d), b);
      SameDigit(c, d);
      hide DigitValue, Lower;
      SameLengthSameText(b, s', t');
      assert s == s' + [c] && t == t' + [d];
    }
  }

  lemma {:induction false} SameDigit(c: char, d: char)
    ensures DigitValue(c) == DigitValue(d) < 36 && Lower(c) == c && Lower(d) == d ==> c == d
  {}

  lemma {:induction false} LastDigit(x: nat, c: nat, y: nat, d: nat, b: nat)
    requires c < b && d < b && x * b + c == y * b + d
    ensures x == y && c == d
  {
    assert (x + 1) * b == x * b + b && (y + 1) * b == y * b + b;
    if x < y {
      MulMonotone(x + 1, y, b);
    } else if y < x {
      MulMonotone(y + 1, x, b);
    }
  }

  /** Printing the value of a text that starts with no zero gives the text. */
  lemma {:induction false} TextOfValue(b: nat, s: string)
    requires 2 <= b <= 36 && s != "" && Numeral(b, s) && LowerCase(s) && s[0] != '0'
    ensures Text(b, Value(b, s)) == s
  {
    var n := Value(b, s);
    NonZeroDigit(s[0]);
    ValueAtLeast(b, s);
    ValueBelow(b, s);
    TextLength(b, n, |s|);
    if |s| > 1 { TextLength(b, n, |s| - 1); }
    ValueOfText(b, n);
    SameLengthSameText(b, Text(b, n), s);
  }

  /** Printing the value of a text at its own width gives the text back. */
  lemma {:induction false} PaddedTextOfValue(b: nat, s: string)
    requires 2 <= b <= 36 && s != "" && Numeral(b, s) && LowerCase(s)
    ensures PadStart(Text(b, Value(b, s)), |s|) == s
  {
    var n := Value(b, s);
    ValueBelow(b, s);
    TextLength(b, n, |s|);
    ValueOfText(b, n);
    var r := PadStart(Text(b, n), |s|);
    ValueOfPadded(b, Text(b, n), |s|);
    PaddedNumeral(b, Text(b, n), |s|);
    SameLengthSameText(b, r, s);
  }

  lemma {:induction false} PaddedNumeral(b: nat, s: string, k: nat)
    requires b > 0 && Numeral(b, s) && LowerCase(s)
    ensures Numeral(b, PadStart(s, k)) && LowerCase(PadStart(s, k))
  {}
}
