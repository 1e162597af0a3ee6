/** `parseInt(s, 10)` on any text. */
module Parsing {
  import opened Wrappers
  import opened Strings
  import opened Numerals

  /** The number of leading digits. */
  function DigitRun(s: string): (n: nat)
    ensures n <= |s| && Numeral(10, s[..n]) && (n < |s| ==> DigitValue(s[n]) >= 10)
  {
    if s == "" || DigitValue(s[0]) >= 10 then 0
    else
      var n := DigitRun(s[1..]);
      assert s[..n + 1] == [s[0]] + s[1..][..n];
      n + 1
  }

  function SkipSpace(s: string): string {
    if s == "" || !IsSpace(s[0]) then s else SkipSpace(s[1..])
  }

  function Unsigned(s: string): Option<int> {
    if DigitRun(s) == 0 then None else Some(Value(10, s[..DigitRun(s)]))
  }

  /** Leading space, a sign, then as many digits as follow; None is NaN. */
  function ParseInt(s: string): Option<int> {
    var t := SkipSpace(s);
    if t == "" || t[0] !in {'+', '-'} then Unsigned(t)
    else match Unsigned(t[1..])
      case Some(n) => Some(if t[0] == '-' then -n else n)
      case None => None
  }

  lemma {:induction false} DigitRunSpec(digits: string, rest: string)
    requires Numeral(10, digits) && (rest != "" ==> DigitValue(rest[0]) >= 10)
    ensures DigitRun(digits + rest) == |digits|
    decreases |digits|
  {
    var s := digits + rest;
    if digits == "" {
      assert s == rest;
    } else {
      assert s[1..] == digits[1..] + rest;
      DigitRunSpec(digits[1..], rest);
    }
  }

  lemma {:induction false} ParseOfDigits(d: string, rest: string)
    requires d != "" && Numeral(10, d) && (rest != "" ==> DigitValue(rest[0]) >= 10)
    ensures ParseInt(d + rest) == Some(Value(10, d))
  {
    var s := d + rest;
    assert s[0] == d[0] && DigitValue(d[0]) < 10;
    assert SkipSpace(s) == s;
    DigitRunSpec(d, rest);
    hide DigitRun, Value;
    assert s[..|d|] == d;
  }

  /** A text that starts with neither digit, space nor sign is not a number. */
  lemma {:induction false} ParseOfSymbol(s: string)
    requires s != "" && DigitValue(s[0]) >= 10 && !IsSpace(s[0]) && s[0] !in {'+', '-'}
    ensures ParseInt(s) == None
  {
    assert SkipSpace(s) == s;
  }

  /** The text behind leading space and a sign. */
  function Figures(s: string): string {
    var t := SkipSpace(s);
    if t != "" && t[0] in {'+', '-'} then t[1..] else t
  }

  /** A text is a number exactly if a digit follows leading space and a sign. */
  lemma {:induction false} ParseSpec(s: string)
    ensures ParseInt(s).Some? <==> Figures(s) != "" && DigitValue(Figures(s)[0]) < 10
    ensures ParseInt(s).Some? && SkipSpace(s)[0] != '-' ==> ParseInt(s).value >= 0
    ensures s != "" && DigitValue(s[0]) < 10 ==> SkipSpace(s) == s && ParseInt(s).Some? && ParseInt(s).value >= 0
  {
    hide Value, DigitValue;
    assert Figures(s) != "" ==> (DigitRun(Figures(s)) == 0 <==> DigitValue(Figures(s)[0]) >= 10);
    if s != "" { NoSignIsDigit(s); }
  }

  lemma {:induction false} NoSignIsDigit(s: string)
    requires s != ""
    ensures DigitValue(s[0]) < 10 ==> !IsSpace(s[0]) && s[0] !in {'+', '-'}
  {}

  lemma {:induction false} ParseOfNegative(digits: string)
    requires digits != "" && Numeral(10, digits)
    ensures ParseInt("-" + digits) == Some(-(Value(10, digits) as int))
  {
    var s := "-" + digits;
    assert SkipSpace(s) == s && s[1..] == digits;
    DigitRunSpec(digits, "");
    assert digits + "" == digits && digits[..|digits|] == digits;
  }
}
