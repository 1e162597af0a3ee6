/** The MOD 97-10 loop: a text is shortened from the front, nine characters at a time. */
module Mod97 {
  import opened Wrappers
  import opened Strings
  import opened Numerals
  import opened Parsing

  lemma {:induction false} SmallPowers()
    ensures Pow(10, 0) == 1 && Pow(10, 1) == 10 && Pow(10, 2) == 100
  {
    assert Pow(10, 1) == 10 * Pow(10, 0);
    assert Pow(10, 2) == 10 * Pow(10, 1);
  }

  lemma {:induction false} ModStep(a: nat, p: nat, c: nat)
    ensures ((a % 97) * p + c) % 97 == (a * p + c) % 97
  {
    var k := a / 97;
    assert a == 97 * k + a % 97;
    assert a * p == (a % 97) * p + 97 * (k * p) by { Distribute(97 * k, a % 97, p); Regroup(k, p); }
    AddMultiple((a % 97) * p + c, k * p);
  }

  lemma {:induction false} Distribute(x: nat, y: nat, p: nat)
    ensures (x + y) * p == x * p + y * p
  {}

  lemma {:induction false} Regroup(k: nat, p: nat)
    ensures (97 * k) * p == 97 * (k * p)
  {}

  lemma {:induction false} AddMultiple(x: nat, n: nat)
    ensures (x + 97 * n) % 97 == x % 97
  {}

  /** Replacing a leading block by its remainder keeps the remainder of the whole. */
  lemma {:induction false} BlockStep(block: string, rest: string)
    requires Numeral(10, block) && Numeral(10, rest)
    ensures var head := Text(10, Value(10, block) % 97);
            && Numeral(10, head + rest) && |head| <= 2
            && Value(10, head + rest) % 97 == Value(10, block + rest) % 97
  {
    var v := Value(10, block);
    ValueOfText(10, v % 97);
    SmallPowers();
    TextLength(10, v % 97, 2);
    ValueAppend(10, Text(10, v % 97), rest);
    ValueAppend(10, block, rest);
    ModStep(v, Pow(10, |rest|), Value(10, rest));
  }

  // The loop, on any text.

  function TextOfInt(n: int): string {
    if n < 0 then "-" + Text(10, -n) else Text(10, n)
  }

  /** JavaScript's `n % 97`, with the sign of n. */
  function Truncated(n: int): int {
    if n < 0 then -((-n) % 97) else n % 97
  }

  function Block(s: string): string {
    s[..if |s| < 9 then |s| else 9]
  }

  /** One round of the loop: the first nine characters, as a number modulo 97, go before the rest. */
  function NextRemainder(s: string): string {
    (match ParseInt(Block(s))
     case None => "NaN"
     case Some(n) => TextOfInt(Truncated(n))) + s[|Block(s)|..]
  }

  /** The text after n rounds, or after the last one. */
  function Rounds(s: string, n: nat): string
    decreases n
  {
    if n == 0 || |s| <= 2 then s else Rounds(NextRemainder(s), n - 1)
  }

  ghost predicate Ends(s: string) {
    exists n: nat :: |Rounds(s, n)| <= 2
  }

  /**
   * When the loop ends. A block that is no number never goes away; a number that is not negative, or that is a
   * multiple of 97, leaves digits in front; a negative one keeps its sign, and two digits behind a sign are too many.
   */
  predicate LoopEnds(s: string)
    decreases |s|
  {
    || |s| <= 2
    || match ParseInt(Block(s))
       case None => false
       case Some(n) =>
         || n >= 0
         || Truncated(n) == 0
         || if |s| <= 9 then Truncated(n) > -10
            else
              RemainderText(n);
              LoopEnds(NextRemainder(s))
  }

  /** The remainder is one or two digits, behind a sign if it is negative. */
  lemma {:induction false} RemainderText(n: int)
    ensures var r, t := Truncated(n), TextOfInt(Truncated(n));
      && -97 < r < 97 && (n >= 0 ==> r >= 0)
      && (r >= 0 ==> 0 < |t| <= 2 && Numeral(10, t) && Value(10, t) == r)
      && (r < 0 ==> t == "-" + t[1..] && t[1..] == Text(10, -r) && Numeral(10, t[1..]) && Value(10, t[1..]) == -r)
      && (-10 < r < 0 ==> |t| == 2) && (r <= -10 ==> |t| == 3)
  {
    var r := Truncated(n);
    var m: nat := if r < 0 then -r else r;
    SmallPowers();
    ValueOfText(10, m);
    TextLength(10, m, 1);
    TextLength(10, m, 2);
  }

  lemma {:induction false} Unroll(s: string)
    requires |s| > 2
    ensures Ends(s) <==> Ends(NextRemainder(s))
  {
    if Ends(s) {
      var n: nat :| |Rounds(s, n)| <= 2;
      assert |Rounds(NextRemainder(s), n - 1)| <= 2;
    }
    if Ends(NextRemainder(s)) {
      var n: nat :| |Rounds(NextRemainder(s), n)| <= 2;
      assert |Rounds(s, n + 1)| <= 2;
    }
  }

  lemma {:induction false} SymbolNeverEnds(s: string, n: nat)
    requires |s| > 2 && DigitValue(s[0]) >= 10 && !IsSpace(s[0]) && s[0] !in {'+', '-'}
    ensures |Rounds(s, n)| > 2
    decreases n
  {
    ParseOfSymbol(Block(s));
    assert NextRemainder(s) == "NaN" + s[|Block(s)|..];
    assert NextRemainder(s)[0] == 'N' && DigitValue('N') == 23;
    if n > 0 { SymbolNeverEnds(NextRemainder(s), n - 1); }
  }

  lemma {:induction false} DigitEnds(s: string, n: nat)
    requires s != "" && DigitValue(s[0]) < 10 && n >= |s|
    ensures |Rounds(s, n)| <= 2
    decreases |s|
  {
    if |s| > 2 {
      ParseSpec(Block(s));
      var v := ParseInt(Block(s)).value;
      RemainderText(v);
      var next := NextRemainder(s);
      assert next[0] == TextOfInt(Truncated(v))[0];
      DigitEnds(next, n - 1);
    }
  }

  lemma {:induction false} TwoDigitsBehindSign(v: int, n: nat)
    requires -97 < v <= -10
    ensures |Rounds(TextOfInt(v), n)| == 3
    decreases n
  {
    StuckRound(v);
    hide TextOfInt, NextRemainder;
    if n > 0 { TwoDigitsBehindSign(v, n - 1); }
  }

  lemma {:induction false} StuckRound(v: int)
    requires -97 < v <= -10
    ensures |TextOfInt(v)| == 3 && NextRemainder(TextOfInt(v)) == TextOfInt(v)
  {
    var s := TextOfInt(v);
    assert Truncated(v) == v;
    RemainderText(v);
    assert Block(s) == s && s[|s|..] == "" && s + "" == s;
    ParseOfNegative(Text(10, -v));
    hide ParseInt, Value, Text, Numeral, TextOfInt, Truncated;
  }

  /** The loop ends exactly if `LoopEnds` says so, and then within as many rounds as the text is long. */
  lemma {:induction false} LoopEndsExactly(s: string, n: nat)
    requires n >= |s|
    ensures Ends(s) <==> LoopEnds(s)
    ensures LoopEnds(s) ==> |Rounds(s, n)| <= 2
    decreases |s|
  {
    if |s| <= 2 {
      assert |Rounds(s, 0)| <= 2;
    } else {
      var next := NextRemainder(s);
      Unroll(s);
      match ParseInt(Block(s)) {
        case None =>
          assert next[0] == 'N' && DigitValue('N') == 23;
          forall k: nat ensures |Rounds(next, k)| > 2 { SymbolNeverEnds(next, k); }
        case Some(v) => NumberRound(s, v, n);
      }
    }
  }

  lemma {:induction false} NumberRound(s: string, v: int, n: nat)
    requires |s| > 2 && n >= |s| && ParseInt(Block(s)) == Some(v)
    ensures Ends(NextRemainder(s)) <==> LoopEnds(s)
    ensures LoopEnds(s) ==> |Rounds(s, n)| <= 2
    decreases |s|, 0
  {
    var next, r := NextRemainder(s), Truncated(v);
    RemainderText(v);
    NextLength(s, v);
    assert LoopEnds(s) <==> r >= 0 || if |s| <= 9 then r > -10 else LoopEnds(next);
    assert Rounds(s, n) == Rounds(next, n - 1);
    hide ParseInt, NextRemainder, Truncated, LoopEnds, Rounds;
    if r >= 0 {
      DigitEnds(next, n - 1);
    } else if |s| > 9 {
      LoopEndsExactly(next, n - 1);
    } else {
      LastRound(r, n - 1);
    }
  }

  lemma {:induction false} NextLength(s: string, v: int)
    requires |s| > 2 && ParseInt(Block(s)) == Some(v)
    ensures var next, t := NextRemainder(s), TextOfInt(Truncated(v));
      && t != "" && |next| == |t| + |s| - |Block(s)| && next[0] == t[0] && (|s| <= 9 ==> next == t)
  {
    RemainderText(v);
    hide ParseInt, Truncated;
    if |s| <= 9 { assert Block(s) == s && s[|s|..] == ""; }
  }

  /** A single block with a negative remainder. */
  lemma {:induction false} LastRound(r: int, n: nat)
    requires -97 < r < 0
    ensures Ends(TextOfInt(r)) <==> r > -10
    ensures r > -10 ==> |Rounds(TextOfInt(r), n)| <= 2
  {
    assert Truncated(r) == r;
    RemainderText(r);
    if r > -10 {
      assert |Rounds(TextOfInt(r), 0)| <= 2;
    } else {
      forall k: nat ensures |Rounds(TextOfInt(r), k)| > 2 { TwoDigitsBehindSign(r, k); }
    }
  }

  /** A text that starts with neither space nor sign ends the loop exactly if it starts with a digit. */
  lemma {:induction false} FirstCharacterDecides(s: string)
    requires |s| > 2 && !IsSpace(s[0]) && s[0] !in {'+', '-'}
    ensures Ends(s) <==> DigitValue(s[0]) < 10
  {
    if DigitValue(s[0]) < 10 {
      DigitEnds(s, |s|);
    } else {
      forall n: nat ensures |Rounds(s, n)| > 2 { SymbolNeverEnds(s, n); }
    }
  }

  /** With space or a sign in front the character behind them decides, unless the sign is a minus. */
  lemma {:induction false} FigureDecides(s: string)
    requires |s| > 2
    ensures var t, u := SkipSpace(Block(s)), Figures(Block(s));
      if u == "" || DigitValue(u[0]) >= 10 then !Ends(s) else t[0] != '-' ==> Ends(s)
  {
    ParseSpec(Block(s));
    LoopEndsExactly(s, |s|);
  }

  /**
   * Behind a minus, digits whose number is at most 9 modulo 97 always end the loop; if they fit in the first block
   * no others do.
   */
  lemma {:induction false} MinusDecides(digits: string)
    requires digits != "" && Numeral(10, digits)
    ensures Value(10, digits) % 97 <= 9 ==> Ends("-" + digits)
    ensures |digits| <= 8 ==> (Ends("-" + digits) <==> Value(10, digits) % 97 <= 9)
    decreases |digits|
  {
    if |digits| <= 8 {
      MinusShort(digits);
    } else {
      var v := Value(10, digits[..8]);
      MinusBlock(digits);
      if v % 97 > 0 {
        MinusDecides(Text(10, v % 97) + digits[8..]);
        Unroll("-" + digits);
      } else {
        LoopEndsExactly("-" + digits, |digits| + 1);
      }
    }
  }

  lemma {:induction false} MinusShort(digits: string)
    requires 0 < |digits| <= 8 && Numeral(10, digits)
    ensures Ends("-" + digits) <==> Value(10, digits) % 97 <= 9
  {
    var s, v := "-" + digits, Value(10, digits);
    LoopEndsExactly(s, |s|);
    if |digits| == 1 {
      ValueOfDigit(10, digits[0]);
      assert digits == [digits[0]] && v < 10;
    } else {
      assert Block(s) == s;
      ParseOfNegative(digits);
      hide Value, ParseInt, Ends, Rounds;
      MinusRemainder(v);
      RemainderText(-(v as int));
    }
  }

  lemma {:induction false} MinusRemainder(v: nat)
    ensures Truncated(-(v as int)) == -((v % 97) as int)
  {}

  lemma {:induction false} MinusBlock(digits: string)
    requires |digits| > 8 && Numeral(10, digits)
    ensures var s, v := "-" + digits, Value(10, digits[..8]);
      && (v % 97 == 0 ==> LoopEnds(s))
      && (v % 97 > 0 ==>
           var rest := Text(10, v % 97) + digits[8..];
           NextRemainder(s) == "-" + rest && Numeral(10, rest) && 0 < |rest| < |digits|
             && Value(10, rest) % 97 == Value(10, digits) % 97)
  {
    var s, block, rest := "-" + digits, digits[..8], digits[8..];
    var v := Value(10, block);
    assert Block(s) == "-" + block && s[9..] == rest;
    ParseOfNegative(block);
    BlockStep(block, rest);
    assert block + rest == digits;
    MinusRemainder(v);
    if v % 97 > 0 { MinusRound(s, v); }
    hide Value, ParseInt, Truncated, Numeral, Text, NextRemainder, Block;
  }

  lemma {:induction false} MinusRound(s: string, v: nat)
    requires |s| > 9 && ParseInt(Block(s)) == Some(-(v as int)) && v % 97 > 0
    ensures NextRemainder(s) == "-" + (Text(10, v % 97) + s[9..])
  {
    MinusRemainder(v);
    hide ParseInt, Truncated, Text;
    assert "-" + Text(10, v % 97) + s[9..] == "-" + (Text(10, v % 97) + s[9..]);
  }

  // The result.

  /** The remainder the loop leaves, None for NaN. */
  function Remainder(s: string): Option<int> {
    match ParseInt(Rounds(s, |s|))
    case None => None
    case Some(n) => Some(Truncated(n))
  }

  lemma {:induction false} NextKeeps(s: string)
    requires |s| > 2 && LoopEnds(s)
    ensures |NextRemainder(s)| < |s| && LoopEnds(NextRemainder(s)) && Remainder(NextRemainder(s)) == Remainder(s)
    ensures ParseInt(Block(s)).Some?
  {
    var next := NextRemainder(s);
    RemainderText(ParseInt(Block(s)).value);
    LoopEndsExactly(s, |s|);
    Unroll(s);
    LoopEndsExactly(next, |next|);
    Settled(next, |next|, |s| - 1);
  }

  lemma {:induction false} Settled(s: string, m: nat, n: nat)
    requires m <= n && |Rounds(s, m)| <= 2
    ensures Rounds(s, n) == Rounds(s, m)
    decreases m
  {
    if |s| > 2 { Settled(NextRemainder(s), m - 1, n - 1); }
  }

  lemma {:induction false} NextOfNumeral(s: string)
    requires |s| > 2 && Numeral(10, s)
    ensures var r := NextRemainder(s);
            r != "" && |r| < |s| && Numeral(10, r) && Value(10, r) % 97 == Value(10, s) % 97
  {
    var block := Block(s);
    ParseOfDigits(block, "");
    assert block + "" == block && block + s[|block|..] == s;
    BlockStep(block, s[|block|..]);
  }

  /** On digits, of any number, the loop ends and leaves the number modulo 97. */
  lemma {:induction false} RemainderOfNumeral(s: string)
    requires s != "" && Numeral(10, s)
    ensures LoopEnds(s) && Remainder(s) == Some(Value(10, s) % 97)
    decreases |s|
  {
    DigitEnds(s, |s|);
    LoopEndsExactly(s, |s|);
    if |s| > 2 {
      NextOfNumeral(s);
      RemainderOfNumeral(NextRemainder(s));
      NextKeeps(s);
    } else {
      ParseOfDigits(s, "");
      assert s + "" == s;
    }
  }

  /** The remainder of a text that is long enough for a round is a number: 0 to 96, or -1 to -9. */
  lemma {:induction false} RemainderRange(s: string)
    requires |s| > 2 && LoopEnds(s)
    ensures Remainder(s).Some? && -10 < Remainder(s).value < 97
    decreases |s|
  {
    var next := NextRemainder(s);
    NextKeeps(s);
    if |next| > 2 {
      RemainderRange(next);
    } else {
      var r := Truncated(ParseInt(Block(s)).value);
      RemainderText(ParseInt(Block(s)).value);
      ShortRemainder(s, next, r);
    }
  }

  lemma {:induction false} ShortRemainder(s: string, next: string, r: int)
    requires next == TextOfInt(r) + s[|Block(s)|..] && |next| <= 2 && -97 < r < 97
    ensures ParseInt(next).Some? && -10 < Truncated(ParseInt(next).value) < 97
  {
    assert Truncated(r) == r;
    RemainderText(r);
    ParseSpec(next);
    assert next[0] == TextOfInt(r)[0];
    if r < 0 {
      var t := Text(10, -r);
      ParseOfNegative(t);
      hide ParseInt, Text, Value;
      assert s[|Block(s)|..] == "" && next == "-" + t;
    } else {
      hide ParseInt, Text, Value, TextOfInt;
    }
  }

  method Mod9710(iban: string) returns (r: Option<int>)
    requires LoopEnds(iban)
    ensures r == Remainder(iban)
    ensures iban != "" && Numeral(10, iban) ==> r == Some(Value(10, iban) % 97)
  {
    var remainder := iban;
    while |remainder| > 2
      invariant LoopEnds(remainder) && Remainder(remainder) == Remainder(iban)
      decreases |remainder|
    {
      NextKeeps(remainder);
      remainder := NextRemainder(remainder);
    }
    if iban != "" && Numeral(10, iban) { RemainderOfNumeral(iban); }
    match ParseInt(remainder) {
      case None => r := None;
      case Some(n) => r := Some(Truncated(n));
    }
  }
}
