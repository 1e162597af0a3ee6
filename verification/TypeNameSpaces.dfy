/** Spaces in type names: one is to be ignored wherever it stands; what the parser makes of any number of them. */
module TypeNameSpaces {
  import opened Wrappers
  import opened Strings
  import opened Numerals
  import opened Parsing
  import opened TypeNames

  function Unspaced(s: string): (r: string)
    ensures forall i :: 0 <= i < |r| ==> r[i] != ' '
  {
    if s == "" then "" else if s[0] == ' ' then Unspaced(s[1..]) else [s[0]] + Unspaced(s[1..])
  }

  lemma {:induction false} UnspacedJoin(s: string, t: string)
    ensures Unspaced(s + t) == Unspaced(s) + Unspaced(t)
    decreases |s|
  {
    if s == "" {
      assert s + t == t;
    } else {
      assert (s + t)[1..] == s[1..] + t;
      UnspacedJoin(s[1..], t);
    }
  }

  lemma {:induction false} UnspacedKeeps(s: string)
    requires forall i :: 0 <= i < |s| ==> s[i] != ' '
    ensures Unspaced(s) == s
    decreases |s|
  {
    if s != "" { UnspacedKeeps(s[1..]); }
  }

  lemma {:induction false} UnspacedFrom(s: string)
    ensures forall c :: c in Unspaced(s) ==> c in s
    ensures forall c :: c in s && c != ' ' ==> c in Unspaced(s)
    decreases |s|
  {
    if s != "" {
      UnspacedFrom(s[1..]);
      assert forall c :: c in s <==> c == s[0] || c in s[1..];
    }
  }

  lemma {:induction false} RemovedUnspaced(s: string)
    ensures Unspaced(RemoveSpace(s)) == Unspaced(s)
    ensures forall c :: c in RemoveSpace(s) ==> c in s
    ensures (forall i :: 0 <= i < |s| ==> s[i] != ' ') ==> RemoveSpace(s) == s
    decreases |s|
  {
    if s != "" {
      RemovedUnspaced(s[1..]);
      assert forall c :: c in s <==> c == s[0] || c in s[1..];
      if s[0] != ' ' { assert RemoveSpace(s)[1..] == RemoveSpace(s[1..]); }
    }
  }

  // The front, up to the first bracket, and the tail.

  function Front(typ: string): string {
    typ[..IndexOf(typ, '[')]
  }

  function Tail(typ: string): string {
    typ[IndexOf(typ, '[')..]
  }

  lemma {:induction false} ParseByParts(typ: string)
    ensures ParseBaseType(typ) == ParsedFrom(RemoveSpace(Front(typ)), typ, Dimensions(Tail(typ)))
  {
    hide RemoveSpace, IndexOf, Dimensions, SizeOf, IsBaseType, StartsWith;
    StrippedName(typ);
    TailDimensions(typ);
  }

  lemma {:induction false} TailDimensions(typ: string)
    ensures (if IndexOf(typ, '[') < |typ| then Dimensions(typ) else []) == Dimensions(Tail(typ))
  {
    SkipFront(Front(typ), Tail(typ));
    assert typ == Front(typ) + Tail(typ);
  }

  lemma {:induction false} StrippedName(typ: string)
    ensures (if IndexOf(typ, '[') < |typ| then RemoveSpace(typ)[..IndexOf(RemoveSpace(typ), '[')] else RemoveSpace(typ))
      == RemoveSpace(Front(typ))
  {
    var front, tail := Front(typ), Tail(typ);
    assert typ == front + tail;
    if IndexOf(typ, '[') < |typ| {
      RemovedUnspaced(front);
      RemoveFromJoin(front, tail);
      var rest := if ' ' in front then tail else RemoveSpace(tail);
      assert rest != "" && rest[0] == '[';
      assert forall c :: c in RemoveSpace(front) ==> c != '[';
      hide RemoveSpace;
      BracketAfter(RemoveSpace(front), rest);
    } else {
      assert front == typ;
    }
  }

  lemma {:induction false} RemoveFromJoin(s: string, t: string)
    ensures RemoveSpace(s + t) == if ' ' in s then RemoveSpace(s) + t else s + RemoveSpace(t)
    decreases |s|
  {
    if s == "" {
      assert s + t == t;
    } else {
      var first, rest := s[0], s[1..];
      assert (s + t)[0] == first && (s + t)[1..] == rest + t && s == [first] + rest;
      assert ' ' in s <==> first == ' ' || ' ' in rest;
      if first != ' ' {
        RemoveFromJoin(rest, t);
        assert RemoveSpace(s + t) == [first] + RemoveSpace(rest + t) && RemoveSpace(s) == [first] + RemoveSpace(rest);
        hide RemoveSpace;
        JoinThree(first, RemoveSpace(rest), t);
        JoinThree(first, rest, RemoveSpace(t));
      }
    }
  }

  lemma {:induction false} JoinThree(c: char, s: string, t: string)
    ensures [c] + (s + t) == ([c] + s) + t
  {}

  lemma {:induction false} BracketAfter(s: string, t: string)
    requires '[' !in s && (t == "" || t[0] == '[')
    ensures IndexOf(s + t, '[') == |s| && (s + t)[..|s|] == s && (s + t)[|s|..] == t
  {
    var u := s + t;
    assert forall i :: 0 <= i < |s| ==> u[i] == s[i];
    if t != "" { assert u[|s|] == '['; }
  }

  lemma {:induction false} SkipFront(s: string, rest: string)
    requires '[' !in s
    ensures Dimensions(s + rest) == Dimensions(rest)
    decreases |s|
  {
    if s == "" {
      assert s + rest == rest;
    } else {
      assert (s + rest)[1..] == s[1..] + rest;
      SkipFront(s[1..], rest);
    }
  }

  /** Front and tail of a spaced name are the spaced head and the spaced brackets. */
  lemma {:induction false} PartsOf(typ: string, head: string, brackets: string)
    requires Unspaced(typ) == head + brackets && '[' !in head && (brackets == "" || brackets[0] == '[')
    ensures Unspaced(Front(typ)) == head && Unspaced(Tail(typ)) == brackets
    ensures '[' !in Front(typ) && (Tail(typ) == "" || Tail(typ)[0] == '[')
  {
    var front, tail := Front(typ), Tail(typ);
    assert typ == front + tail;
    UnspacedJoin(front, tail);
    UnspacedFrom(front);
    BracketAfter(head, brackets);
    BracketAfter(Unspaced(front), Unspaced(tail));
  }

  // The brackets: a space between `[` and `]` hides them from the parser.

  /** Every space stands before a bracket that opens, or at the end. */
  predicate Tight(tail: string) {
    forall i :: 0 <= i < |tail| && tail[i] == ' ' ==> i + 1 == |tail| || tail[i + 1] in {' ', '['}
  }

  predicate Dims(dims: seq<int>) {
    forall i :: 0 <= i < |dims| ==> dims[i] >= -1
  }

  function DimensionText(d: int): (t: string)
    requires d >= -1
    ensures Numeral(10, t) && Dimension(t) == d
  {
    if d == -1 then ""
    else
      ValueOfText(10, d);
      Text(10, d)
  }

  /** The dimensions come out right exactly if the spaces are outside the brackets; otherwise there are fewer. */
  lemma {:induction false} SpacedDimensions(tail: string, dims: seq<int>)
    requires Dims(dims) && Unspaced(tail) == BracketText(dims)
    ensures |Dimensions(tail)| <= |dims|
    ensures Dimensions(tail) == dims <==> Tight(tail)
    decreases |tail|
  {
    if tail != "" {
      if tail[0] == ' ' {
        SpacedDimensions(tail[1..], dims);
        TightTail(tail);
      } else {
        var digits, brackets := DimensionText(dims[0]), BracketText(dims[1..]);
        assert tail[0] == '[' && Unspaced(tail[1..]) == digits + "]" + brackets by { FirstBracket(tail, dims); }
        var j := CloseAt(tail[1..], digits, brackets);
        SpacedDimensions(tail[j + 2..], dims[1..]);
        hide Dimensions, Tight, Unspaced, BracketText;
        FirstPair(tail, j, dims[0]);
      }
    }
  }

  lemma {:induction false} TightTail(tail: string)
    requires tail != "" && tail[0] == ' ' && (Unspaced(tail) == "" || Unspaced(tail)[0] == '[')
    ensures Tight(tail) <==> Tight(tail[1..])
  {
    var rest := tail[1..];
    assert forall i :: 0 <= i < |rest| ==> tail[i + 1] == rest[i];
    assert rest == "" || rest[0] in {' ', '['};
    if Tight(tail) {
      forall i | 0 <= i < |rest| && rest[i] == ' ' ensures i + 1 == |rest| || rest[i + 1] in {' ', '['} {
        assert tail[i + 1] == ' ';
      }
    }
    if Tight(rest) {
      forall i | 0 <= i < |tail| && tail[i] == ' ' ensures i + 1 == |tail| || tail[i + 1] in {' ', '['} {
        if i > 0 { assert rest[i - 1] == ' '; }
      }
    }
  }

  lemma {:induction false} FirstBracket(tail: string, dims: seq<int>)
    requires Dims(dims) && Unspaced(tail) == BracketText(dims) && tail != "" && tail[0] != ' '
    ensures dims != [] && tail[0] == '['
    ensures Unspaced(tail[1..]) == DimensionText(dims[0]) + "]" + BracketText(dims[1..])
  {
    assert Unspaced(tail)[1..] == Unspaced(tail[1..]);
    var digits, brackets := DimensionText(dims[0]), BracketText(dims[1..]);
    assert BracketText(dims) == "[" + (digits + "]" + brackets);
  }

  /** The first closing bracket of a spaced text is that of the text without spaces. */
  lemma {:induction false} CloseAt(rest: string, digits: string, brackets: string) returns (j: nat)
    requires Unspaced(rest) == digits + "]" + brackets && Numeral(10, digits)
    ensures j < |rest| && rest[j] == ']' && Unspaced(rest[..j]) == digits && Unspaced(rest[j + 1..]) == brackets
  {
    UnspacedFrom(rest);
    assert Unspaced(rest)[|digits|] == ']' && ']' in Unspaced(rest);
    j := IndexOf(rest, ']');
    var inner, after := rest[..j], rest[j + 1..];
    assert rest == inner + ("]" + after);
    UnspacedJoin(inner, "]" + after);
    UnspacedJoin("]", after);
    UnspacedFrom(inner);
    assert Unspaced("]") == "]";
    hide Unspaced, Numeral, IndexOf;
    SplitAtClose(Unspaced(inner), Unspaced(after), digits, brackets);
  }

  lemma {:induction false} SplitAtClose(a: string, b: string, c: string, d: string)
    requires a + ("]" + b) == c + "]" + d && ']' !in a && Numeral(10, c)
    ensures a == c && b == d
  {
    assert c + "]" + d == c + ("]" + d) && DigitValue(']') == 36;
    SplitAtFirst(a, b, c, d, ']');
  }

  /** What the first pair of brackets contributes. */
  lemma {:induction false} FirstPair(tail: string, j: nat, d: int)
    requires d >= -1 && j + 1 < |tail| && tail[0] == '[' && tail[j + 1] == ']'
    requires Unspaced(tail[1..][..j]) == DimensionText(d)
    ensures if ' ' in tail[1..][..j] then Dimensions(tail) == Dimensions(tail[j + 2..]) && !Tight(tail)
      else Dimensions(tail) == [d] + Dimensions(tail[j + 2..]) && (Tight(tail) <==> Tight(tail[j + 2..]))
  {
    var inner := tail[1..][..j];
    InnerCharacters(inner, DimensionText(d));
    hide Dimensions, Tight, Unspaced, DimensionText;
    if ' ' in inner {
      HiddenPair(tail, j);
      SpaceInside(tail, j);
    } else {
      OpenPair(tail, j, d);
    }
  }

  lemma {:induction false} InnerCharacters(inner: string, digits: string)
    requires Unspaced(inner) == digits && Numeral(10, digits)
    ensures forall c :: c in inner ==> c == ' ' || DigitValue(c) < 10
    ensures ' ' !in inner ==> inner == digits
  {
    UnspacedFrom(inner);
    if ' ' !in inner { UnspacedKeeps(inner); }
  }

  lemma {:induction false} OpenPair(tail: string, j: nat, d: int)
    requires d >= -1 && j + 1 < |tail| && tail[0] == '[' && tail[j + 1] == ']' && tail[1..][..j] == DimensionText(d)
    ensures Dimensions(tail) == [d] + Dimensions(tail[j + 2..]) && (Tight(tail) <==> Tight(tail[j + 2..]))
  {
    var inner, after := DimensionText(d), tail[j + 2..];
    hide Dimensions, Tight, DimensionText;
    NoSpaceInNumeral(inner);
    assert tail == "[" + inner + "]" + after;
    forall i | 0 <= i < j + 2 ensures tail[i] != ' ' { assert 0 < i < j + 1 ==> tail[i] == tail[1..][..j][i - 1]; }
    OneDimension(inner, after);
    TightBehind(tail, j + 2);
  }

  lemma {:induction false} HiddenPair(tail: string, j: nat)
    requires j + 1 < |tail| && tail[0] == '[' && tail[j + 1] == ']' && ' ' in tail[1..][..j]
    requires forall c :: c in tail[1..][..j] ==> c == ' ' || DigitValue(c) < 10
    ensures Dimensions(tail) == Dimensions(tail[j + 2..])
  {
    var rest, inner := tail[1..], tail[1..][..j];
    var n := DigitRun(rest);
    assert DigitValue(' ') == 36 && DigitValue(']') == 36 && DigitValue('[') == 36;
    var i :| 0 <= i < |inner| && inner[i] == ' ';
    assert rest[i] == ' ';
    forall k | 0 <= k < n ensures rest[k] != ' ' { assert rest[k] == rest[..n][k]; }
    assert n <= i && rest[n] == inner[n];
    SkipFront(inner + "]", tail[j + 2..]);
    assert rest == inner + "]" + tail[j + 2..];
  }

  lemma {:induction false} SpaceInside(tail: string, j: nat)
    requires j + 1 < |tail| && tail[j + 1] == ']' && ' ' in tail[1..][..j]
    requires forall c :: c in tail[1..][..j] ==> c == ' ' || DigitValue(c) < 10
    ensures !Tight(tail)
  {
    var inner := tail[1..][..j];
    assert DigitValue('[') == 36;
    assert forall i :: 0 <= i < j ==> inner[i] == tail[i + 1];
    var i :| 0 <= i < j && inner[i] == ' ';
    while i + 1 < j && inner[i + 1] == ' '
      invariant 0 <= i < j && inner[i] == ' '
    {
      i := i + 1;
    }
    assert tail[i + 1] == ' ' && tail[i + 2] !in {' ', '['};
  }

  /** Where the first k characters hold no space, only the others count. */
  lemma {:induction false} TightBehind(tail: string, k: nat)
    requires k <= |tail| && forall i :: 0 <= i < k ==> tail[i] != ' '
    ensures Tight(tail) <==> Tight(tail[k..])
  {
    var rest := tail[k..];
    if Tight(tail) {
      forall i | 0 <= i < |rest| && rest[i] == ' ' ensures i + 1 == |rest| || rest[i + 1] in {' ', '['} {
        assert tail[k + i] == ' ';
      }
    }
    if Tight(rest) {
      forall i | 0 <= i < |tail| && tail[i] == ' ' ensures i + 1 == |tail| || tail[i + 1] in {' ', '['} {
        assert rest[i - k] == ' ';
      }
    }
  }

  // The digits: they are read as far as they stand together.

  /** Digits with spaces among them, and what may follow them. */
  predicate Spread(x: string, rest: string) {
    (forall c :: c in x ==> c == ' ' || DigitValue(c) < 10) && (rest == "" || rest[0] == '[')
  }

  lemma {:induction false} SkipSpread(x: string, rest: string)
    requires Spread(x, rest) && Unspaced(x) != ""
    ensures var y := SkipSpace(x);
      && SkipSpace(x + rest) == y + rest && Unspaced(y) == Unspaced(x) && Spread(y, rest)
      && y != "" && DigitValue(y[0]) < 10
    decreases |x|
  {
    assert x[0] in x && (DigitValue(x[0]) < 10 ==> !IsSpace(x[0])) && (x + rest)[0] == x[0];
    if x[0] == ' ' {
      assert (x + rest)[1..] == x[1..] + rest;
      SkipSpread(x[1..], rest);
    }
  }

  lemma {:induction false} RunOfSpread(y: string, rest: string)
    requires Spread(y, rest) && y != "" && DigitValue(y[0]) < 10
    ensures var r := DigitRun(y + rest);
      && 0 < r <= |y| && Numeral(10, y[..r]) && (r < |y| ==> y[r] == ' ')
      && ParseInt(y + rest) == Some(Value(10, y[..r]))
      && r <= |Unspaced(y)| && y[..r] == Unspaced(y)[..r] && (r == |y| ==> Unspaced(y) == y)
  {
    var s, r := y + rest, DigitRun(y + rest);
    assert DigitValue('[') == 36;
    if rest != "" {
      NoSpaceInNumeral(s[..r]);
      PrefixEnds(s, |y|, s[..r], '[');
    }
    assert s[..r] == y[..r] && (r < |y| ==> s[r] == y[r]);
    assert y == y[..r] + y[r..];
    UnspacedJoin(y[..r], y[r..]);
    NoSpaceInNumeral(y[..r]);
    UnspacedKeeps(y[..r]);
    assert SkipSpace(s) == s;
  }

  lemma {:induction false} ShorterIsLess(n: nat, r: nat)
    requires 0 < r < |Text(10, n)|
    ensures Value(10, Text(10, n)[..r]) < n
  {
    var d := Text(10, n);
    ValueOfText(10, n);
    TextIsCanonical(10, n);
    NonZeroDigit(d[0]);
    ValueAtLeast(10, d);
    ValueBelow(10, d[..r]);
    PowMonotone(10, r, |d| - 1);
  }

  /** The number comes out right exactly if its digits stand together behind leading spaces. */
  lemma {:induction false} DigitsTogether(x: string, rest: string, n: nat)
    requires Unspaced(x) == Text(10, n) && (rest == "" || rest[0] == '[')
    ensures ParseInt(x + rest) == Some(n) <==> StartsWith(SkipSpace(x), Text(10, n))
  {
    ValueOfText(10, n);
    UnspacedFrom(x);
    assert Spread(x, rest);
    hide Text, Value, ParseInt, SkipSpace, Spread, Unspaced;
    SkipSpread(x, rest);
    SkipTwice(SkipSpace(x), rest);
    SameParse(x, SkipSpace(x), rest);
    FirstDigitsDecide(SkipSpace(x), rest, n);
  }

  lemma {:induction false} SkipTwice(y: string, rest: string)
    requires y != "" && DigitValue(y[0]) < 10
    ensures SkipSpace(y + rest) == y + rest
  {
    assert (y + rest)[0] == y[0];
  }

  lemma {:induction false} FirstDigitsDecide(y: string, rest: string, n: nat)
    requires Spread(y, rest) && y != "" && DigitValue(y[0]) < 10 && Unspaced(y) == Text(10, n)
    ensures ParseInt(y + rest) == Some(n) <==> StartsWith(y, Text(10, n))
  {
    var d, r := Text(10, n), DigitRun(y + rest);
    ValueOfText(10, n);
    NoSpaceInNumeral(d);
    RunOfSpread(y, rest);
    hide Unspaced, Spread, DigitRun, ParseInt, Value, Text, Numeral;
    if r < |d| {
      ShorterIsLess(n, r);
      OtherText(y, d, r);
    } else {
      assert y[..r] == d;
    }
  }

  lemma {:induction false} OtherText(y: string, d: string, r: nat)
    requires r < |d| && r < |y| && y[r] != d[r]
    ensures !StartsWith(y, d)
  {
    if |d| <= |y| { assert y[..|d|][r] == y[r]; }
  }

  lemma {:induction false} SameParse(x: string, y: string, rest: string)
    requires SkipSpace(x + rest) == y + rest == SkipSpace(y + rest)
    ensures ParseInt(x + rest) == ParseInt(y + rest)
  {}

  // The front.

  /**
   * When the front reads right: an unsized name with at most one space; a sized one if, the first space apart, the
   * base stands together and so do the digits behind it. A `uint` has to do without leaving a space out.
   */
  predicate FrontReadsRight(front: string, base: string, size: Size)
    requires Sized(base, size)
  {
    if size.Undefined? then RemoveSpace(front) == base
    else
      var name := if base == "uint" then front else RemoveSpace(front);
      StartsWith(name, base) && StartsWith(SkipSpace(name[|base|..]), SizeText(size))
  }

  /**
   * A type name with any number of spaces anywhere: the parser gives back base, size and dimensions exactly if the
   * front reads right and no space stands inside the brackets.
   */
  lemma {:induction false} SpacedNameReadsRight(typ: string, base: string, size: Size, dims: seq<int>)
    requires IsBaseType(base) && Sized(base, size) && Dims(dims)
    requires Unspaced(typ) == TypeName(base, size, dims)
    ensures ParseBaseType(typ) == Parsed(base, true, size, dims != [], dims)
      <==> FrontReadsRight(Front(typ), base, size) && Tight(Tail(typ))
  {
    var head, brackets := base + SizeText(size), BracketText(dims);
    PlainHead(base, size);
    PartsOf(typ, head, brackets);
    assert typ == Front(typ) + Tail(typ);
    hide TypeName, RemoveSpace, Dimensions, Tight, IndexOf, Unspaced, ParsedFrom, BracketText, FrontReadsRight;
    ParseByParts(typ);
    SpacedDimensions(Tail(typ), dims);
    if size.Undefined? {
      UnsizedName(Front(typ), base, typ, Dimensions(Tail(typ)), dims);
    } else {
      SizedName(Front(typ), Tail(typ), base, size, Dimensions(Tail(typ)), dims);
    }
  }

  lemma {:induction false} BaseKeeps(s: string)
    ensures IsBaseType(s) ==> Unspaced(s) == s
  {
    if IsBaseType(s) {
      assert forall i :: 0 <= i < |s| ==> s[i] != ' ';
      UnspacedKeeps(s);
    }
  }

  lemma {:induction false} UnsizedName(front: string, base: string, typ: string, ds: seq<int>, dims: seq<int>)
    requires IsBaseType(base) && Unspaced(front) == base
    ensures ParsedFrom(RemoveSpace(front), typ, ds) == Parsed(base, true, Undefined, dims != [], dims)
      <==> FrontReadsRight(front, base, Undefined) && ds == dims
  {
    RemovedUnspaced(front);
    BaseKeeps(RemoveSpace(front));
    hide RemoveSpace, ParseInt, StartsWith, IsBaseType, Unspaced;
  }

  lemma {:induction false} SizedName(front: string, tail: string, base: string, size: Size, ds: seq<int>,
      dims: seq<int>)
    requires IsBaseType(base) && Sized(base, size) && size.Bits?
    requires Unspaced(front) == base + SizeText(size) && (tail == "" || tail[0] == '[')
    ensures ParsedFrom(RemoveSpace(front), front + tail, ds) == Parsed(base, true, size, dims != [], dims)
      <==> FrontReadsRight(front, base, size) && ds == dims
  {
    var name, d := RemoveSpace(front), SizeText(size);
    RemovedUnspaced(front);
    PlainHead(base, size);
    BaseKeeps(name);
    OnlyBase(name, base, d, "int");
    OnlyBase(name, base, d, "uint");
    OnlyBase(name, base, d, "bytes");
    hide RemoveSpace, ParseInt, Unspaced, SkipSpace, IsBaseType;
    if StartsWith(name, base) {
      if base == "uint" {
        UintSize(front, tail, size);
      } else {
        NameSize(name, base, size);
      }
    }
    if base == "uint" && StartsWith(front, base) { StartsStill(front, base); }
  }

  /** A name that starts with one of the sized bases starts with its own. */
  lemma {:induction false} OnlyBase(name: string, base: string, d: string, other: string)
    requires Unspaced(name) == base + d && base in {"int", "uint", "bytes"} && other in {"int", "uint", "bytes"}
    ensures StartsWith(name, other) ==> other == base && Unspaced(name[|base|..]) == d
  {
    if StartsWith(name, other) {
      assert name == other + name[|other|..];
      UnspacedJoin(other, name[|other|..]);
      UnspacedKeeps(other);
      assert Unspaced(name)[0] == other[0] == base[0];
      assert (base + d)[|base|..] == d;
    }
  }

  lemma {:induction false} NameSize(name: string, base: string, size: Size)
    requires size.Bits? && size.n >= 0 && StartsWith(name, base) && Unspaced(name[|base|..]) == SizeText(size)
    ensures SizeOf(name[|base|..]) == size <==> StartsWith(SkipSpace(name[|base|..]), SizeText(size))
  {
    var x := name[|base|..];
    DigitsTogether(x, "", size.n);
    assert x + "" == x;
  }

  /** Leaving the first space out changes nothing in front of it. */
  lemma {:induction false} StartsStill(front: string, base: string)
    requires base == "uint" && StartsWith(front, base)
    ensures StartsWith(RemoveSpace(front), base) && Unspaced(front) == base + Unspaced(front[4..])
  {
    assert front == base + front[4..];
    UnspacedJoin(base, front[4..]);
    UnspacedKeeps(base);
    RemoveFromJoin(base, front[4..]);
  }

  /** The size of a `uint` is read from the fifth character on, whatever was left out before it. */
  lemma {:induction false} UintSize(front: string, tail: string, size: Size)
    requires size.Bits? && size.n >= 0 && StartsWith(RemoveSpace(front), "uint")
    requires Unspaced(front) == "uint" + SizeText(size) && (tail == "" || tail[0] == '[')
    ensures |front| >= 4
    ensures SizeOf((front + tail)[4..]) == size
      <==> StartsWith(front, "uint") && StartsWith(SkipSpace(front[4..]), SizeText(size))
  {
    RemovedLength(front);
    if StartsWith(front, "uint") {
      WholeUint(front, tail, size);
    } else {
      SpaceInBase(front);
      var x := (front + tail)[4..];
      NameLetter(x);
      hide ParseInt, RemoveSpace, Unspaced;
    }
  }

  lemma {:induction false} NameLetter(x: string)
    requires x != "" && x[0] == 't'
    ensures SizeOf(x) == NaN
  {
    assert DigitValue('t') == 29;
    ParseOfSymbol(x);
  }

  lemma {:induction false} WholeUint(front: string, tail: string, size: Size)
    requires size.Bits? && size.n >= 0 && StartsWith(front, "uint")
    requires Unspaced(front) == "uint" + SizeText(size) && (tail == "" || tail[0] == '[')
    ensures SizeOf((front + tail)[4..]) == size <==> StartsWith(SkipSpace(front[4..]), SizeText(size))
  {
    hide ParseInt, RemoveSpace, Unspaced, SkipSpace, Text;
    OnlyBase(front, "uint", SizeText(size), "uint");
    DigitsTogether(front[4..], tail, size.n);
    assert (front + tail)[4..] == front[4..] + tail;
  }

  lemma {:induction false} RemovedLength(s: string)
    ensures |RemoveSpace(s)| <= |s| <= |RemoveSpace(s)| + 1
  {
    if s != "" && s[0] != ' ' { RemovedLength(s[1..]); }
  }

  lemma {:induction false} SpaceInBase(front: string)
    requires StartsWith(RemoveSpace(front), "uint") && !StartsWith(front, "uint")
    ensures |front| > 4 && front[4] == 't'
  {
    var p := IndexOf(front, ' ');
    hide RemoveSpace, IndexOf;
    if p < |front| {
      assert front == front[..p] + " " + front[p + 1..];
      SpaceLeft(front[..p], front[p + 1..]);
      var name := front[..p] + front[p + 1..];
      assert name[..4] == "uint" && name[3] == 't';
      FirstFour(front, name, p);
      assert p < 4 && name[3] == front[4];
    } else {
      RemovedUnspaced(front);
    }
  }

  lemma {:induction false} FirstFour(s: string, t: string, p: nat)
    requires p <= |s| && p <= |t| && s[..p] == t[..p]
    ensures p >= 4 ==> s[..4] == t[..4]
  {
    if p >= 4 { assert s[..4] == s[..p][..4]; }
  }

  lemma {:induction false} SpaceLeft(s: string, t: string)
    requires forall i :: 0 <= i < |s| ==> s[i] != ' '
    ensures RemoveSpace(s + " " + t) == s + t
  {
    RemovedUnspaced(s);
    RemoveFromJoin(s, " " + t);
    assert s + " " + t == s + (" " + t) && (" " + t)[1..] == t;
  }

  // One space.

  /** The size that comes out: one space harms a `uint` alone, inside its name or among its digits. */
  function SizeWithSpace(base: string, size: Size, p: nat): Size
    requires Sized(base, size)
  {
    if base != "uint" || size.Undefined? || p == 4 || p >= 4 + |SizeText(size)| then size
    else if p < 4 then NaN
    else
      Bits(Value(10, SizeText(size)[..p - 4]))
  }

  function WithSpace(t: string, p: nat): string
    requires p <= |t|
  {
    t[..p] + " " + t[p..]
  }

  /**
   * One space, anywhere in a type name: base and kind always come out right, the size as `SizeWithSpace` says, and
   * the dimensions exactly if the space is not inside a pair of brackets.
   */
  lemma {:induction false} OneSpace(base: string, size: Size, dims: seq<int>, p: nat)
    requires IsBaseType(base) && Sized(base, size) && Dims(dims) && p <= |TypeName(base, size, dims)|
    ensures var t, r := TypeName(base, size, dims), ParseBaseType(WithSpace(TypeName(base, size, dims), p));
      && r.known && r.baseType == base && r.size == SizeWithSpace(base, size, p)
      && r.isArray == (r.arraySizes != [])
      && (r.arraySizes == dims <==> p <= |base + SizeText(size)| || p == |t| || t[p] == '[')
  {
    var head, brackets := base + SizeText(size), BracketText(dims);
    var t := head + brackets;
    PlainHead(base, size);
    BracketSplit(head, dims);
    if p <= |head| {
      SpaceInHead(base, size, dims, p);
    } else {
      SpaceInTail(base, size, dims, p);
    }
  }

  lemma {:induction false} StartsOpen(dims: seq<int>)
    requires Dims(dims)
    ensures BracketText(dims) == "" || BracketText(dims)[0] == '['
    ensures Unspaced(BracketText(dims)) == BracketText(dims) && Tight(BracketText(dims))
    ensures forall i :: 0 <= i < |BracketText(dims)| ==> BracketText(dims)[i] != ' '
  {
    NoSpaceInBrackets(dims);
    UnspacedKeeps(BracketText(dims));
  }

  lemma {:induction false} SpaceInHead(base: string, size: Size, dims: seq<int>, p: nat)
    requires IsBaseType(base) && Sized(base, size) && Dims(dims) && p <= |base + SizeText(size)|
    ensures ParseBaseType(WithSpace(TypeName(base, size, dims), p))
      == Parsed(base, true, SizeWithSpace(base, size, p), dims != [], dims)
  {
    hide ParsedFrom, ParseBaseType, RemoveSpace, Dimensions, Tight, Unspaced, SizeOf, IndexOf, BracketText, WithSpace;
    var head, brackets := base + SizeText(size), BracketText(dims);
    var typ := WithSpace(head, p) + brackets;
    PlainHead(base, size);
    StartsOpen(dims);
    HeadLayout(head, brackets, p);
    SpacedDimensions(brackets, dims);
    ParseByParts(typ);
    HeadParsed(base, size, typ, dims);
    if size.Bits? && base == "uint" { UintWithSpace(size, p, brackets); }
  }

  lemma {:induction false} HeadLayout(head: string, brackets: string, p: nat)
    requires p <= |head| && Plain(head) && (brackets == "" || brackets[0] == '[')
    ensures var front := WithSpace(head, p);
      var typ := front + brackets;
      && WithSpace(head + brackets, p) == typ && |typ| > |head|
      && Front(typ) == front && Tail(typ) == brackets && RemoveSpace(front) == head
  {
    var front := WithSpace(head, p);
    hide RemoveSpace, IndexOf;
    assert (head + brackets)[..p] == head[..p] && (head + brackets)[p..] == head[p..] + brackets;
    assert WithSpace(head + brackets, p) == front + brackets;
    BracketAfter(front, brackets);
    SpaceLeft(head[..p], head[p..]);
    assert head[..p] + head[p..] == head;
  }

  /** What the branches make of the head itself. */
  lemma {:induction false} HeadParsed(base: string, size: Size, typ: string, ds: seq<int>)
    requires IsBaseType(base) && Sized(base, size) && |typ| >= 4
    ensures ParsedFrom(base + SizeText(size), typ, ds)
      == Parsed(base, true, if size.Bits? && base == "uint" then SizeOf(typ[4..]) else size, ds != [], ds)
  {
    var head := base + SizeText(size);
    PlainHead(base, size);
    if size.Bits? {
      SizedHead(base, size, "");
      hide SizeOf, IsBaseType, StartsWith, SizeText;
    } else {
      assert head == base;
      hide SizeOf, StartsWith;
    }
  }

  lemma {:induction false} UintWithSpace(size: Size, p: nat, brackets: string)
    requires size.Bits? && size.n >= 0 && p <= |"uint" + SizeText(size)| && (brackets == "" || brackets[0] == '[')
    ensures SizeOf((WithSpace("uint" + SizeText(size), p) + brackets)[4..]) == SizeWithSpace("uint", size, p)
  {
    var d := SizeText(size);
    ValueOfText(10, size.n);
    hide Text, Value, ParseInt, WithSpace;
    if p < 4 {
      SpaceInName(d, brackets, p);
    } else if p == 4 {
      SpaceBeforeDigits(d, brackets, size.n);
    } else {
      SpaceAmongDigits(d, brackets, p - 4);
    }
  }

  lemma {:induction false} SpaceInName(d: string, brackets: string, p: nat)
    requires p < 4
    ensures |WithSpace("uint" + d, p) + brackets| > 4
    ensures SizeOf((WithSpace("uint" + d, p) + brackets)[4..]) == NaN
  {
    var head := "uint" + d;
    var x := (WithSpace(head, p) + brackets)[4..];
    assert x[0] == head[3] == 't';
    NameLetter(x);
  }

  lemma {:induction false} SpaceBeforeDigits(d: string, brackets: string, n: nat)
    requires d == Text(10, n) && (brackets == "" || brackets[0] == '[')
    ensures |WithSpace("uint" + d, 4) + brackets| > 4
    ensures SizeOf((WithSpace("uint" + d, 4) + brackets)[4..]) == Bits(n)
  {
    var head := "uint" + d;
    ValueOfText(10, n);
    hide Text, Value, ParseInt, Unspaced, SkipSpace;
    assert head[..4] == "uint" && head[4..] == d;
    assert (WithSpace(head, 4) + brackets)[4..] == (" " + d) + brackets;
    SpaceThenDigits(d);
    DigitsTogether(" " + d, brackets, n);
  }

  lemma {:induction false} SpaceAmongDigits(d: string, brackets: string, k: nat)
    requires 0 < k <= |d| && Numeral(10, d)
    ensures |WithSpace("uint" + d, 4 + k) + brackets| > 4
    ensures SizeOf((WithSpace("uint" + d, 4 + k) + brackets)[4..]) == Bits(Value(10, d[..k]))
    ensures k == |d| ==> d[..k] == d
  {
    var head := "uint" + d;
    var rest := " " + d[k..] + brackets;
    assert head[..4 + k] == "uint" + d[..k] && head[4 + k..] == d[k..];
    assert (WithSpace(head, 4 + k) + brackets)[4..] == d[..k] + rest;
    assert rest[0] == ' ' && DigitValue(' ') == 36;
    hide ParseInt, Value;
    ParseOfDigits(d[..k], rest);
  }

  lemma {:induction false} SpaceThenDigits(d: string)
    requires d != "" && Numeral(10, d)
    ensures Unspaced(" " + d) == d && SkipSpace(" " + d) == d && StartsWith(d, d)
  {
    NoSpaceInNumeral(d);
    UnspacedKeeps(d);
    assert (" " + d)[1..] == d && DigitValue(d[0]) < 10 && d[..|d|] == d;
  }

  lemma {:induction false} SpaceInTail(base: string, size: Size, dims: seq<int>, p: nat)
    requires IsBaseType(base) && Sized(base, size) && Dims(dims)
    requires |base + SizeText(size)| < p <= |TypeName(base, size, dims)|
    ensures var t, r := TypeName(base, size, dims), ParseBaseType(WithSpace(TypeName(base, size, dims), p));
      && r.known && r.baseType == base && r.size == size && r.isArray == (r.arraySizes != [])
      && (r.arraySizes == dims <==> p == |t| || t[p] == '[')
  {
    hide ParsedFrom, ParseBaseType, RemoveSpace, Dimensions, Tight, Unspaced, SizeOf, IndexOf, BracketText, WithSpace;
    var head, brackets := base + SizeText(size), BracketText(dims);
    var q := p - |head|;
    var tail := WithSpace(brackets, q);
    var typ := head + tail;
    PlainHead(base, size);
    StartsOpen(dims);
    TailLayout(head, brackets, q);
    SpaceOutside(brackets, q);
    SpacedDimensions(tail, dims);
    ParseByParts(typ);
    HeadParsed(base, size, typ, Dimensions(tail));
    if size.Bits? && base == "uint" { UintBeforeTail(size, tail); }
  }

  lemma {:induction false} TailLayout(head: string, brackets: string, q: nat)
    requires 0 < q <= |brackets| && Plain(head) && brackets[0] == '['
    ensures var tail := WithSpace(brackets, q);
      var typ := head + tail;
      && tail != "" && tail[0] == '[' && WithSpace(head + brackets, |head| + q) == typ && |typ| > |head|
      && Front(typ) == head && Tail(typ) == tail && RemoveSpace(head) == head
  {
    var t, p := head + brackets, |head| + q;
    hide RemoveSpace, IndexOf;
    assert t[..p] == head + brackets[..q] && t[p..] == brackets[q..];
    assert WithSpace(t, p) == head + WithSpace(brackets, q);
    BracketAfter(head, WithSpace(brackets, q));
    RemovedUnspaced(head);
  }

  lemma {:induction false} UintBeforeTail(size: Size, tail: string)
    requires size.Bits? && size.n >= 0 && tail != "" && tail[0] == '['
    ensures SizeOf(("uint" + SizeText(size) + tail)[4..]) == size
  {
    assert DigitValue('[') == 36;
    ParseOfSize("uint", size, tail);
  }

  lemma {:induction false} SpaceOutside(brackets: string, q: nat)
    requires 0 < q <= |brackets| && forall i :: 0 <= i < |brackets| ==> brackets[i] != ' '
    ensures Unspaced(WithSpace(brackets, q)) == brackets
    ensures Tight(WithSpace(brackets, q)) <==> q == |brackets| || brackets[q] == '['
  {
    UnspacedInsert(brackets[..q], brackets[q..]);
    assert brackets[..q] + brackets[q..] == brackets;
    hide Unspaced;
    var s := WithSpace(brackets, q);
    assert s[q] == ' ' && forall i :: 0 <= i < |s| && i != q ==> s[i] != ' ';
    assert q < |brackets| ==> s[q + 1] == brackets[q];
  }

  lemma {:induction false} UnspacedInsert(l: string, r: string)
    requires (forall i :: 0 <= i < |l| ==> l[i] != ' ') && forall i :: 0 <= i < |r| ==> r[i] != ' '
    ensures Unspaced(l + " " + r) == l + r
  {
    assert Unspaced(" ") == "";
    UnspacedKeeps(l);
    UnspacedKeeps(r);
    hide Unspaced;
    UnspacedJoin(l + " ", r);
    UnspacedJoin(l, " ");
    assert l + "" == l;
  }
}
