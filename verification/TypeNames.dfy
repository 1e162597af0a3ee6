/** ABI type names such as `uint256[2][]`: base type, size and array dimensions. */
module TypeNames {
  import opened Wrappers
  import opened Strings
  import opened Numerals
  import opened Parsing

  predicate IsBaseType(s: string) {
    s in {"bool", "int", "uint", "bytes", "string", "address", "tuple"}
  }

  /** A size: not there, not a number, or a number. */
  datatype Size = Undefined | NaN | Bits(n: int)

  datatype Parsed = Parsed(baseType: string, known: bool, size: Size, isArray: bool, arraySizes: seq<int>)

  /** `replace(/ /, '')`: the first space. */
  function RemoveSpace(s: string): string {
    if s == "" then "" else if s[0] == ' ' then s[1..] else [s[0]] + RemoveSpace(s[1..])
  }

  function SizeOf(s: string): Size {
    match ParseInt(s)
    case None => NaN
    case Some(n) => Bits(n)
  }

  function Dimension(digits: string): int {
    if digits == "" then -1 else Value(10, digits)
  }

  /** All matches of `\[(\d*)\]`, left to right. */
  function Dimensions(s: string): seq<int>
    decreases |s|
  {
    if s == "" then []
    else if s[0] != '[' then Dimensions(s[1..])
    else
      var n := DigitRun(s[1..]);
      if 1 + n < |s| && s[1 + n] == ']' then [Dimension(s[1..][..n])] + Dimensions(s[n + 2..])
      else Dimensions(s[1..])
  }

  /** The branches on the stripped name; the size of a `uint` is cut from the text itself. */
  function ParsedFrom(name: string, typ: string, arraySizes: seq<int>): Parsed {
    var isArray := |arraySizes| > 0;
    if IsBaseType(name) then Parsed(name, true, Undefined, isArray, arraySizes)
    else if StartsWith(name, "int") then Parsed("int", true, SizeOf(name[3..]), isArray, arraySizes)
    else if StartsWith(name, "uint") then
      Parsed("uint", true, SizeOf(if |typ| < 4 then "" else typ[4..]), isArray, arraySizes)
    else if StartsWith(name, "bytes") then Parsed("bytes", true, SizeOf(name[5..]), isArray, arraySizes)
    else Parsed("", false, Undefined, false, arraySizes)
  }

  function ParseBaseType(typ: string): Parsed {
    var bracket := IndexOf(typ, '[') < |typ|;
    var spaceless := RemoveSpace(typ);
    var stripped := if bracket then spaceless[..IndexOf(spaceless, '[')] else spaceless;
    ParsedFrom(stripped, typ, if bracket then Dimensions(typ) else [])
  }

  // The printer.

  function SizeText(size: Size): string
    requires size.Bits? ==> size.n >= 0
  {
    if size.Bits? then Text(10, size.n) else ""
  }

  /** One bracket pair per dimension, -1 for an open one. */
  function BracketText(dims: seq<int>): string
    requires forall i :: 0 <= i < |dims| ==> dims[i] >= -1
  {
    if dims == [] then ""
    else "[" + (if dims[0] == -1 then "" else Text(10, dims[0])) + "]" + BracketText(dims[1..])
  }

  function TypeName(base: string, size: Size, dims: seq<int>): string
    requires (size.Bits? ==> size.n >= 0) && forall i :: 0 <= i < |dims| ==> dims[i] >= -1
  {
    base + SizeText(size) + BracketText(dims)
  }

  predicate Plain(s: string) {
    forall i :: 0 <= i < |s| ==> s[i] != '[' && s[i] != ' '
  }

  lemma {:induction false} SkipPlain(s: string, rest: string)
    requires Plain(s)
    ensures Dimensions(s + rest) == Dimensions(rest)
    decreases |s|
  {
    if s == "" {
      assert s + rest == rest;
    } else {
      assert (s + rest)[1..] == s[1..] + rest;
      SkipPlain(s[1..], rest);
    }
  }

  lemma {:induction false} DimensionsOfText(dims: seq<int>)
    requires forall i :: 0 <= i < |dims| ==> dims[i] >= -1
    ensures Dimensions(BracketText(dims)) == dims
    decreases |dims|
  {
    if dims != [] {
      var digits := if dims[0] == -1 then "" else Text(10, dims[0]);
      DimensionsOfText(dims[1..]);
      if dims[0] != -1 { ValueOfText(10, dims[0]); }
      OneDimension(digits, BracketText(dims[1..]));
      hide Text, Numeral, Value;
      assert Dimension(digits) == dims[0];
    }
  }

  lemma {:induction false} NoSpaceInBrackets(dims: seq<int>)
    requires forall i :: 0 <= i < |dims| ==> dims[i] >= -1
    ensures forall i :: 0 <= i < |BracketText(dims)| ==> BracketText(dims)[i] != ' '
    decreases |dims|
  {
    if dims != [] {
      NoSpaceInBrackets(dims[1..]);
      if dims[0] != -1 {
        ValueOfText(10, dims[0]);
        NoSpaceInNumeral(Text(10, dims[0]));
      }
      hide Text, Numeral, Value;
    }
  }

  lemma {:induction false} NoSpaceInNumeral(digits: string)
    requires Numeral(10, digits)
    ensures Plain(digits)
  {
    assert DigitValue(' ') == 36 && DigitValue('[') == 36;
  }

  lemma {:induction false} OneDimension(digits: string, rest: string)
    requires Numeral(10, digits)
    ensures Dimensions("[" + digits + "]" + rest) == [Dimension(digits)] + Dimensions(rest)
  {
    var s := "[" + digits + "]" + rest;
    assert s[1..] == digits + ("]" + rest);
    DigitRunSpec(digits, "]" + rest);
    assert s[1..][..|digits|] == digits && s[|digits| + 2..] == rest;
  }

  lemma {:induction false} KeepsSpaceless(s: string)
    requires forall i :: 0 <= i < |s| ==> s[i] != ' '
    ensures RemoveSpace(s) == s
  {
    if s != "" { KeepsSpaceless(s[1..]); }
  }

  lemma {:induction false} BracketSplit(head: string, dims: seq<int>)
    requires Plain(head) && forall i :: 0 <= i < |dims| ==> dims[i] >= -1
    ensures var t := head + BracketText(dims); IndexOf(t, '[') == |head| && t[..|head|] == head
    ensures BracketText(dims) == "" <==> dims == []
  {
    var t := head + BracketText(dims);
    assert forall i :: 0 <= i < |head| ==> t[i] == head[i];
    if dims != [] { assert t[|head|] == '['; }
  }

  /** A size makes the name of a sized type differ from every base type. */
  predicate Sized(base: string, size: Size) {
    size.Undefined? || (size.Bits? && size.n >= 0 && base in {"int", "uint", "bytes"})
  }

  lemma {:induction false} PlainHead(base: string, size: Size)
    requires IsBaseType(base) && Sized(base, size)
    ensures Plain(base + SizeText(size))
    ensures size.Bits? ==> !IsBaseType(base + SizeText(size))
  {
    if size.Bits? {
      ValueOfText(10, size.n);
      hide Text;
      NoSpaceInNumeral(Text(10, size.n));
      LastIsDigit(base, Text(10, size.n));
    }
  }

  lemma {:induction false} ParseOfSize(base: string, size: Size, rest: string)
    requires size.Bits? && size.n >= 0 && (rest != "" ==> DigitValue(rest[0]) >= 10)
    ensures SizeOf((base + SizeText(size) + rest)[|base|..]) == size
  {
    var d := Text(10, size.n);
    ValueOfText(10, size.n);
    hide Text, SizeOf, Value;
    assert (base + d + rest)[|base|..] == d + rest;
    ParseOfDigits(d, rest);
  }

  lemma {:induction false} LastIsDigit(base: string, d: string)
    requires d != "" && Numeral(10, d)
    ensures !IsBaseType(base + d)
  {
    var s := base + d;
    assert s[|s| - 1] == d[|d| - 1];
    EndsInLetter(s);
  }

  lemma {:induction false} EndsInLetter(s: string)
    ensures IsBaseType(s) ==> s != "" && DigitValue(s[|s| - 1]) >= 10
  {
    if IsBaseType(s) {
      assert s[|s| - 1] in {'l', 't', 's', 'g', 'e'};
    }
  }

  /** Printing a base type with its size and dimensions, then parsing it, gives all three back. */
  lemma {:induction false} TypeNameRoundTrip(base: string, size: Size, dims: seq<int>)
    requires IsBaseType(base) && Sized(base, size) && forall i :: 0 <= i < |dims| ==> dims[i] >= -1
    ensures ParseBaseType(TypeName(base, size, dims)) == Parsed(base, true, size, dims != [], dims)
  {
    var head, tail := base + SizeText(size), BracketText(dims);
    PlainHead(base, size);
    Layout(head, dims);
    assert size.Undefined? ==> head == base;
    hide Dimensions, RemoveSpace, IndexOf, SizeOf, BracketText, SizeText;
    assert TypeName(base, size, dims) == head + tail;
    if size.Bits? {
      SizedHead(base, size, tail);
      ParseSized(base, size, head, head + tail);
    } else {
      ParseUnsized(head, head + tail);
    }
  }

  /**
   * Which names are known: the seven base types and what starts with `int`, `uint` or `bytes`. The dimensions are
   * read from any name, but a name that is not known is no array.
   */
  lemma {:induction false} KnownNames(head: string, dims: seq<int>)
    requires Plain(head) && forall i :: 0 <= i < |dims| ==> dims[i] >= -1
    ensures var p := ParseBaseType(head + BracketText(dims));
            && (p.known <==> head in {"bool", "int", "uint", "bytes", "string", "address", "tuple"}
                               || "int" <= head || "uint" <= head || "bytes" <= head)
            && p.arraySizes == dims && (p.isArray <==> p.known && dims != [])
  {
    var typ := head + BracketText(dims);
    Layout(head, dims);
    Stripped(head, typ);
    hide RemoveSpace, IndexOf, Dimensions, SizeOf, BracketText;
    assert ParseBaseType(typ) == ParsedFrom(head, typ, dims);
  }

  /** What the parser's bracket test and stripping leave. */
  lemma {:induction false} Stripped(head: string, typ: string)
    requires RemoveSpace(typ) == typ && IndexOf(typ, '[') == |head| <= |typ| && typ[..|head|] == head
    ensures var spaceless := RemoveSpace(typ);
      (if IndexOf(typ, '[') < |typ| then spaceless[..IndexOf(spaceless, '[')] else spaceless) == head
  {
    hide RemoveSpace, IndexOf;
    assert |typ| == |head| ==> typ[..|head|] == typ;
  }

  lemma {:induction false} ParseUnsized(head: string, typ: string)
    requires RemoveSpace(typ) == typ && IndexOf(typ, '[') == |head| <= |typ| && typ[..|head|] == head
    requires IsBaseType(head) && (IndexOf(typ, '[') == |typ| ==> Dimensions(typ) == [])
    ensures ParseBaseType(typ) == Parsed(head, true, Undefined, Dimensions(typ) != [], Dimensions(typ))
  {
    Stripped(head, typ);
    hide RemoveSpace, IndexOf, Dimensions, SizeOf, IsBaseType;
  }

  lemma {:induction false} ParseSized(base: string, size: Size, head: string, typ: string)
    requires RemoveSpace(typ) == typ && IndexOf(typ, '[') == |head| <= |typ| && typ[..|head|] == head
    requires !IsBaseType(head) && (IndexOf(typ, '[') == |typ| ==> Dimensions(typ) == [])
    requires base in {"int", "uint", "bytes"} && |base| <= |head|
    requires StartsWith(head, "int") <==> base == "int"
    requires StartsWith(head, "uint") <==> base == "uint"
    requires StartsWith(head, "bytes") <==> base == "bytes"
    requires SizeOf(head[|base|..]) == size && SizeOf(typ[|base|..]) == size
    ensures ParseBaseType(typ) == Parsed(base, true, size, Dimensions(typ) != [], Dimensions(typ))
  {
    Stripped(head, typ);
    hide RemoveSpace, IndexOf, Dimensions, SizeOf, IsBaseType, StartsWith;
  }

  lemma {:induction false} Layout(head: string, dims: seq<int>)
    requires Plain(head) && forall i :: 0 <= i < |dims| ==> dims[i] >= -1
    ensures var t := head + BracketText(dims);
      RemoveSpace(t) == t && IndexOf(t, '[') == |head| && t[..|head|] == head && Dimensions(t) == dims
    ensures dims == [] ==> BracketText(dims) == ""
    ensures dims != [] ==> BracketText(dims) != "" && BracketText(dims)[0] == '['
  {
    var tail := BracketText(dims);
    var t := head + tail;
    DimensionsOfText(dims);
    NoSpaceInBrackets(dims);
    BracketSplit(head, dims);
    SkipPlain(head, tail);
    hide Dimensions;
    KeepsSpaceless(t);
  }

  lemma {:induction false} HeadStarts(base: string, d: string, tail: string)
    requires base in {"int", "uint", "bytes"}
    ensures StartsWith(base + d, "int") <==> base == "int"
    ensures StartsWith(base + d, "uint") <==> base == "uint"
    ensures StartsWith(base + d, "bytes") <==> base == "bytes"
  {
    var s := base + d;
    assert s[..|base|] == base;
    assert s[0] == base[0];
    if StartsWith(s, "int") { assert s[0] == s[..3][0] == 'i'; }
    if StartsWith(s, "uint") { assert s[0] == s[..4][0] == 'u'; }
    if StartsWith(s, "bytes") { assert s[0] == s[..5][0] == 'b'; }
  }

  lemma {:induction false} SizedHead(base: string, size: Size, tail: string)
    requires base in {"int", "uint", "bytes"} && size.Bits? && size.n >= 0
    requires tail != "" ==> tail[0] == '['
    ensures var head := base + SizeText(size);
      && (StartsWith(head, "int") <==> base == "int")
      && (StartsWith(head, "uint") <==> base == "uint")
      && (StartsWith(head, "bytes") <==> base == "bytes")
      && |base| <= |head|
      && SizeOf(head[|base|..]) == size && SizeOf((head + tail)[|base|..]) == size
  {
    var head := base + SizeText(size);
    assert DigitValue('[') >= 10;
    ParseOfSize(base, size, tail);
    ParseOfSize(base, size, "");
    assert head + "" == head;
    hide SizeOf, SizeText;
    HeadStarts(base, SizeText(size), tail);
  }
}
