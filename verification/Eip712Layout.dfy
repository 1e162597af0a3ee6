/** What EIP-712 asks for, form by form: names, arrays, texts, structs and atomic values, and an example. */
module Eip712Layout {
  import opened Wrappers
  import opened Strings
  import opened Numerals
  import opened HexText
  import opened Eip712Types
  import opened Eip712Hash

  // Names.

  /** The struct a type names: its longest beginning of letters, digits and underscores. */
  lemma {:induction false} WordSpec(typ: string)
    ensures Word(typ) <= typ
    ensures forall c :: c in Word(typ) ==> 'a' <= c <= 'z' || 'A' <= c <= 'Z' || '0' <= c <= '9' || c == '_'
    ensures |Word(typ)| < |typ| ==>
      var c := typ[|Word(typ)|]; !('a' <= c <= 'z' || 'A' <= c <= 'Z' || '0' <= c <= '9' || c == '_')
    decreases |typ|
  {
    if typ != "" && IsWordChar(typ[0]) {
      WordSpec(typ[1..]);
      assert typ == [typ[0]] + typ[1..];
    }
  }

  lemma {:induction false} WordOfWord(s: string)
    requires forall i :: 0 <= i < |s| ==> IsWordChar(s[i])
    ensures Word(s) == s
    decreases |s|
  {
    if s != "" { WordOfWord(s[1..]); }
  }

  // Arrays.

  /** An array type is an element type with digits, or none, in brackets; a length of 0 is no length. */
  lemma {:induction false} ArrayOfSpec(element: string, digits: string)
    requires Numeral(10, digits)
    ensures ArrayOf(element + "[" + digits + "]")
      == Some(ArrayType(element, if Value(10, digits) == 0 then None else Some(Value(10, digits))))
  {
    var typ := element + "[" + digits + "]";
    var n := |typ| - 1;
    assert DigitValue('[') == 36;
    forall i | |element| < i < n ensures typ[i] != '[' { assert typ[i] == digits[i - |element| - 1]; }
    BracketFound(typ, n, |element|);
    assert typ[|element| + 1..n] == digits && typ[..|element|] == element;
  }

  lemma {:induction false} BracketFound(s: string, i: nat, at: nat)
    requires at < i <= |s| && s[at] == '[' && forall k :: at < k < i ==> s[k] != '['
    ensures LastBracket(s, i) == at + 1
    decreases i
  {
    if at + 1 < i { BracketFound(s, i - 1, at); }
  }

  lemma {:induction false} StructIsNoArray(types: Table, rank: string -> nat, typ: string)
    requires Acyclic(types, rank) && typ in types
    ensures ArrayOf(typ).None?
  {
    WordSpec(typ);
    assert typ[|typ| - 1] in Word(typ);
  }

  /**
   * An array: anything but a list is refused, and so is a list of the wrong length; otherwise it is the hash of the
   * words of its items, in order.
   */
  lemma {:induction false} ArrayEncoding(coder: Coder, types: Table, rank: string -> nat, element: string,
      digits: string, data: Data)
    requires Acyclic(types, rank) && Numeral(10, digits)
    ensures var r, n := EncodeValue(coder, types, rank, element + "[" + digits + "]", data), Value(10, digits);
      && (!data.Items? ==> r == Err(NotAnArray))
      && (data.Items? && n > 0 && |data.items| != n ==> r == Err(WrongLength))
      && (r.Ok? ==> data.Items? && (n > 0 ==> |data.items| == n)
                    && ItemWords(coder, types, rank, element, data.items, r.value))
  {
    ArrayOfSpec(element, digits);
    hide EncodeItems, EncodeParameters, ItemWords, Acyclic, ArrayOf;
    var r := EncodeValue(coder, types, rank, element + "[" + digits + "]", data);
    if r.Ok? { ItemsEncoding(coder, types, rank, element, data.items, r.value); }
  }

  /** The pair is the hash of one word for each item. */
  ghost predicate ItemWords(coder: Coder, types: Table, rank: string -> nat, element: string, items: seq<Data>, p: Pair)
    requires Acyclic(types, rank)
  {
    exists words: seq<Word32> ::
      && p == Pair("bytes32", HashValue(Keccak(Words(words)))) && |words| == |items|
      && forall i :: 0 <= i < |items| ==>
           var x := EncodeValue(coder, types, rank, element, items[i]);
           x.Ok? && WordOf(coder, x.value) == Some(words[i])
  }

  lemma {:induction false} ItemsEncoding(coder: Coder, types: Table, rank: string -> nat, element: string,
      items: seq<Data>, p: Pair)
    requires Acyclic(types, rank) && EncodeItems(coder, types, rank, element, items).Ok?
    requires EncodeParameters(coder, EncodeItems(coder, types, rank, element, items).value).Ok?
    requires p == Pair("bytes32", HashValue(Keccak(Words(
      EncodeParameters(coder, EncodeItems(coder, types, rank, element, items).value).value))))
    ensures ItemWords(coder, types, rank, element, items, p)
  {
    hide EncodeItems, EncodeParameters, EncodeValue, Acyclic, WordOf;
    var ps := EncodeItems(coder, types, rank, element, items).value;
    ItemsSpec(coder, types, rank, element, items);
    ParametersSpec(coder, ps);
    var words := EncodeParameters(coder, ps).value;
    assert p == Pair("bytes32", HashValue(Keccak(Words(words)))) && |words| == |items|;
  }

  // Texts, structs and atomic values.

  /** Strings and bytes: the hash of the bytes that strict hex spells, of the UTF-8 bytes of any other text. */
  lemma {:induction false} TextEncoding(coder: Coder, types: Table, rank: string -> nat, typ: string, text: string)
    requires Acyclic(types, rank) && (typ == "string" || typ == "bytes") && typ !in types
    ensures var r := EncodeValue(coder, types, rank, typ, Scalar(text));
      && (!IsHexStrict(text) ==> r == Ok(Pair("bytes32", HashValue(Keccak(Octets(coder.utf8(text)))))))
      && (IsHexStrict(text) && text[0] != '-' && |text| % 2 == 0 ==>
            r == Ok(Pair("bytes32", HashValue(Keccak(Octets(HexBytes(text[2..])))))))
      && (IsHexStrict(text) && (text[0] == '-' || |text| % 2 == 1) ==> r.Err?)
  {
    assert ArrayOf(typ).None? by { assert typ[|typ| - 1] != ']'; }
    hide IsHexStrict, HexBytes;
  }

  /** A struct is the word of its hash. */
  lemma {:induction false} StructEncoding(coder: Coder, types: Table, rank: string -> nat, typ: string, data: Data)
    requires Acyclic(types, rank) && typ in types
    ensures var r, h := EncodeValue(coder, types, rank, typ, data), GetStructHash(coder, types, rank, typ, data);
      && (r.Ok? <==> h.Ok?) && (h.Ok? ==> r == Ok(Pair("bytes32", HashValue(h.value))))
  {
    StructIsNoArray(types, rank, typ);
    hide GetStructHash;
  }

  /** Any other type is left to the ABI coder. */
  lemma {:induction false} AtomEncoding(coder: Coder, types: Table, rank: string -> nat, typ: string, data: Data)
    requires Acyclic(types, rank) && typ !in types && typ != "string" && typ != "bytes"
    requires typ == "" || typ[|typ| - 1] != ']'
    ensures var r := EncodeValue(coder, types, rank, typ, data);
      r == Ok(Pair(typ, RawValue(data)))
        && WordOf(coder, r.value) == (match coder.atom(typ, data) case None => None case Some(n) => Some(Atom(n)))
  {}

  /** The hash of a type is that of the UTF-8 bytes of its encoding. */
  lemma {:induction false} TypeHashing(coder: Coder, types: Table, rank: string -> nat, typ: string)
    requires Acyclic(types, rank) && typ in types
    ensures Word(typ) == typ
    ensures TypeHash(coder, types, rank, typ) == Keccak(Octets(coder.utf8(EncodeType(types, rank, typ))))
  {}

  /** A declared field that is missing or nullish is refused. */
  lemma {:induction false} MissingFieldIsRefused(coder: Coder, types: Table, rank: string -> nat, typ: string,
      members: seq<Member>, i: nat)
    requires Acyclic(types, rank) && typ in types && i < |types[typ]|
    requires forall k :: 0 <= k < |members| && members[k].name == types[typ][i].name ==> members[k].data.Nullish?
    ensures GetStructHash(coder, types, rank, typ, Record(members)).Err?
  {
    var r := GetStructHash(coder, types, rank, typ, Record(members));
    hide GetStructHash, EncodeValue, TypeHash, Acyclic;
    assert Missing(Record(members), types[typ][i].name);
    if r.Ok? { var words := StructLayout(coder, types, rank, typ, Record(members)); }
  }

  // The example of EIP-712, section "Definition of encodeType".

  const TRANSACTION := [Field("from", "Person"), Field("to", "Person"), Field("tx", "Asset")]
  const PERSON := [Field("wallet", "address"), Field("name", "string")]
  const ASSET := [Field("token", "address"), Field("amount", "uint256")]

  lemma {:induction false} ExampleEncoding(types: Table, rank: string -> nat)
    requires types == map["Transaction" := TRANSACTION, "Person" := PERSON, "Asset" := ASSET]
    requires rank("Transaction") == 1 && rank("Person") == 0 && rank("Asset") == 0
    ensures Acyclic(types, rank) && Word("Transaction") in types
    ensures EncodeType(types, rank, "Transaction")
      == "Transaction(Person from,Person to,Asset tx)" + "Asset(address token,uint256 amount)"
        + "Person(address wallet,string name)"
  {
    hide Word, EncodeType, Reaches, StructText, StructTexts;
    ExampleWords();
    ExampleEdges(types);
    ExampleClosure(types, rank);
    AssetBeforePerson();
    var others := ["Asset", "Person"];
    assert forall u :: u in others <==> u in {"Asset", "Person"};
    EncodeTypeIsCanonical(types, rank, "Transaction", others);
    ExampleTexts(types);
  }

  lemma {:induction false} AssetBeforePerson()
    ensures Earlier("Asset", "Person")
  {
    assert "Asset"[..0] == "Person"[..0] && "Asset"[0] < "Person"[0];
  }

  lemma {:induction false} ExampleWords()
    ensures Word("Transaction") == "Transaction" && Word("Person") == "Person" && Word("Asset") == "Asset"
    ensures Word("address") == "address" && Word("string") == "string" && Word("uint256") == "uint256"
  {
    hide Word;
    WordOfWord("Transaction");
    WordOfWord("Person");
    WordOfWord("Asset");
    WordOfWord("address");
    WordOfWord("string");
    WordOfWord("uint256");
  }

  lemma {:induction false} ExampleEdges(types: Table)
    requires types == map["Transaction" := TRANSACTION, "Person" := PERSON, "Asset" := ASSET]
    ensures forall a, b :: Edge(types, a, b) <==> a == "Transaction" && (b == "Person" || b == "Asset")
    ensures Named(types)
  {
    hide Word;
    ExampleWords();
    assert Word(TRANSACTION[0].typ) == "Person" && Word(TRANSACTION[1].typ) == "Person";
    assert Word(TRANSACTION[2].typ) == "Asset" && Word(PERSON[0].typ) == "address" && Word(PERSON[1].typ) == "string";
    assert Word(ASSET[0].typ) == "address" && Word(ASSET[1].typ) == "uint256";
  }

  lemma {:induction false} ExampleClosure(types: Table, rank: string -> nat)
    requires Layered(types, rank) && "Transaction" in types && "Person" in types && "Asset" in types
    requires forall a, b :: Edge(types, a, b) <==> a == "Transaction" && (b == "Person" || b == "Asset")
    ensures forall u :: Reaches(types, "Transaction", u) <==> u == "Transaction" || u == "Person" || u == "Asset"
  {
    hide Edge, Reaches, Word;
    var t := "Transaction";
    ReachesItself(types, t);
    ReachesItself(types, "Person");
    ReachesItself(types, "Asset");
    ReachesVia(types, t, "Person", "Person");
    ReachesVia(types, t, "Asset", "Asset");
    forall u | Reaches(types, t, u) ensures u == t || u == "Person" || u == "Asset" {
      var b := ReachesFirst(types, t, u);
      if u != t { var c := ReachesFirst(types, b, u); }
    }
  }

  lemma {:induction false} ExampleTexts(types: Table)
    requires types == map["Transaction" := TRANSACTION, "Person" := PERSON, "Asset" := ASSET]
    ensures forall n :: n in ["Transaction"] + ["Asset", "Person"] ==> n in types
    ensures StructTexts(types, ["Transaction"] + ["Asset", "Person"])
      == "Transaction(Person from,Person to,Asset tx)" + "Asset(address token,uint256 amount)"
        + "Person(address wallet,string name)"
  {
    hide StructText, StructTexts;
    assert ["Transaction"] + ["Asset", "Person"] == ["Transaction", "Asset", "Person"];
    TextsOfThree(types, "Transaction", "Asset", "Person");
    TransactionText();
    AssetText();
    PersonText();
  }

  lemma {:induction false} TextsOfThree(types: Table, a: string, b: string, c: string)
    requires a in types && b in types && c in types
    ensures StructTexts(types, [a, b, c]) == StructText(a, types[a]) + StructText(b, types[b]) + StructText(c, types[c])
  {
    hide StructText;
    assert [a, b, c][..2] == [a, b] && [a, b][..1] == [a] && [a][..0] == [];
    assert StructTexts(types, [a]) == "" + StructText(a, types[a]) == StructText(a, types[a]);
  }

  lemma {:induction false} TransactionText()
    ensures StructText("Transaction", TRANSACTION) == "Transaction(Person from,Person to,Asset tx)"
  {
    hide Join, FieldPhrases;
    TransactionPhrases();
    JoinThree("Person from", "Person to", "Asset tx");
    FieldsOfTransaction();
    assert "Transaction" + "(" + "Person from,Person to,Asset tx" + ")"
      == "Transaction(Person from,Person to,Asset tx)";
  }

  lemma {:induction false} TransactionPhrases()
    ensures FieldPhrases(TRANSACTION) == ["Person from", "Person to", "Asset tx"]
  {
    var phrases := FieldPhrases(TRANSACTION);
    assert phrases[0] == "Person from";
    assert phrases[1] == "Person to";
    assert phrases[2] == "Asset tx";
  }

  lemma {:induction false} FieldsOfTransaction()
    ensures "Person from" + "," + "Person to" + "," + "Asset tx" == "Person from,Person to,Asset tx"
  {
    assert "Person from" + "," + "Person to" == "Person from,Person to";
    assert "Person from,Person to" + "," + "Asset tx" == "Person from,Person to,Asset tx";
  }

  lemma {:induction false} JoinThree(a: string, b: string, c: string)
    ensures Join([a, b, c]) == a + "," + b + "," + c
  {
    assert [a, b, c][1..] == [b, c] && [b, c][1..] == [c];
    assert Join([b, c]) == b + "," + c;
    assert a + "," + (b + "," + c) == a + "," + b + "," + c;
  }

  lemma {:induction false} AssetText()
    ensures StructText("Asset", ASSET) == "Asset(address token,uint256 amount)"
  {
    var phrases := FieldPhrases(ASSET);
    assert phrases[0] == "address token" && phrases[1] == "uint256 amount";
    hide FieldPhrases;
    assert phrases == ["address token", "uint256 amount"] && phrases[1..] == ["uint256 amount"];
  }

  lemma {:induction false} PersonText()
    ensures StructText("Person", PERSON) == "Person(address wallet,string name)"
  {
    var phrases := FieldPhrases(PERSON);
    assert phrases[0] == "address wallet" && phrases[1] == "string name";
    hide FieldPhrases;
    assert phrases == ["address wallet", "string name"] && phrases[1..] == ["string name"];
  }
}
