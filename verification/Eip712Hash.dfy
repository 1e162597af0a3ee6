/**
 * EIP-712 hashing of typed data. Keccak is a free constructor: two hashes are equal exactly when
 * what was hashed is. UTF-8 and the ABI coding of atomic types are parameters.
 */
module Eip712Hash {
  import opened Wrappers
  import opened Numerals
  import opened HexText
  import opened Eip712Types

  datatype Error = NotAnArray | WrongLength | MissingData | NotEncodable | UnknownStruct

  /** The JavaScript data to encode. */
  datatype Data = Nullish | Scalar(text: string) | Items(items: seq<Data>) | Record(members: seq<Member>)

  datatype Member = Member(name: string, data: Data)

  datatype TypedData = TypedData(primaryType: string, domain: Data, message: Data)

  datatype Hash = Keccak(input: Preimage)

  /** What is hashed: bytes, the 32-byte words an ABI encoding of static types consists of, or a message to sign. */
  datatype Preimage = Octets(bytes: seq<Byte>) | Words(words: seq<Word32>) | Signed(message: Message)

  /** The EIP-191 message: the prefix 1901, the domain hash and the message hash. */
  datatype Message = Message(prefix: seq<Byte>, domain: Hash, content: Hash)

  datatype Word32 = Digest(hash: Hash) | Atom(n: nat)

  /** The libraries: UTF-8, and the ABI word of an atomic value of a type, if it has one. */
  datatype Coder = Coder(utf8: string -> seq<Byte>, atom: (string, Data) -> Option<nat>)

  // Texts.

  /** The bytes keccak256 hashes for a text: strict hex is decoded, any other text is UTF-8. */
  function TextBytes(coder: Coder, s: string): Option<seq<Byte>> {
    if !IsHexStrict(s) then Some(coder.utf8(s))
    else if s[0] == '-' || |s| % 2 != 0 then None
    else Some(HexBytes(s[2..]))
  }

  function HashText(coder: Coder, data: Data): Result<Hash, Error> {
    if !data.Scalar? then Err(NotEncodable)
    else
      match TextBytes(coder, data.text)
      case None => Err(NotEncodable)
      case Some(bytes) => Ok(Keccak(Octets(bytes)))
  }

  // Array types.

  datatype ArrayType = ArrayType(element: string, length: Option<nat>)

  function LastBracket(s: string, i: nat): nat
    requires i <= |s|
    ensures LastBracket(s, i) <= i
  {
    if i == 0 then 0 else if s[i - 1] == '[' then i else LastBracket(s, i - 1)
  }

  /** `/^(.*)\[([0-9]*?)]$/`; the length `Number(digits) || undefined` drops 0. */
  function ArrayOf(typ: string): Option<ArrayType> {
    if typ == "" || typ[|typ| - 1] != ']' then None
    else
      var at := LastBracket(typ, |typ| - 1);
      if at == 0 || !Numeral(10, typ[at..|typ| - 1]) then None
      else
        var n := Value(10, typ[at..|typ| - 1]);
        Some(ArrayType(typ[..at - 1], if n == 0 then None else Some(n)))
  }

  // The encoder.

  datatype Encoded = HashValue(hash: Hash) | RawValue(data: Data)

  datatype Pair = Pair(typ: string, encoded: Encoded)

  /** The index of a member, or the number of members if there is none of this name. */
  function IndexOf(members: seq<Member>, name: string): (i: nat)
    ensures i <= |members|
    ensures i < |members| ==> members[i].name == name
  {
    if members == [] then 0 else if members[0].name == name then 0 else 1 + IndexOf(members[1..], name)
  }

  predicate Missing(data: Data, name: string) {
    !data.Record? ||
    (var i := IndexOf(data.members, name); i == |data.members| || data.members[i].data.Nullish?)
  }

  function EncodeParameters(coder: Coder, pairs: seq<Pair>): Result<seq<Word32>, Error> {
    if pairs == [] then Ok([])
    else
      var first :- match pairs[0].encoded {
        case HashValue(h) => Ok(Digest(h))
        case RawValue(data) =>
          (match coder.atom(pairs[0].typ, data)
           case None => Err(NotEncodable)
           case Some(n) => Ok(Atom(n)))
      };
      var rest :- EncodeParameters(coder, pairs[1..]);
      Ok([first] + rest)
  }

  function TypeHash(coder: Coder, types: Table, ghost rank: string -> nat, typ: string): Hash
    requires Acyclic(types, rank) && typ in types
  {
    assert Word(typ) == typ;
    Keccak(Octets(coder.utf8(EncodeType(types, rank, typ))))
  }

  function EncodeValue(coder: Coder, types: Table, ghost rank: string -> nat, typ: string, data: Data)
    : Result<Pair, Error>
    requires Acyclic(types, rank)
    decreases data, 2, 0
  {
    var shape := ArrayOf(typ);
    if shape.Some? then
      if !data.Items? then Err(NotAnArray)
      else if shape.value.length.Some? && |data.items| != shape.value.length.value then Err(WrongLength)
      else
        var pairs :- EncodeItems(coder, types, rank, shape.value.element, data.items);
        var words :- EncodeParameters(coder, pairs);
        Ok(Pair("bytes32", HashValue(Keccak(Words(words)))))
    else if typ in types then
      var h :- GetStructHash(coder, types, rank, typ, data);
      Ok(Pair("bytes32", HashValue(h)))
    else if typ == "string" || typ == "bytes" then
      var h :- HashText(coder, data);
      Ok(Pair("bytes32", HashValue(h)))
    else Ok(Pair(typ, RawValue(data)))
  }

  function EncodeItems(coder: Coder, types: Table, ghost rank: string -> nat, element: string, items: seq<Data>)
    : Result<seq<Pair>, Error>
    requires Acyclic(types, rank)
    decreases items, 0, 0
  {
    if items == [] then Ok([])
    else
      var first :- EncodeValue(coder, types, rank, element, items[0]);
      var rest :- EncodeItems(coder, types, rank, element, items[1..]);
      Ok([first] + rest)
  }

  function EncodeFields(coder: Coder, types: Table, ghost rank: string -> nat, fields: seq<Field>, data: Data)
    : Result<seq<Pair>, Error>
    requires Acyclic(types, rank)
    decreases data, 0, |fields|
  {
    if fields == [] then Ok([])
    else if Missing(data, fields[0].name) then Err(MissingData)
    else
      var value := data.members[IndexOf(data.members, fields[0].name)].data;
      var first :- EncodeValue(coder, types, rank, fields[0].typ, value);
      var rest :- EncodeFields(coder, types, rank, fields[1..], data);
      Ok([first] + rest)
  }

  function GetStructHash(coder: Coder, types: Table, ghost rank: string -> nat, typ: string, data: Data)
    : Result<Hash, Error>
    requires Acyclic(types, rank)
    decreases data, 1, 0
  {
    if typ !in types then Err(UnknownStruct)
    else
      var pairs :- EncodeFields(coder, types, rank, types[typ], data);
      var words :- EncodeParameters(coder, [Pair("bytes32", HashValue(TypeHash(coder, types, rank, typ)))] + pairs);
      Ok(Keccak(Words(words)))
  }

  /** The message to sign as it is, or, on demand, its hash. */
  datatype Signable = Whole(message: Message) | Hashed(hash: Hash)

  function GetMessage(coder: Coder, types: Table, ghost rank: string -> nat, data: TypedData, hash: bool)
    : Result<Signable, Error>
    requires Acyclic(types, rank)
  {
    var d :- GetStructHash(coder, types, rank, "EIP712Domain", data.domain);
    var m :- GetStructHash(coder, types, rank, data.primaryType, data.message);
    var message := Message([0x19, 0x01], d, m);
    Ok(if hash then Hashed(Keccak(Signed(message))) else Whole(message))
  }

  // What the hash fixes: the same declared values at every level, texts taken as the bytes that are hashed.

  predicate SameValue(coder: Coder, types: Table, typ: string, v: Data, w: Data)
    decreases v, 1, 0
  {
    var shape := ArrayOf(typ);
    if shape.Some? then
      && v.Items? && w.Items? && |v.items| == |w.items|
      && forall i :: 0 <= i < |v.items| ==> SameValue(coder, types, shape.value.element, v.items[i], w.items[i])
    else if typ in types then SameFields(coder, types, types[typ], v, w)
    else if typ == "string" || typ == "bytes" then
      v.Scalar? && w.Scalar? && TextBytes(coder, v.text) == TextBytes(coder, w.text)
    else coder.atom(typ, v) == coder.atom(typ, w)
  }

  /** Equal values on every declared field, whatever else the two objects hold. */
  predicate SameFields(coder: Coder, types: Table, fields: seq<Field>, v: Data, w: Data)
    decreases v, 0, |fields|
  {
    fields == [] ||
    (&& !Missing(v, fields[0].name) && !Missing(w, fields[0].name)
     && SameValue(coder, types, fields[0].typ,
                  v.members[IndexOf(v.members, fields[0].name)].data,
                  w.members[IndexOf(w.members, fields[0].name)].data)
     && SameFields(coder, types, fields[1..], v, w))
  }

  /** One pair is one word. */
  function WordOf(coder: Coder, p: Pair): Option<Word32> {
    match p.encoded
    case HashValue(h) => Some(Digest(h))
    case RawValue(data) =>
      (match coder.atom(p.typ, data)
       case None => None
       case Some(n) => Some(Atom(n)))
  }

  predicate Encodable(coder: Coder, ps: seq<Pair>) {
    forall i :: 0 <= i < |ps| ==> WordOf(coder, ps[i]).Some?
  }

  /** Two lists of pairs with the same words. */
  predicate Match(coder: Coder, ps: seq<Pair>, qs: seq<Pair>) {
    |ps| == |qs| && forall i :: 0 <= i < |ps| ==> WordOf(coder, ps[i]) == WordOf(coder, qs[i])
  }

  lemma {:induction false} ParametersSpec(coder: Coder, pairs: seq<Pair>)
    ensures EncodeParameters(coder, pairs).Ok? <==> Encodable(coder, pairs)
    ensures EncodeParameters(coder, pairs).Ok? ==>
              var ws := EncodeParameters(coder, pairs).value;
              |ws| == |pairs| && forall i :: 0 <= i < |ws| ==> WordOf(coder, pairs[i]) == Some(ws[i])
  {
    if pairs != [] { ParametersSpec(coder, pairs[1..]); }
  }

  /** Two lists that encode do so alike exactly when they match pair by pair. */
  lemma {:induction false} ParametersEqual(coder: Coder, ps: seq<Pair>, qs: seq<Pair>)
    requires EncodeParameters(coder, ps).Ok? && EncodeParameters(coder, qs).Ok?
    ensures Encodable(coder, ps) && Encodable(coder, qs)
    ensures EncodeParameters(coder, ps) == EncodeParameters(coder, qs) <==> Match(coder, ps, qs)
  {
    ParametersSpec(coder, ps);
    ParametersSpec(coder, qs);
    var a, b := EncodeParameters(coder, ps).value, EncodeParameters(coder, qs).value;
    if Match(coder, ps, qs) {
      forall i | 0 <= i < |a| ensures a[i] == b[i] { assert WordOf(coder, ps[i]) == WordOf(coder, qs[i]); }
      assert a == b;
    }
  }

  lemma {:induction false} Cons(coder: Coder, p: Pair, ps: seq<Pair>, q: Pair, qs: seq<Pair>)
    ensures Match(coder, [p] + ps, [q] + qs) <==> WordOf(coder, p) == WordOf(coder, q) && Match(coder, ps, qs)
    ensures Encodable(coder, [p] + ps) <==> WordOf(coder, p).Some? && Encodable(coder, ps)
    ensures Encodable(coder, [q] + qs) <==> WordOf(coder, q).Some? && Encodable(coder, qs)
  {
    var xs, ys := [p] + ps, [q] + qs;
    assert xs[0] == p && ys[0] == q && xs[1..] == ps && ys[1..] == qs;
    assert forall i :: 0 <= i < |ps| ==> ps[i] == xs[i + 1];
    assert forall i :: 0 <= i < |qs| ==> qs[i] == ys[i + 1];
  }

  lemma {:induction false} TextHashEqual(coder: Coder, v: Data, w: Data)
    requires HashText(coder, v).Ok? && HashText(coder, w).Ok?
    ensures HashText(coder, v) == HashText(coder, w) <==> TextBytes(coder, v.text) == TextBytes(coder, w.text)
  {}

  /** The value encodes to a single word. */
  predicate HasWord(coder: Coder, types: Table, ghost rank: string -> nat, typ: string, v: Data)
    requires Acyclic(types, rank)
  {
    var p := EncodeValue(coder, types, rank, typ, v);
    p.Ok? && WordOf(coder, p.value).Some?
  }

  /** The word of a value determines the value, at every nesting level, and the other way round. */
  lemma {:induction false} ValueInjective(coder: Coder, types: Table, rank: string -> nat, typ: string, v: Data,
      w: Data)
    requires Acyclic(types, rank)
    requires HasWord(coder, types, rank, typ, v) && HasWord(coder, types, rank, typ, w)
    ensures var x, y := EncodeValue(coder, types, rank, typ, v).value, EncodeValue(coder, types, rank, typ, w).value;
            WordOf(coder, x) == WordOf(coder, y) <==> SameValue(coder, types, typ, v, w)
    decreases v, 2, 0
  {
    hide Match, Encodable, EncodeParameters;
    var shape := ArrayOf(typ);
    if shape.Some? {
      ArrayInjective(coder, types, rank, shape.value.element, v.items, w.items);
    } else if typ in types {
      OneTypeInjective(coder, types, rank, typ, v, w);
    } else if typ == "string" || typ == "bytes" {
      TextHashEqual(coder, v, w);
    }
  }

  lemma {:induction false} ArrayInjective(coder: Coder, types: Table, rank: string -> nat, element: string,
      vs: seq<Data>, ws: seq<Data>)
    requires Acyclic(types, rank)
    requires EncodeItems(coder, types, rank, element, vs).Ok? && EncodeItems(coder, types, rank, element, ws).Ok?
    requires EncodeParameters(coder, EncodeItems(coder, types, rank, element, vs).value).Ok?
    requires EncodeParameters(coder, EncodeItems(coder, types, rank, element, ws).value).Ok?
    ensures EncodeParameters(coder, EncodeItems(coder, types, rank, element, vs).value)
              == EncodeParameters(coder, EncodeItems(coder, types, rank, element, ws).value)
            <==> |vs| == |ws| && forall i :: 0 <= i < |vs| ==> SameValue(coder, types, element, vs[i], ws[i])
    decreases vs, 0, 0
  {
    hide EncodeParameters, SameValue, EncodeValue;
    var ps := EncodeItems(coder, types, rank, element, vs).value;
    var qs := EncodeItems(coder, types, rank, element, ws).value;
    ItemsSpec(coder, types, rank, element, vs);
    ItemsSpec(coder, types, rank, element, ws);
    ParametersEqual(coder, ps, qs);
    if |vs| == |ws| {
      forall i | 0 <= i < |vs|
        ensures WordOf(coder, ps[i]) == WordOf(coder, qs[i]) <==> SameValue(coder, types, element, vs[i], ws[i])
      {
        ValueInjective(coder, types, rank, element, vs[i], ws[i]);
      }
    }
  }

  lemma {:induction false} ItemsSpec(coder: Coder, types: Table, rank: string -> nat, element: string, items: seq<Data>)
    requires Acyclic(types, rank) && EncodeItems(coder, types, rank, element, items).Ok?
    ensures var ps := EncodeItems(coder, types, rank, element, items).value;
            && |ps| == |items|
            && forall i :: 0 <= i < |items| ==> EncodeValue(coder, types, rank, element, items[i]) == Ok(ps[i])
    decreases |items|
  {
    hide EncodeValue;
    if items != [] { ItemsSpec(coder, types, rank, element, items[1..]); }
  }

  /** Of one struct type, two objects have one hash exactly when they agree on every declared field at every level. */
  lemma {:induction false} OneTypeInjective(coder: Coder, types: Table, rank: string -> nat, typ: string, v: Data,
      w: Data)
    requires Acyclic(types, rank) && typ in types
    requires GetStructHash(coder, types, rank, typ, v).Ok? && GetStructHash(coder, types, rank, typ, w).Ok?
    ensures GetStructHash(coder, types, rank, typ, v) == GetStructHash(coder, types, rank, typ, w)
            <==> SameFields(coder, types, types[typ], v, w)
    decreases v, 1, 0
  {
    hide Match, Encodable, EncodeParameters, EncodeFields, SameFields, TypeHash, Acyclic;
    var head := Pair("bytes32", HashValue(TypeHash(coder, types, rank, typ)));
    var ps := EncodeFields(coder, types, rank, types[typ], v).value;
    var qs := EncodeFields(coder, types, rank, types[typ], w).value;
    ParametersEqual(coder, [head] + ps, [head] + qs);
    Cons(coder, head, ps, head, qs);
    FieldsInjective(coder, types, rank, types[typ], v, w);
  }

  lemma {:induction false} FieldsInjective(coder: Coder, types: Table, rank: string -> nat, fields: seq<Field>,
      v: Data, w: Data)
    requires Acyclic(types, rank)
    requires var p := EncodeFields(coder, types, rank, fields, v); p.Ok? && Encodable(coder, p.value)
    requires var q := EncodeFields(coder, types, rank, fields, w); q.Ok? && Encodable(coder, q.value)
    ensures var x := EncodeFields(coder, types, rank, fields, v).value;
            var y := EncodeFields(coder, types, rank, fields, w).value;
            Match(coder, x, y) <==> SameFields(coder, types, fields, v, w)
    decreases v, 0, |fields|
  {
    if fields != [] {
      hide Match, Encodable, EncodeValue, SameValue, Acyclic;
      var name, rest := fields[0].name, fields[1..];
      var x := v.members[IndexOf(v.members, name)].data;
      var y := w.members[IndexOf(w.members, name)].data;
      var p := EncodeValue(coder, types, rank, fields[0].typ, x).value;
      var q := EncodeValue(coder, types, rank, fields[0].typ, y).value;
      var ps, qs := EncodeFields(coder, types, rank, rest, v).value, EncodeFields(coder, types, rank, rest, w).value;
      Cons(coder, p, ps, q, qs);
      ValueInjective(coder, types, rank, fields[0].typ, x, y);
      FieldsInjective(coder, types, rank, rest, v, w);
    }
  }

  /** The data of a declared field. */
  function FieldData(data: Data, name: string): Data
    requires !Missing(data, name)
  {
    data.members[IndexOf(data.members, name)].data
  }

  lemma {:induction false} FieldsSpec(coder: Coder, types: Table, rank: string -> nat, fields: seq<Field>, data: Data)
    requires Acyclic(types, rank) && EncodeFields(coder, types, rank, fields, data).Ok?
    ensures var ps := EncodeFields(coder, types, rank, fields, data).value;
            |ps| == |fields| && forall i :: 0 <= i < |ps| ==>
              && !Missing(data, fields[i].name)
              && EncodeValue(coder, types, rank, fields[i].typ, FieldData(data, fields[i].name)) == Ok(ps[i])
    decreases |fields|
  {
    hide EncodeValue;
    if fields != [] { FieldsSpec(coder, types, rank, fields[1..], data); }
  }

  lemma {:induction false} StructWords(coder: Coder, types: Table, rank: string -> nat, typ: string, data: Data)
    requires Acyclic(types, rank) && GetStructHash(coder, types, rank, typ, data).Ok?
    ensures typ in types && EncodeFields(coder, types, rank, types[typ], data).Ok?
    ensures var head := Pair("bytes32", HashValue(TypeHash(coder, types, rank, typ)));
            var ws := EncodeParameters(coder, [head] + EncodeFields(coder, types, rank, types[typ], data).value);
            ws.Ok? && GetStructHash(coder, types, rank, typ, data) == Ok(Keccak(Words(ws.value)))
  {
    hide EncodeParameters, EncodeFields, TypeHash;
  }

  lemma {:induction false} HashWord(coder: Coder, h: Hash)
    ensures WordOf(coder, Pair("bytes32", HashValue(h))) == Some(Digest(h))
  {}

  /** The layout EIP-712 prescribes: the type hash, then one word per field, in the declared order. */
  lemma {:induction false} StructLayout(coder: Coder, types: Table, rank: string -> nat, typ: string, data: Data)
      returns (words: seq<Word32>)
    requires Acyclic(types, rank) && GetStructHash(coder, types, rank, typ, data).Ok?
    ensures typ in types && GetStructHash(coder, types, rank, typ, data) == Ok(Keccak(Words(words)))
    ensures |words| == 1 + |types[typ]| && words[0] == Digest(TypeHash(coder, types, rank, typ))
    ensures forall i :: 0 <= i < |types[typ]| ==>
              && !Missing(data, types[typ][i].name)
              && var p := EncodeValue(coder, types, rank, types[typ][i].typ, FieldData(data, types[typ][i].name));
                 p.Ok? && WordOf(coder, p.value) == Some(words[i + 1])
  {
    hide EncodeParameters, EncodeFields, EncodeValue, TypeHash, Acyclic, GetStructHash;
    hide Missing, WordOf, Encodable, FieldData;
    StructWords(coder, types, rank, typ, data);
    HashWord(coder, TypeHash(coder, types, rank, typ));
    var fields := types[typ];
    var head := Pair("bytes32", HashValue(TypeHash(coder, types, rank, typ)));
    var ps := EncodeFields(coder, types, rank, fields, data).value;
    FieldsSpec(coder, types, rank, fields, data);
    ParametersSpec(coder, [head] + ps);
    words := EncodeParameters(coder, [head] + ps).value;
    assert ([head] + ps)[0] == head;
    assert forall i :: 0 <= i < |ps| ==> ([head] + ps)[i + 1] == ps[i];
  }

  // The struct type is fixed, too: it is what the type hash is for.

  ghost predicate Utf8Injective(coder: Coder) {
    forall a, b :: coder.utf8(a) == coder.utf8(b) ==> a == b
  }

  /** The hash starts with the type hash: equal struct hashes are of equal type hashes. */
  lemma {:induction false} HashFixesTypeHash(coder: Coder, types: Table, rank: string -> nat, more: Table,
      moreRank: string -> nat, a: string, b: string, v: Data, w: Data)
    requires Acyclic(types, rank) && Acyclic(more, moreRank)
    requires GetStructHash(coder, types, rank, a, v).Ok? && GetStructHash(coder, more, moreRank, b, w).Ok?
    requires GetStructHash(coder, types, rank, a, v) == GetStructHash(coder, more, moreRank, b, w)
    ensures a in types && b in more && TypeHash(coder, types, rank, a) == TypeHash(coder, more, moreRank, b)
  {
    hide GetStructHash, TypeHash, EncodeValue, Acyclic;
    var x := StructLayout(coder, types, rank, a, v);
    var y := StructLayout(coder, more, moreRank, b, w);
  }

  /**
   * Typed-data hashing is injective: two objects of two struct types have one hash exactly when the types are one
   * and the objects agree on every declared field at every nesting level.
   */
  lemma {:induction false} StructInjective(coder: Coder, types: Table, rank: string -> nat, a: string, b: string,
      v: Data, w: Data)
    requires Acyclic(types, rank) && Utf8Injective(coder)
    requires GetStructHash(coder, types, rank, a, v).Ok? && GetStructHash(coder, types, rank, b, w).Ok?
    ensures a in types
    ensures GetStructHash(coder, types, rank, a, v) == GetStructHash(coder, types, rank, b, w)
      <==> a == b && SameFields(coder, types, types[a], v, w)
  {
    KnownStruct(coder, types, rank, a, v);
    KnownStruct(coder, types, rank, b, w);
    if GetStructHash(coder, types, rank, a, v) == GetStructHash(coder, types, rank, b, w) {
      HashFixesTypeHash(coder, types, rank, types, rank, a, b, v, w);
      TypeHashFixesType(coder, types, rank, types, rank, a, b);
    }
    hide GetStructHash, SameFields, TypeHash, Acyclic, Utf8Injective;
    if a == b { OneTypeInjective(coder, types, rank, a, v, w); }
  }

  lemma {:induction false} KnownStruct(coder: Coder, types: Table, rank: string -> nat, typ: string, data: Data)
    requires Acyclic(types, rank) && GetStructHash(coder, types, rank, typ, data).Ok?
    ensures typ in types && Word(typ) == typ
  {}

  lemma {:induction false} TypeHashFixesType(coder: Coder, types: Table, rank: string -> nat, more: Table,
      moreRank: string -> nat, a: string, b: string)
    requires Acyclic(types, rank) && Acyclic(more, moreRank) && Utf8Injective(coder) && a in types && b in more
    requires TypeHash(coder, types, rank, a) == TypeHash(coder, more, moreRank, b)
    ensures Word(a) == a && Word(b) == b
    ensures EncodeType(types, rank, a) == EncodeType(more, moreRank, b) && a == b
  {
    hide EncodeType;
    assert coder.utf8(EncodeType(types, rank, a)) == coder.utf8(EncodeType(more, moreRank, b));
    EncodeTypeFixesName(types, rank, more, moreRank, a, b);
  }

  /** The message to sign: 0x1901, the hash of the domain, then the hash of the message; or the hash of that. */
  lemma {:induction false} MessageLayout(coder: Coder, types: Table, rank: string -> nat, data: TypedData, hash: bool)
    requires Acyclic(types, rank)
    ensures var d := GetStructHash(coder, types, rank, "EIP712Domain", data.domain);
      var m := GetStructHash(coder, types, rank, data.primaryType, data.message);
      var r := GetMessage(coder, types, rank, data, hash);
      && (r.Ok? <==> d.Ok? && m.Ok?)
      && (r.Ok? ==>
            r.value == if hash then Hashed(Keccak(Signed(Message([0x19, 0x01], d.value, m.value))))
                       else Whole(Message([0x19, 0x01], d.value, m.value)))
  {
    hide GetStructHash;
  }

  predicate SameData(coder: Coder, types: Table, v: TypedData, w: TypedData)
    requires "EIP712Domain" in types && v.primaryType in types
  {
    && SameFields(coder, types, types["EIP712Domain"], v.domain, w.domain)
    && SameFields(coder, types, types[v.primaryType], v.message, w.message)
  }

  lemma {:induction false} KnownStructs(coder: Coder, types: Table, rank: string -> nat, data: TypedData, hash: bool)
    requires Acyclic(types, rank) && GetMessage(coder, types, rank, data, hash).Ok?
    ensures "EIP712Domain" in types && data.primaryType in types
    ensures GetStructHash(coder, types, rank, "EIP712Domain", data.domain).Ok?
    ensures GetStructHash(coder, types, rank, data.primaryType, data.message).Ok?
  {
    KnownStruct(coder, types, rank, "EIP712Domain", data.domain);
    KnownStruct(coder, types, rank, data.primaryType, data.message);
  }

  /** The message to sign, hashed or not, fixes the primary type, the domain and the message of the typed data. */
  lemma {:induction false} MessageInjective(coder: Coder, types: Table, rank: string -> nat, v: TypedData,
      w: TypedData, hash: bool)
    requires Acyclic(types, rank) && Utf8Injective(coder)
    requires GetMessage(coder, types, rank, v, hash).Ok? && GetMessage(coder, types, rank, w, hash).Ok?
    ensures "EIP712Domain" in types && v.primaryType in types
    ensures GetMessage(coder, types, rank, v, hash) == GetMessage(coder, types, rank, w, hash)
      <==> v.primaryType == w.primaryType && SameData(coder, types, v, w)
  {
    hide GetStructHash, SameFields, Acyclic, Utf8Injective;
    KnownStructs(coder, types, rank, v, hash);
    KnownStructs(coder, types, rank, w, hash);
    StructInjective(coder, types, rank, "EIP712Domain", "EIP712Domain", v.domain, w.domain);
    StructInjective(coder, types, rank, v.primaryType, w.primaryType, v.message, w.message);
  }
}
