/** Which typed data can be hashed at all: the values that fit their types. */
module Eip712Fits {
  import opened Wrappers
  import opened HexText
  import opened Eip712Types
  import opened Eip712Hash

  /** Strict hex with a minus, or with an odd number of digits, spells no bytes. */
  predicate SpellsNoBytes(text: string) {
    IsHexStrict(text) && (text[0] == '-' || |text| % 2 == 1)
  }

  /**
   * A value fits an array type as a list of the right length of fitting items, a struct type with a fitting value for
   * every field, `string` and `bytes` as a text that is no broken hex, and any other type if the ABI coder takes it.
   */
  predicate Fits(coder: Coder, types: Table, typ: string, v: Data)
    decreases v, 1
  {
    var shape := ArrayOf(typ);
    if shape.Some? then
      && v.Items? && (shape.value.length == None || shape.value.length == Some(|v.items|))
      && forall i :: 0 <= i < |v.items| ==> Fits(coder, types, shape.value.element, v.items[i])
    else if typ in types then FitsFields(coder, types, types[typ], v)
    else if typ == "string" || typ == "bytes" then v.Scalar? && !SpellsNoBytes(v.text)
    else coder.atom(typ, v) != None
  }

  predicate FitsFields(coder: Coder, types: Table, fields: seq<Field>, v: Data)
    decreases v, 0
  {
    forall i :: 0 <= i < |fields| ==>
      !Missing(v, fields[i].name) && Fits(coder, types, fields[i].typ, FieldData(v, fields[i].name))
  }

  /** A value has a word exactly if it fits its type. */
  lemma {:induction false} ValueFits(coder: Coder, types: Table, rank: string -> nat, typ: string, v: Data)
    requires Acyclic(types, rank)
    ensures HasWord(coder, types, rank, typ, v) <==> Fits(coder, types, typ, v)
    decreases v, 2, 0
  {
    hide EncodeParameters, EncodeItems, EncodeFields, FitsFields, Acyclic, IsHexStrict, HexBytes, ArrayOf;
    var shape := ArrayOf(typ);
    if shape.Some? {
      if v.Items? { ItemsFit(coder, types, rank, shape.value.element, v.items); }
    } else if typ in types {
      StructFits(coder, types, rank, typ, v);
      hide GetStructHash;
    }
  }

  /** A struct has a hash exactly if its type is known and each field has a fitting value. */
  lemma {:induction false} StructFits(coder: Coder, types: Table, rank: string -> nat, typ: string, v: Data)
    requires Acyclic(types, rank)
    ensures GetStructHash(coder, types, rank, typ, v).Ok? <==> typ in types && FitsFields(coder, types, types[typ], v)
    decreases v, 1, 0
  {
    if typ in types {
      hide EncodeParameters, EncodeFields, FitsFields, TypeHash, Acyclic, Encodable;
      var head := Pair("bytes32", HashValue(TypeHash(coder, types, rank, typ)));
      var ps := EncodeFields(coder, types, rank, types[typ], v);
      FieldsFit(coder, types, rank, types[typ], v);
      if ps.Ok? {
        ParametersSpec(coder, [head] + ps.value);
        Cons(coder, head, ps.value, head, ps.value);
      }
    }
  }

  /** The items of an array: each has to fit. */
  lemma {:induction false} ItemsFit(coder: Coder, types: Table, rank: string -> nat, element: string,
      items: seq<Data>)
    requires Acyclic(types, rank)
    ensures var ps := EncodeItems(coder, types, rank, element, items);
            ps.Ok? && EncodeParameters(coder, ps.value).Ok? <==>
            forall i :: 0 <= i < |items| ==> Fits(coder, types, element, items[i])
    decreases items, 0, 0
  {
    hide EncodeParameters, EncodeValue, Fits, WordOf, Acyclic;
    forall i | 0 <= i < |items| ensures HasWord(coder, types, rank, element, items[i])
      <==> Fits(coder, types, element, items[i])
    {
      ValueFits(coder, types, rank, element, items[i]);
    }
    ItemsOk(coder, types, rank, element, items);
    var ps := EncodeItems(coder, types, rank, element, items);
    hide EncodeItems;
    if ps.Ok? {
      ItemsSpec(coder, types, rank, element, items);
      ParametersSpec(coder, ps.value);
    }
  }

  lemma {:induction false} ItemsOk(coder: Coder, types: Table, rank: string -> nat, element: string,
      items: seq<Data>)
    requires Acyclic(types, rank)
    ensures EncodeItems(coder, types, rank, element, items).Ok? <==>
            forall i :: 0 <= i < |items| ==> EncodeValue(coder, types, rank, element, items[i]).Ok?
    decreases |items|
  {
    hide EncodeValue, Acyclic;
    if items != [] {
      ItemsOk(coder, types, rank, element, items[1..]);
      assert forall i :: 1 <= i < |items| ==> items[i] == items[1..][i - 1];
    }
  }

  /** The fields of a struct: each has to be there and to fit. */
  lemma {:induction false} FieldsFit(coder: Coder, types: Table, rank: string -> nat, fields: seq<Field>, v: Data)
    requires Acyclic(types, rank)
    ensures var ps := EncodeFields(coder, types, rank, fields, v);
            ps.Ok? && Encodable(coder, ps.value) <==> FitsFields(coder, types, fields, v)
    decreases v, 0, |fields|
  {
    assert Encodable(coder, []);
    hide EncodeValue, Fits, WordOf, Encodable, Acyclic;
    if fields != [] {
      var name, rest := fields[0].name, fields[1..];
      FirstFits(coder, types, fields, v);
      hide FitsFields;
      FieldsFit(coder, types, rank, rest, v);
      if !Missing(v, name) {
        var x := FieldData(v, name);
        ValueFits(coder, types, rank, fields[0].typ, x);
        var p, ps := EncodeValue(coder, types, rank, fields[0].typ, x), EncodeFields(coder, types, rank, rest, v);
        if p.Ok? && ps.Ok? { Cons(coder, p.value, ps.value, p.value, ps.value); }
      }
    }
  }

  lemma {:induction false} FirstFits(coder: Coder, types: Table, fields: seq<Field>, v: Data)
    requires fields != []
    ensures FitsFields(coder, types, fields, v) <==>
            && !Missing(v, fields[0].name) && Fits(coder, types, fields[0].typ, FieldData(v, fields[0].name))
            && FitsFields(coder, types, fields[1..], v)
  {
    hide Fits, Missing, FieldData;
    assert forall i :: 1 <= i < |fields| ==> fields[i] == fields[1..][i - 1];
  }

  /** Typed data has a message to sign exactly if domain and message fit their types. */
  lemma {:induction false} MessageFits(coder: Coder, types: Table, rank: string -> nat, data: TypedData, hash: bool)
    requires Acyclic(types, rank)
    ensures GetMessage(coder, types, rank, data, hash).Ok? <==>
            && "EIP712Domain" in types && FitsFields(coder, types, types["EIP712Domain"], data.domain)
            && data.primaryType in types && FitsFields(coder, types, types[data.primaryType], data.message)
  {
    hide GetStructHash, FitsFields, Acyclic;
    StructFits(coder, types, rank, "EIP712Domain", data.domain);
    StructFits(coder, types, rank, data.primaryType, data.message);
  }
}
