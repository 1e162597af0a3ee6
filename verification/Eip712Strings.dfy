/** Strings in typed data: when equal hashes mean equal strings, and how different strings come to one hash. */
module Eip712Strings {
  import opened Wrappers
  import opened Numerals
  import opened HexText
  import opened Eip712Types
  import opened Eip712Hash

  // Values with their strings as they are.

  predicate EqualValue(coder: Coder, types: Table, typ: string, v: Data, w: Data)
    decreases v, 1, 0
  {
    var shape := ArrayOf(typ);
    if shape.Some? then
      && v.Items? && w.Items? && |v.items| == |w.items|
      && forall i :: 0 <= i < |v.items| ==> EqualValue(coder, types, shape.value.element, v.items[i], w.items[i])
    else if typ in types then EqualFields(coder, types, types[typ], v, w)
    else if typ == "string" then v.Scalar? && v == w
    else SameValue(coder, types, typ, v, w)
  }

  predicate EqualFields(coder: Coder, types: Table, fields: seq<Field>, v: Data, w: Data)
    decreases v, 0, |fields|
  {
    fields == [] ||
    (&& !Missing(v, fields[0].name) && !Missing(w, fields[0].name)
     && EqualValue(coder, types, fields[0].typ, FieldData(v, fields[0].name), FieldData(w, fields[0].name))
     && EqualFields(coder, types, fields[1..], v, w))
  }

  /** No value of a `string` field reads as strict hex (which keccak256 would decode first). */
  predicate PlainStrings(types: Table, typ: string, v: Data)
    decreases v, 1, 0
  {
    var shape := ArrayOf(typ);
    if shape.Some? then
      v.Items? ==> forall i :: 0 <= i < |v.items| ==> PlainStrings(types, shape.value.element, v.items[i])
    else if typ in types then PlainFields(types, types[typ], v)
    else if typ == "string" then v.Scalar? ==> !IsHexStrict(v.text)
    else true
  }

  predicate PlainFields(types: Table, fields: seq<Field>, v: Data)
    decreases v, 0, |fields|
  {
    fields == [] ||
    (&& (Missing(v, fields[0].name) ||
         PlainStrings(types, fields[0].typ, v.members[IndexOf(v.members, fields[0].name)].data))
     && PlainFields(types, fields[1..], v))
  }

  /** For plain strings, equal bytes are equal strings. */
  lemma {:induction false} SameIsEqual(coder: Coder, types: Table, typ: string, v: Data, w: Data)
    requires Utf8Injective(coder) && PlainStrings(types, typ, v) && PlainStrings(types, typ, w)
    ensures SameValue(coder, types, typ, v, w) <==> EqualValue(coder, types, typ, v, w)
    decreases v, 1, 0
  {
    var shape := ArrayOf(typ);
    if shape.Some? {
      if v.Items? && w.Items? && |v.items| == |w.items| {
        var element := shape.value.element;
        forall i | 0 <= i < |v.items|
          ensures SameValue(coder, types, element, v.items[i], w.items[i])
              <==> EqualValue(coder, types, element, v.items[i], w.items[i])
        {
          SameIsEqual(coder, types, element, v.items[i], w.items[i]);
        }
      }
    } else if typ in types {
      SameFieldsAreEqual(coder, types, types[typ], v, w);
    }
  }

  lemma {:induction false} SameFieldsAreEqual(coder: Coder, types: Table, fields: seq<Field>, v: Data, w: Data)
    requires Utf8Injective(coder) && PlainFields(types, fields, v) && PlainFields(types, fields, w)
    ensures SameFields(coder, types, fields, v, w) <==> EqualFields(coder, types, fields, v, w)
    decreases v, 0, |fields|
  {
    hide Utf8Injective, SameValue, EqualValue, PlainStrings;
    if fields != [] {
      var name := fields[0].name;
      if !Missing(v, name) && !Missing(w, name) {
        SameIsEqual(coder, types, fields[0].typ, FieldData(v, name), FieldData(w, name));
      }
      SameFieldsAreEqual(coder, types, fields[1..], v, w);
    }
  }

  /** If no string reads as strict hex, equal struct hashes are equal strings, and equal other values, everywhere. */
  lemma {:induction false} PlainStructInjective(coder: Coder, types: Table, rank: string -> nat, a: string, b: string,
      v: Data, w: Data)
    requires Acyclic(types, rank) && Utf8Injective(coder) && a in types && b in types
    requires PlainFields(types, types[a], v) && PlainFields(types, types[b], w)
    requires GetStructHash(coder, types, rank, a, v).Ok? && GetStructHash(coder, types, rank, b, w).Ok?
    ensures GetStructHash(coder, types, rank, a, v) == GetStructHash(coder, types, rank, b, w)
      <==> a == b && EqualFields(coder, types, types[a], v, w)
  {
    StructInjective(coder, types, rank, a, b, v, w);
    hide GetStructHash, Acyclic, Utf8Injective, SameFields, EqualFields, PlainFields;
    if a == b { SameFieldsAreEqual(coder, types, types[a], v, w); }
  }

  // Different strings with one hash.

  /** When two texts have one hash: hex texts up to case, plain texts only with themselves, and a mix by its bytes. */
  lemma {:induction false} TextsCollideExactly(coder: Coder, s: string, t: string)
    requires Utf8Injective(coder) && TextBytes(coder, s).Some? && TextBytes(coder, t).Some?
    ensures IsHexStrict(s) ==> |s| >= 2
    ensures HashText(coder, Scalar(s)) == HashText(coder, Scalar(t)) <==>
      if IsHexStrict(s) && IsHexStrict(t) then LowerAll(s[2..]) == LowerAll(t[2..])
      else if IsHexStrict(s) then LowerAll(s[2..]) == HexOfBytes(coder.utf8(t))
      else if IsHexStrict(t) then LowerAll(t[2..]) == HexOfBytes(coder.utf8(s))
      else s == t
  {
    HexOf(coder, s);
    HexOf(coder, t);
    hide TextBytes, IsHexStrict, HexOfBytes, LowerAll, HexBytes;
    if HexOfBytes(TextBytes(coder, s).value) == HexOfBytes(TextBytes(coder, t).value) {
      BytesRoundTrip(TextBytes(coder, s).value);
      BytesRoundTrip(TextBytes(coder, t).value);
    }
  }

  /** The hex digits of the bytes that are hashed. */
  lemma {:induction false} HexOf(coder: Coder, s: string)
    requires TextBytes(coder, s).Some?
    ensures IsHexStrict(s) ==> |s| >= 2 && HexOfBytes(TextBytes(coder, s).value) == LowerAll(s[2..])
    ensures !IsHexStrict(s) ==> TextBytes(coder, s).value == coder.utf8(s)
  {
    if IsHexStrict(s) {
      DigitsAreHex(s);
      HexComesBack(s[2..]);
    }
  }

  /** `0x` for `0X`, and the other way round. */
  function OtherCase(s: string): (t: string)
    requires IsHexStrict(s) && s[0] != '-'
    ensures t != s && IsHexStrict(t) && |t| == |s| && t[0] == s[0] && t[2..] == s[2..]
  {
    var t := s[1 := if s[1] == 'x' then 'X' else 'x'];
    SamePrefix(s, t);
    t
  }

  lemma {:induction false} SamePrefix(s: string, t: string)
    requires IsHexStrict(s) && s[0] != '-' && |t| == |s| && t[0] == s[0] && Lower(t[1]) == 'x' && t[2..] == s[2..]
    ensures IsHexStrict(t)
  {
    DigitsAreHex(s);
    forall i | 2 <= i < |t| ensures IsHexDigit(t[i]) {
      assert t[i] == t[2..][i - 2] == s[2..][i - 2] == Digits(s)[i - 2];
    }
  }

  /** Every text that hashes has another one with the same hash. */
  lemma {:induction false} TextTwin(coder: Coder, s: string) returns (t: string)
    requires TextBytes(coder, s).Some?
    ensures t != s && TextBytes(coder, t) == TextBytes(coder, s)
  {
    if IsHexStrict(s) {
      t := OtherCase(s);
    } else {
      var digits := HexOfBytes(coder.utf8(s));
      t := "0x" + digits;
      BytesRoundTrip(coder.utf8(s));
      if digits != "" { StrictForm(false, digits); }
      assert t[2..] == digits && IsHexStrict(t);
    }
  }

  /** Every struct with a string field has, next to every value, one with another string and the same hash. */
  lemma {:induction false} StructTwin(coder: Coder, types: Table, rank: string -> nat, typ: string, name: string,
      v: Data)
    returns (w: Data)
    requires Acyclic(types, rank) && GetStructHash(coder, types, rank, typ, v).Ok?
    requires typ in types && "string" !in types
    requires exists i :: 0 <= i < |types[typ]| && types[typ][i].name == name
    requires forall i :: 0 <= i < |types[typ]| && types[typ][i].name == name ==> types[typ][i].typ == "string"
    ensures GetStructHash(coder, types, rank, typ, w) == GetStructHash(coder, types, rank, typ, v)
    ensures !Missing(v, name) && !Missing(w, name) && FieldData(w, name) != FieldData(v, name)
  {
    StructWords(coder, types, rank, typ, v);
    FieldsSpec(coder, types, rank, types[typ], v);
    StringEncodes(coder, types, rank, FieldData(v, name));
    var k := IndexOf(v.members, name);
    var t := TextTwin(coder, v.members[k].data.text);
    w := Record(v.members[k := Member(name, Scalar(t))]);
    hide EncodeFields, EncodeValue, GetStructHash, TextBytes, EncodeParameters;
    Replaced(v.members, name, Scalar(t));
    StringEncodes(coder, types, rank, Scalar(t));
    SameEncodings(coder, types, rank, types[typ], v, w);
    SameStructHash(coder, types, rank, typ, v, w);
  }

  lemma {:induction false} StringEncodes(coder: Coder, types: Table, rank: string -> nat, data: Data)
    requires Acyclic(types, rank) && "string" !in types
    ensures EncodeValue(coder, types, rank, "string", data).Ok? <==> HashText(coder, data).Ok?
    ensures HashText(coder, data).Ok? ==>
      EncodeValue(coder, types, rank, "string", data) == Ok(Pair("bytes32", HashValue(HashText(coder, data).value)))
  {
    assert "string"[|"string"| - 1] == 'g';
  }

  lemma {:induction false} Replaced(members: seq<Member>, name: string, data: Data)
    requires IndexOf(members, name) < |members|
    ensures var k := IndexOf(members, name);
      forall n :: IndexOf(members[k := Member(name, data)], n) == IndexOf(members, n)
  {
    var k := IndexOf(members, name);
    forall n ensures IndexOf(members[k := Member(name, data)], n) == IndexOf(members, n) {
      ReplacedIndex(members, k, Member(name, data), n);
    }
  }

  lemma {:induction false} ReplacedIndex(members: seq<Member>, k: nat, m: Member, n: string)
    requires k < |members| && members[k].name == m.name
    ensures IndexOf(members[k := m], n) == IndexOf(members, n)
    decreases |members|
  {
    if k > 0 {
      assert members[k := m][1..] == members[1..][k - 1 := m];
      ReplacedIndex(members[1..], k - 1, m, n);
    } else {
      assert members[k := m][1..] == members[1..];
    }
  }

  lemma {:induction false} SameEncodings(coder: Coder, types: Table, rank: string -> nat, fields: seq<Field>,
      v: Data, w: Data)
    requires Acyclic(types, rank)
    requires forall i :: 0 <= i < |fields| ==>
      && !Missing(v, fields[i].name) && !Missing(w, fields[i].name)
      && EncodeValue(coder, types, rank, fields[i].typ, FieldData(v, fields[i].name))
           == EncodeValue(coder, types, rank, fields[i].typ, FieldData(w, fields[i].name))
    ensures EncodeFields(coder, types, rank, fields, v) == EncodeFields(coder, types, rank, fields, w)
    decreases |fields|
  {
    hide EncodeValue, Missing, Acyclic;
    if fields != [] {
      var rest := fields[1..];
      assert forall i :: 0 <= i < |rest| ==> rest[i] == fields[i + 1];
      SameEncodings(coder, types, rank, rest, v, w);
    }
  }

  lemma {:induction false} SameStructHash(coder: Coder, types: Table, rank: string -> nat, typ: string, v: Data,
      w: Data)
    requires Acyclic(types, rank) && typ in types
    requires EncodeFields(coder, types, rank, types[typ], v) == EncodeFields(coder, types, rank, types[typ], w)
    ensures GetStructHash(coder, types, rank, typ, v) == GetStructHash(coder, types, rank, typ, w)
  {
    hide EncodeFields, EncodeParameters, TypeHash;
  }
}
