/**
 * Typed data carries its own type table. Across tables, too, equal encodings mean equal definitions: the text of a
 * type encoding can be read in one way only, if names and types are free of its marks.
 */
module Eip712Tables {
  import opened Wrappers
  import opened Strings
  import opened Eip712Types
  import opened Eip712Hash

  predicate PlainText(s: string) {
    forall c :: c in s ==> c !in {'(', ')', ',', ' '}
  }

  predicate PlainFields(fields: seq<Field>) {
    forall i :: 0 <= i < |fields| ==> PlainText(fields[i].typ) && PlainText(fields[i].name)
  }

  predicate PlainTable(types: Table) {
    forall t :: t in types ==> PlainFields(types[t])
  }

  // Unique reading.

  /** A field list from its first name on. */
  function FromName(fields: seq<Field>): string
    requires fields != []
  {
    fields[0].name + (if |fields| == 1 then "" else "," + FieldTexts(fields[1..]))
  }

  lemma {:induction false} FieldTextParts(fields: seq<Field>)
    requires fields != []
    ensures FieldTexts(fields) == fields[0].typ + (" " + FromName(fields))
  {
    var rest := if |fields| == 1 then "" else "," + FieldTexts(fields[1..]);
    assert fields[0].typ + " " + fields[0].name + rest == fields[0].typ + (" " + (fields[0].name + rest));
  }

  lemma {:induction false} ReadFields(fs: seq<Field>, gs: seq<Field>)
    requires PlainFields(fs) && PlainFields(gs) && FieldTexts(fs) == FieldTexts(gs)
    ensures fs == gs
    decreases |fs|
  {
    if fs != [] { FieldTextParts(fs); }
    if gs != [] { FieldTextParts(gs); }
    if fs != [] && gs != [] {
      assert PlainText(fs[0].typ) && PlainText(gs[0].typ) && PlainText(fs[0].name) && PlainText(gs[0].name);
      hide FieldTexts, FromName;
      SplitAtFirst(fs[0].typ, FromName(fs), gs[0].typ, FromName(gs), ' ');
      ReadNames(fs, gs);
    }
  }

  lemma {:induction false} ReadNames(fs: seq<Field>, gs: seq<Field>)
    requires fs != [] && gs != [] && PlainFields(fs) && PlainFields(gs) && fs[0].typ == gs[0].typ
    requires FromName(fs) == FromName(gs)
    ensures fs == gs
    decreases |fs|, 0
  {
    var x, y := fs[0].name, gs[0].name;
    assert PlainText(x) && PlainText(y);
    if |fs| > 1 && |gs| > 1 {
      SplitAtFirst(x, FieldTexts(fs[1..]), y, FieldTexts(gs[1..]), ',');
      ReadFields(fs[1..], gs[1..]);
      assert fs == [fs[0]] + fs[1..] && gs == [gs[0]] + gs[1..];
    } else if |fs| > 1 {
      NoComma(x, FieldTexts(fs[1..]), y);
    } else if |gs| > 1 {
      NoComma(y, FieldTexts(gs[1..]), x);
    } else {
      assert x + "" == x && y + "" == y;
      assert fs == [fs[0]] && gs == [gs[0]];
    }
  }

  lemma {:induction false} NoComma(x: string, rest: string, y: string)
    requires PlainText(y)
    ensures x + ("," + rest) != y
  {
    var s := x + ("," + rest);
    assert s[|x|] == ',' && ',' in s;
  }

  lemma {:induction false} NoClosing(fields: seq<Field>)
    requires PlainFields(fields)
    ensures ')' !in FieldTexts(fields)
    decreases |fields|
  {
    if fields != [] {
      assert PlainText(fields[0].typ) && PlainText(fields[0].name);
      NoClosing(fields[1..]);
    }
  }

  lemma {:induction false} ReadRendered(types: Table, more: Table, ns: seq<string>, ms: seq<string>)
    requires PlainTable(types) && PlainTable(more)
    requires forall n :: n in ns ==> n in types && '(' !in n
    requires forall n :: n in ms ==> n in more && '(' !in n
    requires Rendered(types, ns) == Rendered(more, ms)
    ensures ns == ms && forall n :: n in ns ==> types[n] == more[n]
    decreases |ns|
  {
    if ns != [] { RenderedParts(types, ns); }
    if ms != [] { RenderedParts(more, ms); }
    if ns != [] && ms != [] {
      var n, m, fs, gs := ns[0], ms[0], types[ns[0]], more[ms[0]];
      var x, y := Rendered(types, ns[1..]), Rendered(more, ms[1..]);
      NoClosing(fs);
      NoClosing(gs);
      hide Rendered, FieldTexts, PlainFields;
      SplitAtFirst(n, FieldTexts(fs) + (")" + x), m, FieldTexts(gs) + (")" + y), '(');
      SplitAtFirst(FieldTexts(fs), x, FieldTexts(gs), y, ')');
      ReadFields(fs, gs);
      ReadRendered(types, more, ns[1..], ms[1..]);
      assert ns == [n] + ns[1..] && ms == [m] + ms[1..];
    }
  }

  lemma {:induction false} RenderedParts(types: Table, ns: seq<string>)
    requires ns != [] && forall n :: n in ns ==> n in types
    ensures Rendered(types, ns) == ns[0] + ("(" + (FieldTexts(types[ns[0]]) + (")" + Rendered(types, ns[1..]))))
  {
    var n, f, rest := ns[0], FieldTexts(types[ns[0]]), Rendered(types, ns[1..]);
    assert n + "(" + f + ")" + rest == n + ("(" + (f + (")" + rest)));
  }

  // Equal encodings.

  /** The structs a type reaches are defined alike in both tables. */
  ghost predicate SameDefinition(types: Table, more: Table, a: string) {
    forall u :: Reaches(types, a, u) ==> SameEntry(types, more, u)
  }

  /** What an encoding consists of. */
  lemma {:induction false} EncodedNames(types: Table, rank: string -> nat, a: string) returns (names: seq<string>)
    requires Acyclic(types, rank) && a in types
    ensures names != [] && names[0] == a && (forall u :: u in names <==> Reaches(types, a, u))
    ensures Word(a) == a && (forall u :: u in names ==> u in types && '(' !in u)
    ensures EncodeType(types, rank, a) == Rendered(types, names)
  {
    assert Word(a) == a;
    DependenciesSpec(types, rank, a, []);
    DependenciesAreStructs(types, rank, a);
    var r := GetDependencies(types, rank, a, []);
    assert NoDuplicates(r[1..]);
    SortSpec(r[1..]);
    names := [r[0]] + Sort(r[1..]);
    forall u ensures u in names <==> Reaches(types, a, u) {
      assert u in r <==> u == r[0] || u in r[1..];
    }
    forall u | u in names ensures '(' !in u { WordIsPlain(u); }
  }

  /** Two structs, of two tables, have one encoding exactly when they have one name and one definition throughout. */
  lemma {:induction false} EncodeTypeInjective(types: Table, rank: string -> nat, more: Table, moreRank: string -> nat,
      a: string, b: string)
    requires Acyclic(types, rank) && Acyclic(more, moreRank) && PlainTable(types) && PlainTable(more)
    requires a in types && b in more
    ensures Word(a) == a && Word(b) == b
    ensures EncodeType(types, rank, a) == EncodeType(more, moreRank, b) <==> a == b && SameDefinition(types, more, a)
  {
    assert Word(a) == a && Word(b) == b;
    if EncodeType(types, rank, a) == EncodeType(more, moreRank, b) {
      var ns := EncodedNames(types, rank, a);
      var ms := EncodedNames(more, moreRank, b);
      ReadRendered(types, more, ns, ms);
      forall u | Reaches(types, a, u) ensures SameEntry(types, more, u) {
        SameClosure(types, rank, more, moreRank, a, u);
      }
    }
    if a == b && SameDefinition(types, more, a) { EncodeTypeIgnoresTheRest(types, rank, more, moreRank, a); }
  }

  lemma {:induction false} SameClosure(types: Table, rank: string -> nat, more: Table, moreRank: string -> nat,
      a: string, u: string)
    requires Acyclic(types, rank) && Acyclic(more, moreRank) && Reaches(types, a, u)
    requires forall x :: Reaches(types, a, x) <==> Reaches(more, a, x)
    requires u in types && u in more && types[u] == more[u]
    ensures SameEntry(types, more, u)
  {
    forall i | 0 <= i < |types[u]| ensures Word(types[u][i].typ) in more <==> Word(types[u][i].typ) in types {
      var b := Word(types[u][i].typ);
      if b in types {
        assert Edge(types, u, b);
        ReachesNext(types, rank, a, u, b);
        ReachesDown(more, moreRank, a, b);
      }
      if b in more {
        assert Edge(more, u, b) by { assert more[u] == types[u]; }
        ReachesNext(more, moreRank, a, u, b);
        ReachesDown(types, rank, a, b);
      }
    }
  }

  lemma {:induction false} ReachesNext(types: Table, rank: string -> nat, a: string, u: string, b: string)
    requires Layered(types, rank) && Reaches(types, a, u) && Edge(types, u, b)
    ensures Reaches(types, a, b)
  {
    ReachesItself(types, b);
    ReachesVia(types, u, b, b);
    ReachesTransitive(types, rank, a, u, b);
  }

  // Equal definitions hash alike.

  /** Both tables know the struct a field type names, defined alike, or neither does. */
  ghost predicate SameType(types: Table, more: Table, typ: string) {
    && (Word(typ) in types <==> Word(typ) in more)
    && (Word(typ) in types ==> SameDefinition(types, more, Word(typ)))
  }

  lemma {:induction false} FieldTypesSame(types: Table, rank: string -> nat, more: Table, a: string, i: nat)
    requires Acyclic(types, rank) && a in types && SameDefinition(types, more, a) && i < |types[a]|
    ensures a in more && types[a] == more[a] && SameType(types, more, types[a][i].typ)
  {
    ReachesItself(types, a);
    assert SameEntry(types, more, a);
    var b := Word(types[a][i].typ);
    if b in types {
      assert Edge(types, a, b);
      forall u | Reaches(types, b, u) ensures SameEntry(types, more, u) { ReachesVia(types, a, b, u); }
    }
  }

  lemma {:induction false} WordOfElement(typ: string)
    requires ArrayOf(typ).Some?
    ensures Word(ArrayOf(typ).value.element) == Word(typ)
  {
    var at := LastBracket(typ, |typ| - 1);
    LastBracketIs(typ, |typ| - 1);
    assert typ == typ[..at - 1] + typ[at - 1..];
    WordBefore(typ[..at - 1], typ[at - 1..]);
  }

  lemma {:induction false} LastBracketIs(s: string, i: nat)
    requires i <= |s|
    ensures var at := LastBracket(s, i); at > 0 ==> s[at - 1] == '['
    decreases i
  {
    if i > 0 { LastBracketIs(s, i - 1); }
  }

  lemma {:induction false} WordBefore(s: string, t: string)
    requires t != "" && !IsWordChar(t[0])
    ensures Word(s + t) == Word(s)
    decreases |s|
  {
    if s == "" {
      assert s + t == t;
    } else {
      assert (s + t)[0] == s[0] && (s + t)[1..] == s[1..] + t;
      WordBefore(s[1..], t);
    }
  }

  lemma {:induction false} SameValueHash(coder: Coder, types: Table, rank: string -> nat, more: Table,
      moreRank: string -> nat, typ: string, data: Data)
    requires Acyclic(types, rank) && Acyclic(more, moreRank) && SameType(types, more, typ)
    ensures EncodeValue(coder, types, rank, typ, data) == EncodeValue(coder, more, moreRank, typ, data)
    decreases data, 2, 0
  {
    hide SameType, SameDefinition, EncodeParameters, GetStructHash, EncodeItems;
    var shape := ArrayOf(typ);
    if shape.Some? {
      WordOfElement(typ);
      SameTypeByWord(types, more, typ, shape.value.element);
      if data.Items? { SameItemsHash(coder, types, rank, more, moreRank, shape.value.element, data.items); }
    } else {
      KnownAlike(types, rank, more, moreRank, typ);
      if typ in types { SameStructHash(coder, types, rank, more, moreRank, typ, data); }
    }
  }

  lemma {:induction false} SameTypeByWord(types: Table, more: Table, s: string, t: string)
    requires SameType(types, more, s) && Word(s) == Word(t)
    ensures SameType(types, more, t)
  {}

  lemma {:induction false} KnownAlike(types: Table, rank: string -> nat, more: Table, moreRank: string -> nat,
      typ: string)
    requires Acyclic(types, rank) && Acyclic(more, moreRank) && SameType(types, more, typ)
    ensures typ in types <==> typ in more
    ensures typ in types ==> SameDefinition(types, more, typ)
  {
    assert typ in types || typ in more ==> Word(typ) == typ;
  }

  lemma {:induction false} SameItemsHash(coder: Coder, types: Table, rank: string -> nat, more: Table,
      moreRank: string -> nat, element: string, items: seq<Data>)
    requires Acyclic(types, rank) && Acyclic(more, moreRank) && SameType(types, more, element)
    ensures EncodeItems(coder, types, rank, element, items) == EncodeItems(coder, more, moreRank, element, items)
    decreases items, 0, 0
  {
    hide SameType, EncodeValue, Acyclic;
    if items != [] {
      SameValueHash(coder, types, rank, more, moreRank, element, items[0]);
      SameItemsHash(coder, types, rank, more, moreRank, element, items[1..]);
    }
  }

  lemma {:induction false} SameFieldsHash(coder: Coder, types: Table, rank: string -> nat, more: Table,
      moreRank: string -> nat, fields: seq<Field>, data: Data)
    requires Acyclic(types, rank) && Acyclic(more, moreRank)
    requires forall i :: 0 <= i < |fields| ==> SameType(types, more, fields[i].typ)
    ensures EncodeFields(coder, types, rank, fields, data) == EncodeFields(coder, more, moreRank, fields, data)
    decreases data, 0, |fields|
  {
    hide SameType, EncodeValue, Acyclic;
    if fields != [] && !Missing(data, fields[0].name) {
      var value := FieldData(data, fields[0].name);
      SameValueHash(coder, types, rank, more, moreRank, fields[0].typ, value);
      SameFieldsHash(coder, types, rank, more, moreRank, fields[1..], data);
    }
  }

  lemma {:induction false} SameStructHash(coder: Coder, types: Table, rank: string -> nat, more: Table,
      moreRank: string -> nat, a: string, data: Data)
    requires Acyclic(types, rank) && Acyclic(more, moreRank) && a in types && SameDefinition(types, more, a)
    ensures GetStructHash(coder, types, rank, a, data) == GetStructHash(coder, more, moreRank, a, data)
    decreases data, 1, 0
  {
    hide EncodeParameters, EncodeFields, SameDefinition, SameType, EncodeType;
    assert Word(a) == a;
    ReachedItself(types, more, a);
    forall i | 0 <= i < |types[a]| ensures SameType(types, more, types[a][i].typ) {
      FieldTypesSame(types, rank, more, a, i);
    }
    SameFieldsHash(coder, types, rank, more, moreRank, types[a], data);
    SameEncoding(types, rank, more, moreRank, a);
  }

  lemma {:induction false} ReachedItself(types: Table, more: Table, a: string)
    requires a in types && SameDefinition(types, more, a)
    ensures a in more && types[a] == more[a]
  {
    ReachesItself(types, a);
    assert SameEntry(types, more, a);
  }

  lemma {:induction false} SameEncoding(types: Table, rank: string -> nat, more: Table, moreRank: string -> nat,
      a: string)
    requires Acyclic(types, rank) && Acyclic(more, moreRank) && a in types && SameDefinition(types, more, a)
    ensures Word(a) == a && a in more && EncodeType(types, rank, a) == EncodeType(more, moreRank, a)
  {
    assert Word(a) == a;
    EncodeTypeIgnoresTheRest(types, rank, more, moreRank, a);
  }

  // The main results.

  /**
   * A struct hash fixes everything: two objects, of two struct types of two tables, have one hash exactly when the
   * types have one name and one definition throughout and the objects agree on every declared field at every level.
   */
  lemma {:induction false} StructHashFixesAll(coder: Coder, types: Table, rank: string -> nat, more: Table,
      moreRank: string -> nat, a: string, b: string, v: Data, w: Data)
    requires Acyclic(types, rank) && Acyclic(more, moreRank) && PlainTable(types) && PlainTable(more)
    requires Utf8Injective(coder)
    requires GetStructHash(coder, types, rank, a, v).Ok? && GetStructHash(coder, more, moreRank, b, w).Ok?
    ensures a in types
    ensures GetStructHash(coder, types, rank, a, v) == GetStructHash(coder, more, moreRank, b, w)
      <==> a == b && SameDefinition(types, more, a) && SameFields(coder, types, types[a], v, w)
  {
    hide GetStructHash, SameFields, SameDefinition, TypeHash, EncodeType, Utf8Injective, PlainTable;
    KnownStruct(coder, types, rank, a, v);
    KnownStruct(coder, more, moreRank, b, w);
    if GetStructHash(coder, types, rank, a, v) == GetStructHash(coder, more, moreRank, b, w) {
      HashFixesTypeHash(coder, types, rank, more, moreRank, a, b, v, w);
      TypeHashFixesType(coder, types, rank, more, moreRank, a, b);
      EncodeTypeInjective(types, rank, more, moreRank, a, b);
    }
    if a == b && SameDefinition(types, more, a) {
      SameStructHash(coder, types, rank, more, moreRank, a, w);
      StructInjective(coder, types, rank, a, a, v, w);
    }
  }

  /**
   * The message to sign, hashed or not, fixes the typed data, table included: the primary type, the definitions of
   * everything it and the domain reach, and all declared values.
   */
  lemma {:induction false} MessageFixesAll(coder: Coder, types: Table, rank: string -> nat, more: Table,
      moreRank: string -> nat, v: TypedData, w: TypedData, hash: bool)
    requires Acyclic(types, rank) && Acyclic(more, moreRank) && PlainTable(types) && PlainTable(more)
    requires Utf8Injective(coder)
    requires GetMessage(coder, types, rank, v, hash).Ok? && GetMessage(coder, more, moreRank, w, hash).Ok?
    ensures "EIP712Domain" in types && v.primaryType in types
    ensures GetMessage(coder, types, rank, v, hash) == GetMessage(coder, more, moreRank, w, hash)
      <==> && v.primaryType == w.primaryType
           && SameDefinition(types, more, "EIP712Domain") && SameDefinition(types, more, v.primaryType)
           && SameData(coder, types, v, w)
  {
    hide GetStructHash, SameFields, SameDefinition, Acyclic, Utf8Injective, PlainTable;
    KnownStructs(coder, types, rank, v, hash);
    KnownStructs(coder, more, moreRank, w, hash);
    StructHashFixesAll(coder, types, rank, more, moreRank, "EIP712Domain", "EIP712Domain", v.domain, w.domain);
    StructHashFixesAll(coder, types, rank, more, moreRank, v.primaryType, w.primaryType, v.message, w.message);
  }

  /** Marks in names would spoil it: one field called "a,uint256 b" is encoded like the two fields a and b. */
  lemma {:induction false} MarkInNameCollides(rank: string -> nat)
    ensures var types := map["M" := [Field("a,uint256 b", "uint256")]];
      var more := map["M" := [Field("a", "uint256"), Field("b", "uint256")]];
      && Acyclic(types, rank) && Acyclic(more, rank) && Word("M") in types && Word("M") in more
      && EncodeType(types, rank, "M") == EncodeType(more, rank, "M") && !SameDefinition(types, more, "M")
  {
    var f, g, h := Field("a,uint256 b", "uint256"), Field("a", "uint256"), Field("b", "uint256");
    var types, more: Table := map["M" := [f]], map["M" := [g, h]];
    AloneInTable(types, rank);
    AloneInTable(more, rank);
    assert Rendered(types, ["M"][1..]) == "" == Rendered(more, ["M"][1..]);
    FieldTextParts([f]);
    FieldTextParts([g, h]);
    FieldTextParts([h]);
    assert [g, h][1..] == [h];
    assert FieldTexts([f]) == FieldTexts([g, h]);
    assert Reaches(types, "M", "M") by { ReachesItself(types, "M"); }
    assert !SameEntry(types, more, "M");
  }

  /** A table of one struct with fields of an atomic type. */
  lemma {:induction false} AloneInTable(types: Table, rank: string -> nat)
    requires types.Keys == {"M"} && forall i :: 0 <= i < |types["M"]| ==> types["M"][i].typ == "uint256"
    ensures Acyclic(types, rank) && Word("M") == "M" && EncodeType(types, rank, "M") == Rendered(types, ["M"])
  {
    WordsOfM();
    assert forall a, b :: !Edge(types, a, b);
    forall u ensures Reaches(types, "M", u) <==> u == "M" {
      if Reaches(types, "M", u) { ReachesDown(types, rank, "M", u); }
      ReachesItself(types, "M");
    }
    SortedEncoding(types, rank, "M", []);
    assert ["M"] + [] == ["M"];
  }

  lemma {:induction false} WordsOfM()
    ensures Word("M") == "M" && Word("uint256") != "" && Word("uint256") != "M"
  {
    assert "M"[1..] == "" && Word("uint256")[0] == 'u';
  }
}
