/** EIP-712 type tables: the dependencies of a struct type and its type encoding. */
module Eip712Types {
  import opened Strings

  datatype Field = Field(name: string, typ: string)

  type Table = map<string, seq<Field>>

  predicate IsWordChar(c: char) {
    'a' <= c <= 'z' || 'A' <= c <= 'Z' || '0' <= c <= '9' || c == '_'
  }

  /** The leading word of a type, `Person` for `Person[2][]`. */
  function Word(typ: string): string {
    if typ == "" || !IsWordChar(typ[0]) then "" else [typ[0]] + Word(typ[1..])
  }

  /** What the code takes for granted: struct names are words and every field type starts with one. */
  predicate Named(types: Table) {
    && (forall t :: t in types ==> Word(t) == t && t != "")
    && (forall t, i :: t in types && 0 <= i < |types[t]| ==> Word(types[t][i].typ) != "")
  }

  predicate Edge(types: Table, a: string, b: string) {
    a in types && b in types && exists i :: 0 <= i < |types[a]| && Word(types[a][i].typ) == b
  }

  /** No struct contains itself: along every edge the rank goes down. */
  ghost predicate Layered(types: Table, rank: string -> nat) {
    forall a, b :: Edge(types, a, b) ==> rank(b) < rank(a)
  }

  ghost predicate Acyclic(types: Table, rank: string -> nat) {
    Named(types) && Layered(types, rank)
  }

  // The code.

  /** `xs.filter(x => !out.includes(x))` */
  function Without(xs: seq<string>, out: seq<string>): seq<string> {
    if xs == [] then []
    else if xs[0] in out then Without(xs[1..], out)
    else [xs[0]] + Without(xs[1..], out)
  }

  ghost function Height(types: Table, rank: string -> nat, typ: string): nat {
    if Word(typ) in types then rank(Word(typ)) + 1 else 0
  }

  function GetDependencies(types: Table, ghost rank: string -> nat, typ: string, dependencies: seq<string>): seq<string>
    requires Layered(types, rank)
    decreases Height(types, rank, typ), 1, 0
  {
    var actualType := Word(typ);
    if actualType in dependencies || actualType !in types then dependencies
    else [actualType] + Collect(types, rank, actualType, 0, [])
  }

  /** The reduce over the fields of a struct, from field i on. */
  function Collect(types: Table, ghost rank: string -> nat, owner: string, i: nat, previous: seq<string>): seq<string>
    requires Layered(types, rank) && owner in types && i <= |types[owner]|
    decreases rank(owner) + 1, 0, |types[owner]| - i
  {
    if i == |types[owner]| then previous
    else
      var typ := types[owner][i].typ;
      assert Word(typ) in types ==> Edge(types, owner, Word(typ));
      Collect(types, rank, owner, i + 1, previous + Without(GetDependencies(types, rank, typ, previous), previous))
  }

  // The reference: reachability along edges.

  predicate IsPath(types: Table, p: seq<string>) {
    p != [] && p[0] in types && forall i :: 0 <= i < |p| - 1 ==> Edge(types, p[i], p[i + 1])
  }

  ghost predicate PathFromTo(types: Table, p: seq<string>, a: string, b: string) {
    IsPath(types, p) && p[0] == a && p[|p| - 1] == b
  }

  ghost predicate Reaches(types: Table, a: string, b: string) {
    exists p :: PathFromTo(types, p, a, b)
  }

  lemma {:induction false} ReachesItself(types: Table, a: string)
    requires a in types
    ensures Reaches(types, a, a)
  {
    assert PathFromTo(types, [a], a, a);
  }

  lemma {:induction false} ReachesVia(types: Table, a: string, b: string, c: string)
    requires Edge(types, a, b) && Reaches(types, b, c)
    ensures Reaches(types, a, c)
  {
    var p :| PathFromTo(types, p, b, c);
    var q := [a] + p;
    forall i | 0 <= i < |q| - 1 ensures Edge(types, q[i], q[i + 1]) {
      if i > 0 { assert q[i] == p[i - 1] && q[i + 1] == p[i]; }
    }
    assert PathFromTo(types, q, a, c);
  }

  lemma {:induction false} ReachesFirst(types: Table, a: string, c: string) returns (b: string)
    requires Reaches(types, a, c)
    ensures a in types
    ensures c == a || (Edge(types, a, b) && Reaches(types, b, c))
  {
    var p :| PathFromTo(types, p, a, c);
    b := a;
    if |p| > 1 {
      b := p[1];
      var q := p[1..];
      assert Edge(types, p[0], p[1]);
      forall i | 0 <= i < |q| - 1 ensures Edge(types, q[i], q[i + 1]) {
        assert Edge(types, p[i + 1], p[i + 2]);
      }
      assert PathFromTo(types, q, b, c);
    }
  }

  lemma {:induction false} ReachesTransitive(types: Table, rank: string -> nat, a: string, b: string, c: string)
    requires Layered(types, rank) && Reaches(types, a, b) && Reaches(types, b, c)
    ensures Reaches(types, a, c)
    decreases rank(a)
  {
    var d := ReachesFirst(types, a, b);
    if b != a {
      ReachesTransitive(types, rank, d, b, c);
      ReachesVia(types, a, d, c);
    }
  }

  lemma {:induction false} ReachesDown(types: Table, rank: string -> nat, a: string, c: string)
    requires Layered(types, rank) && Reaches(types, a, c)
    ensures c in types && (c == a || rank(c) < rank(a))
    decreases rank(a)
  {
    var b := ReachesFirst(types, a, c);
    if c != a { ReachesDown(types, rank, b, c); }
  }

  // The code computes the reference.

  predicate NoDuplicates(xs: seq<string>) {
    forall i, j :: 0 <= i < j < |xs| ==> xs[i] != xs[j]
  }

  lemma {:induction false} WithoutSpec(xs: seq<string>, out: seq<string>)
    ensures forall x :: x in Without(xs, out) <==> x in xs && x !in out
    ensures NoDuplicates(xs) ==> NoDuplicates(Without(xs, out))
  {
    if xs != [] {
      WithoutSpec(xs[1..], out);
      assert forall x :: x in xs <==> x == xs[0] || x in xs[1..];
      if NoDuplicates(xs) {
        assert NoDuplicates(xs[1..]);
        assert xs[0] !in xs[1..];
        var r := Without(xs[1..], out);
        assert forall k :: 0 <= k < |r| ==> r[k] in r;
      }
    }
  }

  lemma {:induction false} JoinNoDuplicates(xs: seq<string>, ys: seq<string>)
    requires NoDuplicates(xs) && NoDuplicates(ys) && forall y :: y in ys ==> y !in xs
    ensures NoDuplicates(xs + ys)
  {
    var s := xs + ys;
    forall i, j | 0 <= i < j < |s| ensures s[i] != s[j] {
      if i < |xs| <= j { assert s[j] in ys && s[i] in xs; }
    }
  }

  /** A struct has an entry of its own among its first i fields that leads to u. */
  ghost predicate FieldReaches(types: Table, owner: string, i: nat, u: string)
    requires owner in types && i <= |types[owner]|
  {
    exists k :: 0 <= k < i && Word(types[owner][k].typ) in types && Reaches(types, Word(types[owner][k].typ), u)
  }

  lemma {:induction false} DependenciesSpec(types: Table, rank: string -> nat, typ: string, dependencies: seq<string>)
    requires Acyclic(types, rank) && Word(typ) in types && Word(typ) !in dependencies
    ensures var r := GetDependencies(types, rank, typ, dependencies);
            && r != [] && r[0] == Word(typ) && NoDuplicates(r)
            && forall u :: u in r <==> Reaches(types, Word(typ), u)
    decreases rank(Word(typ)), 1, 0
  {
    var a := Word(typ);
    var tail := Collect(types, rank, a, 0, []);
    CollectSpec(types, rank, a, 0, []);
    var n := |types[a]|;
    ReachesItself(types, a);
    forall u | u in tail ensures Reaches(types, a, u) && u != a {
      var k :| 0 <= k < n && Word(types[a][k].typ) in types && Reaches(types, Word(types[a][k].typ), u);
      var b := Word(types[a][k].typ);
      assert Edge(types, a, b);
      ReachesVia(types, a, b, u);
      ReachesDown(types, rank, b, u);
    }
    forall u | Reaches(types, a, u) && u != a ensures u in tail {
      var b := ReachesFirst(types, a, u);
      assert FieldReaches(types, a, n, u);
    }
  }

  lemma {:induction false} CollectSpec(types: Table, rank: string -> nat, owner: string, i: nat, previous: seq<string>)
    requires Acyclic(types, rank) && owner in types && i <= |types[owner]|
    requires NoDuplicates(previous) && forall u :: u in previous <==> FieldReaches(types, owner, i, u)
    ensures var r := Collect(types, rank, owner, i, previous);
            NoDuplicates(r) && forall u :: u in r <==> FieldReaches(types, owner, |types[owner]|, u)
    decreases rank(owner), 0, |types[owner]| - i
  {
    if i < |types[owner]| {
      var typ := types[owner][i].typ;
      var b := Word(typ);
      var found := GetDependencies(types, rank, typ, previous);
      var next := previous + Without(found, previous);
      WithoutSpec(found, previous);
      if b !in types {
        assert found == previous;
      } else {
        assert Edge(types, owner, b);
        ReachesItself(types, b);
        if b in previous {
          assert found == previous;
          InheritsClosure(types, rank, owner, i, b, previous);
        } else {
          DependenciesSpec(types, rank, typ, previous);
        }
      }
      forall u ensures u in next <==> FieldReaches(types, owner, i + 1, u) {
        if FieldReaches(types, owner, i + 1, u) && !FieldReaches(types, owner, i, u) {
          assert b in types && Reaches(types, b, u);
        }
        if u in next && u !in previous {
          assert b in types && Reaches(types, b, u);
        }
        if FieldReaches(types, owner, i, u) {
          var k :| 0 <= k < i && Word(types[owner][k].typ) in types && Reaches(types, Word(types[owner][k].typ), u);
          assert FieldReaches(types, owner, i + 1, u);
        }
      }
      JoinNoDuplicates(previous, Without(found, previous));
      CollectSpec(types, rank, owner, i + 1, next);
    }
  }

  lemma {:induction false} InheritsClosure(types: Table, rank: string -> nat, owner: string, i: nat, b: string,
      previous: seq<string>)
    requires Acyclic(types, rank) && owner in types && i <= |types[owner]|
    requires b in previous && forall u :: u in previous <==> FieldReaches(types, owner, i, u)
    ensures forall u :: Reaches(types, b, u) ==> u in previous
  {
    forall u | Reaches(types, b, u) ensures u in previous {
      var k :| 0 <= k < i && Word(types[owner][k].typ) in types && Reaches(types, Word(types[owner][k].typ), b);
      ReachesTransitive(types, rank, Word(types[owner][k].typ), b, u);
      assert FieldReaches(types, owner, i, u);
    }
  }

  // Sorting, by code units.

  predicate Before(a: string, b: string) {
    if b == "" then false
    else if a == "" then true
    else a[0] < b[0] || (a[0] == b[0] && Before(a[1..], b[1..]))
  }

  /** Alphabetical order: a proper prefix comes first, otherwise the first difference decides. */
  predicate Earlier(a: string, b: string) {
    || (|a| < |b| && b[..|a|] == a)
    || (exists k :: 0 <= k < |a| && k < |b| && a[..k] == b[..k] && a[k] < b[k])
  }

  lemma {:induction false} BeforeIsEarlier(a: string, b: string)
    ensures Before(a, b) <==> Earlier(a, b)
    decreases |a|
  {
    if a != "" && b != "" && a[0] == b[0] {
      var x, y := a[1..], b[1..];
      BeforeIsEarlier(x, y);
      assert a == [a[0]] + x && b == [b[0]] + y;
      if Earlier(x, y) {
        if |x| < |y| && y[..|x|] == x {
          assert b[..|a|] == [b[0]] + y[..|x|];
        } else {
          var k :| 0 <= k < |x| && k < |y| && x[..k] == y[..k] && x[k] < y[k];
          assert a[..k + 1] == [a[0]] + x[..k] && b[..k + 1] == [b[0]] + y[..k];
        }
      }
      if Earlier(a, b) { EarlierRest(a, b); }
    } else if a != "" && b != "" {
      assert a[..0] == b[..0];
      FirstDiffers(a, b);
    }
  }

  lemma {:induction false} EarlierRest(a: string, b: string)
    requires Earlier(a, b) && a != "" && b != "" && a[0] == b[0]
    ensures Earlier(a[1..], b[1..])
  {
    var x, y := a[1..], b[1..];
    if |a| < |b| && b[..|a|] == a {
      assert y[..|x|] == b[..|a|][1..] == x;
    } else {
      var k :| 0 <= k < |a| && k < |b| && a[..k] == b[..k] && a[k] < b[k];
      assert k > 0 && x[..k - 1] == a[..k][1..] && y[..k - 1] == b[..k][1..];
    }
  }

  lemma {:induction false} FirstDiffers(a: string, b: string)
    requires a != "" && b != "" && a[0] != b[0]
    ensures Earlier(a, b) <==> a[0] < b[0]
  {
    assert a[..0] == b[..0];
    assert |a| < |b| ==> b[..|a|][0] == b[0];
    assert forall k :: 0 < k < |a| && k < |b| ==> a[..k][0] != b[..k][0];
  }

  lemma {:induction false} BeforeTransitive(a: string, b: string, c: string)
    requires Before(a, b) && Before(b, c)
    ensures Before(a, c)
  {
    if a != "" && a[0] == b[0] == c[0] { BeforeTransitive(a[1..], b[1..], c[1..]); }
  }

  lemma {:induction false} BeforeTotal(a: string, b: string)
    ensures a == b || Before(a, b) || Before(b, a)
    ensures !(Before(a, b) && Before(b, a)) && !Before(a, a)
  {
    if a != "" && b != "" {
      BeforeTotal(a[1..], b[1..]);
      if a[0] == b[0] && a[1..] == b[1..] { assert a == [a[0]] + a[1..] && b == [b[0]] + b[1..]; }
    }
    if a != "" { BeforeTotal(a[1..], a[1..]); }
  }

  predicate Sorted(xs: seq<string>) {
    forall i, j :: 0 <= i < j < |xs| ==> Before(xs[i], xs[j])
  }

  function Insert(x: string, xs: seq<string>): seq<string> {
    if xs == [] || Before(x, xs[0]) then [x] + xs else [xs[0]] + Insert(x, xs[1..])
  }

  function Sort(xs: seq<string>): seq<string> {
    if xs == [] then [] else Insert(xs[0], Sort(xs[1..]))
  }

  lemma {:induction false} InsertSpec(x: string, xs: seq<string>)
    requires Sorted(xs) && x !in xs
    ensures Sorted(Insert(x, xs)) && forall y :: y in Insert(x, xs) <==> y == x || y in xs
  {
    if xs == [] {
    } else if Before(x, xs[0]) {
      var r := [x] + xs;
      forall i, j | 0 <= i < j < |r| ensures Before(r[i], r[j]) {
        if i == 0 && j > 1 { BeforeTransitive(x, xs[0], xs[j - 1]); }
      }
    } else {
      var rest := xs[1..];
      BeforeTotal(x, xs[0]);
      assert xs[0] in xs;
      assert forall y :: y in xs <==> y == xs[0] || y in rest;
      InsertSpec(x, rest);
      var t := Insert(x, rest);
      var r := [xs[0]] + t;
      forall j | 0 < j < |r| ensures Before(xs[0], r[j]) {
        assert r[j] in t;
        if r[j] != x { var k :| 0 <= k < |rest| && rest[k] == r[j]; assert Before(xs[0], xs[k + 1]); }
      }
    }
  }

  lemma {:induction false} SortSpec(xs: seq<string>)
    requires NoDuplicates(xs)
    ensures Sorted(Sort(xs)) && forall y :: y in Sort(xs) <==> y in xs
  {
    if xs != [] {
      assert NoDuplicates(xs[1..]) && xs[0] !in xs[1..];
      SortSpec(xs[1..]);
      InsertSpec(xs[0], Sort(xs[1..]));
    }
  }

  /** A sorted list is determined by its members. */
  lemma {:induction false} SortedUnique(xs: seq<string>, ys: seq<string>)
    requires Sorted(xs) && Sorted(ys) && forall x :: x in xs <==> x in ys
    ensures xs == ys
  {
    assert |xs| > 0 ==> xs[0] in xs;
    assert |ys| > 0 ==> ys[0] in ys;
    if xs != [] {
      SameFirst(xs, ys);
      var xs', ys' := xs[1..], ys[1..];
      forall x ensures x in xs' <==> x in ys' {
        NotInRest(xs);
        NotInRest(ys);
        assert x in xs <==> x == xs[0] || x in xs';
        assert x in ys <==> x == ys[0] || x in ys';
      }
      SortedUnique(xs', ys');
    }
  }

  lemma {:induction false} NotInRest(xs: seq<string>)
    requires Sorted(xs) && xs != []
    ensures xs[0] !in xs[1..]
  {
    BeforeTotal(xs[0], xs[0]);
    assert forall k :: 0 <= k < |xs| - 1 ==> Before(xs[0], xs[1..][k]);
  }

  lemma {:induction false} SameFirst(xs: seq<string>, ys: seq<string>)
    requires Sorted(xs) && Sorted(ys) && xs != [] && ys != [] && xs[0] in ys && ys[0] in xs
    ensures xs[0] == ys[0]
  {
    FirstIsLeast(xs, ys[0]);
    FirstIsLeast(ys, xs[0]);
    BeforeTotal(xs[0], ys[0]);
  }

  lemma {:induction false} FirstIsLeast(xs: seq<string>, x: string)
    requires Sorted(xs) && x in xs
    ensures x == xs[0] || Before(xs[0], x)
  {
    var i :| 0 <= i < |xs| && xs[i] == x;
  }

  // The type encoding.

  function FieldTexts(fields: seq<Field>): string {
    if fields == [] then ""
    else fields[0].typ + " " + fields[0].name + (if |fields| == 1 then "" else "," + FieldTexts(fields[1..]))
  }

  function Rendered(types: Table, names: seq<string>): string
    requires forall n :: n in names ==> n in types
  {
    if names == [] then "" else names[0] + "(" + FieldTexts(types[names[0]]) + ")" + Rendered(types, names[1..])
  }

  lemma {:induction false} DependenciesAreStructs(types: Table, rank: string -> nat, typ: string)
    requires Acyclic(types, rank) && Word(typ) in types
    ensures var r := GetDependencies(types, rank, typ, []);
            && r != [] && r[0] == Word(typ)
            && (forall u :: u in [r[0]] + Sort(r[1..]) ==> u in types)
  {
    DependenciesSpec(types, rank, typ, []);
    var r := GetDependencies(types, rank, typ, []);
    assert NoDuplicates(r[1..]);
    SortSpec(r[1..]);
    forall u | u in [r[0]] + Sort(r[1..]) ensures u in types {
      assert u in r;
      ReachesDown(types, rank, Word(typ), u);
    }
  }

  function EncodeType(types: Table, ghost rank: string -> nat, typ: string): string
    requires Acyclic(types, rank) && Word(typ) in types
  {
    var dependencies := GetDependencies(types, rank, typ, []);
    DependenciesAreStructs(types, rank, typ);
    Rendered(types, [dependencies[0]] + Sort(dependencies[1..]))
  }

  /** Type, blank and name of each field. */
  function FieldPhrases(fields: seq<Field>): (r: seq<string>)
    ensures |r| == |fields| && forall i :: 0 <= i < |fields| ==> r[i] == fields[i].typ + " " + fields[i].name
  {
    seq(|fields|, i requires 0 <= i < |fields| => fields[i].typ + " " + fields[i].name)
  }

  /** The text of a struct: its name and, in parentheses and joined by commas, its fields. */
  function StructText(name: string, fields: seq<Field>): string {
    name + "(" + Join(FieldPhrases(fields)) + ")"
  }

  /** The texts of the structs, one after the other. */
  function StructTexts(types: Table, names: seq<string>): string
    requires forall n :: n in names ==> n in types
  {
    if names == [] then ""
    else
      var last := names[|names| - 1];
      StructTexts(types, names[..|names| - 1]) + StructText(last, types[last])
  }

  lemma {:induction false} FieldTextsJoin(fields: seq<Field>)
    ensures FieldTexts(fields) == Join(FieldPhrases(fields))
    decreases |fields|
  {
    if |fields| > 1 {
      var phrases, rest := FieldPhrases(fields), fields[1..];
      FieldTextsJoin(rest);
      assert phrases[1..] == FieldPhrases(rest);
      var x, y := phrases[0], FieldTexts(rest);
      assert x + ("," + y) == x + "," + y;
    }
  }

  lemma {:induction false} RenderedJoin(types: Table, xs: seq<string>, ys: seq<string>)
    requires (forall n :: n in xs ==> n in types) && forall n :: n in ys ==> n in types
    ensures Rendered(types, xs + ys) == Rendered(types, xs) + Rendered(types, ys)
    decreases |xs|
  {
    if xs == [] {
      assert xs + ys == ys;
    } else {
      assert (xs + ys)[0] == xs[0] && (xs + ys)[1..] == xs[1..] + ys;
      RenderedJoin(types, xs[1..], ys);
      var t := xs[0] + "(" + FieldTexts(types[xs[0]]) + ")";
      assert t + (Rendered(types, xs[1..]) + Rendered(types, ys)) == t + Rendered(types, xs[1..]) + Rendered(types, ys);
    }
  }

  lemma {:induction false} RenderedTexts(types: Table, names: seq<string>)
    requires forall n :: n in names ==> n in types
    ensures Rendered(types, names) == StructTexts(types, names)
    decreases |names|
  {
    if names != [] {
      var front, last := names[..|names| - 1], names[|names| - 1];
      RenderedTexts(types, front);
      RenderedJoin(types, front, [last]);
      FieldTextsJoin(types[last]);
      assert names == front + [last] && [last][1..] == [];
      var t := StructText(last, types[last]);
      assert Rendered(types, [last]) == t + "" == t;
    }
  }

  /**
   * The type encoding of EIP-712: the text of the primary type, then those of the other structs it reaches, in
   * alphabetical order. It depends on nothing else, so not on the order of fields or on the rest of the table.
   */
  lemma {:induction false} EncodeTypeIsCanonical(types: Table, rank: string -> nat, typ: string, others: seq<string>)
    requires Acyclic(types, rank) && Word(typ) in types
    requires forall i, j :: 0 <= i < j < |others| ==> Earlier(others[i], others[j])
    requires forall u :: u in others <==> Reaches(types, Word(typ), u) && u != Word(typ)
    ensures forall n :: n in [Word(typ)] + others ==> n in types
    ensures EncodeType(types, rank, typ) == StructTexts(types, [Word(typ)] + others)
  {
    forall i, j | 0 <= i < j < |others| ensures Before(others[i], others[j]) { BeforeIsEarlier(others[i], others[j]); }
    SortedEncoding(types, rank, typ, others);
    RenderedTexts(types, [Word(typ)] + others);
  }

  lemma {:induction false} SortedEncoding(types: Table, rank: string -> nat, typ: string, others: seq<string>)
    requires Acyclic(types, rank) && Word(typ) in types
    requires Sorted(others) && forall u :: u in others <==> Reaches(types, Word(typ), u) && u != Word(typ)
    ensures forall n :: n in [Word(typ)] + others ==> n in types
    ensures EncodeType(types, rank, typ) == Rendered(types, [Word(typ)] + others)
  {
    DependenciesSpec(types, rank, typ, []);
    DependenciesAreStructs(types, rank, typ);
    var r := GetDependencies(types, rank, typ, []);
    assert NoDuplicates(r[1..]);
    SortSpec(r[1..]);
    forall u ensures u in Sort(r[1..]) <==> u in others {
      assert u in r <==> u == r[0] || u in r[1..];
      if u in r[1..] { var k :| 0 <= k < |r| - 1 && r[1..][k] == u; assert r[0] != r[k + 1]; }
    }
    SortedUnique(Sort(r[1..]), others);
  }

  /** The encoding starts with the struct's name, which ends where the first parenthesis stands. */
  lemma {:induction false} EncodeTypeStarts(types: Table, rank: string -> nat, typ: string) returns (rest: string)
    requires Acyclic(types, rank) && Word(typ) in types
    ensures EncodeType(types, rank, typ) == Word(typ) + ("(" + rest) && '(' !in Word(typ)
  {
    DependenciesAreStructs(types, rank, typ);
    var r := GetDependencies(types, rank, typ, []);
    var names := [r[0]] + Sort(r[1..]);
    WordIsPlain(typ);
    rest := FieldTexts(types[r[0]]) + ")" + Rendered(types, names[1..]);
    assert r[0] + "(" + FieldTexts(types[r[0]]) + ")" + Rendered(types, names[1..]) == r[0] + ("(" + rest);
  }

  lemma {:induction false} WordIsPlain(typ: string)
    ensures forall c :: c in Word(typ) ==> IsWordChar(c)
  {
    if typ != "" && IsWordChar(typ[0]) { WordIsPlain(typ[1..]); }
  }

  /** Different structs have different encodings. */
  lemma {:induction false} EncodeTypeFixesName(types: Table, rank: string -> nat, more: Table, moreRank: string -> nat,
      a: string, b: string)
    requires Acyclic(types, rank) && Acyclic(more, moreRank) && Word(a) in types && Word(b) in more
    requires EncodeType(types, rank, a) == EncodeType(more, moreRank, b)
    ensures Word(a) == Word(b)
  {
    var x := EncodeTypeStarts(types, rank, a);
    var y := EncodeTypeStarts(more, moreRank, b);
    SplitAtFirst(Word(a), x, Word(b), y, '(');
  }

  /** Two tables define u alike, and its fields are structs in both or in neither. */
  predicate SameEntry(types: Table, more: Table, u: string) {
    && u in types && u in more && more[u] == types[u]
    && forall i :: 0 <= i < |types[u]| ==> (Word(types[u][i].typ) in more <==> Word(types[u][i].typ) in types)
  }

  /** Entries of the table that the primary type does not reach make no difference. */
  lemma {:induction false} EncodeTypeIgnoresTheRest(types: Table, rank: string -> nat, more: Table,
      moreRank: string -> nat, typ: string)
    requires Acyclic(types, rank) && Acyclic(more, moreRank) && Word(typ) in types
    requires forall u :: Reaches(types, Word(typ), u) ==> SameEntry(types, more, u)
    ensures Word(typ) in more && EncodeType(types, rank, typ) == EncodeType(more, moreRank, typ)
  {
    var a := Word(typ);
    ReachesItself(types, a);
    forall u ensures Reaches(types, a, u) <==> Reaches(more, a, u) {
      if Reaches(types, a, u) { CarriesOver(types, rank, more, a, a, u); }
      if Reaches(more, a, u) { CarriesBack(types, rank, more, moreRank, a, a, u); }
    }
    DependenciesSpec(types, rank, typ, []);
    DependenciesAreStructs(types, rank, typ);
    var r := GetDependencies(types, rank, typ, []);
    assert NoDuplicates(r[1..]);
    SortSpec(r[1..]);
    var others := Sort(r[1..]);
    forall u ensures u in others <==> Reaches(types, a, u) && u != a {
      assert u in r <==> u == r[0] || u in r[1..];
      if u in r[1..] { var k :| 0 <= k < |r| - 1 && r[1..][k] == u; assert r[0] != r[k + 1]; }
    }
    SortedEncoding(types, rank, typ, others);
    SortedEncoding(more, moreRank, typ, others);
    SameRendered(types, more, [a] + others);
  }

  lemma {:induction false} CarriesOver(types: Table, rank: string -> nat, more: Table, root: string, a: string,
      c: string)
    requires Layered(types, rank) && Reaches(types, root, a) && Reaches(types, a, c)
    requires forall u :: Reaches(types, root, u) ==> SameEntry(types, more, u)
    ensures Reaches(more, a, c)
    decreases rank(a)
  {
    var b := ReachesFirst(types, a, c);
    if c == a {
      ReachesItself(more, a);
    } else {
      ReachesItself(types, b);
      ReachesVia(types, a, b, b);
      ReachesTransitive(types, rank, root, a, b);
      CarriesOver(types, rank, more, root, b, c);
      assert Edge(more, a, b) by { assert more[a] == types[a]; }
      ReachesVia(more, a, b, c);
    }
  }

  lemma {:induction false} CarriesBack(types: Table, rank: string -> nat, more: Table, moreRank: string -> nat,
      root: string, a: string, c: string)
    requires Layered(types, rank) && Layered(more, moreRank) && Reaches(types, root, a) && Reaches(more, a, c)
    requires forall u :: Reaches(types, root, u) ==> SameEntry(types, more, u)
    ensures Reaches(types, a, c)
    decreases moreRank(a)
  {
    var b := ReachesFirst(more, a, c);
    ReachesDown(types, rank, root, a);
    if c == a {
      ReachesItself(types, a);
    } else {
      assert SameEntry(types, more, a);
      assert Edge(types, a, b);
      ReachesItself(types, b);
      ReachesVia(types, a, b, b);
      ReachesTransitive(types, rank, root, a, b);
      CarriesBack(types, rank, more, moreRank, root, b, c);
      ReachesVia(types, a, b, c);
    }
  }

  lemma {:induction false} SameRendered(types: Table, more: Table, names: seq<string>)
    requires forall n :: n in names ==> n in types && n in more && more[n] == types[n]
    ensures Rendered(types, names) == Rendered(more, names)
  {
    if names != [] { SameRendered(types, more, names[1..]); }
  }
}
