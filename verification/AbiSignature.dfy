/** ABI parameters printed as type signatures, and why a signature can be read in one way only. */
module AbiSignature {
  import opened Wrappers
  import opened Strings

  /** An ABI parameter: with components it is a tuple. */
  datatype Param = Leaf(typ: string) | Tuple(typ: string, components: seq<Param>)

  const TUPLE := "tuple"

  predicate Contains(s: string, c: char) {
    exists i :: 0 <= i < |s| && s[i] == c
  }

  /** The array suffix of a tuple type, `[2][]` of `tuple[2][]`. */
  function Suffix(typ: string): string {
    typ[IndexOf(typ, '[')..]
  }

  /** The part of a type from its first opening bracket on; nothing if there is no bracket. */
  ghost predicate HasSuffix(typ: string, x: string) {
    && |x| <= |typ| && typ[|typ| - |x|..] == x && '[' !in typ[..|typ| - |x|]
    && (x == "" || x[0] == '[')
  }

  /** `Suffix` finds that part, whatever stands before it. */
  lemma {:induction false} SuffixFound(head: string, x: string)
    requires '[' !in head && (x == "" || x[0] == '[')
    ensures Suffix(head + x) == x
  {
    var typ, i := head + x, IndexOf(head + x, '[');
    assert forall k :: 0 <= k < |head| ==> typ[k] == head[k];
    if x != "" { assert typ[|head|] == '['; }
    assert typ[|head|..] == x;
  }

  lemma {:induction false} SuffixIsUnique(typ: string, x: string)
    ensures HasSuffix(typ, x) <==> x == Suffix(typ)
  {
    var i := IndexOf(typ, '[');
    assert forall k :: 0 <= k < i ==> typ[..i][k] != '[';
    assert HasSuffix(typ, typ[i..]);
    if HasSuffix(typ, x) {
      var head := typ[..|typ| - |x|];
      assert typ == head + x;
      SuffixFound(head, x);
    }
  }

  /** The text of one parameter, or the type of the first component list that is no tuple. */
  function TextOf(includeTuple: bool, p: Param): Result<string, string>
    decreases p, 1
  {
    match p
    case Leaf(typ) => Ok(typ)
    case Tuple(typ, components) =>
      if !StartsWith(typ, TUPLE) then Err(typ)
      else
        match Texts(includeTuple, components)
        case Err(t) => Err(t)
        case Ok(texts) => Ok((if includeTuple then TUPLE else "") + "(" + Join(texts) + ")" + Suffix(typ))
  }

  function One(r: Result<string, string>): Result<seq<string>, string> {
    match r
    case Err(t) => Err(t)
    case Ok(text) => Ok([text])
  }

  function Both(a: Result<seq<string>, string>, b: Result<seq<string>, string>): Result<seq<string>, string> {
    if a.Err? then a else if b.Err? then b else Ok(a.value + b.value)
  }

  function Texts(includeTuple: bool, puts: seq<Param>): Result<seq<string>, string>
    decreases puts, 0
  {
    if puts == [] then Ok([]) else Both(One(TextOf(includeTuple, puts[0])), Texts(includeTuple, puts[1..]))
  }

  lemma {:induction false} BothAssociative(a: Result<seq<string>, string>, b: Result<seq<string>, string>,
      c: Result<seq<string>, string>)
    ensures Both(Both(a, b), c) == Both(a, Both(b, c))
  {
    if a.Ok? && b.Ok? && c.Ok? { assert (a.value + b.value) + c.value == a.value + (b.value + c.value); }
  }

  lemma {:induction false} TextsAppend(includeTuple: bool, xs: seq<Param>, ys: seq<Param>)
    ensures Texts(includeTuple, xs + ys) == Both(Texts(includeTuple, xs), Texts(includeTuple, ys))
    decreases |xs|
  {
    if xs == [] {
      assert xs + ys == ys;
      var b := Texts(includeTuple, ys);
      assert b.Ok? ==> [] + b.value == b.value;
    } else {
      assert (xs + ys)[1..] == xs[1..] + ys;
      TextsAppend(includeTuple, xs[1..], ys);
      BothAssociative(One(TextOf(includeTuple, xs[0])), Texts(includeTuple, xs[1..]), Texts(includeTuple, ys));
    }
  }

  lemma {:induction false} TextsOfOne(includeTuple: bool, p: Param)
    ensures Texts(includeTuple, [p]) == One(TextOf(includeTuple, p))
  {
    assert [p][1..] == [];
    var a := One(TextOf(includeTuple, p));
    assert a.Ok? ==> a.value + [] == a.value;
  }

  /** There is one text for each parameter in order, and the error is that of the first one that has none. */
  lemma {:induction false} TextsExactly(includeTuple: bool, puts: seq<Param>)
    ensures match Texts(includeTuple, puts)
            case Ok(texts) =>
              |texts| == |puts| && forall i :: 0 <= i < |puts| ==> TextOf(includeTuple, puts[i]) == Ok(texts[i])
            case Err(t) =>
              exists i :: 0 <= i < |puts| && TextOf(includeTuple, puts[i]) == Err(t)
                && forall k :: 0 <= k < i ==> TextOf(includeTuple, puts[k]).Ok?
    decreases |puts|
  {
    hide TextOf;
    if puts != [] {
      var rest := puts[1..];
      TextsExactly(includeTuple, rest);
      var first, texts := TextOf(includeTuple, puts[0]), Texts(includeTuple, rest);
      if first.Err? {
        assert TextOf(includeTuple, puts[0]) == Err(first.error);
      } else if texts.Err? {
        var i :| 0 <= i < |rest| && TextOf(includeTuple, rest[i]) == Err(texts.error)
          && forall k :: 0 <= k < i ==> TextOf(includeTuple, rest[k]).Ok?;
        assert TextOf(includeTuple, puts[i + 1]) == Err(texts.error);
        assert forall k :: 1 <= k <= i ==> puts[k] == rest[k - 1];
      } else {
        assert forall i :: 1 <= i < |puts| ==> puts[i] == rest[i - 1];
      }
    }
  }

  /**
   * A leaf prints as its type. A tuple of array suffix x prints as the joined texts of its components in
   * parentheses in front of x, behind the word "tuple" where that is wanted; its type must start with that word.
   */
  lemma {:induction false} ParameterText(includeTuple: bool, head: string, x: string, components: seq<Param>)
    requires '[' !in head && (x == "" || x[0] == '[')
    ensures TextOf(includeTuple, Leaf(head + x)) == Ok(head + x)
    ensures TextOf(includeTuple, Tuple(head + x, components)) ==
            if !("tuple" <= head) then Err(head + x)
            else match Texts(includeTuple, components)
              case Err(t) => Err(t)
              case Ok(texts) => Ok((if includeTuple then "tuple" else "") + "(" + Join(texts) + ")" + x)
  {
    var typ := head + x;
    SuffixFound(head, x);
    hide Suffix, Texts, Join;
    assert "tuple" <= head ==> typ[..5] == head[..5];
    if StartsWith(typ, TUPLE) {
      assert typ[..5] == "tuple";
      if |head| < 5 && x != "" { NoBracketInTuple(typ, |head|); }
      assert |head| >= 5 && head[..5] == typ[..5];
    }
  }

  lemma {:induction false} NoBracketInTuple(typ: string, i: nat)
    requires i < 5 <= |typ| && typ[..5] == "tuple"
    ensures typ[i] != '['
  {
    assert typ[i] == typ[..5][i];
  }

  /** The loop of the source, pushing one text per parameter. */
  method FlattenTypes(includeTuple: bool, puts: seq<Param>) returns (r: Result<seq<string>, string>)
    ensures r == Texts(includeTuple, puts)
    decreases puts
  {
    var types := [];
    for i := 0 to |puts|
      invariant Texts(includeTuple, puts[..i]) == Ok(types)
    {
      var param := puts[i];
      assert puts == puts[..i] + ([param] + puts[i + 1..]);
      TextsAppend(includeTuple, puts[..i], [param] + puts[i + 1..]);
      TextsAppend(includeTuple, [param], puts[i + 1..]);
      TextsOfOne(includeTuple, param);
      match param {
        case Leaf(typ) =>
          types := types + [typ];
        case Tuple(typ, components) =>
          if !StartsWith(typ, TUPLE) {
            return Err(typ);
          }
          var suffix := Suffix(typ);
          var inner := FlattenTypes(includeTuple, components);
          if inner.Err? {
            return Err(inner.error);
          }
          if includeTuple {
            types := types + [TUPLE + "(" + Join(inner.value) + ")" + suffix];
          } else {
            assert "" + "(" == "(";
            types := types + ["(" + Join(inner.value) + ")" + suffix];
          }
      }
      assert puts[..i + 1] == puts[..i] + [param];
      TextsAppend(includeTuple, puts[..i], [param]);
      assert TextOf(includeTuple, param) == Ok(types[|types| - 1]);
    }
    assert puts[..|puts|] == puts;
    return Ok(types);
  }

  // Reading a signature back.

  /** The characters that structure a signature. */
  predicate IsMark(c: char) {
    c == '(' || c == ')' || c == ','
  }

  predicate Unmarked(s: string) {
    forall i :: 0 <= i < |s| ==> !IsMark(s[i])
  }

  /** Leaf types are non-empty and, like array suffixes, free of parentheses and commas. */
  ghost predicate Clean(p: Param)
    decreases p, 1
  {
    match p
    case Leaf(typ) => typ != "" && Unmarked(typ)
    case Tuple(typ, components) =>
      && "tuple" <= typ && (exists x :: HasSuffix(typ, x) && Unmarked(x)) && AllClean(components)
  }

  ghost predicate AllClean(ps: seq<Param>)
    decreases ps, 0
  {
    forall i :: 0 <= i < |ps| ==> Clean(ps[i])
  }

  /** The same type tree: nesting, arity, array suffixes and leaf types. */
  ghost predicate SameTree(p: Param, q: Param)
    decreases p, 1
  {
    match (p, q)
    case (Leaf(s), Leaf(t)) => s == t
    case (Tuple(s, ps), Tuple(t, qs)) =>
      && (exists x :: HasSuffix(s, x) && HasSuffix(t, x)) && SameTrees(ps, qs)
    case _ => false
  }

  ghost predicate SameTrees(ps: seq<Param>, qs: seq<Param>)
    decreases ps, 0
  {
    |ps| == |qs| && forall i :: 0 <= i < |ps| ==> SameTree(ps[i], qs[i])
  }

  /** Clean tuples and equal trees in terms of the suffix that is printed. */
  lemma {:induction false} PrintedSuffix(p: Param, q: Param)
    requires p.Tuple? && q.Tuple?
    ensures Clean(p) <==> StartsWith(p.typ, TUPLE) && Unmarked(Suffix(p.typ)) && AllClean(p.components)
    ensures SameTree(p, q) <==> Suffix(p.typ) == Suffix(q.typ) && SameTrees(p.components, q.components)
  {
    hide Suffix, Unmarked;
    SuffixIsUnique(p.typ, Suffix(p.typ));
    SuffixIsUnique(q.typ, Suffix(q.typ));
    forall x ensures HasSuffix(p.typ, x) <==> x == Suffix(p.typ) { SuffixIsUnique(p.typ, x); }
    forall x ensures HasSuffix(q.typ, x) <==> x == Suffix(q.typ) { SuffixIsUnique(q.typ, x); }
    hide HasSuffix;
    assert TUPLE <= p.typ <==> StartsWith(p.typ, TUPLE);
    if Suffix(p.typ) == Suffix(q.typ) { assert HasSuffix(p.typ, Suffix(q.typ)) && HasSuffix(q.typ, Suffix(q.typ)); }
  }

  /** What may follow a parameter: nothing, or a closing parenthesis or comma. */
  predicate Ends(s: string) {
    s == "" || s[0] == ')' || s[0] == ','
  }

  ghost function Print(includeTuple: bool, p: Param): string
    requires Clean(p)
  {
    CleanTexts(includeTuple, p);
    TextOf(includeTuple, p).value
  }

  ghost function PrintAll(includeTuple: bool, ps: seq<Param>): string
    requires AllClean(ps)
  {
    CleanTextsAll(includeTuple, ps);
    Join(Texts(includeTuple, ps).value)
  }

  lemma {:induction false} CleanTexts(includeTuple: bool, p: Param)
    requires Clean(p)
    ensures TextOf(includeTuple, p).Ok?
    decreases p, 1
  {
    if p.Tuple? {
      PrintedSuffix(p, p);
      CleanTextsAll(includeTuple, p.components);
    }
  }

  lemma {:induction false} CleanTextsAll(includeTuple: bool, ps: seq<Param>)
    requires AllClean(ps)
    ensures Texts(includeTuple, ps).Ok? && |Texts(includeTuple, ps).value| == |ps|
    decreases ps, 0
  {
    if ps != [] {
      CleanTexts(includeTuple, ps[0]);
      assert forall i :: 0 <= i < |ps| - 1 ==> ps[1..][i] == ps[i + 1];
      CleanTextsAll(includeTuple, ps[1..]);
    }
  }

  lemma {:induction false} PrintTuple(includeTuple: bool, p: Param)
    requires Clean(p) && p.Tuple?
    ensures Print(includeTuple, p) ==
            (if includeTuple then TUPLE else "") + "(" + PrintAll(includeTuple, p.components) + ")" + Suffix(p.typ)
  {
    PrintedSuffix(p, p);
    CleanTextsAll(includeTuple, p.components);
  }

  lemma {:induction false} PrintCons(includeTuple: bool, ps: seq<Param>)
    requires AllClean(ps) && ps != []
    ensures AllClean(ps[1..])
    ensures PrintAll(includeTuple, ps) ==
            Print(includeTuple, ps[0]) + (if |ps| == 1 then "" else "," + PrintAll(includeTuple, ps[1..]))
  {
    assert forall i :: 0 <= i < |ps| - 1 ==> ps[1..][i] == ps[i + 1];
    CleanTexts(includeTuple, ps[0]);
    CleanTextsAll(includeTuple, ps[1..]);
    hide Clean, AllClean, TextOf;
    var first, rest := Print(includeTuple, ps[0]), Texts(includeTuple, ps[1..]).value;
    assert Texts(includeTuple, ps).value == [first] + rest;
    JoinCons(first, rest);
  }

  lemma {:induction false} JoinCons(first: string, rest: seq<string>)
    ensures Join([first] + rest) == first + (if rest == [] then "" else "," + Join(rest))
  {
    assert ([first] + rest)[1..] == rest;
  }

  /** An unmarked text ends no later than where a mark stands. */
  lemma {:induction false} NotLonger(x: string, s: string, y: string, t: string)
    requires Unmarked(y) && x + s == y + t && (s == "" || IsMark(s[0]))
    ensures |y| <= |x|
  {
    var z := x + s;
    assert |z| == |x| + |s| && (s != "" ==> z[|x|] == s[0]);
    forall k | 0 <= k < |y| ensures !IsMark(z[k]) { assert z[k] == y[k]; }
  }

  lemma {:induction false} WordEnds(x: string, s: string, y: string, t: string)
    requires Unmarked(x) && Unmarked(y) && x + s == y + t
    requires (s == "" || IsMark(s[0])) && (t == "" || IsMark(t[0]))
    ensures x == y && s == t
  {
    NotLonger(x, s, y, t);
    NotLonger(y, t, x, s);
    assert x == (x + s)[..|x|] && y == (y + t)[..|y|];
    assert s == (x + s)[|x|..] && t == (y + t)[|y|..];
  }

  // Unique reading.

  /** A tuple prints with a parenthesis where a leaf has none. */
  lemma {:induction false} LeafIsNoTuple(includeTuple: bool, p: Param, s: string, q: Param, t: string)
    requires Clean(p) && Clean(q) && Ends(s) && p.Leaf? && q.Tuple?
    ensures Print(includeTuple, p) + s != Print(includeTuple, q) + t
  {
    PrintTuple(includeTuple, q);
    PrintLeaf(includeTuple, p);
    hide Print, PrintAll, Clean, Suffix;
    TupleHead(if includeTuple then TUPLE else "", PrintAll(includeTuple, q.components), Suffix(q.typ), t, p.typ, s);
  }

  lemma {:induction false} TupleHead(head: string, a: string, x: string, t: string, leaf: string, s: string)
    requires (head == "" || head == TUPLE) && leaf != "" && Unmarked(leaf) && Ends(s)
    ensures leaf + s != head + "(" + a + ")" + x + t
  {
    var rest := "(" + a + ")" + x + t;
    assert head + "(" + a + ")" + x + t == head + rest;
    assert Unmarked(head);
    if leaf + s == head + rest { WordEnds(leaf, s, head, rest); }
  }

  /** Printed parameters cannot be mixed up: with their ends, equal texts come from equal trees. */
  lemma {:induction false} ReadOne(includeTuple: bool, p: Param, s: string, q: Param, t: string)
    requires Clean(p) && Clean(q) && Ends(s) && Ends(t)
    requires Print(includeTuple, p) + s == Print(includeTuple, q) + t
    ensures SameTree(p, q) && s == t
    decreases p, 1
  {
    hide Print, PrintAll, Unmarked, Suffix, AllClean;
    if p.Leaf? && q.Leaf? {
      PrintLeaf(includeTuple, p);
      PrintLeaf(includeTuple, q);
      WordEnds(p.typ, s, q.typ, t);
    } else if p.Leaf? {
      LeafIsNoTuple(includeTuple, p, s, q, t);
    } else if q.Leaf? {
      LeafIsNoTuple(includeTuple, q, t, p, s);
    } else {
      var head := (if includeTuple then TUPLE else "") + "(";
      var a, b := PrintAll(includeTuple, p.components), PrintAll(includeTuple, q.components);
      PrintTuple(includeTuple, p);
      PrintTuple(includeTuple, q);
      OpenTuple(head, a, b, Suffix(p.typ), s, Suffix(q.typ), t);
      ReadAll(includeTuple, p.components, ")" + (Suffix(p.typ) + s), q.components, ")" + (Suffix(q.typ) + t));
      DropHead(")", Suffix(p.typ) + s, Suffix(q.typ) + t);
      PrintedSuffix(p, q);
      PrintedSuffix(q, p);
      WordEnds(Suffix(p.typ), s, Suffix(q.typ), t);
    }
  }

  lemma {:induction false} PrintLeaf(includeTuple: bool, p: Param)
    requires Clean(p) && p.Leaf?
    ensures Print(includeTuple, p) == p.typ
  {}

  lemma {:induction false} OpenTuple(head: string, a: string, b: string, x: string, s: string, y: string, t: string)
    requires head + a + ")" + x + s == head + b + ")" + y + t
    ensures a + (")" + (x + s)) == b + (")" + (y + t))
  {
    assert head + a + ")" + x + s == head + (a + (")" + (x + s)));
    assert head + b + ")" + y + t == head + (b + (")" + (y + t)));
    DropHead(head, a + (")" + (x + s)), b + (")" + (y + t)));
  }

  lemma {:induction false} DropHead(head: string, x: string, y: string)
    requires head + x == head + y
    ensures x == y
  {
    assert x == (head + x)[|head|..] && y == (head + y)[|head|..];
  }

  /** The same for lists, which end at a closing parenthesis or with the text. */
  lemma {:induction false} ReadAll(includeTuple: bool, ps: seq<Param>, s: string, qs: seq<Param>, t: string)
    requires AllClean(ps) && AllClean(qs)
    requires (s == "" || s[0] == ')') && (t == "" || t[0] == ')')
    requires PrintAll(includeTuple, ps) + s == PrintAll(includeTuple, qs) + t
    ensures SameTrees(ps, qs) && s == t
    decreases ps, 0
  {
    hide Print, PrintAll, SameTree;
    if ps == [] && qs == [] {
      PrintNothing(includeTuple, s);
      PrintNothing(includeTuple, t);
    } else if ps == [] {
      NothingIsNoList(includeTuple, s, qs, t);
    } else if qs == [] {
      NothingIsNoList(includeTuple, t, ps, s);
    } else {
      var x := (if |ps| == 1 then "" else "," + PrintAll(includeTuple, ps[1..])) + s;
      var y := (if |qs| == 1 then "" else "," + PrintAll(includeTuple, qs[1..])) + t;
      PrintFirst(includeTuple, ps, s);
      PrintFirst(includeTuple, qs, t);
      ReadOne(includeTuple, ps[0], x, qs[0], y);
      assert |ps| == 1 ==> x == s;
      assert |qs| == 1 ==> y == t;
      if |ps| > 1 {
        var a, b := PrintAll(includeTuple, ps[1..]) + s, PrintAll(includeTuple, qs[1..]) + t;
        assert x == "," + a && y == "," + b;
        DropHead(",", a, b);
        ReadAll(includeTuple, ps[1..], s, qs[1..], t);
      }
      TreesCons(ps, qs);
    }
  }

  lemma {:induction false} PrintNothing(includeTuple: bool, s: string)
    ensures PrintAll(includeTuple, []) + s == s
  {
    assert "" + s == s;
  }

  lemma {:induction false} PrintFirst(includeTuple: bool, ps: seq<Param>, s: string)
    requires AllClean(ps) && ps != [] && (s == "" || s[0] == ')')
    ensures AllClean(ps[1..])
    ensures var x := (if |ps| == 1 then "" else "," + PrintAll(includeTuple, ps[1..])) + s;
            && PrintAll(includeTuple, ps) + s == Print(includeTuple, ps[0]) + x
            && Ends(x) && (|ps| > 1 <==> x != "" && x[0] == ',')
  {
    PrintCons(includeTuple, ps);
  }

  lemma {:induction false} TreesCons(ps: seq<Param>, qs: seq<Param>)
    requires ps != [] && qs != [] && SameTree(ps[0], qs[0]) && SameTrees(ps[1..], qs[1..])
    ensures SameTrees(ps, qs)
  {
    forall i | 0 <= i < |ps| ensures SameTree(ps[i], qs[i]) {
      if i > 0 { assert ps[i] == ps[1..][i - 1] && qs[i] == qs[1..][i - 1]; }
    }
  }

  lemma {:induction false} NothingIsNoList(includeTuple: bool, s: string, qs: seq<Param>, t: string)
    requires AllClean(qs) && qs != [] && (s == "" || s[0] == ')')
    ensures PrintAll(includeTuple, []) + s != PrintAll(includeTuple, qs) + t
  {
    PrintCons(includeTuple, qs);
    var first := Print(includeTuple, qs[0]);
    if qs[0].Tuple? {
      PrintTuple(includeTuple, qs[0]);
    }
    assert first != "" && first[0] != ')';
    assert PrintAll(includeTuple, []) + s == s;
    assert (PrintAll(includeTuple, qs) + t)[0] == first[0];
  }

  /**
   * Signatures are unambiguous: two parameter lists have the same signature text exactly when they have
   * the same type trees.
   */
  lemma {:induction false} SignatureIsUnambiguous(includeTuple: bool, ps: seq<Param>, qs: seq<Param>)
    requires AllClean(ps) && AllClean(qs)
    ensures PrintAll(includeTuple, ps) == PrintAll(includeTuple, qs) <==> SameTrees(ps, qs)
  {
    var a, b := PrintAll(includeTuple, ps), PrintAll(includeTuple, qs);
    assert a + "" == a && b + "" == b;
    if a == b { ReadAll(includeTuple, ps, "", qs, ""); }
    if SameTrees(ps, qs) { SameTreesSameTexts(includeTuple, ps, qs); }
  }

  lemma {:induction false} SameTreeSameText(includeTuple: bool, p: Param, q: Param)
    requires Clean(p) && Clean(q) && SameTree(p, q)
    ensures TextOf(includeTuple, p) == TextOf(includeTuple, q)
    decreases p, 1
  {
    if p.Tuple? {
      PrintedSuffix(p, q);
      PrintedSuffix(q, p);
      SameTreesSameTexts(includeTuple, p.components, q.components);
    }
  }

  lemma {:induction false} SameTreesSameTexts(includeTuple: bool, ps: seq<Param>, qs: seq<Param>)
    requires AllClean(ps) && AllClean(qs) && SameTrees(ps, qs)
    ensures Texts(includeTuple, ps) == Texts(includeTuple, qs)
    decreases ps, 0
  {
    if ps != [] {
      SameTreeSameText(includeTuple, ps[0], qs[0]);
      assert forall i :: 0 <= i < |ps| - 1 ==> ps[1..][i] == ps[i + 1] && qs[1..][i] == qs[i + 1];
      SameTreesSameTexts(includeTuple, ps[1..], qs[1..]);
    }
  }

  // Method signatures.

  /** A function, event or error fragment has a name; a constructor fragment has none. */
  datatype Fragment = Named(name: string, inputs: seq<Param>) | Constructor(inputs: seq<Param>)

  function MethodText(f: Fragment): Result<string, string> {
    if f.Named? && Contains(f.name, '(') then Ok(f.name)
    else
      match Texts(false, f.inputs)
      case Err(t) => Err(t)
      case Ok(texts) => Ok((if f.Named? then f.name else "") + "(" + Join(texts) + ")")
  }

  /**
   * Names without an opening parenthesis are the ones the code prints the inputs behind. Fragments with such
   * names have one signature exactly when name and type trees agree.
   */
  lemma {:induction false} MethodSignatureIsUnambiguous(f: Fragment, g: Fragment)
    requires f.Named? && g.Named? && !Contains(f.name, '(') && !Contains(g.name, '(')
    requires AllClean(f.inputs) && AllClean(g.inputs)
    ensures MethodText(f) == MethodText(g) <==> f.name == g.name && SameTrees(f.inputs, g.inputs)
  {
    var a, b := PrintAll(false, f.inputs), PrintAll(false, g.inputs);
    PrintedMethod(f);
    PrintedMethod(g);
    SignatureIsUnambiguous(false, f.inputs, g.inputs);
    if f.name + ("(" + a + ")") == g.name + ("(" + b + ")") { NameEnds(f.name, a, g.name, b); }
  }

  lemma {:induction false} PrintedMethod(f: Fragment)
    requires f.Named? && !Contains(f.name, '(') && AllClean(f.inputs)
    ensures MethodText(f) == Ok(f.name + ("(" + PrintAll(false, f.inputs) + ")"))
  {
    CleanTextsAll(false, f.inputs);
    var a := PrintAll(false, f.inputs);
    assert f.name + "(" + a + ")" == f.name + ("(" + a + ")");
  }

  /** The name is what stands before the first parenthesis. */
  lemma {:induction false} NameEnds(n: string, a: string, m: string, b: string)
    requires !Contains(n, '(') && !Contains(m, '(') && n + ("(" + a + ")") == m + ("(" + b + ")")
    ensures n == m && a == b
  {
    var x, y := a + ")", b + ")";
    assert "(" + a + ")" == "(" + x && "(" + b + ")" == "(" + y;
    SplitAtFirst(n, x, m, y, '(');
    assert x[..|a|] == a && y[..|b|] == b;
  }

  /** The signature says what the inputs are, whatever they are. */
  ghost predicate ShowsInputs(name: string) {
    forall ps, qs :: AllClean(ps) && AllClean(qs) && MethodText(Named(name, ps)) == MethodText(Named(name, qs)) ==>
      SameTrees(ps, qs)
  }

  /** A name lets the signature show the inputs exactly if it holds no opening parenthesis. */
  lemma {:induction false} NameShowsInputs(name: string)
    ensures ShowsInputs(name) <==> !Contains(name, '(')
  {
    if Contains(name, '(') {
      var ps, qs := [], [Leaf("bool")];
      assert AllClean(ps) && AllClean(qs) && !SameTrees(ps, qs);
      assert MethodText(Named(name, ps)) == MethodText(Named(name, qs));
    } else {
      forall ps, qs | AllClean(ps) && AllClean(qs) && MethodText(Named(name, ps)) == MethodText(Named(name, qs))
        ensures SameTrees(ps, qs)
      {
        MethodSignatureIsUnambiguous(Named(name, ps), Named(name, qs));
      }
    }
  }

  /** A signature is the name and the joined texts of the inputs in parentheses, or the name that holds one. */
  lemma {:induction false} SignatureText(name: string, inputs: seq<Param>, texts: seq<string>)
    requires Texts(false, inputs) == Ok(texts)
    ensures MethodText(Constructor(inputs)) == Ok("(" + Join(texts) + ")")
    ensures MethodText(Named(name, inputs)) == Ok(if '(' in name then name else name + "(" + Join(texts) + ")")
  {
    hide Texts, Join;
    assert "" + "(" == "(";
  }

  /** A function f with one input of type `tuple[2]` whose component is a `uint256`. */
  lemma {:induction false} ArrayOfTuples()
    ensures MethodText(Named("f", [Tuple("tuple[2]", [Leaf("uint256")])])) == Ok("f((uint256)[2])")
  {
    var p := Tuple("tuple[2]", [Leaf("uint256")]);
    PairText();
    hide TextOf;
    TextsOfOne(false, p);
    hide Texts, Join;
    SignatureText("f", [p], ["(uint256)[2]"]);
    assert Join(["(uint256)[2]"]) == "(uint256)[2]" by { JoinSnoc([], "(uint256)[2]"); }
    assert "f" + "(" + "(uint256)[2]" + ")" == "f((uint256)[2])";
  }

  lemma {:induction false} PairText()
    ensures TextOf(false, Tuple("tuple[2]", [Leaf("uint256")])) == Ok("(uint256)[2]")
  {
    var inner := [Leaf("uint256")];
    assert "tuple[2]" == "tuple" + "[2]";
    ParameterText(false, "tuple", "[2]", inner);
    TextsOfOne(false, inner[0]);
    JoinSnoc([], "uint256");
    assert TextOf(false, inner[0]) == Ok("uint256");
    hide TextOf, Texts, Join;
    assert "" + "(" + "uint256" + ")" + "[2]" == "(uint256)[2]";
  }
}
