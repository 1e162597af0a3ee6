/** A separator that a message itself holds is cut out of it. */
module DechunkerSeparator {
  import opened Wrappers
  import opened Dechunker
  import opened DechunkerSeams
  import opened DechunkerDelivery

  /** One text, parsed by itself. */
  function Whole<J>(parse: string -> Parsed<J>, text: string): Outcome<J> {
    match parse(text)
    case Rejected => Outcome(Some(text), [])
    case Falsy => Outcome(None, [])
    case Value(v) => Outcome(None, [v])
  }

  /** No proper part of the pieces, from the first one on, is accepted. */
  ghost predicate Unfinished<J>(parse: string -> Parsed<J>, pieces: seq<string>) {
    forall k :: 0 < k < |pieces| ==> parse(Concat(pieces[..k])) == Rejected
  }

  /**
   * One text without seams in one event, whatever separators it holds: if its parts are refused, what is parsed is the
   * text without its separators. It is the text itself only if there are none; each one makes it 4 characters shorter.
   */
  lemma {:induction false} SeparatorsAreCutOut<J>(parse: string -> Parsed<J>, text: string)
    requires NoSeam(text) && Unfinished(parse, Split(text, 0))
    ensures var pieces := Split(text, 0);
      && Feed(parse, None, text) == Whole(parse, Concat(pieces))
      && |Concat(pieces)| == |text| - 4 * (|pieces| - 1)
      && (Concat(pieces) == text <==> NoSeparator(text))
  {
    var pieces := Split(text, 0);
    NoMatches(false, false, text);
    NoMatches(true, true, text);
    NoMatches(false, true, text);
    NoMatches(true, false, text);
    assert Dechunk(text) == pieces;
    SplitLength(text, 0);
    SplitOnce(text, 0);
    assert pieces[..0] == [] && pieces[0..] == pieces;
    Glued(parse, None, pieces, 0);
    if NoSeparator(text) {
      SplitCopies(text, 0, |text|);
      assert text[0..|text|] + "" == text;
      ConcatCons(text, []);
    }
  }

  lemma {:induction false} Glued<J>(parse: string -> Parsed<J>, last: Option<string>, pieces: seq<string>, k: nat)
    requires k < |pieces| && Carried(last) == Concat(pieces[..k]) && Unfinished(parse, pieces)
    ensures Absorb(parse, last, pieces[k..]) == Whole(parse, Concat(pieces))
    decreases |pieces| - k
  {
    assert pieces[k..][0] == pieces[k] && pieces[k..][1..] == pieces[k + 1..];
    assert pieces[..k + 1][..k] == pieces[..k] && Concat(pieces[..k + 1]) == Concat(pieces[..k]) + pieces[k];
    if k + 1 == |pieces| {
      assert pieces[..k + 1] == pieces;
    } else {
      Glued(parse, Some(Concat(pieces[..k + 1])), pieces, k + 1);
    }
  }

  lemma {:induction false} ConcatCons(x: string, ps: seq<string>)
    ensures Concat([x] + ps) == x + Concat(ps)
    decreases |ps|
  {
    var all := [x] + ps;
    if ps == [] {
      assert all[..0] == [] && Concat(all) == "" + x;
    } else {
      var n := |ps| - 1;
      assert all[..|all| - 1] == [x] + ps[..n];
      ConcatCons(x, ps[..n]);
    }
  }

  lemma {:induction false} SplitLength(s: string, i: nat)
    requires i <= |s|
    ensures |Concat(Split(s, i))| == |s| - i - 4 * (|Split(s, i)| - 1)
    decreases |s| - i
  {
    if i == |s| {
      ConcatCons("", []);
    } else if SeparatorAt(s, i) {
      SplitLength(s, i + 4);
      ConcatCons("", Split(s, i + 4));
    } else {
      SplitLength(s, i + 1);
      var rest := Split(s, i + 1);
      hide Concat, SeparatorAt;
      assert rest == [rest[0]] + rest[1..];
      ConcatCons(rest[0], rest[1..]);
      ConcatCons([s[i]] + rest[0], rest[1..]);
    }
  }

  lemma {:induction false} SplitOnce(s: string, i: nat)
    requires i <= |s|
    ensures |Split(s, i)| == 1 <==> forall j :: i <= j <= |s| ==> !SeparatorAt(s, j)
    decreases |s| - i
  {
    if i < |s| && !SeparatorAt(s, i) {
      SplitOnce(s, i + 1);
      assert |Split(s, i)| == |Split(s, i + 1)|;
    } else if i < |s| {
      assert |Split(s, i)| > 1;
    }
  }
}
