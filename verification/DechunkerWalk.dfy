/** The walk of the parser along the stream, piece by piece. */
module DechunkerWalk {
  import opened Wrappers
  import opened Dechunker
  import opened DechunkerSeams
  import opened DechunkerDelivery

  /** What is carried at the end: the unfinished last message, from somewhere in the white space before it. */
  ghost predicate Tail<J>(ms: seq<Message<J>>, events: seq<string>, T: string, c: string)
    requires |ms| > 0
  {
    var n, total := |ms| - 1, Cut(events, |events|);
    exists s :: Start(ms, n) <= s <= TextStart(ms, n) && s <= total <= |T| && c == T[s..total]
  }

  ghost predicate Good<J>(ms: seq<Message<J>>, events: seq<string>, T: string, j: nat, r: Outcome<J>)
    requires j < |ms|
  {
    && r.values <= Values(ms, j)
    && (r.values == Values(ms, j) <==> AllKept(ms, events, j))
    && (AllKept(ms, events, j) ==> Tail(ms, events, T, Carried(r.last)))
  }

  /** The rest of a run: the pieces left of this event, then the later events. */
  function Rest<J>(parse: string -> Parsed<J>, last: Option<string>, pieces: seq<string>,
      later: seq<string>): Outcome<J> {
    var now := Absorb(parse, last, pieces);
    var r := FeedAll(parse, now.last, later);
    Outcome(r.last, now.values + r.values)
  }

  lemma {:induction false} RestRejected<J>(parse: string -> Parsed<J>, last: Option<string>, a: string,
      ps: seq<string>, later: seq<string>)
    requires parse(Carried(last) + a) == Rejected
    ensures Rest(parse, last, [a] + ps, later) == Rest(parse, Some(Carried(last) + a), ps, later)
  {
    assert ([a] + ps)[1..] == ps;
  }

  lemma {:induction false} RestAccepted<J>(parse: string -> Parsed<J>, last: Option<string>, a: string,
      ps: seq<string>, later: seq<string>, v: J)
    requires parse(Carried(last) + a) == Value(v)
    ensures var r := Rest(parse, None, ps, later);
            Rest(parse, last, [a] + ps, later) == Outcome(r.last, [v] + r.values)
  {
    assert ([a] + ps)[1..] == ps;
  }

  lemma {:induction false} RestNext<J>(parse: string -> Parsed<J>, last: Option<string>, later: seq<string>)
    ensures Rest(parse, last, [], later) == FeedAll(parse, last, later)
  {}

  lemma {:induction false} FeedAllIsRest<J>(parse: string -> Parsed<J>, last: Option<string>, events: seq<string>)
    requires events != [] && NoSeparator(events[0])
    ensures FeedAll(parse, last, events) == Rest(parse, last, Pieces(events[0]), events[1..])
  {
    DechunkIsPieces(events[0]);
  }

  // Seams of a stretch T[pos..hi] of one event.

  lemma {:induction false} SeamInStream(T: string, pos: nat, hi: nat, p: nat, q: nat)
    requires pos <= hi <= |T| && Seam(T[pos..hi], p, q)
    ensures Seam(T, pos + p, pos + q) && p > 0
    ensures T[pos + p - 1] == ']' ==> p >= 2 && T[pos + p - 2] == '}'
    ensures T[pos + q] == '[' ==> pos + q + 1 < hi && T[pos + q + 1] == '{'
  {}

  /** No line break is dropped inside a message. */
  lemma {:induction false} NothingDropped<J>(parse: string -> Parsed<J>, m: Message<J>, T: string, a: nat, b: nat,
      c: nat, pos: nat, hi: nat, p: nat, q: nat)
    requires Placed(parse, m, T, a, b, c) && a <= pos <= hi <= |T|
    requires Seam(T[pos..hi], p, q) && pos + p < c
    ensures q == p
  {
    SeamInStream(T, pos, hi, p, q);
    if q == p + 1 {
      var P := pos + p;
      assert P - 1 < b ==> T[P - 1] == m.gap[P - 1 - a] by { assert P - 1 < b ==> T[a..b][P - 1 - a] == T[P - 1]; }
      assert b <= P - 1;
      assert T[P - 1] == ']' ==> b <= P - 2;
      assert m.text[|m.text| - 1] == T[c - 1];
      assert forall i :: b <= i < c ==> m.text[i - b] == T[i];
      assert BrokenSeam(m.text, P - b);
    }
  }

  /**
   * At the end of a message, exactly the white space before the next one is dropped, and it is at most a line
   * break.
   */
  lemma {:induction false} GapDropped<J>(parse: string -> Parsed<J>, m: Message<J>, T: string, c: nat, b: nat,
      end: nat, q: nat)
    requires Placed(parse, m, T, c, b, end) && Seam(T, c, q)
    ensures q == b && Gap(m.gap)
  {
    assert b == c + |m.gap|;
    assert T[b] == m.text[0];
    assert forall i :: 0 <= i < |m.gap| ==> T[c + i] == m.gap[i];
    assert |m.gap| == 1 ==> m.gap == [T[c]];
  }

  lemma {:induction false} MessageEdges<J>(parse: string -> Parsed<J>, m: Message<J>, T: string, a: nat, b: nat, c: nat)
    requires Placed(parse, m, T, a, b, c)
    ensures T[b] == '{' || (T[b] == '[' && b + 1 < c && T[b + 1] == '{')
    ensures T[c - 1] == '}' || (T[c - 1] == ']' && b < c - 1 && T[c - 2] == '}')
    ensures StartsBatch(m.text) == (T[b] == '[') == (T[c - 1] == ']')
  {
    assert forall i :: b <= i < c ==> m.text[i - b] == T[i];
  }

  /** A seam at the end of message m has all the brackets around the boundary on its sides. */
  lemma {:induction false} SeamCovers<J>(parse: string -> Parsed<J>, m: Message<J>, m': Message<J>, T: string,
                      a: nat, b: nat, c: nat, f: nat, end: nat, pos: nat, hi: nat, q: nat)
    requires Placed(parse, m, T, a, b, c) && Placed(parse, m', T, c, f, end)
    requires pos <= c <= hi <= |T| && Seam(T[pos..hi], c - pos, q)
    ensures pos + q == f && Gap(m'.gap)
    ensures pos <= c - Width(StartsBatch(m.text)) && f + Width(StartsBatch(m'.text)) <= hi
  {
    SeamInStream(T, pos, hi, c - pos, q);
    GapDropped(parse, m', T, c, f, end, pos + q);
    MessageEdges(parse, m, T, a, b, c);
    MessageEdges(parse, m', T, c, f, end);
  }

  /** Conversely, a stretch that holds the boundary and the brackets around it holds a seam. */
  lemma {:induction false} CoveredSeam<J>(parse: string -> Parsed<J>, m: Message<J>, m': Message<J>, T: string,
                       a: nat, b: nat, c: nat, f: nat, end: nat, pos: nat, hi: nat)
    requires Placed(parse, m, T, a, b, c) && Placed(parse, m', T, c, f, end) && Gap(m'.gap)
    requires pos <= c - Width(StartsBatch(m.text)) && f + Width(StartsBatch(m'.text)) <= hi <= |T|
    ensures SeamAt(T[pos..hi], c - pos)
  {
    MessageEdges(parse, m, T, a, b, c);
    MessageEdges(parse, m', T, c, f, end);
    assert Gap(T[c..f]);
    assert f == c + 1 ==> T[c] == T[c..f][0];
    assert Seam(T[pos..hi], c - pos, f - pos);
  }

  /** Every cut is before event e or after it. */
  lemma {:induction false} CutsAround(events: seq<string>, e: nat, k: nat)
    requires e < |events| && k <= |events|
    ensures Cut(events, k) <= Cut(events, e) || Cut(events, k) >= Cut(events, e + 1)
  {
    if k <= e { CutMonotone(events, k, e); } else { CutMonotone(events, e + 1, k); }
  }

  lemma {:induction false} KeptWithin<J>(ms: seq<Message<J>>, events: seq<string>, j: nat, e: nat)
    requires j + 1 < |ms| && e < |events| && Gap(ms[j + 1].gap)
    requires Cut(events, e) <= Start(ms, j + 1) - Width(StartsBatch(ms[j].text))
    requires TextStart(ms, j + 1) + Width(StartsBatch(ms[j + 1].text)) <= Cut(events, e + 1)
    ensures Kept(ms, events, j)
  {
    forall k | 0 <= k <= |events|
      ensures Cut(events, k) <= Start(ms, j + 1) - Width(StartsBatch(ms[j].text)) ||
              Cut(events, k) >= TextStart(ms, j + 1) + Width(StartsBatch(ms[j + 1].text))
    {
      CutsAround(events, e, k);
    }
  }

  /** The boundary lies inside event e: it is kept only if the brackets around it do, too. */
  lemma {:induction false} KeptOnlyWithin<J>(ms: seq<Message<J>>, events: seq<string>, j: nat, e: nat)
    requires j + 1 < |ms| && e < |events| && Kept(ms, events, j)
    requires Cut(events, e) < Start(ms, j + 1) <= TextStart(ms, j + 1) < Cut(events, e + 1)
    ensures Gap(ms[j + 1].gap)
    ensures Cut(events, e) <= Start(ms, j + 1) - Width(StartsBatch(ms[j].text))
    ensures TextStart(ms, j + 1) + Width(StartsBatch(ms[j + 1].text)) <= Cut(events, e + 1)
  {
    forall k | 0 <= k <= |events| ensures !(Start(ms, j + 1) <= Cut(events, k) <= TextStart(ms, j + 1)) {
      CutsAround(events, e, k);
    }
  }

  lemma {:induction false} Lost<J>(parse: string -> Parsed<J>, ms: seq<Message<J>>, events: seq<string>, T: string,
      j: nat, e: nat, pos: nat, end: nat)
    requires j + 1 < |ms| && e < |events| && PlacedAt(parse, ms, T, j) && PlacedAt(parse, ms, T, j + 1)
    requires Cut(events, e) <= pos < Start(ms, j + 1) <= TextStart(ms, j + 1) < end <= Cut(events, e + 1) <= |T|
    requires NoSeam(T[pos..end])
    requires pos == Cut(events, e) || T[pos] != ']'
    requires end == Cut(events, e + 1) || T[end - 1] != '['
    ensures !Kept(ms, events, j)
  {
    if Kept(ms, events, j) {
      KeptOnlyWithin(ms, events, j, e);
      var a, b, c, f := Start(ms, j), TextStart(ms, j), Start(ms, j + 1), TextStart(ms, j + 1);
      MessageEdges(parse, ms[j], T, a, b, c);
      MessageEdges(parse, ms[j + 1], T, c, f, Start(ms, j + 2));
      CoveredSeam(parse, ms[j], ms[j + 1], T, a, b, c, f, Start(ms, j + 2), pos, end);
    }
  }

  /** A message glued to the next one is never accepted again. */
  lemma {:induction false} StuckAbsorb<J>(parse: string -> Parsed<J>, x: string, pieces: seq<string>)
      returns (y: string)
    requires forall more: string :: parse(x + more) == Rejected
    ensures Absorb(parse, Some(x), pieces) == Outcome(Some(y), [])
    ensures forall more: string :: parse(y + more) == Rejected
    decreases |pieces|
  {
    if pieces == [] {
      y := x;
    } else {
      forall more: string ensures parse((x + pieces[0]) + more) == Rejected {
        assert (x + pieces[0]) + more == x + (pieces[0] + more);
      }
      y := StuckAbsorb(parse, x + pieces[0], pieces[1..]);
    }
  }

  lemma {:induction false} StuckFeed<J>(parse: string -> Parsed<J>, x: string, events: seq<string>)
    requires forall more: string :: parse(x + more) == Rejected
    ensures FeedAll(parse, Some(x), events).values == []
    decreases |events|
  {
    if events != [] {
      var y := StuckAbsorb(parse, x, Dechunk(events[0]));
      StuckFeed(parse, y, events[1..]);
    }
  }

  // The walk. At position pos of event e, inside message j, T[s..pos] is carried.

  ghost predicate At<J>(ms: seq<Message<J>>, events: seq<string>, T: string, j: nat, e: nat, pos: nat, s: nat,
      last: Option<string>) {
    && j < |ms| && e <= |events|
    && Start(ms, j) <= s <= TextStart(ms, j)
    && Start(ms, j) <= pos < Start(ms, j + 1)
    && s <= pos <= |T| && Carried(last) == T[s..pos]
  }

  /** Inside event e; a piece after a seam does not start in the middle of a bracket pair. */
  ghost predicate Inside<J>(ms: seq<Message<J>>, events: seq<string>, T: string, j: nat, e: nat, pos: nat, s: nat,
      last: Option<string>) {
    && At(ms, events, T, j, e, pos, s, last) && e < |events|
    && Cut(events, e) <= pos <= Cut(events, e + 1) <= |T|
    && (pos == Cut(events, e) || (pos < |T| && T[pos] != ']'))
  }

  lemma {:induction false} WalkEvents<J>(parse: string -> Parsed<J>, ms: seq<Message<J>>, events: seq<string>,
      T: string,
                      j: nat, e: nat, pos: nat, s: nat, last: Option<string>)
    requires Stream(parse, ms, events, T) && At(ms, events, T, j, e, pos, s, last) && pos == Cut(events, e)
    ensures Good(ms, events, T, j, FeedAll(parse, last, events[e..]))
    decreases |events| - e, 1, 0, 0
  {
    if e == |events| {
      if j + 1 < |ms| { StartMonotone(ms, j + 1, |ms| - 1); }
    } else {
      assert EventAt(events, T, e);
      var event := events[e];
      assert event == T[pos..Cut(events, e + 1)];
      SubNoSeparator(T, pos, Cut(events, e + 1));
      FeedAllIsRest(parse, last, events[e..]);
      assert events[e..][1..] == events[e + 1..];
      WalkPiece(parse, ms, events, T, j, e, pos, s, last);
    }
  }

  lemma {:induction false} SubNoSeparator(T: string, pos: nat, hi: nat)
    requires pos <= hi <= |T| && NoSeparator(T)
    ensures NoSeparator(T[pos..hi])
  {
    forall i | 0 <= i <= hi - pos ensures !SeparatorAt(T[pos..hi], i) {
      assert !SeparatorAt(T, pos + i);
    }
  }

  lemma {:induction false} PlacedIn<J>(parse: string -> Parsed<J>, ms: seq<Message<J>>, events: seq<string>,
      T: string, j: nat)
    requires Stream(parse, ms, events, T) && j < |ms|
    ensures PlacedAt(parse, ms, T, j) && Start(ms, j) <= TextStart(ms, j) < Start(ms, j + 1) <= |T|
  {}

  lemma {:induction false} BeforeLast<J>(parse: string -> Parsed<J>, ms: seq<Message<J>>, events: seq<string>,
      T: string, j: nat, e: nat, end: nat)
    requires Stream(parse, ms, events, T) && j < |ms| && e < |events|
    requires Start(ms, j + 1) <= end <= Cut(events, e + 1)
    ensures j + 1 < |ms|
  {
    CutMonotone(events, e + 1, |events|);
  }

  lemma {:induction false} NoSeamBefore(d: string, p: nat)
    requires p <= |d| + 1 && forall i :: 0 <= i < p ==> !SeamAt(d, i)
    ensures NoSeam(d[..if p <= |d| then p else |d|])
  {
    var n := if p <= |d| then p else |d|;
    forall i | 0 <= i <= n ensures !SeamAt(d[..n], i) {
      assert i < p ==> !SeamAt(d, i);
    }
  }

  lemma {:induction false} Extend<J>(ms: seq<Message<J>>, events: seq<string>, T: string, j: nat, r: Outcome<J>)
    requires j + 1 < |ms| && Kept(ms, events, j) && Good(ms, events, T, j + 1, r)
    ensures Good(ms, events, T, j, Outcome(r.last, [ms[j].value] + r.values))
  {
    var v := [ms[j].value];
    assert AllKept(ms, events, j) <==> AllKept(ms, events, j + 1);
    assert Values(ms, j) == v + Values(ms, j + 1);
    assert (v + r.values)[1..] == r.values && Values(ms, j)[1..] == Values(ms, j + 1);
  }

  lemma {:induction false} KeptByCut<J>(ms: seq<Message<J>>, events: seq<string>, j: nat, k: nat)
    requires j + 1 < |ms| && k <= |events|
    requires Start(ms, j + 1) <= Cut(events, k) <= TextStart(ms, j + 1)
    ensures Kept(ms, events, j)
  {}

  /** A seam at the end of message j: the boundary is kept and the parser goes on at the next text. */
  lemma {:induction false} AfterSeam<J>(parse: string -> Parsed<J>, ms: seq<Message<J>>, events: seq<string>,
      T: string, j: nat, e: nat, pos: nat, p: nat, q: nat)
    requires j + 1 < |ms| && e < |events| && PlacedAt(parse, ms, T, j) && PlacedAt(parse, ms, T, j + 1)
    requires Cut(events, e) <= pos <= Cut(events, e + 1) <= |T|
    requires Seam(T[pos..Cut(events, e + 1)], p, q)
    requires Start(ms, j + 1) <= pos + p <= TextStart(ms, j + 1)
    ensures pos + p == Start(ms, j + 1) && pos + q == TextStart(ms, j + 1) && Kept(ms, events, j)
    ensures T[pos + q] != ']' && pos + q <= Cut(events, e + 1) && pos < pos + q
  {
    var c, f, hi := Start(ms, j + 1), TextStart(ms, j + 1), Cut(events, e + 1);
    SeamStarts(parse, ms[j + 1], T, c, f, Start(ms, j + 2), pos, hi, p, q);
    SeamCovers(parse, ms[j], ms[j + 1], T, Start(ms, j), TextStart(ms, j), c, f, Start(ms, j + 2), pos, hi, q);
    KeptWithin(ms, events, j, e);
  }

  /** A seam does not start inside the white space before a message. */
  lemma {:induction false} SeamStarts<J>(parse: string -> Parsed<J>, m: Message<J>, T: string, c: nat, f: nat, end: nat,
                                         pos: nat, hi: nat, p: nat, q: nat)
    requires Placed(parse, m, T, c, f, end) && pos <= hi <= |T| && Seam(T[pos..hi], p, q) && c <= pos + p <= f
    ensures pos + p == c && pos + q < |T| && T[pos + q] != ']' && pos + q <= hi && p > 0
  {
    SeamInStream(T, pos, hi, p, q);
    assert T[pos + p - 1] in {'}', ']'};
    BlankPart(parse, m, T, c, f, end, c, f);
    forall i | c <= i < f ensures T[i] !in {'}', ']'} { assert T[c..f][i - c] == T[i]; }
  }

  lemma {:induction false} Stuck<J>(parse: string -> Parsed<J>, ms: seq<Message<J>>, events: seq<string>, T: string,
      j: nat, s: nat, end: nat,
                 ps: seq<string>, later: seq<string>)
    requires j + 1 < |ms| && PlacedAt(parse, ms, T, j) && PlacedAt(parse, ms, T, j + 1)
    requires Start(ms, j) <= s <= TextStart(ms, j) && TextStart(ms, j + 1) < end <= |T|
    ensures parse(T[s..end]) == Rejected
    ensures Rest(parse, Some(T[s..end]), ps, later).values == []
  {
    var c, f := Start(ms, j + 1), TextStart(ms, j + 1);
    MessageEdges(parse, ms[j + 1], T, c, f, Start(ms, j + 2));
    BlankPart(parse, ms[j + 1], T, c, f, Start(ms, j + 2), c, f);
    forall more: string ensures parse(T[s..end] + more) == Rejected {
      GluedRejected(parse, ms[j], T, Start(ms, j), TextStart(ms, j), c, s, f, end, more);
    }
    assert T[s..end] + "" == T[s..end];
    var y := StuckAbsorb(parse, T[s..end], ps);
    StuckFeed(parse, y, later);
  }

  /** The first piece of a stretch: all of it, or up to the first seam. */
  lemma {:induction false} FirstPiece(T: string, pos: nat, hi: nat) returns (whole: bool, end: nat, p: nat, q: nat,
      ps: seq<string>)
    requires pos <= hi <= |T|
    ensures pos <= end <= hi && NoSeam(T[pos..end])
    ensures Pieces(T[pos..hi]) == [T[pos..end]] + ps
    ensures whole ==> end == hi && ps == []
    ensures !whole ==> end == pos + p && Seam(T[pos..hi], p, q) && T[end - 1] != '[' && pos + q <= hi
    ensures !whole ==> 0 < p <= q && ps == Pieces(T[pos + q..hi]) && T[pos + q] != ']'
  {
    hide Pieces, NoSeam, SeamAt;
    var d := T[pos..hi];
    p := FirstSeam(d, 0);
    NoSeamBefore(d, p);
    whole := p == |d| + 1;
    end := if whole then hi else pos + p;
    assert d[..end - pos] == T[pos..end];
    if whole {
      PiecesWhole(d);
      q, ps := 0, [];
    } else {
      PiecesAtSeam(d, p);
      q := Resume(d, p);
      SeamInStream(T, pos, hi, p, q);
      assert d[q..] == T[pos + q..hi];
      ps := Pieces(T[pos + q..hi]);
    }
  }

  lemma {:induction false} GoodStuck<J>(ms: seq<Message<J>>, events: seq<string>, T: string, j: nat, r: Outcome<J>)
    requires j + 1 < |ms| && !Kept(ms, events, j) && r.values == []
    ensures Good(ms, events, T, j, r)
  {
    assert !AllKept(ms, events, j);
    assert Values(ms, j) != [];
  }

  lemma {:induction false} WalkPiece<J>(parse: string -> Parsed<J>, ms: seq<Message<J>>, events: seq<string>, T: string,
                     j: nat, e: nat, pos: nat, s: nat, last: Option<string>)
    requires Stream(parse, ms, events, T) && Inside(ms, events, T, j, e, pos, s, last)
    ensures Good(ms, events, T, j, Rest(parse, last, Pieces(T[pos..Cut(events, e + 1)]), events[e + 1..]))
    decreases |events| - e, 0, Cut(events, e + 1) - pos, 1
  {
    hide Good, Rest, Pieces, NoSeam, Placed, Stream, FeedAll, Absorb, Seam;
    var hi := Cut(events, e + 1);
    var later := events[e + 1..];
    var whole, end, p, q, ps := FirstPiece(T, pos, hi);
    var a := T[pos..end];
    PlacedIn(parse, ms, events, T, j);
    if end < Start(ms, j + 1) {
      if whole {
        assert [a] + ps == [a];
        WalkPartEvent(parse, ms, events, T, j, e, pos, s, last);
      } else {
        WalkPartSeam(parse, ms, events, T, j, e, pos, s, last, p, q);
      }
    } else {
      BeforeLast(parse, ms, events, T, j, e, end);
      PlacedIn(parse, ms, events, T, j + 1);
      if end <= TextStart(ms, j + 1) {
        if whole {
          assert [a] + ps == [a];
          WalkWholeEvent(parse, ms, events, T, j, e, pos, s, last);
        } else {
          WalkWholeSeam(parse, ms, events, T, j, e, pos, s, last, p, q);
        }
      } else {
        WalkLost(parse, ms, events, T, j, e, pos, s, last, end, ps);
      }
    }
  }

  /** The piece runs past the boundary after message j: nothing more is ever returned. */
  lemma {:induction false} WalkLost<J>(parse: string -> Parsed<J>, ms: seq<Message<J>>, events: seq<string>, T: string,
                    j: nat, e: nat, pos: nat, s: nat, last: Option<string>, end: nat, ps: seq<string>)
    requires Stream(parse, ms, events, T) && Inside(ms, events, T, j, e, pos, s, last) && j + 1 < |ms|
    requires TextStart(ms, j + 1) < end <= Cut(events, e + 1) && pos <= end && NoSeam(T[pos..end])
    requires end == Cut(events, e + 1) || T[end - 1] != '['
    ensures Good(ms, events, T, j, Rest(parse, last, [T[pos..end]] + ps, events[e + 1..]))
  {
    hide Good, Rest, NoSeam, Placed, Stream, FeedAll, Absorb;
    var later := events[e + 1..];
    PlacedIn(parse, ms, events, T, j);
    PlacedIn(parse, ms, events, T, j + 1);
    assert Carried(last) + T[pos..end] == T[s..end];
    Lost(parse, ms, events, T, j, e, pos, end);
    Stuck(parse, ms, events, T, j, s, end, ps, later);
    RestRejected(parse, last, T[pos..end], ps, later);
    GoodStuck(ms, events, T, j, Rest(parse, last, [T[pos..end]] + ps, later));
  }

  /** The event ends inside message j: all of it is carried on. */
  lemma {:induction false} WalkPartEvent<J>(parse: string -> Parsed<J>, ms: seq<Message<J>>, events: seq<string>,
      T: string,
                         j: nat, e: nat, pos: nat, s: nat, last: Option<string>)
    requires Stream(parse, ms, events, T) && Inside(ms, events, T, j, e, pos, s, last)
    requires Cut(events, e + 1) < Start(ms, j + 1)
    ensures Good(ms, events, T, j, Rest(parse, last, [T[pos..Cut(events, e + 1)]], events[e + 1..]))
    decreases |events| - e, 0, Cut(events, e + 1) - pos, 0
  {
    hide Good, Rest, NoSeam, Stream, FeedAll, Absorb, Placed;
    var later := events[e + 1..];
    var end := Cut(events, e + 1);
    Refused(parse, ms, events, T, j, pos, s, last, end);
    assert [T[pos..end]] + [] == [T[pos..end]];
    RestRejected(parse, last, T[pos..end], [], later);
    RestNext(parse, Some(T[s..end]), later);
    WalkEvents(parse, ms, events, T, j, e + 1, end, s, Some(T[s..end]));
  }

  /** A seam inside message j, in one of its strings: the piece is carried, and nothing is dropped. */
  lemma {:induction false} WalkPartSeam<J>(parse: string -> Parsed<J>, ms: seq<Message<J>>, events: seq<string>,
      T: string,
                        j: nat, e: nat, pos: nat, s: nat, last: Option<string>, p: nat, q: nat)
    requires Stream(parse, ms, events, T) && Inside(ms, events, T, j, e, pos, s, last)
    requires p > 0 && pos + p < Start(ms, j + 1) && pos + p <= Cut(events, e + 1)
    requires Seam(T[pos..Cut(events, e + 1)], p, q) && pos + q <= Cut(events, e + 1) && T[pos + q] != ']'
    ensures Good(ms, events, T, j,
                 Rest(parse, last, [T[pos..pos + p]] + Pieces(T[pos + q..Cut(events, e + 1)]), events[e + 1..]))
    decreases |events| - e, 0, Cut(events, e + 1) - pos, 0
  {
    hide Good, Rest, Pieces, NoSeam, Stream, FeedAll, Seam, Placed, Absorb;
    var later := events[e + 1..];
    var end := pos + p;
    Refused(parse, ms, events, T, j, pos, s, last, end);
    NothingDropped(parse, ms[j], T, Start(ms, j), TextStart(ms, j), Start(ms, j + 1), pos, Cut(events, e + 1), p, q);
    PlacedIn(parse, ms, events, T, j);
    RestRejected(parse, last, T[pos..end], Pieces(T[pos + q..Cut(events, e + 1)]), later);
    WalkPiece(parse, ms, events, T, j, e, end, s, Some(T[s..end]));
  }

  lemma {:induction false} Refused<J>(parse: string -> Parsed<J>, ms: seq<Message<J>>, events: seq<string>, T: string,
                   j: nat, pos: nat, s: nat, last: Option<string>, end: nat)
    requires Stream(parse, ms, events, T) && j < |ms| && Start(ms, j) <= s <= TextStart(ms, j)
    requires s <= pos <= end < Start(ms, j + 1) && end <= |T| && Carried(last) == T[s..pos]
    ensures Carried(last) + T[pos..end] == T[s..end] && parse(T[s..end]) == Rejected
    ensures PlacedAt(parse, ms, T, j)
  {
    assert PlacedAt(parse, ms, T, j);
    assert Carried(last) + T[pos..end] == T[s..end];
    PartRejected(parse, ms[j], T, Start(ms, j), TextStart(ms, j), Start(ms, j + 1), s, end);
  }

  lemma {:induction false} AcceptedEvent<J>(parse: string -> Parsed<J>, ms: seq<Message<J>>, events: seq<string>,
      T: string,
                          j: nat, e: nat, pos: nat, s: nat, last: Option<string>)
    requires Stream(parse, ms, events, T) && Inside(ms, events, T, j, e, pos, s, last) && j + 1 < |ms|
    requires Start(ms, j + 1) <= Cut(events, e + 1) <= TextStart(ms, j + 1)
    ensures var later, end := events[e + 1..], Cut(events, e + 1);
      && pos <= end <= |T|
      && TextStart(ms, j + 1) < Start(ms, j + 2) <= |T|
      && var r := Rest(parse, None, [], later);
         Rest(parse, last, [T[pos..end]], later) == Outcome(r.last, [ms[j].value] + r.values)
  {
    var later, end := events[e + 1..], Cut(events, e + 1);
    PlacedIn(parse, ms, events, T, j);
    PlacedIn(parse, ms, events, T, j + 1);
    hide Rest, Placed, Stream, Kept, FeedAll, Absorb;
    Accepts(parse, ms, T, j, pos, s, last, end);
    RestAccepted(parse, last, T[pos..end], [], later, ms[j].value);
    assert [T[pos..end]] + [] == [T[pos..end]];
  }

  /** The event ends with message j: its value is returned and nothing is carried. */
  lemma {:induction false} WalkWholeEvent<J>(parse: string -> Parsed<J>, ms: seq<Message<J>>, events: seq<string>,
      T: string,
                          j: nat, e: nat, pos: nat, s: nat, last: Option<string>)
    requires Stream(parse, ms, events, T) && Inside(ms, events, T, j, e, pos, s, last) && j + 1 < |ms|
    requires Start(ms, j + 1) <= Cut(events, e + 1) <= TextStart(ms, j + 1)
    ensures Good(ms, events, T, j, Rest(parse, last, [T[pos..Cut(events, e + 1)]], events[e + 1..]))
    decreases |events| - e, 0, Cut(events, e + 1) - pos, 0
  {
    hide Good, Rest, NoSeam, Placed, PlacedAt, Stream, Kept, FeedAll, Absorb, Width, Opens, Seam;
    var later := events[e + 1..];
    var end := Cut(events, e + 1);
    AcceptedEvent(parse, ms, events, T, j, e, pos, s, last);
    RestNext<J>(parse, None, later);
    KeptByCut(ms, events, j, e + 1);
    WalkEvents(parse, ms, events, T, j + 1, e + 1, end, end, None);
    Extend(ms, events, T, j, Rest(parse, None, [], later));
  }

  /** Message j ends at a seam: its value is returned, and the event goes on with the next message. */
  lemma {:induction false} WalkWholeSeam<J>(parse: string -> Parsed<J>, ms: seq<Message<J>>, events: seq<string>,
      T: string,
                         j: nat, e: nat, pos: nat, s: nat, last: Option<string>, p: nat, q: nat)
    requires Stream(parse, ms, events, T) && Inside(ms, events, T, j, e, pos, s, last) && j + 1 < |ms|
    requires Start(ms, j + 1) <= pos + p <= TextStart(ms, j + 1) && pos + p <= Cut(events, e + 1)
    requires Seam(T[pos..Cut(events, e + 1)], p, q) && pos + q <= Cut(events, e + 1)
    ensures Good(ms, events, T, j,
                 Rest(parse, last, [T[pos..pos + p]] + Pieces(T[pos + q..Cut(events, e + 1)]), events[e + 1..]))
    decreases |events| - e, 0, Cut(events, e + 1) - pos, 0
  {
    hide Good, Rest, Pieces, NoSeam, Placed, Stream, Kept, FeedAll, Absorb, Seam;
    PlacedIn(parse, ms, events, T, j);
    PlacedIn(parse, ms, events, T, j + 1);
    var later := events[e + 1..];
    var end, f := pos + p, TextStart(ms, j + 1);
    var ps := Pieces(T[pos + q..Cut(events, e + 1)]);
    AfterSeam(parse, ms, events, T, j, e, pos, p, q);
    Accepts(parse, ms, T, j, pos, s, last, end);
    RestAccepted(parse, last, T[pos..end], ps, later, ms[j].value);
    WalkPiece(parse, ms, events, T, j + 1, e, f, f, None);
    Extend(ms, events, T, j, Rest(parse, None, ps, later));
  }

  lemma {:induction false} Accepts<J>(parse: string -> Parsed<J>, ms: seq<Message<J>>, T: string, j: nat, pos: nat,
      s: nat, last: Option<string>, end: nat)
    requires j + 1 < |ms| && PlacedAt(parse, ms, T, j) && PlacedAt(parse, ms, T, j + 1)
    requires Start(ms, j) <= s <= TextStart(ms, j) && s <= pos <= end <= |T| && Carried(last) == T[s..pos]
    requires Start(ms, j + 1) <= end <= TextStart(ms, j + 1)
    ensures parse(Carried(last) + T[pos..end]) == Value(ms[j].value)
    ensures TextStart(ms, j + 1) < Start(ms, j + 2) <= |T|
  {
    var c, f, next := Start(ms, j + 1), TextStart(ms, j + 1), Start(ms, j + 2);
    assert f < next <= |T|;
    hide Placed, Reads, Blank;
    assert Placed(parse, ms[j + 1], T, c, f, next);
    BlankPart(parse, ms[j + 1], T, c, f, next, c, end);
    WholeAccepted(parse, ms[j], T, Start(ms, j), TextStart(ms, j), Start(ms, j + 1), s, end);
    Paste(T, s, pos, end);
  }

  lemma {:induction false} Paste(T: string, s: nat, pos: nat, end: nat)
    requires s <= pos <= end <= |T|
    ensures T[s..pos] + T[pos..end] == T[s..end]
  {}
}
