/** The delivery theorem, stated on the messages and the data events alone. */
module DechunkerTheorems {
  import opened Wrappers
  import opened Dechunker
  import opened DechunkerSeams
  import opened DechunkerDelivery
  import opened DechunkerWalk

  lemma {:induction false} FlatLayout<J>(ms: seq<Message<J>>, j: nat)
    requires j < |ms|
    ensures |Flat(ms)| == Start(ms, |ms|)
    ensures Start(ms, j) <= TextStart(ms, j) <= Start(ms, j + 1) <= |Flat(ms)|
    ensures Flat(ms)[Start(ms, j)..TextStart(ms, j)] == ms[j].gap
    ensures Flat(ms)[TextStart(ms, j)..Start(ms, j + 1)] == ms[j].text
    decreases |ms|
  {
    var n := |ms| - 1;
    var front := ms[..n];
    FlatLength(ms);
    FlatLength(front);
    StartOfPrefix(ms, n, n);
    var F := Flat(front);
    assert Flat(ms) == F + ms[n].gap + ms[n].text;
    if j < n {
      FlatLayout(front, j);
      StartOfPrefix(ms, n, j);
      StartOfPrefix(ms, n, j + 1);
      assert Flat(ms)[Start(ms, j)..TextStart(ms, j)] == F[Start(ms, j)..TextStart(ms, j)];
      assert Flat(ms)[TextStart(ms, j)..Start(ms, j + 1)] == F[TextStart(ms, j)..Start(ms, j + 1)];
    }
  }

  lemma {:induction false} FlatLength<J>(ms: seq<Message<J>>)
    ensures |Flat(ms)| == Start(ms, |ms|)
    decreases |ms|
  {
    if ms != [] {
      FlatLength(ms[..|ms| - 1]);
      StartOfPrefix(ms, |ms| - 1, |ms| - 1);
    }
  }

  lemma {:induction false} StartOfPrefix<J>(ms: seq<Message<J>>, n: nat, j: nat)
    requires j <= n <= |ms|
    ensures Start(ms[..n], j) == Start(ms, j)
    decreases j
  {
    if j > 0 { StartOfPrefix(ms, n, j - 1); }
  }

  lemma {:induction false} CutOfPrefix(events: seq<string>, n: nat, k: nat)
    requires k <= n <= |events|
    ensures Cut(events[..n], k) == Cut(events, k)
    decreases k
  {
    if k > 0 { CutOfPrefix(events, n, k - 1); }
  }

  lemma {:induction false} ConcatLayout(events: seq<string>, k: nat)
    requires k < |events|
    ensures |Concat(events)| == Cut(events, |events|)
    ensures Cut(events, k) <= Cut(events, k + 1) <= |Concat(events)|
    ensures Concat(events)[Cut(events, k)..Cut(events, k + 1)] == events[k]
    decreases |events|
  {
    var n := |events| - 1;
    var front := events[..n];
    ConcatLength(events);
    ConcatLength(front);
    CutOfPrefix(events, n, n);
    if k < n {
      ConcatLayout(front, k);
      CutOfPrefix(events, n, k);
      CutOfPrefix(events, n, k + 1);
      assert Concat(events)[Cut(events, k)..Cut(events, k + 1)] == Concat(front)[Cut(events, k)..Cut(events, k + 1)];
    }
  }

  lemma {:induction false} ConcatLength(events: seq<string>)
    ensures |Concat(events)| == Cut(events, |events|)
    decreases |events|
  {
    if events != [] {
      ConcatLength(events[..|events| - 1]);
      CutOfPrefix(events, |events| - 1, |events| - 1);
    }
  }

  lemma {:induction false} FlatNoSeparator<J>(ms: seq<Message<J>>)
    requires forall j :: 0 <= j < |ms| ==> Framed(ms[j])
    ensures NoSeparator(Flat(ms)) && (ms != [] ==> Flat(ms) != "" && Flat(ms)[|Flat(ms)| - 1] in {'}', ']'})
    decreases |ms|
  {
    if ms != [] {
      var m := ms[|ms| - 1];
      FlatNoSeparator(ms[..|ms| - 1]);
      JoinNoSeparator(Flat(ms[..|ms| - 1]), m.gap, m.text);
    }
  }

  lemma {:induction false} JoinNoSeparator(F: string, gap: string, text: string)
    requires NoSeparator(F) && NoSeparator(text) && Blank(gap) && RightStart(text, 0)
    requires F == "" || F[|F| - 1] in {'}', ']'}
    ensures NoSeparator(F + gap + text)
  {
    var s := F + gap + text;
    var b := |F| + |gap|;
    assert forall k :: 0 <= k < |F| ==> s[k] == F[k];
    assert forall k :: 0 <= k < |gap| ==> s[|F| + k] == gap[k];
    assert forall k :: 0 <= k < |text| ==> s[b + k] == text[k];
    forall i | 0 <= i <= |s| ensures !SeparatorAt(s, i) {
      if SeparatorAt(s, i) {
        if i + 4 <= |F| {
          assert SeparatorAt(F, i);
        } else if i >= b {
          assert SeparatorAt(text, i - b);
        }
      }
    }
  }

  /** The messages but the last, unfinished one. */
  function Complete<J>(ms: seq<Message<J>>): seq<Message<J>>
    requires ms != []
  {
    ms[..|ms| - 1]
  }

  /** A stream: the events together are the complete messages and a proper part of the last one. */
  ghost predicate CutsStream<J>(ms: seq<Message<J>>, events: seq<string>) {
    && ms != []
    && Concat(events) <= Flat(ms)
    && |Flat(Complete(ms))| <= |Concat(events)| < |Flat(ms)|
  }

  /**
   * Chunk invariance, exactly. Whatever the cutting, the parser never returns anything but the messages in order; it
   * returns all of them just when every boundary is kept, and then it carries just the unfinished part, but for
   * white space in front of it.
   */
  lemma {:induction false} Delivery<J>(parse: string -> Parsed<J>, ms: seq<Message<J>>, events: seq<string>)
    requires CutsStream(ms, events)
    requires forall j :: 0 <= j < |ms| ==> Framed(ms[j]) && Reads(parse, ms[j])
    ensures var r := FeedAll(parse, None, events);
            && r.values <= Values(ms, 0)
            && (r.values == Values(ms, 0) <==> AllKept(ms, events, 0))
            && (AllKept(ms, events, 0) ==> CarriesTail(ms, events, Carried(r.last)))
  {
    var T := Flat(ms);
    var n := |ms| - 1;
    forall j: nat | j < |ms| ensures PlacedAt(parse, ms, T, j) { FlatLayout(ms, j); }
    forall k: nat | k < |events| ensures EventAt(events, T, k) {
      ConcatLayout(events, k);
      assert T[Cut(events, k)..Cut(events, k + 1)] == Concat(events)[Cut(events, k)..Cut(events, k + 1)];
    }
    FlatLength(ms);
    FlatLength(Complete(ms));
    StartOfPrefix(ms, n, n);
    ConcatLength(events);
    FlatNoSeparator(ms);
    assert Stream(parse, ms, events, T);
    assert PlacedAt(parse, ms, T, 0);
    WalkEvents(parse, ms, events, T, 0, 0, 0, 0, None);
    assert events[0..] == events;
    if AllKept(ms, events, 0) { TailText(ms, events, Carried(FeedAll(parse, None, events).last)); }
  }

  /** Behind the complete messages and some of the white space before the last one, c is all that has come. */
  ghost predicate CarriesTail<J>(ms: seq<Message<J>>, events: seq<string>, c: string)
    requires ms != []
  {
    Behind(Flat(Complete(ms)), ms[|ms| - 1].gap, c, Concat(events))
  }

  ghost predicate Behind(front: string, gap: string, c: string, whole: string) {
    exists k :: 0 <= k <= |gap| && front + gap[..k] + c == whole
  }

  lemma {:induction false} TailText<J>(ms: seq<Message<J>>, events: seq<string>, c: string)
    requires CutsStream(ms, events) && Tail(ms, events, Flat(ms), c)
    ensures CarriesTail(ms, events, c)
  {
    var T, n, total := Flat(ms), |ms| - 1, |Concat(events)|;
    var F, m := Flat(Complete(ms)), ms[n];
    FlatLength(Complete(ms));
    StartOfPrefix(ms, n, n);
    ConcatLength(events);
    var s :| Start(ms, n) <= s <= TextStart(ms, n) && s <= total <= |T| && c == T[s..total];
    assert Concat(events) == T[..total] && |F| == Start(ms, n);
    TailOf(F, m.gap, m.text, s - |F|, total, c);
  }

  lemma {:induction false} TailOf(F: string, gap: string, text: string, k: nat, total: nat, c: string)
    requires k <= |gap| && |F| + k <= total <= |F + gap + text| && c == (F + gap + text)[|F| + k..total]
    ensures F + gap[..k] + c == (F + gap + text)[..total]
  {
    var T := F + gap + text;
    assert T[..total] == T[..|F| + k] + T[|F| + k..total];
    assert T[..|F| + k] == F + gap[..k];
  }

  /** Streams of single objects with at most a line break between them may be cut anywhere, inside strings, too. */
  lemma {:induction false} ObjectStreamsAlwaysKept<J>(ms: seq<Message<J>>, events: seq<string>)
    requires forall i :: 0 <= i < |ms| ==> !StartsBatch(ms[i].text) && Gap(ms[i].gap)
    ensures AllKept(ms, events, 0)
  {
    forall i: nat | i + 1 < |ms| ensures Kept(ms, events, i) {
      var c, f := Start(ms, i + 1), TextStart(ms, i + 1);
      if !CutBetween(ms, events, i) {
        assert forall k :: 0 <= k <= |events| ==> Cut(events, k) < c || Cut(events, k) > f;
      }
    }
  }

  /** Streams with batches are safe when no cut parts the brackets of a batch: "[" from "{", or "}" from "]". */
  lemma {:induction false} WholeBracketsAreKept<J>(ms: seq<Message<J>>, events: seq<string>)
    requires forall i :: 0 <= i < |ms| ==> Gap(ms[i].gap)
    requires forall i, k :: 0 <= i < |ms| && 0 <= k <= |events| && StartsBatch(ms[i].text) ==>
               Cut(events, k) != TextStart(ms, i) + 1 && Cut(events, k) != Start(ms, i + 1) - 1
    ensures AllKept(ms, events, 0)
  {
    forall i: nat | i + 1 < |ms| ensures Kept(ms, events, i) {
      var c, f := Start(ms, i + 1), TextStart(ms, i + 1);
      var w, w' := Width(StartsBatch(ms[i].text)), Width(StartsBatch(ms[i + 1].text));
      if !CutBetween(ms, events, i) {
        forall k | 0 <= k <= |events| ensures Cut(events, k) <= c - w || Cut(events, k) >= f + w' {
          assert !(c <= Cut(events, k) <= f);
          if StartsBatch(ms[i].text) { assert Cut(events, k) != c - 1; }
          if StartsBatch(ms[i + 1].text) { assert Cut(events, k) != f + 1; }
        }
      }
    }
  }

  /** Chunk invariance for single-object streams: every message, in order, and just the tail is carried. */
  lemma {:induction false} ObjectStreamDelivery<J>(parse: string -> Parsed<J>, ms: seq<Message<J>>, events: seq<string>)
    requires CutsStream(ms, events)
    requires forall j :: 0 <= j < |ms| ==> Framed(ms[j]) && Reads(parse, ms[j])
    requires forall j :: 0 <= j < |ms| ==> !StartsBatch(ms[j].text) && ms[j].gap == ""
    ensures var r := FeedAll(parse, None, events);
            r.values == Values(ms, 0) && Flat(Complete(ms)) + Carried(r.last) == Concat(events)
  {
    ObjectStreamsAlwaysKept(ms, events);
    Delivery(parse, ms, events);
    var F := Flat(Complete(ms));
    assert F + "" == F;
  }

  /** Streams with longer white space between the messages, CR-LF for one, need a cut in every such place. */
  lemma {:induction false} LongGapDelivery<J>(parse: string -> Parsed<J>, ms: seq<Message<J>>, events: seq<string>)
    requires CutsStream(ms, events)
    requires forall j :: 0 <= j < |ms| ==> Framed(ms[j]) && Reads(parse, ms[j])
    requires forall j :: 0 < j < |ms| ==> !Gap(ms[j].gap)
    ensures FeedAll(parse, None, events).values == Values(ms, 0)
      <==> forall i: nat :: i + 1 < |ms| ==> CutBetween(ms, events, i)
  {
    Delivery(parse, ms, events);
    if AllKept(ms, events, 0) {
      forall i: nat | i + 1 < |ms| ensures CutBetween(ms, events, i) { assert Kept(ms, events, i); }
    }
    if forall i: nat :: i + 1 < |ms| ==> CutBetween(ms, events, i) {
      forall i: nat | i + 1 < |ms| ensures Kept(ms, events, i) { assert CutBetween(ms, events, i); }
    }
  }

  // Lost messages, at an input.

  /** Two messages whose boundary is not kept: the first is not returned, nor is anything else. */
  lemma {:induction false} FirstIsLost<J>(parse: string -> Parsed<J>, m0: Message<J>, m1: Message<J>,
      events: seq<string>)
    requires Framed(m0) && Reads(parse, m0) && Framed(m1) && Reads(parse, m1)
    requires CutsStream([m0, m1], events) && !Kept([m0, m1], events, 0)
    ensures FeedAll(parse, None, events).values == []
  {
    var ms := [m0, m1];
    Delivery(parse, ms, events);
    assert !AllKept(ms, events, 0);
    assert Values(ms, 1) == [] && Values(ms, 0) == [m0.value] + Values(ms, 1);
    assert |FeedAll(parse, None, events).values| < 1;
  }

  /** A cut between "}" and "]" of a batch, with the next message in the same event. */
  lemma {:induction false} CutBatchIsLost<J>(parse: string -> Parsed<J>, m0: Message<J>, m1: Message<J>)
    requires m0.gap == m1.gap == "" && m0.text == "[{}]" && m1.text == "{}" && Reads(parse, m0) && Reads(parse, m1)
    ensures CutsStream([m0, m1], ["[{}", "]{"]) && FeedAll(parse, None, ["[{}", "]{"]).values == []
  {
    var events := ["[{}", "]{"];
    assert Framed(m0) && Framed(m1);
    FlatOfTwo(m0, m1);
    ConcatOfTwo("[{}", "]{");
    assert "[{}]" + "{}" == "[{}" + "]{" + "}";
    StartsOfTwo(m0, m1);
    CutsOfTwo("[{}", "]{");
    assert Cut(events, 1) == 3;
    FirstIsLost(parse, m0, m1, events);
  }

  /** CR-LF between two messages of one event. */
  lemma {:induction false} CrLfIsLost<J>(parse: string -> Parsed<J>, m0: Message<J>, m1: Message<J>)
    requires m0.gap == "" && m1.gap == "\r\n" && m0.text == m1.text == "{}" && Reads(parse, m0) && Reads(parse, m1)
    ensures CutsStream([m0, m1], ["{}\r\n{"]) && FeedAll(parse, None, ["{}\r\n{"]).values == []
  {
    var ms, events := [m0, m1], ["{}\r\n{"];
    assert Framed(m0) && Framed(m1);
    FlatOfTwo(m0, m1);
    assert events[..0] == [] && Concat(events) == "" + events[0] == events[0];
    assert Flat(ms) == events[0] + "}";
    StartsOfTwo(m0, m1);
    assert Cut(events, 0) == 0 && Cut(events, 1) == 5;
    FirstIsLost(parse, m0, m1, events);
  }

  lemma {:induction false} StartsOfTwo<J>(m0: Message<J>, m1: Message<J>)
    ensures Start([m0, m1], 1) == |m0.gap| + |m0.text| && TextStart([m0, m1], 1) == Start([m0, m1], 1) + |m1.gap|
  {
    assert Start([m0, m1], 0) == 0;
  }

  lemma {:induction false} CutsOfTwo(x: string, y: string)
    ensures Cut([x, y], 0) == 0 && Cut([x, y], 1) == |x| && Cut([x, y], 2) == |x| + |y|
  {}

  lemma {:induction false} FlatOfTwo<J>(m0: Message<J>, m1: Message<J>)
    ensures Flat([m0, m1]) == m0.gap + m0.text + m1.gap + m1.text
    ensures Flat(Complete([m0, m1])) == m0.gap + m0.text
  {
    assert [m0, m1][..1] == [m0] && [m0][..0] == [];
    assert Flat([m0]) == m0.gap + m0.text;
  }

  lemma {:induction false} ConcatOfTwo(x: string, y: string)
    ensures Concat([x, y]) == x + y
  {
    assert [x, y][..1] == [x] && [x][..0] == [];
    assert Concat([x]) == x;
  }
}
