/**
 * Chunk invariance: however a stream of messages is cut into data events, the
 * parser returns the messages, in order, and carries the unfinished tail; this
 * holds exactly when every boundary between two messages is `Kept` by the cutting.
 */
module DechunkerDelivery {
  import opened Dechunker
  import opened DechunkerSeams

  /** A message with the white space that may stand before it. */
  datatype Message<+J> = Message(gap: string, text: string, value: J)

  /** White space of JSON. */
  predicate Blank(w: string) {
    forall i :: 0 <= i < |w| ==> w[i] in {' ', '\t', '\n', '\r'}
  }

  predicate Framed<J>(m: Message<J>) {
    && Blank(m.gap)
    && RightStart(m.text, 0) && LeftEnd(m.text, |m.text|)
    && StartsBatch(m.text) == EndsBatch(m.text)
    && NoSeparator(m.text)
    // JSON has no "}" and "{" with only a line break between them.
    && (forall p :: 0 <= p <= |m.text| ==> !BrokenSeam(m.text, p))
  }

  predicate BrokenSeam(s: string, p: int) {
    Seam(s, p, p + 1)
  }

  ghost predicate AcceptsWhole<J>(parse: string -> Parsed<J>, m: Message<J>) {
    forall w, w' :: Blank(w) && Blank(w') ==> parse(w + m.text + w') == Value(m.value)
  }

  ghost predicate RejectsPart<J>(parse: string -> Parsed<J>, m: Message<J>, k: nat)
    requires k < |m.text|
  {
    forall w :: Blank(w) ==> parse(w + m.text[..k]) == Rejected
  }

  predicate Opens(x: string) {
    x != "" && (x[0] == '{' || x[0] == '[')
  }

  ghost predicate RejectsGlued<J>(parse: string -> Parsed<J>, m: Message<J>) {
    forall w, w', x :: Blank(w) && Blank(w') && Opens(x) ==> parse(w + m.text + w' + x) == Rejected
  }

  /** What is used of JSON.parse: whole texts yes, unfinished ones and texts with a second one behind no. */
  ghost predicate Reads<J>(parse: string -> Parsed<J>, m: Message<J>) {
    && AcceptsWhole(parse, m)
    && (forall k: nat :: k < |m.text| ==> RejectsPart(parse, m, k))
    && RejectsGlued(parse, m)
  }

  // Positions in the stream.

  function Flat<J>(ms: seq<Message<J>>): string
  {
    if ms == [] then "" else Flat(ms[..|ms| - 1]) + ms[|ms| - 1].gap + ms[|ms| - 1].text
  }

  function Concat(events: seq<string>): string
  {
    if events == [] then "" else Concat(events[..|events| - 1]) + events[|events| - 1]
  }

  function Start<J>(ms: seq<Message<J>>, j: nat): nat
    requires j <= |ms|
  {
    if j == 0 then 0 else Start(ms, j - 1) + |ms[j - 1].gap| + |ms[j - 1].text|
  }

  function TextStart<J>(ms: seq<Message<J>>, j: nat): nat
    requires j < |ms|
  {
    Start(ms, j) + |ms[j].gap|
  }

  function Cut(events: seq<string>, k: nat): nat
    requires k <= |events|
  {
    if k == 0 then 0 else Cut(events, k - 1) + |events[k - 1]|
  }

  function Width(batch: bool): nat {
    if batch then 2 else 1
  }

  /** Some cut lies in the white space between messages i and i + 1, its ends included. */
  ghost predicate CutBetween<J>(ms: seq<Message<J>>, events: seq<string>, i: nat)
    requires i + 1 < |ms|
  {
    exists k :: 0 <= k <= |events| && Start(ms, i + 1) <= Cut(events, k) <= TextStart(ms, i + 1)
  }

  /**
   * The messages i and i + 1 are told apart: a cut lies between them, or they are a seam (nothing or a single line
   * break between them) and no cut lies strictly inside the brackets around it.
   */
  ghost predicate Kept<J>(ms: seq<Message<J>>, events: seq<string>, i: nat)
    requires i + 1 < |ms|
  {
    || CutBetween(ms, events, i)
    || (&& Gap(ms[i + 1].gap)
        && (forall k :: 0 <= k <= |events| ==>
              || Cut(events, k) <= Start(ms, i + 1) - Width(StartsBatch(ms[i].text))
              || Cut(events, k) >= TextStart(ms, i + 1) + Width(StartsBatch(ms[i + 1].text))))
  }

  ghost predicate AllKept<J>(ms: seq<Message<J>>, events: seq<string>, from: nat) {
    forall i: nat :: from <= i && i + 1 < |ms| ==> Kept(ms, events, i)
  }

  /** The values of the messages from j on, without the last one, which is unfinished. */
  function Values<J>(ms: seq<Message<J>>, j: nat): seq<J>
    decreases |ms| - j
  {
    if j + 1 >= |ms| then [] else [ms[j].value] + Values(ms, j + 1)
  }

  /** Message m takes T[a..c], and its text starts at b. */
  ghost predicate Placed<J>(parse: string -> Parsed<J>, m: Message<J>, T: string, a: nat, b: nat, c: nat) {
    && Framed(m) && Reads(parse, m)
    && a <= b < c <= |T|
    && T[a..b] == m.gap && T[b..c] == m.text
  }

  ghost predicate PlacedAt<J>(parse: string -> Parsed<J>, ms: seq<Message<J>>, T: string, j: nat)
    requires j < |ms|
  {
    Placed(parse, ms[j], T, Start(ms, j), TextStart(ms, j), Start(ms, j + 1))
  }

  ghost predicate EventAt(events: seq<string>, T: string, k: nat)
    requires k < |events|
  {
    Cut(events, k) <= Cut(events, k + 1) <= |T| && T[Cut(events, k)..Cut(events, k + 1)] == events[k]
  }

  /** T is the text of the messages, and the events cut a prefix of it that ends inside the last one. */
  ghost predicate Stream<J>(parse: string -> Parsed<J>, ms: seq<Message<J>>, events: seq<string>, T: string) {
    && |ms| > 0
    && (forall j: nat :: j < |ms| ==> PlacedAt(parse, ms, T, j))
    && (forall k: nat :: k < |events| ==> EventAt(events, T, k))
    && Start(ms, |ms| - 1) <= Cut(events, |events|) < Start(ms, |ms|) == |T|
    && NoSeparator(T)
  }

  lemma {:induction false} StartMonotone<J>(ms: seq<Message<J>>, i: nat, j: nat)
    requires i <= j <= |ms|
    ensures Start(ms, i) <= Start(ms, j)
    decreases j
  {
    if i < j { StartMonotone(ms, i, j - 1); }
  }

  lemma {:induction false} CutMonotone(events: seq<string>, i: nat, j: nat)
    requires i <= j <= |events|
    ensures Cut(events, i) <= Cut(events, j)
    decreases j
  {
    if i < j { CutMonotone(events, i, j - 1); }
  }

  // What becomes of a text T[s..end] that starts in the white space before message m, or right at its text.

  lemma {:induction false} BlankPart<J>(parse: string -> Parsed<J>, m: Message<J>, T: string, a: nat, b: nat, c: nat,
                                        i: nat, j: nat)
    requires Placed(parse, m, T, a, b, c) && a <= i <= j <= b
    ensures Blank(T[i..j])
  {
    forall k | 0 <= k < j - i ensures T[i..j][k] in {' ', '\t', '\n', '\r'} {
      assert T[i..j][k] == T[a..b][i - a + k] == m.gap[i - a + k];
    }
  }

  lemma {:induction false} PartRejected<J>(parse: string -> Parsed<J>, m: Message<J>, T: string, a: nat, b: nat, c: nat,
                                           s: nat, end: nat)
    requires Placed(parse, m, T, a, b, c) && a <= s <= b && s <= end < c
    ensures parse(T[s..end]) == Rejected
  {
    if end < b {
      BlankPart(parse, m, T, a, b, c, s, end);
      assert T[s..end] == T[s..end] + m.text[..0];
      assert RejectsPart(parse, m, 0);
    } else {
      var k, w := end - b, T[s..b];
      BlankPart(parse, m, T, a, b, c, s, b);
      assert T[b..end] == m.text[..k];
      assert T[s..end] == w + m.text[..k];
      assert RejectsPart(parse, m, k);
    }
  }

  lemma {:induction false} WholeAccepted<J>(parse: string -> Parsed<J>, m: Message<J>, T: string, a: nat, b: nat,
      c: nat,
                                            s: nat, end: nat)
    requires Placed(parse, m, T, a, b, c) && a <= s <= b
    requires c <= end <= |T| && Blank(T[c..end])
    ensures parse(T[s..end]) == Value(m.value)
  {
    var w, w' := T[s..b], T[c..end];
    BlankPart(parse, m, T, a, b, c, s, b);
    assert T[s..end] == w + m.text + w';
  }

  lemma {:induction false} FourParts(T: string, s: nat, b: nat, c: nat, f: nat, end: nat)
    requires s <= b <= c <= f <= end <= |T|
    ensures T[s..end] == T[s..b] + T[b..c] + T[c..f] + T[f..end]
  {
    assert T[s..end] == T[s..c] + T[c..end];
    assert T[s..c] == T[s..b] + T[b..c];
    assert T[c..end] == T[c..f] + T[f..end];
  }

  lemma {:induction false} GluedRejected<J>(parse: string -> Parsed<J>, m: Message<J>, T: string, a: nat, b: nat,
      c: nat,
                                            s: nat, f: nat, end: nat, more: string)
    requires Placed(parse, m, T, a, b, c) && a <= s <= b
    requires c <= f < end <= |T| && Blank(T[c..f]) && (T[f] == '{' || T[f] == '[')
    ensures parse(T[s..end] + more) == Rejected
  {
    var w, w', x := T[s..b], T[c..f], T[f..end] + more;
    FourParts(T, s, b, c, f, end);
    BlankPart(parse, m, T, a, b, c, s, b);
    assert Opens(x);
    assert parse(w + m.text + w' + x) == Rejected;
    assert T[s..end] + more == w + m.text + w' + x;
  }
}
