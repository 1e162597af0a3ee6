/** Batch requests: one deferred promise per request, settled from one batch response. */
module Batch {
  import opened Wrappers
  import opened JsonRpc

  datatype Outcome = Value(value: Member) | Failure(reason: Reason)

  datatype Reason = Aborted(message: string) | ServerError(error: Member) | TimedOut(message: string)

  datatype PromiseState = Pending | Fulfilled | Rejected

  /** A deferred promise: its own state field, and what the native promise inside was settled with. */
  datatype Cell = Cell(state: PromiseState, settled: Option<Outcome>)

  /** A native promise keeps its first outcome; the state field takes the last. */
  function Resolved(c: Cell, v: Member): Cell {
    Cell(Fulfilled, if c.settled.None? then Some(Outcome.Value(v)) else c.settled)
  }

  function RejectedWith(c: Cell, reason: Reason): Cell {
    Cell(Rejected, if c.settled.None? then Some(Failure(reason)) else c.settled)
  }

  class Deferred {
    var state: PromiseState
    var settled: Option<Outcome>
    var timerRunning: bool
    const timeout: nat
    const timeoutMessage: string

    function View(): Cell
      reads this
    {
      Cell(state, settled)
    }

    constructor (timeout: nat, eagerStart: bool, timeoutMessage: string)
      ensures View() == Cell(Pending, None)
      ensures timerRunning <==> eagerStart && timeout > 0
      ensures this.timeout == timeout && this.timeoutMessage == timeoutMessage
    {
      state := Pending;
      settled := None;
      this.timeout := timeout;
      this.timeoutMessage := timeoutMessage;
      timerRunning := eagerStart && timeout > 0;
    }

    method Resolve(value: Member)
      modifies this
      ensures View() == Resolved(old(View()), value) && !timerRunning
    {
      if settled.None? {
        settled := Some(Outcome.Value(value));
      }
      state := Fulfilled;
      timerRunning := false;
    }

    method Reject(reason: Reason)
      modifies this
      ensures View() == RejectedWith(old(View()), reason) && !timerRunning
    {
      if settled.None? {
        settled := Some(Failure(reason));
      }
      state := Rejected;
      timerRunning := false;
    }

    /** The timer fires: only a pending promise is rejected. */
    method CheckTimeout()
      requires timerRunning
      modifies this
      ensures View() == if old(state).Pending? then RejectedWith(old(View()), TimedOut(timeoutMessage)) else old(View())
    {
      if state.Pending? {
        Reject(TimedOut(timeoutMessage));
      }
    }
  }

  // Ids.

  /** The engine: how it sorts numbers, with None for NaN, and which number it reads in a text. */
  datatype Engine = Engine(sort: seq<Option<real>> -> seq<Option<real>>, read: string -> Option<real>)

  /** `Number(id)`. */
  function NumberOf(read: string -> Option<real>, id: Id): Option<real> {
    match id
    case NoId => None
    case NullId => Some(0.0)
    case NumberId(n) => Some(n as real)
    case TextId(s) => read(s)
  }

  function Numbers(read: string -> Option<real>, ids: seq<Id>): (r: seq<Option<real>>)
    ensures |r| == |ids| && forall i :: 0 <= i < |ids| ==> r[i] == NumberOf(read, ids[i])
  {
    if ids == [] then [] else [NumberOf(read, ids[0])] + Numbers(read, ids[1..])
  }

  predicate Ascending(s: seq<Option<real>>) {
    forall i, j :: 0 <= i < j < |s| && s[i].Some? && s[j].Some? ==> s[i].value <= s[j].value
  }

  predicate NoNaN(s: seq<Option<real>>) {
    forall i :: 0 <= i < |s| ==> s[i].Some?
  }

  /** What `sort((a, b) => a - b)` promises: a permutation, ascending if there is no NaN. */
  ghost predicate Sorts(js: Engine) {
    forall s :: multiset(js.sort(s)) == multiset(s) && (NoNaN(s) ==> Ascending(js.sort(s)))
  }

  predicate Matches(js: Engine, requestIds: seq<Id>, responseIds: seq<Id>) {
    |responseIds| == |requestIds| && js.sort(Numbers(js.read, requestIds)) == js.sort(Numbers(js.read, responseIds))
  }

  function ReplyIds(rs: seq<Reply>): (r: seq<Id>)
    ensures |r| == |rs| && forall i :: 0 <= i < |rs| ==> r[i] == rs[i].id
  {
    if rs == [] then [] else [rs[0].id] + ReplyIds(rs[1..])
  }

  function IndexOf(ids: seq<Id>, id: Id): (i: nat)
    ensures i <= |ids| && (i < |ids| ==> ids[i] == id) && (forall k :: 0 <= k < i ==> ids[k] != id)
  {
    if ids == [] then 0 else if ids[0] == id then 0 else 1 + IndexOf(ids[1..], id)
  }

  // The effect of a response.

  function Settle(c: Cell, r: Reply): Cell {
    if ReplyWithResult(r) then Resolved(c, r.result)
    else if ReplyWithError(r) then RejectedWith(c, ServerError(r.error))
    else c
  }

  function SettleOne(ids: seq<Id>, cells: seq<Cell>, r: Reply): (s: seq<Cell>)
    requires |ids| == |cells|
    ensures |s| == |cells|
  {
    var i := IndexOf(ids, r.id);
    if i < |ids| then cells[i := Settle(cells[i], r)] else cells
  }

  function SettleAll(ids: seq<Id>, cells: seq<Cell>, rs: seq<Reply>): (s: seq<Cell>)
    requires |ids| == |cells|
    ensures |s| == |cells|
    decreases |rs|
  {
    if rs == [] then cells else SettleAll(ids, SettleOne(ids, cells, rs[0]), rs[1..])
  }

  function AbortCells(cells: seq<Cell>, message: string): (s: seq<Cell>)
    ensures |s| == |cells| && forall i :: 0 <= i < |cells| ==> s[i] == RejectedWith(cells[i], Aborted(message))
  {
    if cells == [] then [] else [RejectedWith(cells[0], Aborted(message))] + AbortCells(cells[1..], message)
  }

  const INVALID := "Invalid batch response"

  class BatchRequest {
    /** The map of requests, in insertion order: ids and their promises. */
    var ids: seq<Id>
    var promises: seq<Deferred>

    ghost predicate Valid()
      reads this
    {
      && |ids| == |promises|
      && (forall i, j :: 0 <= i < j < |ids| ==> ids[i] != ids[j])
      && (forall i, j :: 0 <= i < j < |promises| ==> promises[i] != promises[j])
    }

    ghost function Cells(): (s: seq<Cell>)
      reads this, promises
      ensures |s| == |promises| && forall i :: 0 <= i < |promises| ==> s[i] == promises[i].View()
    {
      seq(|promises|, i requires 0 <= i < |promises| reads this, promises => promises[i].View())
    }

    constructor ()
      ensures Valid() && ids == [] && promises == []
    {
      ids, promises := [], [];
    }

    /** A second request with an id takes the place of the first one. */
    method Add(id: Id) returns (promise: Deferred)
      requires Valid()
      modifies this
      ensures Valid() && fresh(promise) && promise.View() == Cell(Pending, None)
      ensures var i := IndexOf(old(ids), id);
              if i < |old(ids)| then ids == old(ids) && promises == old(promises)[i := promise]
              else ids == old(ids) + [id] && promises == old(promises) + [promise]
    {
      promise := new Deferred(0, false, "DeferredPromise timed out");
      var i := IndexOf(ids, id);
      if i < |ids| {
        promises := promises[i := promise];
      } else {
        ids := ids + [id];
        promises := promises + [promise];
      }
    }

    method AbortAllRequests(message: string)
      requires Valid()
      modifies promises
      ensures Cells() == AbortCells(old(Cells()), message)
    {
      for i := 0 to |promises|
        invariant forall k :: 0 <= k < i ==>
          promises[k].View() == RejectedWith(old(promises[k].View()), Aborted(message))
        invariant forall k :: i <= k < |promises| ==> promises[k].View() == old(promises[k].View())
      {
        promises[i].Reject(Aborted(message));
      }
      assert Cells() == AbortCells(old(Cells()), message);
    }

    /** The batch promise is resolved unless the call throws; then the caller rejects it. */
    method ProcessBatchRequest(js: Engine, response: seq<Reply>) returns (threw: bool)
      requires Valid()
      modifies promises
      ensures threw <==> !Matches(js, ids, ReplyIds(response))
      ensures Cells() == if threw then AbortCells(old(Cells()), INVALID) else SettleAll(ids, old(Cells()), response)
    {
      if |response| != |ids| {
        AbortAllRequests(INVALID);
        return true;
      }
      var requestIds := js.sort(Numbers(js.read, ids));
      var responseIds := js.sort(Numbers(js.read, ReplyIds(response)));
      if requestIds != responseIds {
        AbortAllRequests(INVALID);
        return true;
      }
      var n := 0;
      while n < |response|
        invariant 0 <= n <= |response|
        invariant SettleAll(ids, Cells(), response[n..]) == SettleAll(ids, old(Cells()), response)
      {
        var res := response[n];
        var i := IndexOf(ids, res.id);
        ghost var before := Cells();
        assert response[n..][0] == res && response[n..][1..] == response[n + 1..];
        if ReplyWithResult(res) {
          if i < |ids| {
            promises[i].Resolve(res.result);
          }
        } else if ReplyWithError(res) {
          if i < |ids| {
            promises[i].Reject(ServerError(res.error));
          }
        }
        assert Cells() == SettleOne(ids, before, res);
        n := n + 1;
      }
      return false;
    }
  }
}
