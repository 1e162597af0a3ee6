/** Exactly which promises an event drops or fulfills, without any condition on ids. */
module SocketDrops {
  import opened Wrappers
  import opened JsonRpc
  import opened Socket
  import opened SocketInvariant
  import opened SocketSafety
  import opened SocketTheorems

  // Requests.

  /** The request's own send throws, or it takes the place of an older pending request with its id. */
  predicate RequestDrops(st: State, c: Call, t: nat) {
    Accepted(st, c) &&
      if c.statusThen.Connecting? then Entry(c.key, t) in st.pending else c.sendThrows && t == |st.promises|
  }

  /** A request drops an older promise exactly if it has the id of a pending one and has to wait itself. */
  lemma {:induction false} RequestDropsExactly(st: State, c: Call, t: nat)
    requires Queues(st)
    ensures Dropped(OnRequest(st, c), t) <==> Dropped(st, t) || RequestDrops(st, c, t)
  {
    var key, ticket := c.key, |st.promises|;
    var st' := OnRequest(st, c);
    if !Accepted(st, c) {
      assert st'.pending == st.pending && st'.sent == st.sent && st'.promises == st.promises;
    } else {
      assert st'.promises == st.promises + [Promise(key, None, 0)];
      if c.statusThen.Connecting? {
        assert st'.pending == Set(st.pending, key, ticket) && st'.sent == st.sent;
        hide OnRequest, Accepted, Set;
        PendingDrops(st, key, st', t);
      } else {
        var queued := Set(st.sent, key, ticket);
        assert st'.pending == st.pending && st'.sent == if c.sendThrows then Delete(queued, key) else queued;
        hide OnRequest, Accepted, Set, Delete;
        SentDrops(st, key, c.sendThrows, st', t);
      }
    }
  }

  lemma {:induction false} SentDrops(st: State, key: Id, throws: bool, st': State, t: nat)
    requires Queues(st) && !Has(st.sent, key) && st'.pending == st.pending
    requires var queued := Set(st.sent, key, |st.promises|); st'.sent == if throws then Delete(queued, key) else queued
    requires st'.promises == st.promises + [Promise(key, None, 0)]
    ensures Dropped(st', t) <==> Dropped(st, t) || (throws && t == |st.promises|)
  {
    hide Set, Delete, Has;
    SetWaits(st.sent, key, |st.promises|);
    DeleteWaits(st.sent, key, |st.promises|);
    TicketsExist(st, t);
  }

  /** Some older promise is lost in a request exactly if it has to wait and its id is pending already. */
  lemma {:induction false} OlderPromiseIsDropped(st: State, c: Call)
    requires Queues(st)
    ensures (exists t: nat :: t < |st.promises| && Dropped(OnRequest(st, c), t) && !Dropped(st, t))
      <==> Accepted(st, c) && c.statusThen.Connecting? && Has(st.pending, c.key)
  {
    hide OnRequest, Accepted;
    HasIn(st.pending, c.key);
    forall t: nat ensures Dropped(OnRequest(st, c), t) <==> Dropped(st, t) || RequestDrops(st, c, t) {
      RequestDropsExactly(st, c, t);
    }
    if Accepted(st, c) && c.statusThen.Connecting? && Has(st.pending, c.key) {
      var e :| e in st.pending && e.key == c.key;
      assert e == Entry(c.key, e.ticket) && RequestDrops(st, c, e.ticket) && !Dropped(st, e.ticket);
    }
  }

  lemma {:induction false} TicketsExist(st: State, t: nat)
    requires Queues(st)
    ensures Waiting(st, t) ==> t < |st.promises| && st.promises[t].settled.None?
  {}

  /** A ticket waits with the key of its promise, in one entry. */
  lemma {:induction false} WaitsByKey(st: State, t: nat)
    requires Queues(st) && t < |st.promises|
    ensures var e := Entry(st.promises[t].key, t);
      && (InQueue(st.pending, t) <==> e in st.pending) && (InQueue(st.sent, t) <==> e in st.sent)
      && !(e in st.pending && e in st.sent)
  {}

  lemma {:induction false} PendingDrops(st: State, key: Id, st': State, t: nat)
    requires Queues(st) && st'.pending == Set(st.pending, key, |st.promises|) && st'.sent == st.sent
    requires st'.promises == st.promises + [Promise(key, None, 0)]
    ensures Dropped(st', t) <==> Dropped(st, t) || Entry(key, t) in st.pending
  {
    SetSpec(st.pending, key, |st.promises|);
    TicketsExist(st, t);
    if t < |st.promises| {
      WaitsByKey(st, t);
      hide Set;
      assert InQueue(st'.pending, t) <==> Entry(st.promises[t].key, t) in st.pending && st.promises[t].key != key;
    } else {
      assert Entry(key, |st.promises|) in st'.pending;
    }
  }

  // The flush.

  /** One of the first entries of the pending queue has the id of a sent request, and takes its place. */
  predicate FlushDrops(st: State, sends: nat, t: nat) {
    exists i :: 0 <= i < |st.pending| && i < sends && Entry(st.pending[i].key, t) in st.sent
  }

  /** Moving the first pending entry drops exactly the promise sent under its id. */
  lemma {:induction false} MoveFirstDrops(st: State, t: nat)
    requires Queues(st) && st.pending != []
    ensures Dropped(MoveFirst(st), t) <==> Dropped(st, t) || Entry(st.pending[0].key, t) in st.sent
  {
    var e, st' := st.pending[0], MoveFirst(st);
    assert forall f :: f in st.pending <==> f == e || f in st.pending[1..];
    SetSpec(st.sent, e.key, e.ticket);
    TicketsExist(st, t);
    MoveFirstStep(st);
    if t < |st.promises| {
      WaitsByKey(st, t);
      WaitsByKey(st', t);
    }
  }

  lemma {:induction false} FlushDropsExactly(st: State, sends: nat, t: nat)
    requires Queues(st)
    ensures Dropped(OnFlush(st, sends), t) <==> Dropped(st, t) || FlushDrops(st, sends, t)
    decreases |st.pending|
  {
    if st.pending != [] && sends > 0 {
      var next := MoveFirst(st);
      MoveFirstDrops(st, t);
      MoveFirstStep(st);
      FlushDropsExactly(next, sends - 1, t);
      FlushShift(st, sends, t);
      hide Queues, Dropped, FlushDrops, Follows, Keeps, DistinctLive;
    }
  }

  lemma {:induction false} FlushShift(st: State, sends: nat, t: nat)
    requires Queues(st) && st.pending != [] && sends > 0
    ensures FlushDrops(st, sends, t) <==>
      Entry(st.pending[0].key, t) in st.sent || FlushDrops(MoveFirst(st), sends - 1, t)
  {
    var next := MoveFirst(st);
    SetSpec(st.sent, st.pending[0].key, st.pending[0].ticket);
    hide Set;
    assert forall i :: 0 <= i < |next.pending| ==>
      next.pending[i] == st.pending[i + 1] && next.pending[i].key != st.pending[0].key;
    assert forall i :: 0 <= i < |next.pending| ==>
      (Entry(next.pending[i].key, t) in next.sent <==> Entry(next.pending[i].key, t) in st.sent);
    if FlushDrops(st, sends, t) {
      var i :| 0 <= i < |st.pending| && i < sends && Entry(st.pending[i].key, t) in st.sent;
      if i > 0 { assert Entry(next.pending[i - 1].key, t) in next.sent; }
    }
    if FlushDrops(next, sends - 1, t) {
      var i :| 0 <= i < |next.pending| && i < sends - 1 && Entry(next.pending[i].key, t) in next.sent;
      assert Entry(st.pending[i + 1].key, t) in st.sent;
    }
  }

  // Messages: what the two early returns cost.

  /** Whether the loop goes on past r, looked at with the queue as it was before the data event. */
  predicate Passes(st: State, r: Response) {
    !IsSubscriptionNotification(r) && Has(st.sent, ResponseKey(r))
  }

  /**
   * Whether response i of a data event is read: none up to it is a subscription notification, has no waiting
   * request, or has the id of an earlier one.
   */
  predicate Read(st: State, rs: seq<Response>, i: nat)
    requires i < |rs|
  {
    && (forall j :: 0 <= j <= i ==> Passes(st, rs[j]))
    && (forall j, k :: 0 <= j < k <= i ==> ResponseKey(rs[j]) != ResponseKey(rs[k]))
  }

  /** An unrecognised response is read for the request. */
  predicate MessageDrops(st: State, rs: seq<Response>, t: nat) {
    exists i :: 0 <= i < |rs| && Read(st, rs, i) && !Recognised(rs[i]) && Entry(ResponseKey(rs[i]), t) in st.sent
  }

  /** The response is read for the request. */
  predicate MessageFulfills(st: State, rs: seq<Response>, t: nat, r: Response) {
    exists i :: 0 <= i < |rs| && Read(st, rs, i) && rs[i] == r && Entry(ResponseKey(r), t) in st.sent
  }

  predicate FulfilledBy(st: State, t: nat, r: Response) {
    t < |st.promises| && st.promises[t].settled == Some(Fulfilled(r))
  }

  lemma {:induction false} TakeResponseExactly(st: State, r: Response, t: nat, q: Response)
    requires Queues(st) && Has(st.sent, ResponseKey(r))
    ensures var st1, mine := TakeResponse(st, r), Entry(ResponseKey(r), t) in st.sent;
      && (Dropped(st1, t) <==> Dropped(st, t) || (mine && !Recognised(r)))
      && (FulfilledBy(st1, t, q) <==> FulfilledBy(st, t, q) || (mine && Recognised(r) && r == q))
  {
    var key, st1 := ResponseKey(r), TakeResponse(st, r);
    TakeResponseStep(st, r);
    GetSpec(st.sent, key);
    DeleteSpec(st.sent, key);
    OneEntry(st.sent, key, t);
    hide TakeResponse, SettleAt, Recognised, ResponseKey, Get, Delete;
    if t < |st.promises| { WaitsByKey(st, t); }
  }

  lemma {:induction false} OneEntry(m: seq<Entry>, key: Id, t: nat)
    requires DistinctKeys(m) && Has(m, key)
    ensures Entry(key, t) in m <==> t == Get(m, key)
  {
    GetSpec(m, key);
    if Entry(key, t) in m {
      var i :| 0 <= i < |m| && m[i] == Entry(key, t);
      var j :| 0 <= j < |m| && m[j] == Entry(key, Get(m, key));
    }
  }

  /** What one data event drops and fulfills, exactly. */
  lemma {:induction false} MessageExactly(st: State, rs: seq<Response>, t: nat, q: Response)
    requires Queues(st)
    ensures Dropped(OnMessage(st, rs), t) <==> Dropped(st, t) || MessageDrops(st, rs, t)
    ensures FulfilledBy(OnMessage(st, rs), t, q) <==>
      FulfilledBy(st, t, q) || (Recognised(q) && MessageFulfills(st, rs, t, q))
    decreases |rs|
  {
    if rs == [] || !Passes(st, rs[0]) {
      assert OnMessage(st, rs) == st;
      assert rs != [] ==> forall i :: 0 <= i < |rs| ==> !Read(st, rs, i);
    } else {
      var st1, rest := TakeResponse(st, rs[0]), rs[1..];
      assert OnMessage(st, rs) == OnMessage(st1, rest);
      TakeResponseStep(st, rs[0]);
      TakeResponseExactly(st, rs[0], t, q);
      MessageExactly(st1, rest, t, q);
      MessageShift(st, rs, t, q);
      hide Queues, Dropped, FulfilledBy, MessageDrops, MessageFulfills, OnMessage, TakeResponse, Follows, DistinctLive;
    }
  }

  /** After one response was read, another one passes exactly if it did before and has another id. */
  lemma {:induction false} PassesLater(st: State, r0: Response, r: Response)
    requires Queues(st) && Has(st.sent, ResponseKey(r0))
    ensures Passes(TakeResponse(st, r0), r) <==> Passes(st, r) && ResponseKey(r) != ResponseKey(r0)
    ensures ResponseKey(r) != ResponseKey(r0) ==>
      forall t :: Entry(ResponseKey(r), t) in st.sent <==> Entry(ResponseKey(r), t) in TakeResponse(st, r0).sent
  {
    DeleteSpec(st.sent, ResponseKey(r0));
    HasIn(st.sent, ResponseKey(r));
    HasIn(TakeResponse(st, r0).sent, ResponseKey(r));
  }

  lemma {:induction false} ReadShift(st: State, rs: seq<Response>, i: nat)
    requires Queues(st) && 0 < i < |rs| && Passes(st, rs[0])
    ensures Read(st, rs, i) <==> Read(TakeResponse(st, rs[0]), rs[1..], i - 1)
    ensures Read(st, rs, i) ==> forall t ::
      Entry(ResponseKey(rs[i]), t) in st.sent <==> Entry(ResponseKey(rs[i]), t) in TakeResponse(st, rs[0]).sent
  {
    var st1, rest := TakeResponse(st, rs[0]), rs[1..];
    forall j | 0 < j <= i
      ensures rest[j - 1] == rs[j]
      ensures Passes(st1, rest[j - 1]) <==> Passes(st, rs[j]) && ResponseKey(rs[j]) != ResponseKey(rs[0])
    {
      PassesLater(st, rs[0], rs[j]);
    }
    PassesLater(st, rs[0], rs[i]);
    hide Queues, Passes, TakeResponse, ResponseKey;
    if Read(st1, rest, i - 1) { ReadBefore(st, st1, rs, i); }
    if Read(st, rs, i) { ReadAfter(st, st1, rs, i); }
  }

  lemma {:induction false} ReadBefore(st: State, st1: State, rs: seq<Response>, i: nat)
    requires 0 < i < |rs| && Passes(st, rs[0]) && Read(st1, rs[1..], i - 1)
    requires forall j :: 0 < j <= i ==>
      (Passes(st1, rs[1..][j - 1]) ==> Passes(st, rs[j]) && ResponseKey(rs[j]) != ResponseKey(rs[0]))
    ensures Read(st, rs, i)
  {
    var rest := rs[1..];
    hide Passes, ResponseKey;
    forall j | 0 < j <= i ensures Passes(st, rs[j]) && ResponseKey(rs[j]) != ResponseKey(rs[0]) {
      assert Passes(st1, rest[j - 1]);
    }
    forall j, k | 0 < j < k <= i ensures ResponseKey(rs[j]) != ResponseKey(rs[k]) {
      assert rest[j - 1] == rs[j] && rest[k - 1] == rs[k];
    }
  }

  lemma {:induction false} ReadAfter(st: State, st1: State, rs: seq<Response>, i: nat)
    requires 0 < i < |rs| && Read(st, rs, i)
    requires forall j :: 0 < j <= i ==>
      (Passes(st, rs[j]) && ResponseKey(rs[j]) != ResponseKey(rs[0]) ==> Passes(st1, rs[1..][j - 1]))
    ensures Read(st1, rs[1..], i - 1)
  {
    var rest := rs[1..];
    hide Passes, ResponseKey;
    forall j | 0 <= j < i ensures rest[j] == rs[j + 1] && Passes(st1, rest[j]) {
      assert Passes(st1, rs[1..][(j + 1) - 1]);
    }
  }

  lemma {:induction false} MessageShift(st: State, rs: seq<Response>, t: nat, q: Response)
    requires Queues(st) && rs != [] && Passes(st, rs[0])
    ensures var st1, mine := TakeResponse(st, rs[0]), Entry(ResponseKey(rs[0]), t) in st.sent;
      && (MessageDrops(st, rs, t) <==> (mine && !Recognised(rs[0])) || MessageDrops(st1, rs[1..], t))
      && (MessageFulfills(st, rs, t, q) <==> (mine && rs[0] == q) || MessageFulfills(st1, rs[1..], t, q))
  {
    var st1, rest := TakeResponse(st, rs[0]), rs[1..];
    assert Read(st, rs, 0);
    forall i: nat | 0 < i < |rs|
      ensures rest[i - 1] == rs[i] && (Read(st, rs, i) <==> Read(st1, rest, i - 1))
      ensures Read(st, rs, i) ==>
        (Entry(ResponseKey(rs[i]), t) in st.sent <==> Entry(ResponseKey(rs[i]), t) in st1.sent)
    {
      ReadShift(st, rs, i);
    }
    hide Read, TakeResponse, ResponseKey, Recognised, Queues, Passes;
  }

  // Whole steps and runs.

  /** The promises an event drops. */
  predicate Drops(st: State, ev: Event, t: nat) {
    match ev
    case Request(c) => RequestDrops(st, c, t)
    case Open(c, a, sends) =>
      var s0 := st.(status := Connected, attempts := 0);
      var s1 := OnRequest(s0, c);
      RequestDrops(s0, c, t) || RequestDrops(s1, a, t) || FlushDrops(OnRequest(s1, a), sends, t)
    case Message(rs) => MessageDrops(st, rs, t)
    case Reset => Waiting(st, t)
    case _ => false
  }

  lemma {:induction false} StepDropsExactly(o: Options, st: State, ev: Event, t: nat)
    requires Inv(o, st)
    ensures Dropped(Step(o, st, ev), t) <==> Dropped(st, t) || Drops(st, ev, t)
  {
    if ev.Request? {
      RequestDropsExactly(st, ev.call, t);
    } else if ev.Open? {
      OpenDropsExactly(st, ev.chainId, ev.accounts, ev.sends, t);
    } else if ev.Message? {
      MessageExactly(st, ev.responses, t, Many([]));
    } else {
      OthersDrop(o, st, ev, t);
    }
  }

  lemma {:induction false} OpenDropsExactly(st: State, c: Call, a: Call, sends: nat, t: nat)
    requires Queues(st)
    ensures Dropped(OnOpen(st, c, a, sends), t) <==> Dropped(st, t) || Drops(st, Open(c, a, sends), t)
  {
    var s0 := st.(status := Connected, attempts := 0);
    var s1 := OnRequest(s0, c);
    SameQueues(st, s0);
    assert Dropped(s0, t) <==> Dropped(st, t);
    hide Queues, Dropped, RequestDrops, FlushDrops, OnRequest, OnFlush, Follows, Keeps;
    RequestDropsExactly(s0, c, t);
    RequestStep(s0, c);
    RequestDropsExactly(s1, a, t);
    RequestStep(s1, a);
    FlushDropsExactly(OnRequest(s1, a), sends, t);
  }

  lemma {:induction false} OthersDrop(o: Options, st: State, ev: Event, t: nat)
    requires Inv(o, st) && !ev.Request? && !ev.Open? && !ev.Message?
    ensures Dropped(Step(o, st, ev), t) <==> Dropped(st, t) || (ev.Reset? && Waiting(st, t))
  {
    TicketsExist(st, t);
    if ev.Reset? {
      assert !Waiting(Step(o, st, ev), t);
    } else {
      StepKeepsInvariant(o, st, ev);
      OthersKeep(o, st, ev);
      hide Step, Inv;
    }
  }

  lemma {:induction false} OthersKeep(o: Options, st: State, ev: Event)
    requires Inv(o, st) && !ev.Request? && !ev.Open? && !ev.Message? && !ev.Reset?
    ensures Keeps(st, Step(o, st, ev))
  {
    hide Queues, Follows, Keeps, RejectAll;
    SameQueues(st, st);
    match ev
    case WsClose(code, clean) =>
      ReconnectStep(o, st);
      ClearAndDisconnect(st);
    case IpcEnd(withEvent) =>
      var s := st.(status := Disconnected);
      SameQueues(st, s);
      ReconnectStep(o, s);
      ChainKeeps(st, s, OnReconnect(o, s));
      ClearAndDisconnect(st);
    case IpcClose => ClearQueuesStep(st);
    case Error =>
    case TimerFires(opening) => SameQueues(st, OnTimer(st, opening));
    case ImmediateFires =>
      if st.immediates > 0 {
        var s := st.(immediates := st.immediates - 1);
        SameQueues(st, s);
        ReconnectStep(o, s);
        ChainKeeps(st, s, OnReconnect(o, s));
      }
    case Connect(opening) => SameQueues(st, TryConnect(st, opening).st);
    case Disconnect => SameQueues(st, st.(status := Disconnected));
    case ChunkTimeout => ClearQueuesStep(st);
  }

  /** Some event of the run drops the promise. */
  predicate RunDrops(o: Options, st: State, evs: seq<Event>, t: nat)
    decreases |evs|
  {
    evs != [] && (Drops(st, evs[0], t) || RunDrops(o, Step(o, st, evs[0]), evs[1..], t))
  }

  /** Over every run, whatever the ids: a promise is dropped at the end exactly if some event dropped it. */
  lemma {:induction false} RunDropsExactly(o: Options, st: State, evs: seq<Event>, t: nat)
    requires Inv(o, st)
    ensures Dropped(Run(o, st, evs), t) <==> Dropped(st, t) || RunDrops(o, st, evs, t)
    decreases |evs|
  {
    if evs != [] {
      hide Inv, Dropped, Drops, Step;
      StepDropsExactly(o, st, evs[0], t);
      StepKeepsInvariant(o, st, evs[0]);
      RunDropsExactly(o, Step(o, st, evs[0]), evs[1..], t);
    }
  }

  // Lost promises and responses, at an input.

  /** Two requests with one id while connecting: the promise of the first is dropped for good. */
  lemma {:induction false} SameIdWhileConnectingDrops(o: Options, key: Id, later: seq<Event>)
    requires key.Truthy()
    ensures var c := Call(key, false, Status.Connecting, Opens, Status.Connecting, false);
      Dropped(Run(o, INITIAL, [Request(c), Request(c)] + later), 0)
  {
    var c := Call(key, false, Status.Connecting, Opens, Status.Connecting, false);
    var s1 := OnRequest(INITIAL, c);
    InitialIsSafe(o);
    StepKeepsInvariant(o, INITIAL, Request(c));
    assert s1.pending == [Entry(key, 0)] && s1.sent == [];
    RequestDropsExactly(s1, c, 0);
    StepKeepsInvariant(o, s1, Request(c));
    var s2 := OnRequest(s1, c);
    hide OnRequest, Inv, Dropped;
    assert ([Request(c), Request(c)] + later)[1..] == [Request(c)] + later && ([Request(c)] + later)[1..] == later;
    assert Run(o, INITIAL, [Request(c), Request(c)] + later) == Run(o, s2, later);
    DroppedForever(o, s2, later, 0);
  }

  /** A response with an unknown id in front: the answer behind it in the same event never reaches its promise. */
  lemma {:induction false} ResponseLost(o: Options, unknown: Response, answer: Response)
    requires ResponseKey(answer).Truthy() && ResponseKey(unknown) != ResponseKey(answer)
    requires Recognised(answer) && !IsSubscriptionNotification(answer)
    ensures var c := Call(ResponseKey(answer), false, Status.Connected, Opens, Status.Connected, false);
      Run(o, INITIAL, [Request(c), Message([unknown, answer])]).promises == [Promise(ResponseKey(answer), None, 0)]
    ensures var c := Call(ResponseKey(answer), false, Status.Connected, Opens, Status.Connected, false);
      FulfilledBy(Run(o, INITIAL, [Request(c), Message([answer])]), 0, answer)
  {
    var key := ResponseKey(answer);
    var c := Call(key, false, Status.Connected, Opens, Status.Connected, false);
    var s1 := OnRequest(INITIAL, c);
    hide ResponseKey, Recognised, IsSubscriptionNotification;
    assert s1.sent == [Entry(key, 0)] && s1.promises == [Promise(key, None, 0)];
    RunTwo(o, INITIAL, Request(c), Message([unknown, answer]));
    RunTwo(o, INITIAL, Request(c), Message([answer]));
    hide OnRequest, Run;
    OnlyAnswerIsRead(s1, unknown, answer);
  }

  lemma {:induction false} OnlyAnswerIsRead(st: State, unknown: Response, answer: Response)
    requires st.sent == [Entry(ResponseKey(answer), 0)] && st.promises == [Promise(ResponseKey(answer), None, 0)]
    requires ResponseKey(unknown) != ResponseKey(answer) && Recognised(answer) && !IsSubscriptionNotification(answer)
    ensures OnMessage(st, [unknown, answer]) == st
    ensures FulfilledBy(OnMessage(st, [answer]), 0, answer)
  {
    hide ResponseKey, Recognised, IsSubscriptionNotification;
    assert st.sent[0].key == ResponseKey(answer) && !Has(st.sent, ResponseKey(unknown));
    assert Has(st.sent, ResponseKey(answer)) && [answer][1..] == [];
    assert OnMessage(st, [answer]) == OnMessage(TakeResponse(st, answer), []);
  }

  lemma {:induction false} RunTwo(o: Options, st: State, first: Event, second: Event)
    ensures Run(o, st, [first, second]) == Step(o, Step(o, st, first), second)
  {
    hide Step;
    assert [first, second][1..] == [second] && [second][1..] == [];
    assert Run(o, Step(o, st, first), [second]) == Run(o, Step(o, Step(o, st, first), second), []);
  }
}
