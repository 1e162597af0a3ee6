/** The main results on the socket protocol: safety over every run, and what can be lost. */
module SocketTheorems {
  import opened Wrappers
  import opened JsonRpc
  import opened Socket
  import opened SocketInvariant
  import opened SocketSafety

  lemma {:induction false} StepKeepsInvariant(o: Options, st: State, ev: Event)
    requires Inv(o, st)
    ensures var st' := Step(o, st, ev); Inv(o, st') && Follows(st, st')
  {
    hide Queues, Follows, Keeps, RejectAll, OnFlush, OnMessage;
    match ev
    case Request(c) => RequestStep(st, c);
    case Open(c, a, n) =>
      OpenStep(st, c, a, n);
      OpenBound(st, c, a, n);
    case Message(rs) =>
      MessageStep(st, rs);
      MessageBound(st, rs);
    case WsClose(code, clean) =>
      ReconnectStep(o, st);
      ClearAndDisconnect(st);
    case IpcEnd(withEvent) =>
      var s := st.(status := Disconnected);
      SameQueues(st, s);
      ReconnectStep(o, s);
      FollowsTransitive(st, s, OnReconnect(o, s));
      ClearAndDisconnect(st);
    case IpcClose => ClearQueuesStep(st);
    case Error => SameQueues(st, st);
    case TimerFires(opening) => SameQueues(st, OnTimer(st, opening));
    case ImmediateFires =>
      SameQueues(st, st);
      if st.immediates > 0 {
        var s := st.(immediates := st.immediates - 1);
        SameQueues(st, s);
        ReconnectStep(o, s);
        FollowsTransitive(st, s, OnReconnect(o, s));
      }
    case Connect(opening) => SameQueues(st, TryConnect(st, opening).st);
    case Disconnect => SameQueues(st, st.(status := Disconnected));
    case Reset => ResetStep(st);
    case ChunkTimeout =>
      SameQueues(st, st);
      ClearQueuesStep(st);
  }

  /** What a step keeps if it starts in a safe state. */
  lemma {:induction false} StepStaysSafe(o: Options, st: State, ev: Event)
    ensures Inv(o, st) ==> Inv(o, Step(o, st, ev)) && Follows(st, Step(o, st, ev))
  {
    if Inv(o, st) { StepKeepsInvariant(o, st, ev); }
  }

  lemma {:induction false} ClearAndDisconnect(st: State)
    requires Queues(st)
    ensures var st' := OnClearQueues(st).(status := Disconnected); Queues(st') && Follows(st, st') && Keeps(st, st')
  {
    ClearQueuesStep(st);
    SameQueues(OnClearQueues(st), OnClearQueues(st).(status := Disconnected));
  }

  lemma {:induction false} ResetStep(st: State)
    requires Queues(st)
    ensures var st' := st.(sent := [], pending := [], attempts := 0); Queues(st') && Follows(st, st')
  {}

  predicate SameReconnecting(st: State, st': State) {
    st'.timers == st.timers && st'.isReconnecting == st.isReconnecting
  }

  lemma {:induction false} FlushBound(st: State, n: nat)
    ensures SameReconnecting(st, OnFlush(st, n)) && OnFlush(st, n).attempts == st.attempts
    decreases |st.pending|
  {
    if st.pending != [] && n > 0 { FlushBound(MoveFirst(st), n - 1); }
  }

  lemma {:induction false} RequestBound(st: State, c: Call)
    ensures SameReconnecting(st, OnRequest(st, c)) && OnRequest(st, c).attempts == st.attempts
  {}

  lemma {:induction false} OpenBound(st: State, c: Call, a: Call, n: nat)
    ensures SameReconnecting(st, OnOpen(st, c, a, n)) && OnOpen(st, c, a, n).attempts == 0
  {
    var s := st.(status := Connected, attempts := 0);
    RequestBound(s, c);
    RequestBound(OnRequest(s, c), a);
    hide OnRequest, OnFlush;
    FlushBound(OnRequest(OnRequest(s, c), a), n);
  }

  lemma {:induction false} MessageBound(st: State, rs: seq<Response>)
    ensures SameReconnecting(st, OnMessage(st, rs)) && OnMessage(st, rs).attempts == st.attempts
    decreases |rs|
  {
    if !(rs == [] || IsSubscriptionNotification(rs[0]) || !Has(st.sent, ResponseKey(rs[0]))) {
      MessageBound(TakeResponse(st, rs[0]), rs[1..]);
    }
  }

  /**
   * Safety. In every state of every run, whatever the interleaving: queued promises are unsettled, every
   * promise is settled at most once and fulfilled only by a response with its own key, one reconnect timer
   * runs exactly while reconnecting, and the attempts stay within the limit.
   */
  lemma {:induction false} RunIsSafe(o: Options, st: State, evs: seq<Event>)
    requires Inv(o, st)
    ensures Inv(o, Run(o, st, evs)) && Follows(st, Run(o, st, evs))
    decreases |evs|
  {
    if evs == [] {
      SameQueues(st, st);
    } else {
      hide Inv, Follows, Step;
      var st1 := Step(o, st, evs[0]);
      StepKeepsInvariant(o, st, evs[0]);
      RunIsSafe(o, st1, evs[1..]);
      FollowsTransitive(st, st1, Run(o, st, evs));
    }
  }

  /** A dropped promise stays unsettled for good. */
  lemma {:induction false} DroppedForever(o: Options, st: State, evs: seq<Event>, t: nat)
    requires Inv(o, st) && Dropped(st, t)
    ensures Dropped(Run(o, st, evs), t)
  {
    RunIsSafe(o, st, evs);
    hide Run, Inv;
  }

  lemma {:induction false} InitialIsSafe(o: Options)
    ensures Inv(o, INITIAL) && DistinctLive(INITIAL)
  {}

  // Conservation.

  /** The ids of an event's requests are not live already. (A sent id is refused by the code itself.) */
  predicate FreshIds(st: State, ev: Event) {
    match ev
    case Request(c) => !Has(st.pending, c.key)
    case Open(c, a, _) =>
      var s := st.(status := Connected, attempts := 0);
      !Has(st.pending, c.key) && !Has(OnRequest(s, c).pending, a.key)
    case _ => true
  }

  /** The events that can drop promise t. */
  predicate MayDrop(st: State, ev: Event, t: nat) {
    match ev
    case Reset => true
    case Request(c) => c.sendThrows && t == |st.promises|
    case Open(c, a, _) =>
      var s := st.(status := Connected, attempts := 0);
      (c.sendThrows && t == |st.promises|) || (a.sendThrows && t == |OnRequest(s, c).promises|)
    case Message(rs) => Unrecognised(st, rs, t)
    case _ => false
  }

  lemma {:induction false} StepConserves(o: Options, st: State, ev: Event)
    requires Inv(o, st) && DistinctLive(st) && FreshIds(st, ev)
    ensures DistinctLive(Step(o, st, ev))
    ensures forall t: nat :: Dropped(Step(o, st, ev), t) ==> Dropped(st, t) || MayDrop(st, ev, t)
  {
    match ev
    case Request(c) =>
      RequestStep(st, c);
      RequestDistinct(st, c);
    case Open(c, a, n) => OpenConserves(st, c, a, n);
    case Message(rs) => MessageStep(st, rs);
    case WsClose(code, clean) =>
      ReconnectStep(o, st);
      ClearAndDisconnect(st);
      ReconnectDistinct(o, st);
    case IpcEnd(withEvent) =>
      var s := st.(status := Disconnected);
      SameQueues(st, s);
      ReconnectStep(o, s);
      ClearAndDisconnect(st);
      ReconnectDistinct(o, s);
    case IpcClose => ClearQueuesStep(st);
    case Error =>
    case TimerFires(opening) => SameQueues(st, OnTimer(st, opening));
    case ImmediateFires =>
      if st.immediates > 0 {
        var s := st.(immediates := st.immediates - 1);
        SameQueues(st, s);
        ReconnectStep(o, s);
        ReconnectDistinct(o, s);
      }
    case Connect(opening) => SameQueues(st, TryConnect(st, opening).st);
    case Disconnect => SameQueues(st, st.(status := Disconnected));
    case Reset =>
    case ChunkTimeout => ClearQueuesStep(st);
  }

  lemma {:induction false} ReconnectDistinct(o: Options, st: State)
    requires DistinctLive(st)
    ensures DistinctLive(OnReconnect(o, st))
  {}

  lemma {:induction false} OpenConserves(st: State, c: Call, a: Call, n: nat)
    requires Queues(st) && DistinctLive(st) && FreshIds(st, Open(c, a, n))
    ensures DistinctLive(OnOpen(st, c, a, n))
    ensures forall t: nat :: Dropped(OnOpen(st, c, a, n), t) ==> Dropped(st, t) || MayDrop(st, Open(c, a, n), t)
  {
    var s0 := st.(status := Connected, attempts := 0);
    var s1 := OnRequest(s0, c);
    var s2 := OnRequest(s1, a);
    SameQueues(st, s0);
    assert DistinctLive(s0);
    hide Queues, Follows, OnRequest, OnFlush, DistinctLive, Dropped;
    RequestStep(s0, c);
    RequestDistinct(s0, c);
    RequestStep(s1, a);
    RequestDistinct(s1, a);
    FlushStep(s2, n);
  }

  predicate FreshRun(o: Options, st: State, evs: seq<Event>)
    decreases |evs|
  {
    evs == [] || (FreshIds(st, evs[0]) && FreshRun(o, Step(o, st, evs[0]), evs[1..]))
  }

  /**
   * Conservation. With distinct live ids, a promise that ends up settled by nobody and in no queue was dropped
   * by some event of the run that may drop it: a reset, its own throwing send, or an unrecognised response.
   */
  lemma {:induction false} OnlyTheseDrop(o: Options, st: State, evs: seq<Event>, t: nat) returns (i: nat)
    requires Inv(o, st) && DistinctLive(st) && FreshRun(o, st, evs)
    requires Dropped(Run(o, st, evs), t) && !Dropped(st, t)
    ensures i < |evs| && MayDrop(Run(o, st, evs[..i]), evs[i], t)
    decreases |evs|
  {
    assert evs != [];
    var st1 := Step(o, st, evs[0]);
    hide Inv, DistinctLive, Dropped, MayDrop, FreshIds, Step;
    StepConserves(o, st, evs[0]);
    if Dropped(st1, t) {
      i := 0;
      assert Run(o, st, evs[..0]) == st;
    } else {
      StepKeepsInvariant(o, st, evs[0]);
      var k := OnlyTheseDrop(o, st1, evs[1..], t);
      i := k + 1;
      assert evs[..i][1..] == evs[1..][..k] && evs[..i][0] == evs[0];
    }
  }

  datatype Place = InPending | InSent | IsFulfilled | IsRejected | IsDropped

  predicate At(st: State, t: nat, p: Place)
    requires t < |st.promises|
  {
    match p
    case InPending => InQueue(st.pending, t)
    case InSent => InQueue(st.sent, t)
    case IsFulfilled => st.promises[t].settled.Some? && st.promises[t].settled.value.Fulfilled?
    case IsRejected => st.promises[t].settled.Some? && st.promises[t].settled.value.Rejected?
    case IsDropped => Dropped(st, t)
  }

  /** Each accepted request is in exactly one place. */
  lemma {:induction false} ExactlyOnePlace(o: Options, st: State, t: nat)
    requires Inv(o, st) && t < |st.promises|
    ensures exists p :: At(st, t, p)
    ensures forall p, q :: At(st, t, p) && At(st, t, q) ==> p == q
  {
    SettledUnwaited(st);
    assert !(InQueue(st.pending, t) && InQueue(st.sent, t));
    var p := if InQueue(st.pending, t) then InPending else if InQueue(st.sent, t) then InSent
             else if st.promises[t].settled.None? then IsDropped
             else if st.promises[t].settled.value.Fulfilled? then IsFulfilled else IsRejected;
    assert At(st, t, p);
  }

  // Reconnection.

  predicate Restarts(ev: Event) {
    ev.Open? || ev.Reset?
  }

  /** The reconnects a run starts: each arms one timer. */
  function Started(o: Options, st: State, evs: seq<Event>): nat
    decreases |evs|
  {
    if evs == [] then 0
    else
      var st' := Step(o, st, evs[0]);
      (if st'.timers > st.timers then 1 else 0) + Started(o, st', evs[1..])
  }

  lemma {:induction false} StartCosts(o: Options, st: State, ev: Event)
    requires Inv(o, st) && !Restarts(ev)
    ensures var st' := Step(o, st, ev); st'.attempts == st.attempts + (if st'.timers > st.timers then 1 else 0)
  {
    if ev.Message? { MessageBound(st, ev.responses); }
  }

  /** Until a connection opens or the socket is reset, every reconnect that starts uses up one of the attempts. */
  lemma {:induction false} BoundedReconnection(o: Options, st: State, evs: seq<Event>)
    requires Inv(o, st) && forall i :: 0 <= i < |evs| ==> !Restarts(evs[i])
    ensures Started(o, st, evs) == Run(o, st, evs).attempts - st.attempts <= o.maxAttempts - st.attempts
    decreases |evs|
  {
    if evs != [] {
      StartCosts(o, st, evs[0]);
      StepKeepsInvariant(o, st, evs[0]);
      BoundedReconnection(o, Step(o, st, evs[0]), evs[1..]);
    }
  }

  /** The reconnect that finds no attempt left empties both queues and settles every waiting promise. */
  lemma {:induction false} ExhaustionSettlesAll(o: Options, st: State)
    requires Inv(o, st) && !st.isReconnecting && st.attempts == o.maxAttempts
    ensures var st' := OnReconnect(o, st);
            && st'.pending == [] && st'.sent == [] && !st'.isReconnecting && st'.timers == 0
            && (forall t: nat :: t < |st.promises| && Waiting(st, t) ==>
                  st'.promises[t].settled.Some? && st'.promises[t].settled.value.Rejected?)
  {
    var s := st.(promises := RejectAll(st.promises, st.sent, PendingRequestsOnReconnecting), sent := []);
    RejectSentStep(st, PendingRequestsOnReconnecting);
    RejectAllSpec(st.promises, st.sent, PendingRequestsOnReconnecting);
    ClearQueuesStep(s);
    assert OnReconnect(o, st) == OnClearQueues(s);
    forall t: nat | t < |st.promises| && Waiting(st, t)
      ensures OnReconnect(o, st).promises[t].settled.Some? && OnReconnect(o, st).promises[t].settled.value.Rejected?
    {
      if InQueue(st.sent, t) {
        assert s.promises[t].settled == Some(Rejected(PendingRequestsOnReconnecting));
      } else {
        assert Waiting(s, t);
      }
    }
  }
}
