/** What each event does to the provider, written out field by field and promise by promise. */
module SocketBehaviour {
  import opened Wrappers
  import opened JsonRpc
  import opened Socket
  import opened SocketInvariant
  import opened SocketSafety
  import opened SocketTheorems
  import opened SocketDrops

  // Outcomes.

  predicate SameConnection(st: State, st': State) {
    && st'.status == st.status && st'.isReconnecting == st.isReconnecting && st'.attempts == st.attempts
    && st'.timers == st.timers && st'.immediates == st.immediates
  }

  /** The promise has been rejected for the reason. */
  predicate RejectedBy(st: State, t: nat, reason: Reason) {
    t < |st.promises| && st.promises[t].settled == Some(Rejected(reason))
  }

  /** Both queues are empty, and exactly the promises that waited are rejected: the sent and the pending ones. */
  ghost predicate Drained(st: State, st': State, sentReason: Reason, pendingReason: Reason) {
    && st'.pending == [] && st'.sent == [] && |st'.promises| == |st.promises|
    && (forall t: nat :: InQueue(st.sent, t) ==> RejectedBy(st', t, sentReason))
    && (forall t: nat :: InQueue(st.pending, t) ==> RejectedBy(st', t, pendingReason))
    && (forall t: nat :: t < |st.promises| && !Waiting(st, t) ==> st'.promises[t] == st.promises[t])
  }

  /** A reconnect has started: the sent requests are rejected, the pending ones wait on, and a timer runs. */
  ghost predicate ReconnectStarted(st: State, st': State) {
    && st'.isReconnecting && st'.timers == 1 && st'.attempts == st.attempts + 1
    && st'.pending == st.pending && st'.sent == [] && |st'.promises| == |st.promises|
    && (forall t: nat :: InQueue(st.sent, t) ==> RejectedBy(st', t, PendingRequestsOnReconnecting))
    && (forall t: nat :: t < |st.promises| && !InQueue(st.sent, t) ==> st'.promises[t] == st.promises[t])
  }

  /** What a reconnect comes to: nothing while one is under way, a start, or the end of all attempts. */
  ghost predicate Reconnected(o: Options, st: State, st': State) {
    && st'.immediates == st.immediates && st'.status == st.status
    && if st.isReconnecting then st' == st
       else if st.attempts < o.maxAttempts then ReconnectStarted(st, st')
       else
         && !st'.isReconnecting && st'.timers == 0 && st'.attempts == st.attempts
         && Drained(st, st', PendingRequestsOnReconnecting, ConnectionNotOpen)
  }

  lemma {:induction false} ClearQueuesDrains(st: State)
    requires Queues(st)
    ensures Drained(st, OnClearQueues(st), ConnectionNotOpen, ConnectionNotOpen)
    ensures SameConnection(st, OnClearQueues(st))
  {
    ClearQueuesStep(st);
    TicketsAreThere(st);
    hide Queues, Keeps, RejectAll;
  }

  lemma {:induction false} TicketsAreThere(st: State)
    requires Queues(st)
    ensures forall t: nat :: Waiting(st, t) ==> t < |st.promises| && st.promises[t].settled.None?
    ensures forall t: nat :: !(InQueue(st.pending, t) && InQueue(st.sent, t))
  {}

  lemma {:induction false} ReconnectExactly(o: Options, st: State)
    requires Inv(o, st)
    ensures Reconnected(o, st, OnReconnect(o, st))
  {
    var s := st.(promises := RejectAll(st.promises, st.sent, PendingRequestsOnReconnecting), sent := []);
    RejectSentStep(st, PendingRequestsOnReconnecting);
    RejectAllSpec(st.promises, st.sent, PendingRequestsOnReconnecting);
    TicketsAreThere(st);
    if !st.isReconnecting && st.attempts == o.maxAttempts {
      ClearQueuesDrains(s);
      EndOfAttempts(st, s);
    }
  }

  lemma {:induction false} EndOfAttempts(st: State, s: State)
    requires Queues(st) && Queues(s) && s.pending == st.pending && s.sent == [] && |s.promises| == |st.promises|
    requires forall t: nat :: InQueue(st.sent, t) ==> RejectedBy(s, t, PendingRequestsOnReconnecting)
    requires forall t: nat :: t < |st.promises| && !InQueue(st.sent, t) ==> s.promises[t] == st.promises[t]
    requires Drained(s, OnClearQueues(s), ConnectionNotOpen, ConnectionNotOpen)
    ensures Drained(st, OnClearQueues(s), PendingRequestsOnReconnecting, ConnectionNotOpen)
  {
    TicketsAreThere(st);
    hide Queues, OnClearQueues;
    assert forall t: nat :: Waiting(s, t) <==> InQueue(st.pending, t);
  }

  // Closing.

  /** A WebSocket close that is clean with 1000 or 1001, or without automatic reconnects, drains; others reconnect. */
  lemma {:induction false} WsCloseExactly(o: Options, st: State, code: int, wasClean: bool)
    requires Inv(o, st)
    ensures var st' := Step(o, st, WsClose(code, wasClean));
      if !o.autoReconnect || (wasClean && (code == 1000 || code == 1001)) then
        && Drained(st, st', ConnectionNotOpen, ConnectionNotOpen) && st'.status == Disconnected
        && SameConnection(st, st'.(status := st.status))
      else Reconnected(o, st, st')
  {
    ReconnectExactly(o, st);
    ClearQueuesDrains(st);
    hide Queues, OnReconnect, OnClearQueues;
  }

  /** The end of an IPC socket: without an event object and with automatic reconnects it reconnects, else it drains. */
  lemma {:induction false} IpcEndExactly(o: Options, st: State, withEvent: bool)
    requires Inv(o, st)
    ensures var st' := Step(o, st, IpcEnd(withEvent));
      && st'.status == Disconnected
      && if !withEvent && o.autoReconnect then Reconnected(o, st.(status := Disconnected), st')
         else
           && Drained(st, st', ConnectionNotOpen, ConnectionNotOpen)
           && SameConnection(st, st'.(status := st.status))
  {
    var s := st.(status := Disconnected);
    SameQueues(st, s);
    ReconnectExactly(o, s);
    ClearQueuesDrains(st);
    hide Queues, OnReconnect, OnClearQueues;
  }

  /** The close event of IPC drains, as does a chunk that stays unfinished without automatic reconnects. */
  lemma {:induction false} DrainsExactly(o: Options, st: State)
    requires Inv(o, st)
    ensures var st' := Step(o, st, IpcClose);
      Drained(st, st', ConnectionNotOpen, ConnectionNotOpen) && SameConnection(st, st')
    ensures var st' := Step(o, st, ChunkTimeout);
      if o.autoReconnect then st' == st
      else Drained(st, st', ConnectionNotOpen, ConnectionNotOpen) && SameConnection(st, st')
  {
    ClearQueuesDrains(st);
    hide Queues, OnClearQueues;
  }

  /** A reset forgets the queues and the attempts; a disconnect changes the status; an error changes nothing. */
  lemma {:induction false} QuietSteps(o: Options, st: State)
    ensures var st' := Step(o, st, Reset);
      && st'.pending == [] && st'.sent == [] && st'.attempts == 0 && st'.promises == st.promises
      && SameConnection(st, st'.(attempts := st.attempts))
    ensures Step(o, st, Disconnect) == st.(status := Disconnected)
    ensures Inv(o, st) ==> Step(o, st, Error) == st
  {}

  // Opening and timers.

  /**
   * Connecting: the status is `connecting` if the socket could be opened; if opening fails, it is `disconnected`, but
   * for a reconnect under way, which is tried again later.
   */
  lemma {:induction false} ConnectExactly(o: Options, st: State, opening: Opening)
    ensures var st' := Step(o, st, Connect(opening));
      && st'.pending == st.pending && st'.sent == st.sent && st'.promises == st.promises
      && st'.attempts == st.attempts && st'.timers == st.timers && st'.isReconnecting == st.isReconnecting
      && match opening
         case Opens => st'.status == Connecting && st'.immediates == st.immediates
         case OpenThrows =>
           if st.isReconnecting then st'.status == st.status && st'.immediates == st.immediates + 1
           else st'.status == Disconnected && st'.immediates == st.immediates
         case ListenThrows =>
           if st.isReconnecting then st'.status == Connecting && st'.immediates == st.immediates + 1
           else st'.status == Disconnected && st'.immediates == st.immediates
  {}

  /** The reconnect timer fires: it connects, and the reconnect is over, whatever comes of it. */
  lemma {:induction false} TimerExactly(o: Options, st: State, opening: Opening)
    requires Inv(o, st)
    ensures var st' := Step(o, st, TimerFires(opening));
      if !st.isReconnecting then st' == st
      else
        && st'.pending == st.pending && st'.sent == st.sent && st'.promises == st.promises
        && st'.attempts == st.attempts && st'.timers == 0 && !st'.isReconnecting
        && st'.status == (if opening.OpenThrows? then st.status else Connecting)
        && st'.immediates == (if opening.Opens? then st.immediates else st.immediates + 1)
  {}

  /** A deferred reconnect is a reconnect. */
  lemma {:induction false} ImmediateExactly(o: Options, st: State)
    requires Inv(o, st)
    ensures var st' := Step(o, st, ImmediateFires);
      if st.immediates == 0 then st' == st else Reconnected(o, st.(immediates := st.immediates - 1), st')
  {
    if st.immediates > 0 {
      var s := st.(immediates := st.immediates - 1);
      SameQueues(st, s);
      ReconnectExactly(o, s);
      hide Queues, OnReconnect;
    }
  }

  // Runs of reconnects.

  /** A close for every opening, each followed by its timer. */
  function ClosesAndTimers(openings: seq<Opening>): seq<Event> {
    if openings == [] then []
    else [WsClose(1006, false), TimerFires(openings[0])] + ClosesAndTimers(openings[1..])
  }

  /** As many reconnects start as there are closes, or as there are attempts left, whichever is less. */
  lemma {:induction false} EveryAttemptIsMade(o: Options, st: State, openings: seq<Opening>)
    requires Inv(o, st) && o.autoReconnect && !st.isReconnecting
    ensures Started(o, st, ClosesAndTimers(openings)) ==
      if |openings| <= o.maxAttempts - st.attempts then |openings| else o.maxAttempts - st.attempts
    decreases |openings|
  {
    if openings != [] {
      var close, timer := WsClose(1006, false), TimerFires(openings[0]);
      var s1 := Step(o, st, close);
      var s2 := Step(o, s1, timer);
      WsCloseExactly(o, st, 1006, false);
      StepKeepsInvariant(o, st, close);
      TimerExactly(o, s1, openings[0]);
      StepKeepsInvariant(o, s1, timer);
      hide Step, Queues, Drained;
      EveryAttemptIsMade(o, s2, openings[1..]);
      StartedTwo(o, st, close, timer, ClosesAndTimers(openings[1..]));
    }
  }

  lemma {:induction false} StartedTwo(o: Options, st: State, a: Event, b: Event, evs: seq<Event>)
    ensures var s1 := Step(o, st, a);
      var s2 := Step(o, s1, b);
      Started(o, st, [a, b] + evs) == (if s1.timers > st.timers then 1 else 0)
        + (if s2.timers > s1.timers then 1 else 0) + Started(o, s2, evs)
  {
    hide Step;
    assert ([a, b] + evs)[1..] == [b] + evs && ([b] + evs)[1..] == evs;
  }
}
