/** What every step of the socket provider keeps. */
module SocketInvariant {
  import opened Wrappers
  import opened JsonRpc
  import opened Socket

  predicate DistinctKeys(m: seq<Entry>) {
    forall i, j :: 0 <= i < j < |m| ==> m[i].key != m[j].key
  }

  /** Every queued promise is there, has the key of its entry, and nobody has settled it. */
  predicate Queued(m: seq<Entry>, ps: seq<Promise>) {
    forall e :: e in m ==> e.ticket < |ps| && ps[e.ticket] == Promise(e.key, None, 0)
  }

  predicate DisjointTickets(m: seq<Entry>, n: seq<Entry>) {
    forall e, f :: e in m && f in n ==> e.ticket != f.ticket
  }

  /** Settled at most once, and fulfilled only by a response that carries the promise's own key. */
  predicate SettledOnce(p: Promise) {
    && p.calls == (if p.settled.Some? then 1 else 0)
    && (p.settled.Some? && p.settled.value.Fulfilled? ==>
          ResponseKey(p.settled.value.response) == p.key && Recognised(p.settled.value.response))
  }

  predicate Queues(st: State) {
    && DistinctKeys(st.pending) && DistinctKeys(st.sent)
    && Queued(st.pending, st.promises) && Queued(st.sent, st.promises)
    && DisjointTickets(st.pending, st.sent)
    && (forall t :: 0 <= t < |st.promises| ==> SettledOnce(st.promises[t]))
  }

  /** One reconnect timer exactly while reconnecting, and never more attempts than allowed. */
  predicate Bounded(o: Options, st: State) {
    st.attempts <= o.maxAttempts && st.timers == if st.isReconnecting then 1 else 0
  }

  predicate Inv(o: Options, st: State) {
    Queues(st) && Bounded(o, st)
  }

  predicate InQueue(m: seq<Entry>, t: nat) {
    exists e :: e in m && e.ticket == t
  }

  predicate Waiting(st: State, t: nat) {
    InQueue(st.pending, t) || InQueue(st.sent, t)
  }

  /** Accepted, never settled, and in no queue. By `RunIsSafe` nothing ever settles it (`DroppedForever`). */
  predicate Dropped(st: State, t: nat) {
    t < |st.promises| && st.promises[t].settled.None? && !Waiting(st, t)
  }

  /** Promises in no queue, settled ones among them, never change, and nothing that left the queues comes back. */
  ghost predicate Follows(st: State, st': State) {
    && |st.promises| <= |st'.promises|
    && (forall t :: 0 <= t < |st.promises| ==> st'.promises[t].key == st.promises[t].key)
    && (forall t :: 0 <= t < |st.promises| && st.promises[t].settled.Some? ==> st'.promises[t] == st.promises[t])
    && (forall t: nat :: t < |st.promises| && !Waiting(st, t) ==> st'.promises[t] == st.promises[t])
    && (forall t: nat :: t < |st.promises| && Waiting(st', t) ==> Waiting(st, t))
  }

  /** No promise is dropped that was not dropped before. */
  ghost predicate Keeps(st: State, st': State) {
    forall t: nat :: Dropped(st', t) ==> Dropped(st, t)
  }

  // The maps.

  /** The other entries have other keys. */
  lemma {:induction false} FirstAndRest(m: seq<Entry>)
    requires DistinctKeys(m) && m != []
    ensures forall f :: f in m <==> f == m[0] || f in m[1..]
    ensures forall f :: f in m[1..] ==> f.key != m[0].key
    ensures DistinctKeys(m[1..])
  {
    var rest := m[1..];
    assert forall f :: f in m <==> f == m[0] || f in rest;
    forall f | f in rest ensures f.key != m[0].key {
      var i :| 0 <= i < |rest| && rest[i] == f;
      assert m[i + 1] == f;
    }
  }

  lemma {:induction false} SetSpec(m: seq<Entry>, key: Id, t: nat)
    requires DistinctKeys(m)
    ensures forall e :: e in Set(m, key, t) <==> e == Entry(key, t) || (e in m && e.key != key)
    ensures DistinctKeys(Set(m, key, t))
  {
    if m != [] {
      var rest := m[1..];
      FirstAndRest(m);
      if m[0].key == key {
        assert Set(m, key, t) == [Entry(key, t)] + rest;
      } else {
        SetSpec(rest, key, t);
        var s := Set(rest, key, t);
        assert forall i :: 0 <= i < |s| ==> s[i] in s;
        assert Set(m, key, t) == [m[0]] + s;
      }
    }
  }

  lemma {:induction false} DeleteSpec(m: seq<Entry>, key: Id)
    requires DistinctKeys(m)
    ensures forall e :: e in Delete(m, key) <==> e in m && e.key != key
    ensures DistinctKeys(Delete(m, key))
  {
    if m != [] {
      var rest := m[1..];
      FirstAndRest(m);
      if m[0].key != key {
        DeleteSpec(rest, key);
        var s := Delete(rest, key);
        assert forall i :: 0 <= i < |s| ==> s[i] in s;
        assert Delete(m, key) == [m[0]] + s;
      }
    }
  }

  lemma {:induction false} GetSpec(m: seq<Entry>, key: Id)
    requires Has(m, key)
    ensures Entry(key, Get(m, key)) in m
  {
    if m[0].key != key { GetSpec(m[1..], key); }
  }

  lemma {:induction false} RejectAllSpec(ps: seq<Promise>, m: seq<Entry>, reason: Reason)
    requires Queued(m, ps) && DistinctKeys(m)
    ensures var r := RejectAll(ps, m, reason);
            forall t: nat :: t < |ps| ==>
              r[t] == if InQueue(m, t) then Promise(ps[t].key, Some(Rejected(reason)), 1) else ps[t]
    decreases |m|
  {
    if m != [] {
      var rest := m[1..];
      var ps' := SettleAt(ps, m[0].ticket, Rejected(reason));
      assert m[0] in m;
      forall e | e in rest ensures e in m && e.key != m[0].key && e.ticket != m[0].ticket {
        var i :| 0 <= i < |rest| && rest[i] == e;
        assert m[i + 1] == e;
      }
      assert DistinctKeys(rest);
      assert Queued(rest, ps');
      RejectAllSpec(ps', rest, reason);
      forall t: nat | t < |ps| ensures InQueue(m, t) <==> t == m[0].ticket || InQueue(rest, t) {
        if InQueue(m, t) { var e :| e in m && e.ticket == t; assert e == m[0] || e in rest; }
      }
    }
  }

  // The operations.

  lemma {:induction false} ClearQueuesStep(st: State)
    requires Queues(st)
    ensures var st' := OnClearQueues(st); Queues(st') && Follows(st, st') && Keeps(st, st')
    ensures forall t: nat :: t < |st.promises| && Waiting(st, t) ==>
              OnClearQueues(st).promises[t].settled == Some(Rejected(ConnectionNotOpen))
  {
    var ps := RejectAll(st.promises, st.pending, ConnectionNotOpen);
    RejectAllSpec(st.promises, st.pending, ConnectionNotOpen);
    Untouched(st.promises, ps, st.pending, st.sent);
    RejectAllSpec(ps, st.sent, ConnectionNotOpen);
    var st' := OnClearQueues(st);
    forall t: nat | t < |st.promises|
      ensures st'.promises[t] ==
        if Waiting(st, t) then Promise(st.promises[t].key, Some(Rejected(ConnectionNotOpen)), 1) else st.promises[t]
    {
      assert !(InQueue(st.pending, t) && InQueue(st.sent, t));
    }
    assert forall t: nat :: t < |st.promises| ==> SettledOnce(st.promises[t]);
    SettledUnwaited(st);
  }

  lemma {:induction false} SettledUnwaited(st: State)
    requires Queues(st)
    ensures forall t: nat :: t < |st.promises| && st.promises[t].settled.Some? ==> !Waiting(st, t)
  {
    forall t: nat | t < |st.promises| && Waiting(st, t) ensures st.promises[t].settled.None? {
      if InQueue(st.pending, t) {
        var e :| e in st.pending && e.ticket == t;
      } else {
        var e :| e in st.sent && e.ticket == t;
      }
    }
  }

  /** Rejecting one queue leaves the promises of the other as they are. */
  lemma {:induction false} Untouched(ps: seq<Promise>, ps': seq<Promise>, m: seq<Entry>, n: seq<Entry>)
    requires Queued(n, ps) && DisjointTickets(m, n) && |ps'| == |ps|
    requires forall t: nat :: t < |ps| && !InQueue(m, t) ==> ps'[t] == ps[t]
    ensures Queued(n, ps')
  {
    forall e | e in n ensures e.ticket < |ps'| && ps'[e.ticket] == Promise(e.key, None, 0) {
      assert !InQueue(m, e.ticket);
    }
  }

  lemma {:induction false} RejectSentStep(st: State, reason: Reason)
    requires Queues(st)
    ensures var st' := st.(promises := RejectAll(st.promises, st.sent, reason), sent := []);
            Queues(st') && Follows(st, st') && Keeps(st, st')
  {
    var st' := st.(promises := RejectAll(st.promises, st.sent, reason), sent := []);
    RejectAllSpec(st.promises, st.sent, reason);
    Untouched(st.promises, st'.promises, st.sent, st.pending);
    SettledUnwaited(st);
    forall t: nat | Dropped(st', t) ensures Dropped(st, t) {
      assert !InQueue(st.sent, t);
      assert st'.pending == st.pending;
    }
  }

  lemma {:induction false} ReconnectStep(o: Options, st: State)
    requires Inv(o, st)
    ensures var st' := OnReconnect(o, st); Inv(o, st') && Follows(st, st') && Keeps(st, st')
    ensures !st.isReconnecting && st.attempts == o.maxAttempts ==>
              OnReconnect(o, st).pending == [] && OnReconnect(o, st).sent == []
  {
    if !st.isReconnecting {
      var s := st.(promises := RejectAll(st.promises, st.sent, PendingRequestsOnReconnecting), sent := []);
      RejectSentStep(st, PendingRequestsOnReconnecting);
      if s.attempts < o.maxAttempts {
        var st' := OnReconnect(o, st);
        assert forall t: nat :: Waiting(st', t) <==> Waiting(s, t);
      } else {
        ClearQueuesStep(s);
      }
    }
  }

  /** Steps that leave the queues and the promises alone. */
  lemma {:induction false} SameQueues(st: State, st': State)
    requires Queues(st) && st'.pending == st.pending && st'.sent == st.sent && st'.promises == st.promises
    ensures Queues(st') && Follows(st, st') && Keeps(st, st')
  {
    assert forall t: nat :: Waiting(st', t) <==> Waiting(st, t);
  }

  lemma {:induction false} FollowsTransitive(a: State, b: State, c: State)
    requires Follows(a, b) && Follows(b, c)
    ensures Follows(a, c)
  {}

  /** The state after `connect` inside a request: only the status and the deferred reconnects may differ. */
  function AfterConnect(st: State, c: Call): Attempt {
    if c.statusFirst.Disconnected? then TryConnect(st, c.opening) else Attempt(st, false)
  }

  /** Whether a request call is accepted, that is, makes a promise. */
  predicate Accepted(st: State, c: Call) {
    !c.noSocket && !AfterConnect(st, c).threw && c.key.Truthy() && !Has(st.sent, c.key)
  }

  /** A new promise with its entry in the pending queue. */
  lemma {:induction false} QueuePending(st: State, key: Id)
    requires Queues(st)
    ensures var st' := st.(promises := st.promises + [Promise(key, None, 0)],
                           pending := Set(st.pending, key, |st.promises|));
            Queues(st') && Follows(st, st') && (!Has(st.pending, key) ==> Keeps(st, st'))
  {
    var ticket := |st.promises|;
    SetSpec(st.pending, key, ticket);
    HasIn(st.pending, key);
    if !Has(st.pending, key) { SetWaits(st.pending, key, ticket); }
    QueuedGrows(st.pending, st.promises, key, ticket);
    QueuedGrows(st.sent, st.promises, key, ticket);
  }

  /** A new promise with its entry in the sent queue. */
  lemma {:induction false} QueueSent(st: State, key: Id)
    requires Queues(st) && !Has(st.sent, key)
    ensures var st' := st.(promises := st.promises + [Promise(key, None, 0)], sent := Set(st.sent, key, |st.promises|));
            Queues(st') && Follows(st, st') && Keeps(st, st')
  {
    var ticket := |st.promises|;
    SetSpec(st.sent, key, ticket);
    HasIn(st.sent, key);
    SetWaits(st.sent, key, ticket);
    QueuedGrows(st.pending, st.promises, key, ticket);
    QueuedGrows(st.sent, st.promises, key, ticket);
  }

  /** The send throws: the new promise is in no queue. */
  lemma {:induction false} QueueThrown(st: State, key: Id)
    requires Queues(st) && !Has(st.sent, key)
    ensures var st' := st.(promises := st.promises + [Promise(key, None, 0)],
                           sent := Delete(Set(st.sent, key, |st.promises|), key));
            Queues(st') && Follows(st, st') && forall t: nat :: Dropped(st', t) ==> Dropped(st, t) || t == |st.promises|
  {
    var ticket := |st.promises|;
    DeleteWaits(st.sent, key, ticket);
    SetSpec(st.sent, key, ticket);
    DeleteSpec(Set(st.sent, key, ticket), key);
    QueuedGrows(st.pending, st.promises, key, ticket);
    QueuedGrows(st.sent, st.promises, key, ticket);
  }

  /** Only a send that throws leaves the new promise in no queue. */
  lemma {:induction false} RequestStep(st: State, c: Call)
    requires Queues(st)
    ensures var st' := OnRequest(st, c); Queues(st') && Follows(st, st')
    ensures |OnRequest(st, c).promises| == |st.promises| + (if Accepted(st, c) then 1 else 0)
    ensures !Has(st.pending, c.key) && !(c.sendThrows && !c.statusThen.Connecting?) ==> Keeps(st, OnRequest(st, c))
    ensures !Has(st.pending, c.key) ==>
              forall t: nat :: Dropped(OnRequest(st, c), t) ==> Dropped(st, t) || t == |st.promises|
  {
    hide Queues, Follows, Keeps, Dropped;
    var mid := AfterConnect(st, c).st;
    if c.noSocket {
      SameQueues(st, st);
    } else {
      SameQueues(st, mid);
      if Accepted(st, c) {
        if c.statusThen.Connecting? {
          QueuePending(mid, c.key);
        } else if c.sendThrows {
          QueueThrown(mid, c.key);
        } else {
          QueueSent(mid, c.key);
        }
        Chain(st, mid, OnRequest(st, c));
      }
      Weaken(st, mid);
    }
    Weaken(st, OnRequest(st, c));
  }

  lemma {:induction false} Chain(a: State, b: State, c: State)
    requires Follows(a, b) && Keeps(a, b) && Follows(b, c)
    ensures Follows(a, c) && (Keeps(b, c) ==> Keeps(a, c))
  {}

  lemma {:induction false} Weaken(a: State, b: State)
    ensures Keeps(a, b) ==> forall t: nat :: Dropped(b, t) ==> Dropped(a, t)
  {}

  lemma {:induction false} HasIn(m: seq<Entry>, key: Id)
    ensures Has(m, key) <==> exists e :: e in m && e.key == key
  {
    if e :| e in m && e.key == key { var i :| 0 <= i < |m| && m[i] == e; }
  }

  lemma {:induction false} SetWaits(m: seq<Entry>, key: Id, ticket: nat)
    requires DistinctKeys(m) && !Has(m, key)
    ensures forall t: nat :: InQueue(Set(m, key, ticket), t) <==> t == ticket || InQueue(m, t)
  {
    SetSpec(m, key, ticket);
    HasIn(m, key);
    assert Entry(key, ticket) in Set(m, key, ticket);
  }

  lemma {:induction false} DeleteWaits(m: seq<Entry>, key: Id, ticket: nat)
    requires DistinctKeys(m) && !Has(m, key)
    ensures forall e :: e in Delete(Set(m, key, ticket), key) <==> e in m
  {
    SetSpec(m, key, ticket);
    DeleteSpec(Set(m, key, ticket), key);
    HasIn(m, key);
  }

  lemma {:induction false} QueuedGrows(m: seq<Entry>, ps: seq<Promise>, key: Id, ticket: nat)
    requires Queued(m, ps) && ticket == |ps|
    ensures Queued(m, ps + [Promise(key, None, 0)]) && forall e :: e in m ==> e.ticket < ticket
  {}
}
