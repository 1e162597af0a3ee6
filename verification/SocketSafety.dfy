/** Safety of the socket provider over whole runs. */
module SocketSafety {
  import opened Wrappers
  import opened JsonRpc
  import opened Socket
  import opened SocketInvariant

  /** No id is live twice. */
  predicate DistinctLive(st: State) {
    forall e, f :: e in st.pending && f in st.sent ==> e.key != f.key
  }

  lemma {:induction false} MoveFirstStep(st: State)
    requires Queues(st) && st.pending != []
    ensures var st' := MoveFirst(st); Queues(st') && Follows(st, st')
    ensures DistinctLive(st) ==> DistinctLive(MoveFirst(st)) && Keeps(st, MoveFirst(st))
  {
    var e, rest := st.pending[0], st.pending[1..];
    FirstAndRest(st.pending);
    SetSpec(st.sent, e.key, e.ticket);
    hide Set, SettledOnce;
    assert forall f :: f in rest ==> f.ticket != e.ticket;
  }

  lemma {:induction false} FlushOne(st: State, sends: nat)
    ensures if st.pending == [] || sends == 0 then OnFlush(st, sends) == st
      else OnFlush(st, sends) == OnFlush(MoveFirst(st), sends - 1) && |MoveFirst(st).pending| < |st.pending|
  {}

  lemma {:induction false} FlushStep(st: State, sends: nat)
    requires Queues(st)
    ensures var st' := OnFlush(st, sends); Queues(st') && Follows(st, st')
    ensures DistinctLive(st) ==> DistinctLive(OnFlush(st, sends)) && Keeps(st, OnFlush(st, sends))
  {
    FlushFollows(st, sends);
    if DistinctLive(st) { FlushKeeps(st, sends); }
  }

  lemma {:induction false} FlushFollows(st: State, sends: nat)
    requires Queues(st)
    ensures var st' := OnFlush(st, sends); Queues(st') && Follows(st, st')
    decreases |st.pending|
  {
    hide Queues, Follows, Keeps, OnFlush, MoveFirst;
    FlushOne(st, sends);
    if st.pending == [] || sends == 0 {
      SameQueues(st, st);
    } else {
      MoveFirstStep(st);
      FlushFollows(MoveFirst(st), sends - 1);
      FollowsTransitive(st, MoveFirst(st), OnFlush(st, sends));
    }
  }

  lemma {:induction false} FlushKeeps(st: State, sends: nat)
    requires Queues(st) && DistinctLive(st)
    ensures DistinctLive(OnFlush(st, sends)) && Keeps(st, OnFlush(st, sends))
    decreases |st.pending|
  {
    hide Queues, Follows, Keeps, DistinctLive, OnFlush, MoveFirst;
    FlushOne(st, sends);
    if st.pending == [] || sends == 0 {
      SameQueues(st, st);
    } else {
      MoveFirstStep(st);
      FlushKeeps(MoveFirst(st), sends - 1);
      ChainKeeps(st, MoveFirst(st), OnFlush(st, sends));
    }
  }

  lemma {:induction false} ChainKeeps(a: State, b: State, c: State)
    requires Keeps(a, b) && Keeps(b, c)
    ensures Keeps(a, c)
  {}

  // Requests under distinct live ids.

  lemma {:induction false} RequestDistinct(st: State, c: Call)
    requires Queues(st) && DistinctLive(st) && !Has(st.pending, c.key)
    ensures DistinctLive(OnRequest(st, c))
  {
    var st' := OnRequest(st, c);
    if Accepted(st, c) {
      var key, ticket := c.key, |st.promises|;
      var queued := Set(st.sent, key, ticket);
      assert st'.pending == if c.statusThen.Connecting? then Set(st.pending, key, ticket) else st.pending;
      assert st'.sent ==
        if c.statusThen.Connecting? then st.sent else if c.sendThrows then Delete(queued, key) else queued;
      hide OnRequest, Accepted, Set, Delete;
      HasIn(st.pending, key);
      HasIn(st.sent, key);
      SetSpec(st.pending, key, ticket);
      SetSpec(st.sent, key, ticket);
      DeleteWaits(st.sent, key, ticket);
    }
  }

  lemma {:induction false} OpenStep(st: State, c: Call, a: Call, sends: nat)
    requires Queues(st)
    ensures var st' := OnOpen(st, c, a, sends); Queues(st') && Follows(st, st')
  {
    var s0 := st.(status := Connected, attempts := 0);
    var s1 := OnRequest(s0, c);
    var s2 := OnRequest(s1, a);
    SameQueues(st, s0);
    hide Queues, Follows, Keeps, OnRequest, OnFlush;
    RequestStep(s0, c);
    RequestStep(s1, a);
    FlushStep(s2, sends);
    FollowsTransitive(st, s0, s1);
    FollowsTransitive(st, s1, s2);
    FollowsTransitive(st, s2, OnOpen(st, c, a, sends));
  }

  // Messages.

  lemma {:induction false} TakeResponseStep(st: State, r: Response)
    requires Queues(st) && Has(st.sent, ResponseKey(r))
    ensures var st' := TakeResponse(st, r); Queues(st') && Follows(st, st')
    ensures DistinctLive(st) ==> DistinctLive(TakeResponse(st, r))
    ensures forall t: nat :: Dropped(TakeResponse(st, r), t) ==>
              Dropped(st, t) || (!Recognised(r) && t < |st.promises| && st.promises[t].key == ResponseKey(r))
    ensures |TakeResponse(st, r).promises| == |st.promises|
    ensures var t := Get(st.sent, ResponseKey(r));
            && t < |st.promises| && st.promises[t] == Promise(ResponseKey(r), None, 0)
            && (Recognised(r) ==>
                  TakeResponse(st, r).promises == st.promises[t := Promise(ResponseKey(r), Some(Fulfilled(r)), 1)])
  {
    var key := ResponseKey(r);
    GetSpec(st.sent, key);
    DeleteSpec(st.sent, key);
    var e := Entry(key, Get(st.sent, key));
    var st' := TakeResponse(st, r);
    forall f | f in st.sent && f != e ensures f.key != key && f.ticket != e.ticket {
      var i :| 0 <= i < |st.sent| && st.sent[i] == f;
      var j :| 0 <= j < |st.sent| && st.sent[j] == e;
    }
    assert forall f :: f in st'.sent <==> f in st.sent && f != e;
    assert forall f :: f in st.pending ==> f.ticket != e.ticket;
    forall t: nat | Dropped(st', t) && !Dropped(st, t) ensures !Recognised(r) && st.promises[t].key == key {
      assert Waiting(st, t);
    }
  }

  /** Some response in rs has the key of promise t, but is no result, error or batch. */
  predicate Unrecognised(st: State, rs: seq<Response>, t: nat) {
    t < |st.promises| && exists i :: 0 <= i < |rs| && !Recognised(rs[i]) && ResponseKey(rs[i]) == st.promises[t].key
  }

  lemma {:induction false} UnrecognisedLater(st: State, st1: State, rs: seq<Response>, t: nat)
    requires rs != [] && |st1.promises| == |st.promises|
    requires t < |st.promises| ==> st1.promises[t].key == st.promises[t].key
    requires Unrecognised(st1, rs[1..], t)
    ensures Unrecognised(st, rs, t)
  {
    var rest := rs[1..];
    var i :| 0 <= i < |rest| && !Recognised(rest[i]) && ResponseKey(rest[i]) == st1.promises[t].key;
    assert rs[i + 1] == rest[i];
  }

  lemma {:induction false} MessageStep(st: State, rs: seq<Response>)
    requires Queues(st)
    ensures var st' := OnMessage(st, rs); Queues(st') && Follows(st, st')
    ensures |OnMessage(st, rs).promises| == |st.promises|
    ensures DistinctLive(st) ==> DistinctLive(OnMessage(st, rs))
    ensures forall t: nat :: Dropped(OnMessage(st, rs), t) ==> Dropped(st, t) || Unrecognised(st, rs, t)
    decreases |rs|
  {
    if rs == [] || IsSubscriptionNotification(rs[0]) || !Has(st.sent, ResponseKey(rs[0])) {
      SameQueues(st, st);
    } else {
      var st1 := TakeResponse(st, rs[0]);
      TakeResponseStep(st, rs[0]);
      assert forall t: nat :: t < |st.promises| ==> st1.promises[t].key == st.promises[t].key;
      assert forall t: nat :: Dropped(st1, t) && !Dropped(st, t) ==> Unrecognised(st, rs, t);
      hide Queues, Follows, Dropped, DistinctLive, Unrecognised;
      MessageStep(st1, rs[1..]);
      forall t: nat | Unrecognised(st1, rs[1..], t) ensures Unrecognised(st, rs, t) {
        UnrecognisedLater(st, st1, rs, t);
      }
      FollowsTransitive(st, st1, OnMessage(st, rs));
    }
  }
}
