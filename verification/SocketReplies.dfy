/** Which requests are taken and which replies answer them, with the members of a reply written out. */
module SocketReplies {
  import opened Wrappers
  import opened JsonRpc
  import opened Socket
  import opened SocketInvariant
  import opened SocketSafety
  import opened SocketDrops

  // Replies.

  /** A single reply fulfills the request sent under its id exactly if it counts and is no notification. */
  lemma {:induction false} ReplyFulfills(st: State, r: Reply, t: nat)
    requires Queues(st) && Entry(r.id, t) in st.sent
    ensures FulfilledBy(OnMessage(st, [Single(r)]), t, Single(r)) <==> Counts(r) && !Notifies(r)
    ensures !Notifies(r) && !Counts(r) ==> Dropped(OnMessage(st, [Single(r)]), t)
  {
    CountsIsValid(r);
    NotifiesIsNotification(r);
    HasIn(st.sent, r.id);
    hide ValidReply, IsSubscriptionNotification, Counts, Notifies;
    RecognisedSingle(r);
    OneResponse(st, Single(r), t);
  }

  lemma {:induction false} RecognisedSingle(r: Reply)
    ensures Recognised(Single(r)) <==> ValidReply(r)
    ensures ResponseKey(Single(r)) == r.id
  {}

  /** One response in one event, for a waiting request with its key. */
  lemma {:induction false} OneResponse(st: State, r: Response, t: nat)
    requires Queues(st) && Entry(ResponseKey(r), t) in st.sent
    ensures FulfilledBy(OnMessage(st, [r]), t, r) <==> Recognised(r) && !IsSubscriptionNotification(r)
    ensures !IsSubscriptionNotification(r) && !Recognised(r) ==> Dropped(OnMessage(st, [r]), t)
  {
    HasIn(st.sent, ResponseKey(r));
    hide IsSubscriptionNotification, Recognised, ResponseKey;
    MessageExactly(st, [r], t, r);
    assert Passes(st, r) <==> !IsSubscriptionNotification(r);
    assert Read(st, [r], 0) <==> Passes(st, r);
    assert st.promises[t].settled.None?;
  }

  /** An answer: a result and no error, null or not, with any number or text for an id. */
  lemma {:induction false} AnswerFulfills(st: State, id: Id, v: Member, t: nat)
    requires Queues(st) && Entry(id, t) in st.sent && (id.NumberId? || id.TextId?) && (v.Nullish? || v.Filled?)
    ensures var r := Single(Reply(true, id, v, Absent, Absent, Absent)); FulfilledBy(OnMessage(st, [r]), t, r)
    ensures var r := Single(Reply(true, id, Absent, v, Absent, Absent)); FulfilledBy(OnMessage(st, [r]), t, r)
  {
    ReplyFulfills(st, Reply(true, id, v, Absent, Absent, Absent), t);
    ReplyFulfills(st, Reply(true, id, Absent, v, Absent, Absent), t);
  }

  /** A batch fulfills the request sent under its first id exactly if each of its replies counts. */
  lemma {:induction false} BatchFulfills(st: State, rs: seq<Reply>, t: nat)
    requires Queues(st) && rs != [] && Entry(rs[0].id, t) in st.sent
    ensures FulfilledBy(OnMessage(st, [Many(rs)]), t, Many(rs)) <==> forall i :: 0 <= i < |rs| ==> Counts(rs[i])
  {
    forall i | 0 <= i < |rs| ensures Counts(rs[i]) <==> ValidReply(rs[i]) { CountsIsValid(rs[i]); }
    hide Counts, ValidReply;
    assert !IsSubscriptionNotification(Many(rs));
    assert Recognised(Many(rs)) <==> IsBatchResponse(Many(rs));
    if IsBatchResponse(Many(rs)) {
      OneResponse(st, Many(rs), t);
    } else {
      MessageExactly(st, [Many(rs)], t, Many(rs));
      assert st.promises[t].settled.None?;
    }
  }

  /** An empty batch, or one with a reply that does not count, is not looked at: nothing behind it is, either. */
  lemma {:induction false} BadBatchIsIgnored(st: State, rs: seq<Reply>, later: seq<Response>)
    requires !Has(st.sent, NoId) && (rs == [] || exists i :: 0 <= i < |rs| && !Counts(rs[i]))
    ensures OnMessage(st, [Many(rs)] + later) == st
  {
    forall i | 0 <= i < |rs| ensures Counts(rs[i]) <==> ValidReply(rs[i]) { CountsIsValid(rs[i]); }
    hide Counts, ValidReply;
    assert !IsBatchResponse(Many(rs)) && ResponseKey(Many(rs)) == NoId;
  }

  // Requests.

  ghost predicate SentUnder(st: State, key: Id) {
    exists t: nat :: Entry(key, t) in st.sent
  }

  /** Asking is possible: there is a socket, and if it was closed, it can be opened (or is being reconnected). */
  predicate Reachable(st: State, c: Call) {
    !c.noSocket && (c.statusFirst == Disconnected && c.opening != Opens ==> st.isReconnecting)
  }

  /** An id: a number but 0, or a text but the empty one. */
  predicate Usable(id: Id) {
    match id
    case NumberId(n) => n != 0
    case TextId(s) => s != ""
    case _ => false
  }

  /**
   * A request is taken exactly if the provider can be asked, its id is usable and no request is sent under it. It
   * gets the next promise and waits in the pending queue while the socket is connecting, else in the sent queue,
   * unless its send throws. No promise of another request changes.
   */
  lemma {:induction false} RequestExactly(st: State, c: Call)
    requires Queues(st)
    ensures var st', t := OnRequest(st, c), |st.promises|;
      if Reachable(st, c) && Usable(c.key) && !SentUnder(st, c.key) then
        && st'.promises == st.promises + [Promise(c.key, None, 0)]
        && (InQueue(st'.pending, t) <==> c.statusThen == Connecting)
        && (InQueue(st'.sent, t) <==> c.statusThen != Connecting && !c.sendThrows)
      else st'.promises == st.promises && st'.pending == st.pending && st'.sent == st.sent
  {
    HasIn(st.sent, c.key);
    SentHas(st, c.key);
    AcceptedIs(st, c);
    TicketIsNew(st);
    if Accepted(st, c) {
      SetSpec(st.pending, c.key, |st.promises|);
      SetSpec(st.sent, c.key, |st.promises|);
      DeleteWaits(st.sent, c.key, |st.promises|);
      hide Accepted, Queues, Set, Delete;
      assert Entry(c.key, |st.promises|) in Set(st.pending, c.key, |st.promises|);
      assert Entry(c.key, |st.promises|) in Set(st.sent, c.key, |st.promises|);
    }
  }

  lemma {:induction false} SentHas(st: State, key: Id)
    ensures Has(st.sent, key) <==> exists e :: e in st.sent && e.key == key
    ensures SentUnder(st, key) <==> Has(st.sent, key)
  {
    HasIn(st.sent, key);
    if Has(st.sent, key) {
      var e :| e in st.sent && e.key == key;
      assert e == Entry(key, e.ticket);
    }
  }

  lemma {:induction false} AcceptedIs(st: State, c: Call)
    ensures Accepted(st, c) <==> Reachable(st, c) && Usable(c.key) && !Has(st.sent, c.key)
  {}

  lemma {:induction false} TicketIsNew(st: State)
    requires Queues(st)
    ensures !InQueue(st.pending, |st.promises|) && !InQueue(st.sent, |st.promises|)
  {}

  // Opening.

  /**
   * An open connection: connected, no attempts counted; the two requests of the provider itself come first, the one
   * for the chain before the one for the accounts, and if no send throws, nothing is pending any more.
   */
  lemma {:induction false} OpenExactly(st: State, chainId: Call, accounts: Call, sends: nat)
    requires Queues(st)
    ensures var st' := OnOpen(st, chainId, accounts, sends);
      && (chainId.statusFirst == accounts.statusFirst == Connected ==> st'.status == Connected)
      && st'.attempts == 0 && st'.isReconnecting == st.isReconnecting && st'.timers == st.timers
    ensures var s := st.(status := Connected, attempts := 0);
      && (Accepted(s, chainId) && Accepted(OnRequest(s, chainId), accounts) ==>
            OnOpen(st, chainId, accounts, sends).promises
              == st.promises + [Promise(chainId.key, None, 0), Promise(accounts.key, None, 0)])
    ensures sends >= |st.pending| + 2 ==> OnOpen(st, chainId, accounts, sends).pending == []
  {
    var s0 := st.(status := Connected, attempts := 0);
    var s1 := OnRequest(s0, chainId);
    var s2 := OnRequest(s1, accounts);
    RequestFields(s0, chainId);
    RequestFields(s1, accounts);
    hide OnRequest, OnFlush, Accepted, Queues;
    FlushFields(s2, sends);
    if Accepted(s0, chainId) && Accepted(s1, accounts) {
      assert (st.promises + [Promise(chainId.key, None, 0)]) + [Promise(accounts.key, None, 0)]
        == st.promises + [Promise(chainId.key, None, 0), Promise(accounts.key, None, 0)];
    }
  }

  lemma {:induction false} RequestFields(st: State, c: Call)
    ensures var st' := OnRequest(st, c);
      && st'.attempts == st.attempts && st'.isReconnecting == st.isReconnecting && st'.timers == st.timers
      && (c.statusFirst != Disconnected ==> st'.status == st.status) && |st'.pending| <= |st.pending| + 1
      && (Accepted(st, c) ==> st'.promises == st.promises + [Promise(c.key, None, 0)])
  {
    SetLength(st.pending, c.key, |st.promises|);
  }

  lemma {:induction false} SetLength(m: seq<Entry>, key: Id, ticket: nat)
    ensures |Set(m, key, ticket)| <= |m| + 1
  {
    if m != [] { SetLength(m[1..], key, ticket); }
  }

  lemma {:induction false} FlushFields(st: State, sends: nat)
    ensures var st' := OnFlush(st, sends);
      && st'.attempts == st.attempts && st'.isReconnecting == st.isReconnecting && st'.timers == st.timers
      && st'.status == st.status && st'.promises == st.promises
      && st'.pending == if sends >= |st.pending| then [] else st.pending[sends..]
    decreases |st.pending|
  {
    hide Set;
    if st.pending != [] && sends > 0 { FlushFields(MoveFirst(st), sends - 1); }
  }
}
