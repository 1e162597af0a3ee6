/** The provider object. Each method is proved against its step function, and keeps a safe provider safe. */
module SocketProvider {
  import opened Wrappers
  import opened JsonRpc
  import opened Socket
  import opened SocketInvariant
  import opened SocketTheorems

  class SocketProvider {
    const options: Options
    var connectionStatus: Status
    var isReconnecting: bool
    var reconnectAttempts: nat
    var pendingRequestsQueue: seq<Entry>
    var sentRequestsQueue: seq<Entry>
    var promises: seq<Promise>
    var reconnectTimers: nat
    var deferredReconnects: nat

    function Snapshot(): State
      reads this
    {
      State(connectionStatus, isReconnecting, reconnectAttempts, pendingRequestsQueue, sentRequestsQueue,
            promises, reconnectTimers, deferredReconnects)
    }

    /** From a safe state the provider has come to a safe one, and no promise outside the queues has changed. */
    ghost predicate SafeSince(before: State)
      reads this
    {
      Inv(options, before) ==> Inv(options, Snapshot()) && Follows(before, Snapshot())
    }

    constructor (options: Options)
      ensures Snapshot() == INITIAL && this.options == options
      ensures Inv(options, Snapshot())
    {
      this.options := options;
      connectionStatus := Status.Connecting;
      isReconnecting := false;
      reconnectAttempts := 0;
      pendingRequestsQueue, sentRequestsQueue, promises := [], [], [];
      reconnectTimers, deferredReconnects := 0, 0;
    }

    /** Rejects the promises of a queue, in the order of the queue. */
    method RejectQueue(queue: seq<Entry>, reason: Reason)
      modifies this`promises
      ensures promises == RejectAll(old(promises), queue, reason)
    {
      var i := 0;
      while i < |queue|
        invariant 0 <= i <= |queue|
        invariant RejectAll(promises, queue[i..], reason) == RejectAll(old(promises), queue, reason)
      {
        assert queue[i..][1..] == queue[i + 1..];
        promises := SettleAt(promises, queue[i].ticket, Rejected(reason));
        i := i + 1;
      }
    }

    method ClearQueues()
      modifies this
      ensures Snapshot() == OnClearQueues(old(Snapshot()))
      ensures SafeSince(old(Snapshot()))
    {
      StepStaysSafe(options, Snapshot(), IpcClose);
      if |pendingRequestsQueue| > 0 {
        RejectQueue(pendingRequestsQueue, ConnectionNotOpen);
        pendingRequestsQueue := [];
      }
      if |sentRequestsQueue| > 0 {
        RejectQueue(sentRequestsQueue, ConnectionNotOpen);
        sentRequestsQueue := [];
      }
    }

    method Reconnect()
      modifies this
      ensures Snapshot() == OnReconnect(options, old(Snapshot()))
      ensures SafeSince(old(Snapshot()))
    {
      if Inv(options, Snapshot()) { ReconnectStep(options, Snapshot()); }
      if isReconnecting {
        return;
      }
      isReconnecting := true;
      if |sentRequestsQueue| > 0 {
        RejectQueue(sentRequestsQueue, PendingRequestsOnReconnecting);
        sentRequestsQueue := [];
      }
      if reconnectAttempts < options.maxAttempts {
        reconnectAttempts := reconnectAttempts + 1;
        reconnectTimers := reconnectTimers + 1;
      } else {
        isReconnecting := false;
        ClearQueues();
      }
    }

    method Connect(opening: Opening) returns (threw: bool)
      modifies this
      ensures Attempt(Snapshot(), threw) == TryConnect(old(Snapshot()), opening)
      ensures SafeSince(old(Snapshot()))
    {
      StepStaysSafe(options, Snapshot(), Event.Connect(opening));
      threw := false;
      if !opening.OpenThrows? {
        connectionStatus := Status.Connecting;
      }
      if !opening.Opens? {
        if !isReconnecting {
          connectionStatus := Status.Disconnected;
          threw := true;
        } else {
          deferredReconnects := deferredReconnects + 1;
        }
      }
    }

    /** The promise of an accepted request, by its ticket; a refused call gives none. */
    method Request(call: Call) returns (promise: Option<nat>)
      modifies this
      ensures Snapshot() == OnRequest(old(Snapshot()), call)
      ensures promise == if Accepted(old(Snapshot()), call) then Some(old(|promises|)) else None
      ensures SafeSince(old(Snapshot()))
    {
      StepStaysSafe(options, Snapshot(), Event.Request(call));
      if call.noSocket {
        return None;
      }
      if call.statusFirst.Disconnected? {
        var threw := Connect(call.opening);
        if threw {
          return None;
        }
      }
      if !call.key.Truthy() {
        return None;
      }
      if Has(sentRequestsQueue, call.key) {
        return None;
      }
      var ticket := |promises|;
      promises := promises + [Promise(call.key, None, 0)];
      if call.statusThen.Connecting? {
        pendingRequestsQueue := Set(pendingRequestsQueue, call.key, ticket);
        return Some(ticket);
      }
      sentRequestsQueue := Set(sentRequestsQueue, call.key, ticket);
      if call.sendThrows {
        sentRequestsQueue := Delete(sentRequestsQueue, call.key);
      }
      return Some(ticket);
    }

    method SendPendingRequests(sends: nat)
      modifies this`pendingRequestsQueue, this`sentRequestsQueue
      ensures Snapshot() == OnFlush(old(Snapshot()), sends)
    {
      var left := sends;
      while |pendingRequestsQueue| > 0 && left > 0
        invariant OnFlush(Snapshot(), left) == OnFlush(old(Snapshot()), sends)
        decreases |pendingRequestsQueue|
      {
        var e := pendingRequestsQueue[0];
        pendingRequestsQueue := pendingRequestsQueue[1..];
        sentRequestsQueue := Set(sentRequestsQueue, e.key, e.ticket);
        left := left - 1;
      }
    }

    method OnConnectEvent(chainId: Call, accounts: Call, sends: nat)
      modifies this
      ensures Snapshot() == OnOpen(old(Snapshot()), chainId, accounts, sends)
      ensures SafeSince(old(Snapshot()))
    {
      StepStaysSafe(options, Snapshot(), Open(chainId, accounts, sends));
      connectionStatus := Status.Connected;
      reconnectAttempts := 0;
      var c := Request(chainId);
      var a := Request(accounts);
      SendPendingRequests(sends);
    }

    method OnMessageEvent(responses: seq<Response>)
      modifies this`promises, this`sentRequestsQueue
      ensures Snapshot() == OnMessage(old(Snapshot()), responses)
      ensures SafeSince(old(Snapshot()))
    {
      StepStaysSafe(options, Snapshot(), Message(responses));
      var i := 0;
      while i < |responses|
        invariant 0 <= i <= |responses|
        invariant OnMessage(Snapshot(), responses[i..]) == OnMessage(old(Snapshot()), responses)
      {
        var response := responses[i];
        assert responses[i..][0] == response && responses[i..][1..] == responses[i + 1..];
        if IsSubscriptionNotification(response) {
          return;
        }
        var requestId := ResponseKey(response);
        if !Has(sentRequestsQueue, requestId) {
          return;
        }
        if Recognised(response) {
          promises := SettleAt(promises, Get(sentRequestsQueue, requestId), Fulfilled(response));
        }
        sentRequestsQueue := Delete(sentRequestsQueue, requestId);
        i := i + 1;
      }
    }

    method OnWsCloseEvent(code: int, wasClean: bool)
      modifies this
      ensures Snapshot() == OnWsClose(options, old(Snapshot()), code, wasClean)
      ensures SafeSince(old(Snapshot()))
    {
      StepStaysSafe(options, Snapshot(), WsClose(code, wasClean));
      if options.autoReconnect && (code !in {1000, 1001} || !wasClean) {
        Reconnect();
        return;
      }
      ClearQueues();
      connectionStatus := Status.Disconnected;
    }

    method OnIpcEndEvent(withEvent: bool)
      modifies this
      ensures Snapshot() == OnIpcEnd(options, old(Snapshot()), withEvent)
      ensures SafeSince(old(Snapshot()))
    {
      StepStaysSafe(options, Snapshot(), IpcEnd(withEvent));
      if !withEvent && options.autoReconnect {
        connectionStatus := Status.Disconnected;
        Reconnect();
        return;
      }
      ClearQueues();
      connectionStatus := Status.Disconnected;
    }

    method OnIpcCloseEvent()
      modifies this
      ensures Snapshot() == Step(options, old(Snapshot()), IpcClose)
      ensures SafeSince(old(Snapshot()))
    {
      StepStaysSafe(options, Snapshot(), IpcClose);
      ClearQueues();
    }

    /** A call of `disconnect`: the queues stay as they are. */
    method Disconnect()
      modifies this
      ensures Snapshot() == Step(options, old(Snapshot()), Event.Disconnect)
      ensures SafeSince(old(Snapshot()))
    {
      StepStaysSafe(options, Snapshot(), Event.Disconnect);
      connectionStatus := Status.Disconnected;
    }

    method OnErrorEvent()
      modifies this
      ensures Snapshot() == Step(options, old(Snapshot()), Error)
      ensures SafeSince(old(Snapshot()))
    {
      StepStaysSafe(options, Snapshot(), Error);
      if isReconnecting {
        Reconnect();
      }
    }

    method TimerCallback(opening: Opening)
      requires reconnectTimers > 0
      modifies this
      ensures Snapshot() == OnTimer(old(Snapshot()), opening)
      ensures SafeSince(old(Snapshot()))
    {
      StepStaysSafe(options, Snapshot(), TimerFires(opening));
      reconnectTimers := reconnectTimers - 1;
      var threw := Connect(opening);
      if !threw {
        isReconnecting := false;
      }
    }

    method ImmediateCallback()
      requires deferredReconnects > 0
      modifies this
      ensures Snapshot() == Step(options, old(Snapshot()), ImmediateFires)
      ensures SafeSince(old(Snapshot()))
    {
      StepStaysSafe(options, Snapshot(), ImmediateFires);
      deferredReconnects := deferredReconnects - 1;
      Reconnect();
    }

    method Reset()
      modifies this
      ensures Snapshot() == Step(options, old(Snapshot()), Event.Reset)
      ensures SafeSince(old(Snapshot()))
    {
      StepStaysSafe(options, Snapshot(), Event.Reset);
      sentRequestsQueue := [];
      pendingRequestsQueue := [];
      reconnectAttempts := 0;
    }
  }
}
