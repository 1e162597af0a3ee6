/**
 * The socket provider: two request queues, a reconnect flag with its attempt counter and
 * timers, and one promise per accepted request. Timers, the socket status and the outcome of
 * opening and sending are choices of the environment, given with each event.
 *
 * A promise is named by its ticket, the number of requests accepted before it.
 */
module Socket {
  import opened Wrappers
  import opened JsonRpc

  datatype Reason = PendingRequestsOnReconnecting | ConnectionNotOpen

  datatype Settlement = Fulfilled(response: Response) | Rejected(reason: Reason)

  /** The promise of a request with the given key; `calls` counts resolve and reject calls on it. */
  datatype Promise = Promise(key: Id, settled: Option<Settlement>, calls: nat)

  // JavaScript maps keep insertion order; setting a present key keeps its place.

  datatype Entry = Entry(key: Id, ticket: nat)

  predicate Has(m: seq<Entry>, key: Id) {
    exists i :: 0 <= i < |m| && m[i].key == key
  }

  function Get(m: seq<Entry>, key: Id): (t: nat)
    requires Has(m, key)
  {
    if m[0].key == key then m[0].ticket else Get(m[1..], key)
  }

  function Set(m: seq<Entry>, key: Id, ticket: nat): seq<Entry> {
    if m == [] then [Entry(key, ticket)]
    else if m[0].key == key then [Entry(key, ticket)] + m[1..]
    else [m[0]] + Set(m[1..], key, ticket)
  }

  function Delete(m: seq<Entry>, key: Id): seq<Entry> {
    if m == [] then []
    else if m[0].key == key then m[1..]
    else [m[0]] + Delete(m[1..], key)
  }

  datatype Status = Connecting | Connected | Disconnected

  datatype Options = Options(autoReconnect: bool, maxAttempts: nat)

  datatype State = State(
    status: Status,
    isReconnecting: bool,
    attempts: nat,
    pending: seq<Entry>,
    sent: seq<Entry>,
    promises: seq<Promise>,
    timers: nat,      // reconnect timers running
    immediates: nat)  // deferred reconnects waiting

  const INITIAL := State(Connecting, false, 0, [], [], [], 0, 0)

  /** Opening the socket: it works, the constructor throws, or adding the listeners throws. */
  datatype Opening = Opens | OpenThrows | ListenThrows

  /** A request call, with what the environment answers while it runs. */
  datatype Call = Call(key: Id, noSocket: bool, statusFirst: Status, opening: Opening, statusThen: Status,
      sendThrows: bool)

  datatype Event =
    | Request(call: Call)
    | Open(chainId: Call, accounts: Call, sends: nat)
    | Message(responses: seq<Response>)
    | WsClose(code: int, wasClean: bool)
    | IpcEnd(withEvent: bool)
    | IpcClose
    | Error
    | TimerFires(opening: Opening)
    | ImmediateFires
    | Connect(opening: Opening)
    | Disconnect
    | Reset
    | ChunkTimeout

  function SettleAt(ps: seq<Promise>, t: nat, s: Settlement): (r: seq<Promise>)
    ensures |r| == |ps|
  {
    if t < |ps| then
      var p := ps[t];
      ps[t := Promise(p.key, if p.settled.None? then Some(s) else p.settled, p.calls + 1)]
    else ps
  }

  function RejectAll(ps: seq<Promise>, m: seq<Entry>, reason: Reason): (r: seq<Promise>)
    ensures |r| == |ps|
    decreases |m|
  {
    if m == [] then ps else RejectAll(SettleAt(ps, m[0].ticket, Rejected(reason)), m[1..], reason)
  }

  function OnClearQueues(st: State): State {
    var ps := RejectAll(st.promises, st.pending, ConnectionNotOpen);
    st.(promises := RejectAll(ps, st.sent, ConnectionNotOpen), pending := [], sent := [])
  }

  function OnReconnect(o: Options, st: State): State {
    if st.isReconnecting then st
    else
      var s := st.(promises := RejectAll(st.promises, st.sent, PendingRequestsOnReconnecting), sent := []);
      if s.attempts < o.maxAttempts then
        s.(isReconnecting := true, attempts := s.attempts + 1, timers := s.timers + 1)
      else OnClearQueues(s)
  }

  datatype Attempt = Attempt(st: State, threw: bool)

  function TryConnect(st: State, opening: Opening): Attempt {
    var tried := if opening.OpenThrows? then st else st.(status := Connecting);
    if opening.Opens? then Attempt(tried, false)
    else if !st.isReconnecting then Attempt(tried.(status := Disconnected), true)
    else Attempt(tried.(immediates := tried.immediates + 1), false)
  }

  function OnRequest(st: State, c: Call): State {
    if c.noSocket then st
    else
      var a := if c.statusFirst.Disconnected? then TryConnect(st, c.opening) else Attempt(st, false);
      if a.threw || !c.key.Truthy() || Has(a.st.sent, c.key) then a.st
      else
        var ticket := |a.st.promises|;
        var s := a.st.(promises := a.st.promises + [Promise(c.key, None, 0)]);
        if c.statusThen.Connecting? then s.(pending := Set(s.pending, c.key, ticket))
        else
          var queued := Set(s.sent, c.key, ticket);
          s.(sent := if c.sendThrows then Delete(queued, c.key) else queued)
  }

  /** The first pending request moves to the sent queue. */
  function MoveFirst(st: State): State
    requires st.pending != []
  {
    var e := st.pending[0];
    st.(pending := st.pending[1..], sent := Set(st.sent, e.key, e.ticket))
  }

  /** Pending requests are sent in order; the send after `sends` of them throws. */
  function OnFlush(st: State, sends: nat): State
    decreases |st.pending|
  {
    if st.pending == [] || sends == 0 then st else OnFlush(MoveFirst(st), sends - 1)
  }

  function OnOpen(st: State, chainId: Call, accounts: Call, sends: nat): State {
    var s := st.(status := Connected, attempts := 0);
    OnFlush(OnRequest(OnRequest(s, chainId), accounts), sends)
  }

  /** One response that is read: its entry leaves the queue, and a recognised response fulfills the promise. */
  function TakeResponse(st: State, r: Response): State
    requires Has(st.sent, ResponseKey(r))
  {
    var key := ResponseKey(r);
    var ps := if Recognised(r) then SettleAt(st.promises, Get(st.sent, key), Fulfilled(r)) else st.promises;
    st.(promises := ps, sent := Delete(st.sent, key))
  }

  /** The responses of one data event. Both `return`s leave the rest of them unread. */
  function OnMessage(st: State, rs: seq<Response>): State
    decreases |rs|
  {
    if rs == [] || IsSubscriptionNotification(rs[0]) || !Has(st.sent, ResponseKey(rs[0])) then st
    else OnMessage(TakeResponse(st, rs[0]), rs[1..])
  }

  function OnWsClose(o: Options, st: State, code: int, wasClean: bool): State {
    if o.autoReconnect && (code !in {1000, 1001} || !wasClean) then OnReconnect(o, st)
    else OnClearQueues(st).(status := Disconnected)
  }

  function OnIpcEnd(o: Options, st: State, withEvent: bool): State {
    if !withEvent && o.autoReconnect then OnReconnect(o, st.(status := Disconnected))
    else OnClearQueues(st).(status := Disconnected)
  }

  function OnTimer(st: State, opening: Opening): State {
    if st.timers == 0 then st
    else
      var a := TryConnect(st.(timers := st.timers - 1), opening);
      if a.threw then a.st else a.st.(isReconnecting := false)
  }

  function Step(o: Options, st: State, ev: Event): State {
    match ev
    case Request(c) => OnRequest(st, c)
    case Open(c, a, n) => OnOpen(st, c, a, n)
    case Message(rs) => OnMessage(st, rs)
    case WsClose(code, clean) => OnWsClose(o, st, code, clean)
    case IpcEnd(withEvent) => OnIpcEnd(o, st, withEvent)
    case IpcClose => OnClearQueues(st)
    case Error => if st.isReconnecting then OnReconnect(o, st) else st
    case TimerFires(opening) => OnTimer(st, opening)
    case ImmediateFires => if st.immediates == 0 then st else OnReconnect(o, st.(immediates := st.immediates - 1))
    case Connect(opening) => TryConnect(st, opening).st
    case Disconnect => st.(status := Disconnected)
    case Reset => st.(sent := [], pending := [], attempts := 0)
    case ChunkTimeout => if o.autoReconnect then st else OnClearQueues(st)
  }

  function Run(o: Options, st: State, evs: seq<Event>): State
    decreases |evs|
  {
    if evs == [] then st else Run(o, Step(o, st, evs[0]), evs[1..])
  }
}
