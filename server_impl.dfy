/**
 * ServerImpl: listens on the fixed local port, accepts connections one after another, reads one
 * envelope from each, hands it to the callback and closes the connection. `close` closes the
 * listening socket and every client still registered.
 *
 * Each accepted client is handled to completion before the next accept; the registry of clients
 * therefore holds exactly the clients whose handling ended in an exception.
 */
module SocketServer {
  import opened Wrappers
  import opened Entities
  import opened SocketClient

  /** The exception `readFromClients` throws whenever its body fails. */
  const ServerErrorException: Throwable := Platform(RuntimeException, Some("Server error"))

  /**
   * What `handleClient` passes to the callback for the result of `read()`: the envelope read,
   * or `TransferData(0, null, error)` for a ReadFromClientSocketError. Any other exception
   * escapes the handler, and the callback is not invoked.
   */
  function Deliver(r: Result<TransferData, Throwable>): Option<TransferData> {
    match r
    case Ok(d) => Some(d)
    case Err(Remote(ReadFromClientSocketError(m))) => Some(TransferData(0, None, Some(ReadFromClientSocketError(m))))
    case Err(_) => None
  }

  /**
   * The exception that escapes `handleClient`'s coroutine for the result of `read()`: any
   * exception other than a ReadFromClientSocketError skips the catch block and the callback.
   */
  function Escape(r: Result<TransferData, Throwable>): Option<Throwable> {
    match r
    case Ok(_) => None
    case Err(Remote(ReadFromClientSocketError(_))) => None
    case Err(e) => Some(e)
  }

  /**
   * One connection as `handleClient` processes it: what is delivered, the exception that escapes
   * the coroutine, and the socket after `close`.
   */
  datatype Handled = Handled(delivery: Option<TransferData>, escaped: Option<Throwable>, closedSocket: SocketState)
  {
    /** The handler ended in an exception, so the client is never removed from the registry. */
    predicate Leaked() { delivery.None? }

    /** What the handler leaves in the registry: the closed socket of a leaked client, else nothing. */
    function Kept(): seq<SocketState> {
      if Leaked() then [closedSocket] else []
    }

    /** What the callback receives from the handler: the delivery, if there is one. */
    function Received(): seq<TransferData> {
      if Leaked() then [] else [delivery.value]
    }

    /** What reaches the coroutine scope's exception handler: the escaped exception, if there is one. */
    function Escapes(): seq<Throwable> {
      if escaped.Some? then [escaped.value] else []
    }
  }

  function Handle(peer: SocketState, streamOk: bool, next: ObjectRead, closeFault: CloseFault): Handled {
    var r := ReadResult(InputStreamAvailable(peer, streamOk), next);
    Handled(Deliver(r), Escape(r), CloseSteps(peer, closeFault).0)
  }

  /**
   * The callback receives exactly one envelope per connection: the one read, or a failure envelope
   * with code 0, no data and a ReadFromClientSocketError. The only way to get no callback (and a
   * client left in the registry) is a read failure whose exception carries no message; exactly
   * then the NullPointerException escapes the handler. The connection is closed in every case.
   */
  lemma HandleSpec(peer: SocketState, streamOk: bool, next: ObjectRead, closeFault: CloseFault)
    ensures var h := Handle(peer, streamOk, next, closeFault);
      && (h.Leaked() <==> InputStreamAvailable(peer, streamOk) && next.ReadThrows? && next.cause.Message().None?)
      && (InputStreamAvailable(peer, streamOk) && next.Envelope? ==> h.delivery == Some(next.value))
      && (h.delivery.Some? && !(InputStreamAvailable(peer, streamOk) && next.Envelope?) ==>
            h.delivery.value.messageCode == 0 && h.delivery.value.data.None?
            && h.delivery.value.error.Some? && h.delivery.value.error.value.ReadFromClientSocketError?)
      && (h.escaped.Some? <==> h.Leaked())
      && (h.escaped.Some? ==> h.escaped.value == NullParameter)
      && h.closedSocket == CloseSteps(peer, closeFault).0
  {
    ReadWrapsEveryFailure(InputStreamAvailable(peer, streamOk), next);
  }

  /** The fault the platform raises in `close` of the i-th client; none past the end of the script. */
  function FaultAt(faults: seq<CloseFault>, i: nat): CloseFault {
    if i < |faults| then faults[i] else CloseOk
  }

  /** Every registered client after `clients.forEach { it.close() }`. */
  function CloseAll(registry: seq<SocketState>, faults: seq<CloseFault>): (r: seq<SocketState>)
    ensures |r| == |registry|
  {
    seq(|registry|, i requires 0 <= i < |registry| => CloseSteps(registry[i], FaultAt(faults, i)).0)
  }

  /**
   * `close()`: only a listening socket that exists and is open is closed; if closing it throws,
   * the clients are left alone; otherwise every client is closed.
   */
  function StopServer(listener: Option<ServerSocketState>, registry: seq<SocketState>, closeFails: bool, faults: seq<CloseFault>)
    : (Option<ServerSocketState>, seq<SocketState>)
  {
    if listener.None? || listener.value.closed || closeFails then (listener, registry)
    else (Some(listener.value.(closed := true)), CloseAll(registry, faults))
  }

  /**
   * A second `close` does nothing; a successful one leaves the listener closed and, when the
   * platform raises nothing, every open client fully shut down. Only the closed flag of the
   * listener ever changes.
   */
  lemma StopServerSpec(listener: Option<ServerSocketState>, registry: seq<SocketState>, closeFails: bool,
                       faults: seq<CloseFault>, again: seq<CloseFault>)
    ensures var (l, reg) := StopServer(listener, registry, closeFails, faults);
      (!closeFails || listener.None? || listener.value.closed) ==> StopServer(l, reg, false, again) == (l, reg)
    ensures var (l, reg) := StopServer(listener, registry, closeFails, faults);
      && (l.Some? <==> listener.Some?)
      && (l.Some? ==> l.value.(closed := listener.value.closed) == listener.value)
      && (listener.Some? && !listener.value.closed && !closeFails ==>
            l.value.closed && forall i :: 0 <= i < |reg| && faults == [] && !registry[i].closed ==>
              reg[i].inputShutdown && reg[i].outputShutdown && reg[i].closed)
  {
    var (l, reg) := StopServer(listener, registry, closeFails, faults);
    if listener.Some? && !listener.value.closed && !closeFails && faults == [] {
      forall i | 0 <= i < |reg| && !registry[i].closed
        ensures reg[i].inputShutdown && reg[i].outputShutdown && reg[i].closed
      {
        CloseSpec(registry[i], CloseOk, CloseOk);
      }
    }
  }

  /** What happens next while the server waits in `accept()`. */
  datatype AcceptEvent =
    | Connection(peer: SocketState, streamOk: bool, next: ObjectRead, closeFault: CloseFault)
        // accept returns the peer's socket, which is then handled
    | AcceptFails(cause: Throwable)
        // accept throws
    | StopRequested(duringAccept: bool, closeFails: bool, faults: seq<CloseFault>)
        // another thread calls close(), either while accept is blocked or between two accepts

  /** How `readFromClients` ends: by throwing, by returning once the listener is closed, or not yet. */
  datatype ServeOutcome = ServerError | Returned | StillAccepting

  /** The server's state as far as `readFromClients` is concerned. */
  datatype ServeState = ServeState(listener: ServerSocketState, registry: seq<SocketState>, delivered: seq<TransferData>,
                                   escaped: seq<Throwable>)

  /**
   * The server's state after one connection has been handled: a delivered envelope is appended
   * to what the callback received; a leaked client stays in the registry, closed, and its
   * exception goes to the scope.
   */
  function Absorb(st: ServeState, h: Handled): ServeState {
    st.(registry := st.registry + h.Kept(), delivered := st.delivered + h.Received(), escaped := st.escaped + h.Escapes())
  }

  /**
   * One turn of the accept loop: the state it leaves and whether it ends in the "Server error"
   * exception (a failing accept, or a stop that closes the listener under a blocked accept).
   */
  function Step(st: ServeState, e: AcceptEvent): (ServeState, bool) {
    match e
    case AcceptFails(_) => (st, true)
    case Connection(peer, ok, next, f) => (Absorb(st, Handle(peer, ok, next, f)), false)
    case StopRequested(during, fails, faults) =>
      var (l, reg) := StopServer(Some(st.listener), st.registry, fails, faults);
      var st' := st.(listener := l.value, registry := reg);
      (st', during && st'.listener.closed)
  }

  /** The accept loop, event by event. */
  function Serve(st: ServeState, events: seq<AcceptEvent>): (ServeState, ServeOutcome)
    decreases |events|
  {
    if st.listener.closed then (st, Returned)
    else if events == [] then (st, StillAccepting)
    else
      var (st', failed) := Step(st, events[0]);
      if failed then (st', ServerError) else Serve(st', events[1..])
  }

  /** The envelopes the connections among `events` hand to the callback, in order. */
  function Deliveries(events: seq<AcceptEvent>): seq<TransferData> {
    if events == [] then []
    else (match events[0]
          case Connection(peer, ok, next, f) => Handle(peer, ok, next, f).Received()
          case _ => []) + Deliveries(events[1..])
  }

  /** The closed sockets the connections among `events` leave in the registry, in order. */
  function Leaks(events: seq<AcceptEvent>): seq<SocketState> {
    if events == [] then []
    else (match events[0]
          case Connection(peer, ok, next, f) => Handle(peer, ok, next, f).Kept()
          case _ => []) + Leaks(events[1..])
  }

  /** The exceptions the connections among `events` let escape, in order. */
  function Escapes(events: seq<AcceptEvent>): seq<Throwable> {
    if events == [] then []
    else (match events[0]
          case Connection(peer, ok, next, f) => Handle(peer, ok, next, f).Escapes()
          case _ => []) + Escapes(events[1..])
  }

  /** Events that only bring connections. */
  predicate OnlyConnections(events: seq<AcceptEvent>) {
    forall i :: 0 <= i < |events| ==> events[i].Connection?
  }

  /** A connection at the head of the events is absorbed, and the loop goes on with the rest. */
  lemma ServeConnection(st: ServeState, events: seq<AcceptEvent>)
    requires !st.listener.closed && events != [] && events[0].Connection?
    ensures var h := Handle(events[0].peer, events[0].streamOk, events[0].next, events[0].closeFault);
      && Serve(st, events) == Serve(Absorb(st, h), events[1..])
      && Deliveries(events) == h.Received() + Deliveries(events[1..])
      && Leaks(events) == h.Kept() + Leaks(events[1..])
      && Escapes(events) == h.Escapes() + Escapes(events[1..])
  {
  }

  /** Absorbing one handled connection, then the rest, adds what all of them add. */
  lemma AbsorbThenRest<T>(front: seq<T>, one: seq<T>, rest: seq<T>, all: seq<T>, result: seq<T>)
    requires all == one + rest && result == (front + one) + rest
    ensures result == front + all
  {
  }

  /**
   * On an open listener that only receives connections, `readFromClients` keeps accepting:
   * it never returns or fails, the listener stays as it was, the callback receives the
   * connections' envelopes in arrival order, the registry grows by the leaked clients in order,
   * and their exceptions reach the scope in order.
   */
  lemma {:induction false} ServeOnlyConnections(st: ServeState, events: seq<AcceptEvent>)
    requires !st.listener.closed && OnlyConnections(events)
    ensures var (st', outcome) := Serve(st, events);
      && outcome == StillAccepting
      && st'.listener == st.listener
      && st'.delivered == st.delivered + Deliveries(events)
      && st'.registry == st.registry + Leaks(events)
      && st'.escaped == st.escaped + Escapes(events)
    decreases |events|
  {
    if events != [] {
      assert OnlyConnections(events[1..]) by {
        forall i | 0 <= i < |events[1..]| ensures events[1..][i].Connection? { assert events[1..][i] == events[i + 1]; }
      }
      ServeConnection(st, events);
      var e := events[0];
      var h := Handle(e.peer, e.streamOk, e.next, e.closeFault);
      ServeOnlyConnections(Absorb(st, h), events[1..]);
      var st' := Serve(st, events).0;
      AbsorbThenRest(st.delivered, h.Received(), Deliveries(events[1..]), Deliveries(events), st'.delivered);
      AbsorbThenRest(st.registry, h.Kept(), Leaks(events[1..]), Leaks(events), st'.registry);
      AbsorbThenRest(st.escaped, h.Escapes(), Escapes(events[1..]), Escapes(events), st'.escaped);
    }
  }

  /**
   * `readFromClients` fails exactly at the first failing accept, or at a stop that closes the
   * listener while accept is blocked; a stop between two accepts makes it return.
   */
  lemma ServeStops(st: ServeState, e: AcceptEvent, rest: seq<AcceptEvent>)
    requires !st.listener.closed
    ensures e.AcceptFails? ==> Serve(st, [e] + rest) == (st, ServerError)
    ensures e.StopRequested? && !e.closeFails ==>
      Serve(st, [e] + rest).1 == (if e.duringAccept then ServerError else Returned)
    ensures e.StopRequested? && !e.closeFails ==>
      Serve(st, [e] + rest).0 == st.(listener := st.listener.(closed := true), registry := CloseAll(st.registry, e.faults))
    ensures e.StopRequested? && e.closeFails ==> Serve(st, [e] + rest) == Serve(st, rest)
  {
    assert ([e] + rest)[1..] == rest;
  }

  /** The same object removed from a list: `MutableList.remove`, which drops the first occurrence. */
  function RemoveFirst<T(==)>(s: seq<T>, x: T): (r: seq<T>)
    ensures x !in s ==> r == s
    ensures x in s ==> |r| == |s| - 1
  {
    if s == [] then []
    else if s[0] == x then s[1..]
    else [s[0]] + RemoveFirst(s[1..], x)
  }

  /** Removing an item just added, and found nowhere else, restores the list. */
  lemma {:induction false} RemoveFirstOfAppended<T>(s: seq<T>, x: T)
    requires x !in s
    ensures RemoveFirst(s + [x], x) == s
  {
    if s != [] {
      assert (s + [x])[1..] == s[1..] + [x];
      RemoveFirstOfAppended(s[1..], x);
    }
  }

  /** The sockets of the registered clients, in registry order. */
  function Sockets(cs: seq<ClientImpl>): (r: seq<SocketState>)
    reads cs
    ensures |r| == |cs| && forall i :: 0 <= i < |cs| ==> r[i] == cs[i].socket
  {
    if cs == [] then [] else Sockets(cs[..|cs| - 1]) + [cs[|cs| - 1].socket]
  }

  /** Registering one more client appends its socket. */
  lemma SocketsAppend(cs: seq<ClientImpl>, c: ClientImpl)
    ensures Sockets(cs + [c]) == Sockets(cs) + [c.socket]
  {
    assert (cs + [c])[..|cs|] == cs;
  }

  class ServerImpl {
    var serverSocket: Option<ServerSocketState>
    var clients: seq<ClientImpl>
    /** Every envelope handed to the callback, in order. */
    var delivered: seq<TransferData>
    /** Every exception that escaped a client handler's coroutine to the scope, in order. */
    var escaped: seq<Throwable>

    /** The registry never holds the same client twice. */
    ghost predicate Valid()
      reads this
    {
      forall i, j :: 0 <= i < j < |clients| ==> clients[i] != clients[j]
    }

    constructor ()
      ensures Valid() && serverSocket.None? && clients == [] && delivered == [] && escaped == []
    {
      serverSocket := None;
      clients := [];
      delivered := [];
      escaped := [];
    }

    /** `close()`, with the client closes run to completion before it returns. */
    method Close(closeFails: bool, faults: seq<CloseFault>)
      requires Valid()
      modifies this, set c | c in clients
      ensures Valid() && clients == old(clients) && delivered == old(delivered) && escaped == old(escaped)
      ensures (serverSocket, Sockets(clients)) == StopServer(old(serverSocket), old(Sockets(clients)), closeFails, faults)
    {
      if serverSocket.None? || serverSocket.value.closed || closeFails {
        return;
      }
      serverSocket := Some(serverSocket.value.(closed := true));
      ghost var before := Sockets(clients);
      ghost var target := CloseAll(before, faults);
      var i := 0;
      while i < |clients|
        invariant 0 <= i <= |clients|
        invariant clients == old(clients) && delivered == old(delivered) && escaped == old(escaped)
        invariant serverSocket == Some(old(serverSocket).value.(closed := true))
        invariant forall j :: 0 <= j < i ==> clients[j].socket == target[j]
        invariant forall j :: i <= j < |clients| ==> clients[j].socket == before[j]
      {
        var c := clients[i];
        assert forall j :: 0 <= j < |clients| && j != i ==> clients[j] != c;
        var _ := c.Close(FaultAt(faults, i));
        assert c.socket == target[i];
        i := i + 1;
      }
      assert Sockets(clients) == target;
    }

    /** The body of `handleClient`'s coroutine between registering and deregistering the client. */
    static method Process(client: ClientImpl, streamOk: bool, next: ObjectRead, closeFault: CloseFault,
                          ghost others: seq<ClientImpl>, ghost before: seq<SocketState>, ghost h: Handled)
      returns (delivery: Option<TransferData>, thrown: Option<Throwable>)
      requires client.reader == Pending && client !in others && Sockets(others) == before
      requires h == Handle(client.socket, streamOk, next, closeFault)
      modifies client
      ensures Handled(delivery, thrown, client.socket) == h
      ensures Sockets(others) == before
    {
      var r := client.Read(streamOk, next);
      delivery := Deliver(r);
      thrown := Escape(r);
      var _ := client.Close(closeFault);
    }

    /** `handleClient`, run to completion: register, read, deliver, close, deregister. */
    method HandleClient(peer: SocketState, streamOk: bool, next: ObjectRead, closeFault: CloseFault)
      requires Valid()
      modifies this
      ensures Valid() && serverSocket == old(serverSocket)
      ensures Sockets(clients) == old(Sockets(clients)) + Handle(peer, streamOk, next, closeFault).Kept()
      ensures delivered == old(delivered) + Handle(peer, streamOk, next, closeFault).Received()
      ensures escaped == old(escaped) + Handle(peer, streamOk, next, closeFault).Escapes()
      ensures forall c :: c in clients ==> c in old(clients) || fresh(c)
    {
      ghost var registered := clients;
      ghost var before := Sockets(clients);
      ghost var h := Handle(peer, streamOk, next, closeFault);
      var client := new ClientImpl(peer);
      Register(client);
      var delivery, thrown := Process(client, streamOk, next, closeFault, registered, before, h);
      Finish(client, delivery, thrown, registered, before);
    }

    /**
     * The end of `handleClient`'s coroutine: the callback gets the delivery and the client is
     * deregistered; without a delivery the exception skips both and reaches the scope.
     */
    method Finish(client: ClientImpl, delivery: Option<TransferData>, thrown: Option<Throwable>,
                  ghost registered: seq<ClientImpl>, ghost before: seq<SocketState>)
      requires Valid() && clients == registered + [client] && Sockets(registered) == before
      requires delivery.Some? <==> thrown.None?
      modifies this`clients, this`delivered, this`escaped
      ensures Valid() && serverSocket == old(serverSocket)
      ensures clients == if delivery.Some? then registered else old(clients)
      ensures Sockets(clients) == before + Handled(delivery, thrown, client.socket).Kept()
      ensures delivered == old(delivered) + Handled(delivery, thrown, client.socket).Received()
      ensures escaped == old(escaped) + Handled(delivery, thrown, client.socket).Escapes()
    {
      if delivery.Some? {
        delivered := delivered + [delivery.value];
        Deregister(client);
        assert clients == registered;
      } else {
        SocketsAppend(registered, client);
        escaped := escaped + [thrown.value];
      }
    }

    /** `mutex.withLock { clients.add(client) }`. */
    method Register(client: ClientImpl)
      requires Valid() && client !in clients
      modifies this
      ensures Valid() && clients == old(clients) + [client]
      ensures serverSocket == old(serverSocket) && delivered == old(delivered) && escaped == old(escaped)
    {
      clients := clients + [client];
    }

    /** `mutex.withLock { clients.remove(client) }` for the client registered last. */
    method Deregister(client: ClientImpl)
      requires Valid() && clients != [] && clients[|clients| - 1] == client
      modifies this`clients
      ensures Valid() && clients == old(clients)[..|old(clients)| - 1]
      ensures serverSocket == old(serverSocket) && delivered == old(delivered) && escaped == old(escaped)
    {
      ghost var front := clients[..|clients| - 1];
      assert clients == front + [client];
      RemoveFirstOfAppended(front, client);
      clients := RemoveFirst(clients, client);
    }

    /** What the accept loop works on: the listener, the registered clients' sockets, the deliveries, the escaped exceptions. */
    ghost function State(): ServeState
      requires serverSocket.Some?
      reads this, clients
    {
      ServeState(serverSocket.value, Sockets(clients), delivered, escaped)
    }

    /** One turn of the accept loop on an open listener, as Step describes it. */
    method Accept(e: AcceptEvent) returns (failed: bool)
      requires Valid() && serverSocket.Some? && !serverSocket.value.closed
      modifies this, set c | c in clients
      ensures Valid() && serverSocket.Some?
      ensures forall c :: c in clients ==> c in old(clients) || fresh(c)
      ensures (State(), failed) == Step(old(State()), e)
    {
      match e {
      case AcceptFails(_) =>
        return true;
      case Connection(peer, ok, next, f) =>
        HandleClient(peer, ok, next, f);
        return false;
      case StopRequested(during, fails, faults) =>
        Close(fails, faults);
        return during && serverSocket.value.closed;
      }
    }

    /**
     * `readFromClients`: a listener the factory could not create, or any failure once it runs,
     * ends in the "Server error" exception; otherwise accepting goes on until the listener is
     * closed. `created` is what `factory.createServerSocket(8080)` returned or threw.
     */
    method ReadFromClients(created: Result<ServerSocketState, Throwable>, events: seq<AcceptEvent>)
      returns (outcome: ServeOutcome, thrown: Option<Throwable>)
      requires Valid()
      modifies this, set c | c in clients
      ensures Valid()
      ensures thrown == (if outcome == ServerError then Some(ServerErrorException) else None)
      ensures created.Err? ==>
        && outcome == ServerError && serverSocket == old(serverSocket) && clients == old(clients)
        && delivered == old(delivered) && escaped == old(escaped)
      ensures created.Ok? ==>
        var (st, out) := Serve(ServeState(created.value, old(Sockets(clients)), old(delivered), old(escaped)), events);
        && outcome == out
        && serverSocket == Some(st.listener)
        && Sockets(clients) == st.registry
        && delivered == st.delivered
        && escaped == st.escaped
    {
      if created.Err? {
        return ServerError, Some(ServerErrorException);
      }
      serverSocket := Some(created.value);
      ghost var goal := Serve(State(), events);
      var k := 0;
      while !serverSocket.value.closed
        invariant 0 <= k <= |events|
        invariant Valid() && serverSocket.Some?
        invariant forall c :: c in clients ==> c in old(clients) || fresh(c)
        invariant Serve(State(), events[k..]) == goal
        decreases |events| - k
      {
        if k == |events| {
          return StillAccepting, None;
        }
        assert events[k..][0] == events[k] && events[k..][1..] == events[k + 1..];
        var failed := Accept(events[k]);
        if failed {
          return ServerError, Some(ServerErrorException);
        }
        k := k + 1;
      }
      return Returned, None;
    }
  }
}
