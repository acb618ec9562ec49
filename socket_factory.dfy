/**
 * SocketFactoryImpl: builds the outbound socket for a SocketConfiguration and the listening
 * socket of the server. Every failure is rethrown as CreateSocketError with the cause's message.
 * Whether the peer answers a ping is only logged.
 */
module SocketFactory {
  import opened Wrappers
  import opened Text
  import opened Entities
  import LocalAddress

  /** The accept backlog passed to `bind`. */
  const ServerBacklog := 55

  /** `InetSocketAddress`'s port check. */
  predicate PortInRange(port: int) {
    0 <= port <= 0xFFFF
  }

  /**
   * `InetSocketAddress(hostname, port)`: a null host is refused, a host that does not resolve
   * gives an unresolved address (no exception), a port outside 0..65535 is refused.
   */
  function SocketAddress(host: Option<string>, port: int): Result<Endpoint, Throwable> {
    if host.None? then Err(Platform(IllegalArgumentException, Some("hostname can't be null")))
    else if !PortInRange(port) then Err(Platform(IllegalArgumentException, Some("port out of range:" + IntToString(port))))
    else Ok(Endpoint(host.value, port))
  }

  /** The `catch` of both factory methods: CreateSocketError with the cause's message. */
  function WrapCreateFailure(cause: Throwable): Throwable {
    match cause.Message()
    case Some(m) => Remote(CreateSocketError(m))
    case None => NullParameter
  }

  /** What happens to `/system/bin/ping -c 1 <ip>`: it runs and exits with a code, or cannot be started. */
  datatype ProcessOutcome = Exited(code: int) | ExecFails

  /** `ping`: reachable exactly when the process ran and exited with 0. */
  function Ping(p: ProcessOutcome): bool {
    p == Exited(0)
  }

  /** The platform's part in `create`. */
  datatype ConnectPlatform = ConnectPlatform(
    resolves: bool,                   // the host name resolves
    bindFault: Option<Throwable>,     // `bind(null)` throws
    connectFault: Option<Throwable>,  // the TCP handshake fails or times out
    ping: ProcessOutcome)

  /** The result of `create`, and the reachability it logs when it fails. */
  datatype Created = Created(socket: Result<SocketState, Throwable>, loggedReachable: Option<bool>)

  /**
   * `create(config)`: address, bind, connect with the configured connect timeout. The read/write
   * timeout is not applied to the socket.
   */
  function Create(config: SocketConfiguration, env: ConnectPlatform): Created {
    var attempt: Result<SocketState, Throwable> :=
      match SocketAddress(Some(config.ipAddress), config.inputPort)
      case Err(e) => Err(e)
      case Ok(address) =>
        if env.bindFault.Some? then Err(env.bindFault.value)
        else if config.connectTimeout < 0 then Err(Platform(IllegalArgumentException, Some("connect: timeout can't be negative")))
        else if !env.resolves then Err(Platform(UnknownHostException, Some(config.ipAddress)))
        else if env.connectFault.Some? then Err(env.connectFault.value)
        else Ok(OpenSocket(address, config.connectTimeout));
    match attempt
    case Ok(s) => Created(Ok(s), None)
    case Err(cause) => Created(Err(WrapCreateFailure(cause)), Some(Ping(env.ping)))
  }

  /**
   * `create` succeeds exactly for an in-range port, a non-negative connect timeout and a platform
   * that binds, resolves and connects; the socket is open to the configured address with the
   * configured connect timeout and no read timeout. Failures are CreateSocketError (or the
   * NullPointerException of a message-less cause). Ping only appears in the log of a failure and
   * never changes the outcome.
   */
  lemma CreateSpec(config: SocketConfiguration, env: ConnectPlatform, otherPing: ProcessOutcome)
    ensures var c := Create(config, env);
      && (c.socket.Ok? <==>
            PortInRange(config.inputPort) && config.connectTimeout >= 0 && env.resolves
            && env.bindFault.None? && env.connectFault.None?)
      && (c.socket.Ok? ==>
            c.socket.value == OpenSocket(Endpoint(config.ipAddress, config.inputPort), config.connectTimeout)
            && c.socket.value.soTimeout == 0 && !c.socket.value.closed)
      && (c.socket.Err? ==>
            (c.socket.error.Remote? && c.socket.error.error.CreateSocketError?) || c.socket.error == NullParameter)
      && (c.loggedReachable.Some? <==> c.socket.Err?)
      && Create(config, env.(ping := otherPing)).socket == c.socket
    ensures !PortInRange(config.inputPort) ==>
      Create(config, env).socket == Err(Remote(CreateSocketError("port out of range:" + IntToString(config.inputPort))))
  {
  }

  /** The platform's part in `createServerSocket`. */
  datatype ListenPlatform = ListenPlatform(
    interfaces: Option<seq<LocalAddress.NetworkInterface>>,  // None: enumeration throws SocketException
    bindFault: Option<Throwable>)                            // `bind` throws (address in use, ...)

  /**
   * `createServerSocket()`: SO_REUSEADDR, then bind to this device's local IPv4 address on port
   * 8080 with a backlog of 55. With no local address the null host is refused.
   */
  function CreateServerSocket(env: ListenPlatform): Result<ServerSocketState, Throwable> {
    match SocketAddress(LocalAddress.LocalIp(env.interfaces), LocalServerPort)
    case Err(e) => Err(WrapCreateFailure(e))
    case Ok(local) =>
      if env.bindFault.Some? then Err(WrapCreateFailure(env.bindFault.value))
      else Ok(ServerSocketState(local, ServerBacklog, true, false))
  }

  /**
   * The listener exists exactly when the device has a local IPv4 address and binding succeeds;
   * it is open, reuses its address and listens on that address at port 8080 with backlog 55.
   * Without a local address the error is CreateSocketError("hostname can't be null").
   */
  lemma CreateServerSocketSpec(env: ListenPlatform)
    ensures CreateServerSocket(env).Ok? <==> LocalAddress.LocalIp(env.interfaces).Some? && env.bindFault.None?
    ensures CreateServerSocket(env).Ok? ==>
      CreateServerSocket(env).value ==
        ServerSocketState(Endpoint(LocalAddress.LocalIp(env.interfaces).value, 8080), 55, true, false)
    ensures LocalAddress.LocalIp(env.interfaces).None? ==>
      CreateServerSocket(env) == Err(Remote(CreateSocketError("hostname can't be null")))
  {
  }
}
