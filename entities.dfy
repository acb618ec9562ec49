/**
 * The value types every component shares: the transfer envelope, the error hierarchy sent
 * between devices, the JVM exceptions the platform raises into the modelled code, the socket
 * configuration, and the record of flags that stands for one connected TCP socket.
 */
module Entities {
  import opened Wrappers

  /**
   * The port the server listens on and every component registers, advertises or connects to:
   * ServerImpl's LOCAL_SERVER_PORT, which CommunicationManagerImpl's SERVER_PORT repeats.
   */
  const LocalServerPort := 8080

  /** SERVICE_TYPE: the DNS-SD type every component registers, discovers and advertises. */
  const ServiceType := "_nsdchat._tcp"

  /** RemoteError: the sealed error hierarchy that travels inside an envelope. */
  datatype RemoteError =
    | ConnectToRemoteError(errorCode: string)   // ConnectionError; its message is the code
    | CreateSocketError(message: string)        // ConnectionError
    | ReadFromClientSocketError(message: string) // CommunicationError
    | UnknownRemoteError
  {
    /** `message`: ConnectionError overrides it, UnknownRemoteError keeps Exception's null. */
    function Message(): Option<string> {
      match this
      case ConnectToRemoteError(code) => Some(code)
      case CreateSocketError(m) => Some(m)
      case ReadFromClientSocketError(m) => Some(m)
      case UnknownRemoteError => None
    }
  }

  /** The JVM exception classes the modelled code can meet, by name. */
  datatype ExceptionClass =
    | IOException
    | EOFException
    | SocketException
    | SocketTimeoutException
    | UnknownHostException
    | ClassNotFoundException
    | ClassCastException
    | NullPointerException
    | IllegalArgumentException
    | IllegalStateException
    | RuntimeException
    | OtherException

  /** A thrown exception: one of the application's own errors, or a platform exception. */
  datatype Throwable =
    | Remote(error: RemoteError)
    | Platform(cls: ExceptionClass, detail: Option<string>)
  {
    /** `message` (and `localizedMessage`, which the platform classes do not override). */
    function Message(): Option<string> {
      match this
      case Remote(e) => e.Message()
      case Platform(_, d) => d
    }
  }

  /**
   * The NullPointerException Kotlin raises when a null reaches a non-null parameter, as when
   * `it.message ?: it.localizedMessage` is null and is passed to an error's constructor.
   */
  const NullParameter: Throwable := Platform(NullPointerException, Some("Parameter specified as non-null is null"))

  /** TransferData: one message envelope; `error` defaults to null. */
  datatype TransferData = TransferData(messageCode: int, data: Option<string>, error: Option<RemoteError>)

  /** `TransferData(messageCode, data)` with the default `error = null`. */
  function Envelope(messageCode: int, data: Option<string>): TransferData {
    TransferData(messageCode, data, None)
  }

  /** SocketConfiguration: where and how an outbound socket connects. */
  datatype SocketConfiguration = SocketConfiguration(ipAddress: string, inputPort: int, connectTimeout: int, readWriteTimeout: int)

  datatype Endpoint = Endpoint(host: string, port: int)

  /**
   * One connected TCP socket, as the flags `java.net.Socket` keeps plus the objects written to
   * its output stream. `soTimeout` 0 means reads never time out; `flushed` counts how many of
   * the written objects have been flushed to the wire.
   */
  datatype SocketState = SocketState(
    remote: Endpoint,
    connectTimeout: int,
    soTimeout: int,
    inputShutdown: bool,
    outputShutdown: bool,
    closed: bool,
    sent: seq<TransferData>,
    flushed: nat)

  /** A freshly connected socket with nothing written yet. */
  function OpenSocket(remote: Endpoint, connectTimeout: int): SocketState {
    SocketState(remote, connectTimeout, 0, false, false, false, [], 0)
  }

  /**
   * A listening server socket: the local address it is bound to, the accept backlog, whether
   * SO_REUSEADDR was set before binding, and whether it has been closed.
   */
  datatype ServerSocketState = ServerSocketState(local: Endpoint, backlog: int, reuseAddress: bool, closed: bool)
}
