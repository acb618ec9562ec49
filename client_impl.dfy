/**
 * ClientImpl: the wrapper around one connected socket. `read` turns every failure into a
 * ReadFromClientSocketError, `write` swallows every failure, and `close` is a guarded
 * three-step shutdown. The object streams are lazy properties built on first use.
 */
module SocketClient {
  import opened Wrappers
  import opened Entities

  /** A Kotlin `by lazy` property whose initialiser yields null on failure. */
  datatype Lazy = Pending | Built(present: bool)

  /** Reading a lazy property: the first read runs the initialiser, later reads reuse its value. */
  function Force(l: Lazy, init: bool): (r: Lazy)
    ensures r.Built?
  {
    if l.Pending? then Built(init) else l
  }

  /** A lazy property is built at most once: once built, no later read changes it. */
  lemma LazyBuiltOnce(l: Lazy, first: bool, second: bool)
    ensures Force(Force(l, first), second) == Force(l, first)
    ensures l.Built? ==> Force(l, first) == l
  {
  }

  /**
   * Whether `ObjectInputStream(client.getInputStream())` succeeds: the platform's own outcome
   * `ok`, and the socket must be neither closed nor shut for input.
   */
  predicate InputStreamAvailable(s: SocketState, ok: bool) {
    ok && !s.closed && !s.inputShutdown
  }

  /** Whether `ObjectOutputStream(client.getOutputStream())` succeeds. */
  predicate OutputStreamAvailable(s: SocketState, ok: bool) {
    ok && !s.closed && !s.outputShutdown
  }

  /** What the next `readObject()` on the stream does. */
  datatype ObjectRead =
    | Envelope(value: TransferData)       // returns a TransferData
    | ForeignObject(castMessage: string)  // returns an object of another class
    | ReadThrows(cause: Throwable)        // throws (end of stream, corrupt stream, I/O error)

  /** Kotlin's message for `null as TransferData`. */
  const NullCastMessage := "null cannot be cast to non-null type com.gmail.maystruks08.communicationinterface.entity.TransferData"

  /** `reader?.readObject() as TransferData`, before the failure is wrapped. */
  function ReadAttempt(readerPresent: bool, next: ObjectRead): Result<TransferData, Throwable> {
    if !readerPresent then Err(Platform(NullPointerException, Some(NullCastMessage)))
    else match next
      case Envelope(d) => Ok(d)
      case ForeignObject(m) => Err(Platform(ClassCastException, Some(m)))
      case ReadThrows(cause) => Err(cause)
  }

  /**
   * The `getOrElse` branch of `read`: throw ReadFromClientSocketError carrying the cause's
   * message; when the cause has no message, passing null to the non-null parameter throws a
   * NullPointerException instead.
   */
  function WrapReadFailure(cause: Throwable): Throwable {
    match cause.Message()
    case Some(m) => Remote(ReadFromClientSocketError(m))
    case None => NullParameter
  }

  /** The outcome of `read()`: the envelope, or the exception it throws. */
  function ReadResult(readerPresent: bool, next: ObjectRead): Result<TransferData, Throwable> {
    match ReadAttempt(readerPresent, next)
    case Ok(d) => Ok(d)
    case Err(cause) => Err(WrapReadFailure(cause))
  }

  /**
   * `read` returns a TransferData exactly when the reader exists and the stream holds one;
   * every other outcome is a ReadFromClientSocketError with the cause's message, except a
   * cause without a message, which surfaces as a NullPointerException.
   */
  lemma ReadWrapsEveryFailure(readerPresent: bool, next: ObjectRead)
    ensures ReadResult(readerPresent, next).Ok? <==> readerPresent && next.Envelope?
    ensures ReadResult(readerPresent, next).Ok? ==> ReadResult(readerPresent, next).value == next.value
    ensures !readerPresent ==> ReadResult(readerPresent, next) == Err(Remote(ReadFromClientSocketError(NullCastMessage)))
    ensures readerPresent && next.ForeignObject? ==>
      ReadResult(readerPresent, next) == Err(Remote(ReadFromClientSocketError(next.castMessage)))
    ensures readerPresent && next.ReadThrows? ==>
      ReadResult(readerPresent, next) ==
        (if next.cause.Message().Some? then Err(Remote(ReadFromClientSocketError(next.cause.Message().value)))
         else Err(NullParameter))
  {
  }

  /** What goes wrong, if anything, inside `write`'s try block. */
  datatype WriteFault = WriteOk | WriteObjectThrows | FlushThrows

  /** The line `write` logs. */
  datatype WriteLog = WriteFinished | WriteFailed(reason: string)

  /**
   * The socket after `write`: when a writer is usable the object is appended and, if the
   * flush succeeds, everything written so far is flushed.
   */
  function WriteEffect(s: SocketState, canWrite: bool, data: TransferData, fault: WriteFault): SocketState {
    if !canWrite || fault == WriteObjectThrows then s
    else if fault == FlushThrows then s.(sent := s.sent + [data])
    else s.(sent := s.sent + [data], flushed := |s.sent| + 1)
  }

  /**
   * `write` puts nothing on a shut output or without a writer; otherwise it writes the object
   * exactly once and then flushes it. Nothing but the written objects changes.
   */
  lemma WriteEffectSpec(s: SocketState, canWrite: bool, data: TransferData, fault: WriteFault)
    ensures var w := WriteEffect(s, canWrite, data, fault);
      && w.(sent := s.sent, flushed := s.flushed) == s
      && (!canWrite ==> w == s)
      && (canWrite && fault == WriteOk ==> w.sent == s.sent + [data] && w.flushed == |w.sent|)
      && (w.sent == s.sent || w.sent == s.sent + [data])
  {
  }

  /** What goes wrong, if anything, inside `close`'s try block. */
  datatype CloseFault = CloseOk | ShutdownInputThrows | ShutdownOutputThrows | CloseThrows

  /** The line `close` logs: success, or one of its three catch clauses. */
  datatype CloseLog = ClosedConnection | CloseError

  /**
   * `close`'s try block: shut input unless already shut, shut output unless already shut, close
   * unless already closed. A closed socket refuses shutdowns. The boolean says whether an
   * exception cut the sequence short.
   */
  function CloseSteps(s: SocketState, fault: CloseFault): (SocketState, bool) {
    if !s.inputShutdown && (s.closed || fault == ShutdownInputThrows) then (s, true)
    else
      var s1 := s.(inputShutdown := true);
      if !s1.outputShutdown && (s1.closed || fault == ShutdownOutputThrows) then (s1, true)
      else
        var s2 := s1.(outputShutdown := true);
        if !s2.closed && fault == CloseThrows then (s2, true)
        else (s2.(closed := true), false)
  }

  /**
   * After an error-free `close` all three flags are set; an open socket closes without error when
   * the platform raises nothing; `close` only ever sets flags; and a second `close`, whatever the
   * platform does, changes nothing and raises nothing (idempotence).
   */
  lemma CloseSpec(s: SocketState, fault: CloseFault, again: CloseFault)
    ensures var (t, threw) := CloseSteps(s, fault);
      && (!threw ==> t.inputShutdown && t.outputShutdown && t.closed)
      && (!s.closed && fault == CloseOk ==> !threw)
      && (s.inputShutdown ==> t.inputShutdown)
      && (s.outputShutdown ==> t.outputShutdown)
      && (s.closed ==> t.closed)
      && t.(inputShutdown := s.inputShutdown, outputShutdown := s.outputShutdown, closed := s.closed) == s
      && (!threw ==> CloseSteps(t, again) == (t, false))
  {
  }

  /** ClientImpl: one accepted or connected socket and its two lazy object streams. */
  class ClientImpl {
    var socket: SocketState
    var reader: Lazy
    var writer: Lazy

    constructor (client: SocketState)
      ensures socket == client && reader == Pending && writer == Pending
    {
      socket := client;
      reader := Pending;
      writer := Pending;
    }

    /** The lazy `reader`: null, without an exception, when the input stream cannot be had. */
    method Reader(ok: bool) returns (present: bool)
      modifies this
      ensures reader == Force(old(reader), InputStreamAvailable(old(socket), ok))
      ensures present == reader.present
      ensures socket == old(socket) && writer == old(writer)
    {
      if reader.Pending? {
        reader := Built(ok && !socket.closed && !socket.inputShutdown);
      }
      present := reader.present;
    }

    /** The lazy `writer`: null, without an exception, when the output stream cannot be had. */
    method Writer(ok: bool) returns (present: bool)
      modifies this
      ensures writer == Force(old(writer), OutputStreamAvailable(old(socket), ok))
      ensures present == writer.present
      ensures socket == old(socket) && reader == old(reader)
    {
      if writer.Pending? {
        writer := Built(ok && !socket.closed && !socket.outputShutdown);
      }
      present := writer.present;
    }

    /** `read()`: the next envelope, or the wrapped failure. */
    method Read(streamOk: bool, next: ObjectRead) returns (r: Result<TransferData, Throwable>)
      modifies this
      ensures reader == Force(old(reader), InputStreamAvailable(old(socket), streamOk))
      ensures r == ReadResult(reader.present, next)
      ensures socket == old(socket) && writer == old(writer)
    {
      var present := Reader(streamOk);
      var attempt: Result<TransferData, Throwable>;
      if !present {
        attempt := Err(Platform(NullPointerException, Some(NullCastMessage)));
      } else {
        match next
        case Envelope(d) => attempt := Ok(d);
        case ForeignObject(m) => attempt := Err(Platform(ClassCastException, Some(m)));
        case ReadThrows(cause) => attempt := Err(cause);
      }
      if attempt.Err? {
        var message := attempt.error.Message();
        if message.Some? {
          r := Err(Remote(ReadFromClientSocketError(message.value)));
        } else {
          r := Err(NullParameter);
        }
      } else {
        r := attempt;
      }
    }

    /**
     * `write(data)`: never throws. A shut output is refused before the writer is even built, a
     * null writer is refused next; otherwise the object is written and flushed.
     */
    method Write(data: TransferData, streamOk: bool, fault: WriteFault) returns (log: WriteLog)
      modifies this
      ensures old(socket).outputShutdown ==> writer == old(writer)
      ensures !old(socket).outputShutdown ==> writer == Force(old(writer), OutputStreamAvailable(old(socket), streamOk))
      ensures socket == WriteEffect(old(socket), !old(socket).outputShutdown && writer.present, data, fault)
      ensures log == WriteFinished <==> !old(socket).outputShutdown && writer.present && fault == WriteOk
      ensures reader == old(reader)
    {
      if socket.outputShutdown {
        log := WriteFailed("output stream shutdown");
        return;
      }
      var present := Writer(streamOk);
      if !present {
        log := WriteFailed("Writer is null");
        return;
      }
      if fault == WriteObjectThrows {
        log := WriteFailed("writeObject");
        return;
      }
      socket := socket.(sent := socket.sent + [data]);
      if fault == FlushThrows {
        log := WriteFailed("flush");
        return;
      }
      socket := socket.(flushed := |socket.sent|);
      log := WriteFinished;
    }

    /** `close()`: the guarded shutdown; every exception is caught and logged. */
    method Close(fault: CloseFault) returns (log: CloseLog)
      modifies this
      ensures socket == CloseSteps(old(socket), fault).0
      ensures log == CloseError <==> CloseSteps(old(socket), fault).1
      ensures reader == old(reader) && writer == old(writer)
    {
      if !socket.inputShutdown {
        if socket.closed || fault == ShutdownInputThrows {
          log := CloseError;
          return;
        }
        socket := socket.(inputShutdown := true);
      }
      if !socket.outputShutdown {
        if socket.closed || fault == ShutdownOutputThrows {
          log := CloseError;
          return;
        }
        socket := socket.(outputShutdown := true);
      }
      if !socket.closed {
        if fault == CloseThrows {
          log := CloseError;
          return;
        }
        socket := socket.(closed := true);
      }
      log := ClosedConnection;
    }
  }
}
