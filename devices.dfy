/**
 * ClientDeviceImpl: one Wi-Fi Direct peer the manager sends to. `connect` pairs with the peer
 * and waits for the connection broadcast, `sendData` opens a client socket to a fixed address,
 * writes one envelope and closes, and the MAC helpers build a MAC-to-address table of the
 * reachable hosts of the local subnet.
 */
module Devices {
  import opened Wrappers
  import opened Text
  import opened Entities
  import opened SocketClient
  import SocketFactory
  import LocalAddress
  import Subnet
  import opened P2pCommon

  /** The fixed configuration of every outbound socket: 192.168.0.106, SERVER_PORT, 1000 ms, 5000 ms. */
  const PeerConfig := SocketConfiguration("192.168.0.106", LocalServerPort, 1000, 5 * 1000)

  // ---------------------------------------------------------------------------------------------
  // connect

  /**
   * `connect`'s effect on the `isConnected` flag, and what it throws: a failed pair command
   * throws ConnectToRemoteError with the code as text; a device already connected does not wait;
   * otherwise the flag becomes the wait result, unless the wait throws.
   */
  function ConnectStep(connected: bool, pair: PairResult, wait: WaitOutcome): (bool, Option<Throwable>) {
    if pair.PairFailed? then (connected, Some(Remote(ConnectToRemoteError(IntToString(pair.code)))))
    else if connected then (true, None)
    else
      match WaitResult(wait)
      case Ok(c) => (c, None)
      case Err(e) => (connected, Some(e))
  }

  /**
   * `connect` throws exactly when pairing fails, or when a device not yet connected meets a
   * connection intent without network info; a throw leaves the flag alone. After a successful
   * pair the device is connected exactly when it was already or the broadcast reports a
   * connected network, so a connected device stays connected whatever the broadcast says.
   */
  lemma ConnectStepSpec(connected: bool, pair: PairResult, wait: WaitOutcome)
    ensures var (c, thrown) := ConnectStep(connected, pair, wait);
      && (thrown.Some? <==> pair.PairFailed? || (!connected && wait == ConnectionIntentNoInfo))
      && (thrown.Some? ==> c == connected)
      && (pair.PairFailed? ==> thrown == Some(Remote(ConnectToRemoteError(IntToString(pair.code)))))
      && (pair.PairSucceeded? && thrown.Some? ==> thrown == Some(Platform(NullPointerException, None)))
      && (pair.PairSucceeded? ==> (c <==> connected || wait == ConnectionIntent(true)))
      && (connected ==> c)
  {
  }

  // ---------------------------------------------------------------------------------------------
  // sendData

  /** The platform's part in writing one envelope on a fresh client socket. */
  datatype ClientPlatform = ClientPlatform(
    connect: SocketFactory.ConnectPlatform,  // what `create` meets
    streamOk: bool,                          // the output stream can be had
    write: WriteFault,                       // what goes wrong in `write`
    close: CloseFault)                       // what goes wrong in `close`

  /** The platform's part in `sendData`: `requestConnectionInfo` may throw, then the socket part. */
  datatype SendPlatform = SendPlatform(connectionInfo: Option<Throwable>, client: ClientPlatform)

  /** The socket of a fresh ClientImpl after `write(data)` and then `close()`. */
  function WrittenAndClosed(s: SocketState, data: TransferData, p: ClientPlatform): SocketState {
    var written := WriteEffect(s, OutputStreamAvailable(s, p.streamOk), data, p.write);
    CloseSteps(written, p.close).0
  }

  /** `create(config)`, then write once and close: the final socket, or what `create` threw. */
  function DeliverOnce(data: TransferData, p: ClientPlatform): Result<SocketState, Throwable> {
    match SocketFactory.Create(PeerConfig, p.connect).socket
    case Err(e) => Err(e)
    case Ok(s) => Ok(WrittenAndClosed(s, data, p))
  }

  /** `sendData(data)`: the connection-info query, then one delivery. */
  function SendOutcome(data: TransferData, env: SendPlatform): Result<SocketState, Throwable> {
    if env.connectionInfo.Some? then Err(env.connectionInfo.value)
    else DeliverOnce(data, env.client)
  }

  /**
   * A delivery fails exactly when the socket cannot be created, and then with CreateSocketError
   * (or the NullPointerException of a message-less cause). Otherwise the socket goes to
   * 192.168.0.106:8080 with a 1000 ms connect timeout and no read timeout, carries the envelope
   * exactly once when a writer can be had and `writeObject` succeeds and nothing otherwise, has
   * flushed it when nothing went wrong, and is fully shut and closed when `close` meets no error.
   */
  lemma DeliverOnceSpec(data: TransferData, p: ClientPlatform)
    ensures DeliverOnce(data, p).Ok? <==>
      p.connect.resolves && p.connect.bindFault.None? && p.connect.connectFault.None?
    ensures DeliverOnce(data, p).Err? ==>
      var e := DeliverOnce(data, p).error;
      (e.Remote? && e.error.CreateSocketError?) || e == NullParameter
    ensures DeliverOnce(data, p).Ok? ==>
      var s := DeliverOnce(data, p).value;
      && s.remote == Endpoint("192.168.0.106", 8080)
      && s.connectTimeout == 1000 && s.soTimeout == 0
      && s.sent == (if p.streamOk && p.write != WriteObjectThrows then [data] else [])
      && (p.streamOk && p.write == WriteOk ==> s.flushed == 1)
      && (p.close == CloseOk ==> s.inputShutdown && s.outputShutdown && s.closed)
  {
    SocketFactory.CreateSpec(PeerConfig, p.connect, p.connect.ping);
    var c := SocketFactory.Create(PeerConfig, p.connect).socket;
    if c.Ok? {
      var s := c.value;
      var w := WriteEffect(s, OutputStreamAvailable(s, p.streamOk), data, p.write);
      WriteEffectSpec(s, OutputStreamAvailable(s, p.streamOk), data, p.write);
      CloseSpec(w, p.close, p.close);
    }
  }

  /**
   * `sendData`: when `requestConnectionInfo` throws, that throwable is the outcome and the socket
   * part of the platform is never consulted (no socket is created, whatever `other` would have
   * done). When the query succeeds, the one delivery behaves as `DeliverOnceSpec` says: it fails
   * exactly when the socket cannot be created, and otherwise writes the envelope once to the
   * group owner's address and closes the socket.
   */
  lemma SendOutcomeSpec(data: TransferData, env: SendPlatform, other: ClientPlatform)
    ensures env.connectionInfo.Some? ==>
      && SendOutcome(data, env) == Err(env.connectionInfo.value)
      && SendOutcome(data, SendPlatform(env.connectionInfo, other)) == SendOutcome(data, env)
    ensures env.connectionInfo.None? ==>
      (SendOutcome(data, env).Ok? <==>
        env.client.connect.resolves && env.client.connect.bindFault.None?
        && env.client.connect.connectFault.None?)
    ensures env.connectionInfo.None? && SendOutcome(data, env).Err? ==>
      var e := SendOutcome(data, env).error;
      (e.Remote? && e.error.CreateSocketError?) || e == NullParameter
    ensures SendOutcome(data, env).Ok? ==>
      var s := SendOutcome(data, env).value;
      var p := env.client;
      && env.connectionInfo.None?
      && s.remote == Endpoint("192.168.0.106", 8080)
      && s.connectTimeout == 1000 && s.soTimeout == 0
      && s.sent == (if p.streamOk && p.write != WriteObjectThrows then [data] else [])
      && (p.close == CloseOk ==> s.inputShutdown && s.outputShutdown && s.closed)
  {
    DeliverOnceSpec(data, env.client);
  }

  // ---------------------------------------------------------------------------------------------
  // getMacAddress

  /** A JVM `byte`. */
  newtype Int8 = x: int | -128 <= x < 128

  /** The byte read as unsigned, as `%02X` prints a negative `Byte`. */
  function Unsigned(b: Int8): (u: nat)
    ensures u < 256 && u % 256 == (b as int) % 256
  {
    if b < 0 then b as int + 256 else b as int
  }

  predicate IsUpperHex(c: char) {
    '0' <= c <= '9' || 'A' <= c <= 'F'
  }

  function HexDigit(d: nat): (c: char)
    requires d < 16
    ensures IsUpperHex(c)
  {
    if d < 10 then ('0' as int + d) as char else ('A' as int + d - 10) as char
  }

  function HexValue(c: char): nat
    requires IsUpperHex(c)
  {
    if c <= '9' then c as int - '0' as int else c as int - 'A' as int + 10
  }

  /** `String.format("%02X", b)`: two upper-case hex digits. */
  function Hex2(b: Int8): string {
    [HexDigit(Unsigned(b) / 16), HexDigit(Unsigned(b) % 16)]
  }

  /** What `NetworkInterface.getByInetAddress(address)?.hardwareAddress` gives. */
  datatype InterfaceLookup =
    | LookupThrows                                 // a SocketException, or the null-address NullPointerException
    | NoInterface                                  // no local interface has that address
    | Interface(hardwareAddress: Option<seq<Int8>>)

  /**
   * The text `getMacAddress` builds: the loop returns in its first iteration, so only the first
   * byte is printed, followed by " " when more bytes follow. No interface, no hardware address,
   * an empty array or an exception give null.
   */
  function MacText(lookup: InterfaceLookup): Option<string> {
    match lookup
    case Interface(Some(mac)) =>
      if |mac| == 0 then None else Some(Hex2(mac[0]) + (if 0 < |mac| - 1 then " " else ""))
    case _ => None
  }

  /**
   * The MAC text exists exactly for a non-empty hardware address. It is two upper-case hex
   * digits that read back as the first byte, unsigned, plus a single space exactly when the
   * array has more than one byte: the remaining bytes never appear.
   */
  lemma MacTextSpec(lookup: InterfaceLookup)
    ensures MacText(lookup).Some? <==>
      lookup.Interface? && lookup.hardwareAddress.Some? && |lookup.hardwareAddress.value| > 0
    ensures MacText(lookup).Some? ==>
      var mac := lookup.hardwareAddress.value;
      var t := MacText(lookup).value;
      && (|t| == 2 || |t| == 3)
      && (|t| == 3 <==> |mac| > 1)
      && IsUpperHex(t[0]) && IsUpperHex(t[1])
      && HexValue(t[0]) * 16 + HexValue(t[1]) == Unsigned(mac[0])
      && (|t| == 3 ==> t[2] == ' ')
  {
  }

  /** The lookup for an address; one the platform says nothing about has no local interface. */
  function LookupOf(lookups: map<string, InterfaceLookup>, address: string): InterfaceLookup {
    if address in lookups then lookups[address] else NoInterface
  }

  /** `getHasMapWithMacAndIp`'s map: each address with a MAC text put under it, in list order. */
  function MacTable(ips: seq<string>, lookups: map<string, InterfaceLookup>): map<string, string> {
    if ips == [] then map[]
    else
      var table := MacTable(ips[..|ips| - 1], lookups);
      var ip := ips[|ips| - 1];
      match MacText(LookupOf(lookups, ip))
      case None => table
      case Some(mac) => table[mac := ip]
  }

  /**
   * The position of the last address in `ips` whose MAC text is `k`, or -1 when there is none.
   */
  function LastWith(ips: seq<string>, lookups: map<string, InterfaceLookup>, k: string): (r: int)
    ensures -1 <= r < |ips|
    ensures r >= 0 ==> MacText(LookupOf(lookups, ips[r])) == Some(k)
    ensures forall j :: r < j < |ips| ==> MacText(LookupOf(lookups, ips[j])) != Some(k)
  {
    if ips == [] then -1
    else if MacText(LookupOf(lookups, ips[|ips| - 1])) == Some(k) then |ips| - 1
    else
      var r := LastWith(ips[..|ips| - 1], lookups, k);
      assert forall j :: r < j < |ips| - 1 ==> ips[..|ips| - 1][j] == ips[j];
      r
  }

  /**
   * The table has a key exactly for each MAC text some address yields, and maps it to the last
   * address in the list that yields it (a later duplicate overwrites an earlier one).
   */
  lemma {:induction false} MacTableSpec(ips: seq<string>, lookups: map<string, InterfaceLookup>, k: string)
    ensures k in MacTable(ips, lookups) <==> LastWith(ips, lookups, k) >= 0
    ensures k in MacTable(ips, lookups) ==> MacTable(ips, lookups)[k] == ips[LastWith(ips, lookups, k)]
  {
    if ips != [] {
      var front := ips[..|ips| - 1];
      MacTableSpec(front, lookups, k);
      if LastWith(front, lookups, k) >= 0 {
        assert front[LastWith(front, lookups, k)] == ips[LastWith(front, lookups, k)];
      }
    }
  }

  /** ClientDeviceImpl, made by DeviceFactoryImpl.create with the peer's device address. */
  class ClientDeviceImpl {
    const deviceMacAddress: string
    var client: ClientImpl?
    var macAndInetAddress: Option<map<string, string>>
    var isConnected: bool

    constructor (deviceMacAddress: string)
      ensures this.deviceMacAddress == deviceMacAddress
      ensures client == null && macAndInetAddress.None? && !isConnected
    {
      this.deviceMacAddress := deviceMacAddress;
      client := null;
      macAndInetAddress := None;
      isConnected := false;
    }

    /** `connect()`: pair with the peer, then wait for the connection broadcast unless connected. */
    method Connect(pair: PairResult, wait: WaitOutcome) returns (thrown: Option<Throwable>)
      modifies this`isConnected
      ensures (isConnected, thrown) == ConnectStep(old(isConnected), pair, wait)
    {
      if pair.PairFailed? {
        return Some(Remote(ConnectToRemoteError(IntToString(pair.code))));
      }
      if isConnected {
        return None;
      }
      var waited := WaitResult(wait);
      if waited.Err? {
        return Some(waited.error);
      }
      isConnected := waited.value;
      return None;
    }

    /**
     * `sendData(data)`: query the connection info, create the socket to the fixed address, keep
     * a fresh ClientImpl over it in `client`, write the envelope and close. Every exception
     * propagates.
     */
    method SendData(data: TransferData, env: SendPlatform) returns (thrown: Option<Throwable>)
      modifies this`client
      ensures thrown.Some? <==> SendOutcome(data, env).Err?
      ensures thrown.Some? ==> thrown.value == SendOutcome(data, env).error && client == old(client)
      ensures thrown.None? ==>
        client != null && fresh(client) && client.socket == SendOutcome(data, env).value
    {
      if env.connectionInfo.Some? {
        return Some(env.connectionInfo.value);
      }
      var created := SocketFactory.Create(PeerConfig, env.client.connect);
      if created.socket.Err? {
        return Some(created.socket.error);
      }
      var c := new ClientImpl(created.socket.value);
      client := c;
      var writeLog := c.Write(data, env.client.streamOk, env.client.write);
      var closeLog := c.Close(env.client.close);
      return None;
    }

    /** `getMacAddress(address)`: the StringBuilder loop that returns in its first iteration. */
    static method GetMacAddress(lookup: InterfaceLookup) returns (mac: Option<string>)
      ensures mac == MacText(lookup)
    {
      match lookup {
        case LookupThrows =>
          return None;
        case NoInterface =>
          return None;
        case Interface(hardwareAddress) =>
          if hardwareAddress.None? {
            return None;
          }
          var macArray := hardwareAddress.value;
          var str := "";
          // `return` inside the loop: the loop stops after the first byte it appends
          var returned := false;
          var i := 0;
          while i < |macArray| && !returned
            invariant 0 <= i <= 1 && i <= |macArray|
            invariant returned <==> i == 1
            invariant !returned ==> str == ""
            invariant returned ==> str == Hex2(macArray[0]) + (if 0 < |macArray| - 1 then " " else "")
          {
            str := str + Hex2(macArray[i]) + (if i < |macArray| - 1 then " " else "");
            returned := true;
            i := i + 1;
          }
          if returned {
            return Some(str);
          }
          return None;
      }
    }

    /**
     * `getHasMapWithMacAndIp()`: scan the subnet, put each reachable address under its MAC text,
     * and cache the map. A failed scan propagates and leaves the cache alone.
     */
    method GetHasMapWithMacAndIp(enumerated: Option<seq<LocalAddress.NetworkInterface>>,
                                 probes: map<string, Subnet.Probe>, lookups: map<string, InterfaceLookup>)
      returns (r: Result<map<string, string>, Throwable>)
      modifies this
      ensures var scan := Subnet.Scan(Subnet.SubnetPrefix(LocalAddress.LocalIp(enumerated)), probes);
        r == (match scan case Err(e) => Err(e) case Ok(ips) => Ok(MacTable(ips, lookups)))
      ensures r.Ok? ==> macAndInetAddress == Some(r.value)
      ensures r.Err? ==> macAndInetAddress == old(macAndInetAddress)
      ensures isConnected == old(isConnected) && client == old(client)
    {
      var scanned := Subnet.GetAllIpsInLocaleNetwork(enumerated, probes);
      if scanned.Err? {
        return Err(scanned.error);
      }
      var ips := scanned.value;
      var table: map<string, string> := map[];
      var k := 0;
      while k < |ips|
        invariant 0 <= k <= |ips|
        invariant table == MacTable(ips[..k], lookups)
        invariant unchanged(this)
      {
        assert ips[..k + 1][..k] == ips[..k];
        var mac := GetMacAddress(LookupOf(lookups, ips[k]));
        if mac.Some? {
          table := table[mac.value := ips[k]];
        }
        k := k + 1;
      }
      assert ips[..|ips|] == ips;
      macAndInetAddress := Some(table);
      return Ok(table);
    }

    /** `disconnect()`: its body is commented out, so it changes nothing. */
    method Disconnect()
      ensures unchanged(this)
    {
    }
  }
}
