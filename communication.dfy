/**
 * CommunicationManagerImpl: keeps the list of peer devices found over Wi-Fi Direct, sends a
 * message to each of them in turn, and reacts to the Wi-Fi Direct broadcasts (peer list changes,
 * connection changes, this device's name).
 */
module Communication {
  import opened Wrappers
  import opened Text
  import opened Entities
  import opened SocketClient
  import opened P2pCommon
  import Devices
  import SocketFactory

  /** The device name before any THIS_DEVICE_CHANGED broadcast, and when one carries no device. */
  const NoName := "No Name"

  /** What `sendBroadcast` hands each peer: the same code and error, the payload prefixed with the sender. */
  function Rewrite(data: TransferData, deviceName: string): TransferData {
    data.(data := Some("From :" + deviceName + " -> " + data.data.GetOr("null")))
  }

  /**
   * The rewritten envelope keeps the message code and the error, always has a payload, and
   * that payload is the sender prefix followed by the original payload ("null" for none), so
   * the original can be read back off it.
   */
  lemma RewriteSpec(data: TransferData, deviceName: string)
    ensures var r := Rewrite(data, deviceName);
      var prefix := "From :" + deviceName + " -> ";
      && r.messageCode == data.messageCode && r.error == data.error
      && r.data.Some? && prefix <= r.data.value
      && r.data.value[|prefix|..] == data.data.GetOr("null")
  {
    var prefix := "From :" + deviceName + " -> ";
    var text := prefix + data.data.GetOr("null");
    assert text[..|prefix|] == prefix;
    assert text[|prefix|..] == data.data.GetOr("null");
  }

  // ---------------------------------------------------------------------------------------------
  // the peer list

  /** The text `requestPeers` looks for in a peer's name. */
  const FilteredName := "samsung"

  /** `filter { !it.deviceName.contains(word, true) }`: peers whose name contains `word`, in any case, are dropped. */
  function Without(deviceList: seq<WifiP2pDevice>, word: string): seq<WifiP2pDevice> {
    if deviceList == [] then []
    else
      var rest := Without(deviceList[1..], word);
      if ContainsIgnoreCase(deviceList[0].deviceName, word) then rest else [deviceList[0]] + rest
  }

  /** `requestPeers`'s filter. */
  function KeptPeers(deviceList: seq<WifiP2pDevice>): seq<WifiP2pDevice> {
    Without(deviceList, FilteredName)
  }

  /**
   * A peer is kept exactly when it is in the list and its name does not contain the word in any
   * case; the filter never lengthens the list.
   */
  lemma {:induction false} WithoutSpec(deviceList: seq<WifiP2pDevice>, word: string)
    ensures |Without(deviceList, word)| <= |deviceList|
    ensures forall d :: d in Without(deviceList, word) <==> d in deviceList && !ContainsIgnoreCase(d.deviceName, word)
  {
    if deviceList != [] {
      var head, tail := deviceList[0], deviceList[1..];
      WithoutSpec(tail, word);
      assert deviceList == [head] + tail;
    }
  }

  /** The filter keeps the list's order: filtering a concatenation concatenates the filtered parts. */
  lemma {:induction false} WithoutAppend(deviceList: seq<WifiP2pDevice>, more: seq<WifiP2pDevice>, word: string)
    ensures Without(deviceList + more, word) == Without(deviceList, word) + Without(more, word)
  {
    if deviceList == [] {
      assert deviceList + more == more;
    } else {
      var head, tail := deviceList[0], deviceList[1..];
      var all := deviceList + more;
      assert all[0] == head && all[1..] == tail + more;
      WithoutAppend(tail, more, word);
      if ContainsIgnoreCase(head.deviceName, word) {
        assert Without(all, word) == Without(tail + more, word);
        assert Without(deviceList, word) == Without(tail, word);
      } else {
        assert Without(all, word) == [head] + Without(tail + more, word);
        assert Without(deviceList, word) == [head] + Without(tail, word);
      }
    }
  }

  /** Devices just made by the factory for `found`, one per peer and in the same order. */
  predicate NewDevices(ds: seq<Devices.ClientDeviceImpl>, found: seq<WifiP2pDevice>)
    reads ds
  {
    && |ds| == |found|
    && forall i :: 0 <= i < |ds| ==>
      && ds[i].deviceMacAddress == found[i].deviceAddress
      && !ds[i].isConnected && ds[i].client == null && ds[i].macAndInetAddress.None?
  }

  // ---------------------------------------------------------------------------------------------
  // sendBroadcast

  /** The platform's answers while one peer is served: the pair command, the broadcast, sendData. */
  datatype PeerScript = PeerScript(pair: PairResult, wait: WaitOutcome, send: Devices.SendPlatform)

  /** What connect → sendData → disconnect leaves on one peer: its flag, its client's socket, the exception. */
  datatype Exchanged = Exchanged(isConnected: bool, socket: Option<SocketState>, thrown: Option<Throwable>)

  function Exchange(connected: bool, s: PeerScript, envelope: TransferData): Exchanged {
    var (c, e) := Devices.ConnectStep(connected, s.pair, s.wait);
    if e.Some? then Exchanged(c, None, e)
    else
      match Devices.SendOutcome(envelope, s.send)
      case Err(x) => Exchanged(c, None, Some(x))
      case Ok(socket) => Exchanged(c, Some(socket), None)
  }

  /**
   * Serving the peer throws: the pair command fails, a peer not yet connected meets a connection
   * intent without network info, or `sendData` throws.
   */
  predicate Fails(connected: bool, s: PeerScript, envelope: TransferData) {
    || s.pair.PairFailed?
    || (!connected && s.wait == ConnectionIntentNoInfo)
    || Devices.SendOutcome(envelope, s.send).Err?
  }

  /**
   * A peer's exchange throws exactly when it fails, and then the first failing step's exception
   * is the one thrown and no socket is kept; the envelope reaches a socket only when it does not
   * fail, and then exactly once if the writer works.
   */
  lemma ExchangeSpec(connected: bool, s: PeerScript, envelope: TransferData)
    ensures var x := Exchange(connected, s, envelope);
      && (x.thrown.Some? <==> Fails(connected, s, envelope))
      && (x.socket.Some? <==> !Fails(connected, s, envelope))
      && (x.socket.Some? ==> x.socket.value.sent == (if s.send.client.streamOk && s.send.client.write != WriteObjectThrows then [envelope] else []))
      && (s.pair.PairFailed? ==> x == Exchanged(connected, None, Some(Remote(ConnectToRemoteError(IntToString(s.pair.code))))))
      && (s.pair.PairSucceeded? && !connected && s.wait == ConnectionIntentNoInfo ==>
            x == Exchanged(false, None, Some(Platform(NullPointerException, None))))
      && (s.pair.PairSucceeded? && (connected || s.wait != ConnectionIntentNoInfo) && x.thrown.Some? ==>
            x.thrown == Some(Devices.SendOutcome(envelope, s.send).error))
  {
    Devices.DeliverOnceSpec(envelope, s.send.client);
  }

  /** The connected flags of the devices, in list order. */
  ghost function Flags(ds: seq<Devices.ClientDeviceImpl>): seq<bool>
    reads ds
  {
    seq(|ds|, i requires 0 <= i < |ds| reads ds => ds[i].isConnected)
  }

  /** The first peer from `from` on whose exchange throws, given the peers' flags, or `|scripts|` when none does. */
  function FirstFailure(conns: seq<bool>, scripts: seq<PeerScript>, envelope: TransferData, from: nat): (i: nat)
    requires from <= |scripts| == |conns|
    ensures from <= i <= |scripts|
    ensures i < |scripts| ==> Fails(conns[i], scripts[i], envelope)
    ensures forall j :: from <= j < i ==> !Fails(conns[j], scripts[j], envelope)
    decreases |scripts| - from
  {
    if from == |scripts| then from
    else if Fails(conns[from], scripts[from], envelope) then from
    else FirstFailure(conns, scripts, envelope, from + 1)
  }

  // ---------------------------------------------------------------------------------------------
  // discoverPeers

  /** The first non-empty peer list from `from` on, or `|replies|` when all are empty. */
  function FirstNonEmpty(replies: seq<seq<WifiP2pDevice>>, from: nat): (i: nat)
    requires from <= |replies|
    ensures from <= i <= |replies|
    ensures i < |replies| ==> replies[i] != []
    ensures forall j :: from <= j < i ==> replies[j] == []
    decreases |replies| - from
  {
    if from == |replies| then from
    else if replies[from] != [] then from
    else FirstNonEmpty(replies, from + 1)
  }

  /** The requests of `n` rounds of the discovery loop. */
  function Rounds(n: nat): (r: seq<P2pRequest>)
    ensures |r| == 2 * n
    ensures forall i :: 0 <= i < |r| ==> r[i] == (if i % 2 == 0 then DiscoverPeers else RequestPeerList)
  {
    if n == 0 then [] else Rounds(n - 1) + [DiscoverPeers, RequestPeerList]
  }

  // ---------------------------------------------------------------------------------------------
  // onReceive

  /** `wifiP2pDevice?.deviceName ?: "No Name"`. */
  function ReportedName(device: Option<WifiP2pDevice>): string {
    match device
    case Some(d) => d.deviceName
    case None => NoName
  }

  /** A connection broadcast starts a host listener: the network is connected and this side receives. */
  predicate StartsHostListener(intent: P2pIntent, isSender: bool) {
    intent == ConnectionChanged(Some(true)) && !isSender
  }

  /**
   * The manager reacts to the same broadcasts as the P2P controllers: it starts a host listener
   * exactly where they emit DeviceConnected, and only in receiver mode; it asks for the peer list
   * exactly where they do; and the name it takes is the one they report as the current device,
   * or "No Name" when none is attached.
   */
  lemma ReceiveAgreesWithControllers(intent: P2pIntent, isSender: bool)
    ensures StartsHostListener(intent, isSender) <==> !isSender && ReactionTo(intent) == Emit(DeviceConnected)
    ensures intent == PeersChanged <==> ReactionTo(intent) == RequestPeersAgain
    ensures intent.ThisDeviceChanged? && intent.device.Some? ==>
      ReactionTo(intent) == Emit(CurrentDeviceChanged(intent.device.value))
      && ReportedName(intent.device) == intent.device.value.deviceName
    ensures intent.ThisDeviceChanged? && intent.device.None? ==>
      ReactionTo(intent) == OnlyLogs && ReportedName(intent.device) == NoName
  {
    ReactionSpec(intent);
  }

  /**
   * A device served without an exception: its flag is the exchange's, and its client holds the
   * exchange's socket.
   */
  predicate Delivered(d: Devices.ClientDeviceImpl, connected: bool, s: PeerScript, envelope: TransferData)
    reads d, d.client
  {
    HoldsExchange(d, Exchange(connected, s, envelope))
  }

  /** The device's flag is the exchange's, and its client holds the exchange's socket. */
  predicate HoldsExchange(d: Devices.ClientDeviceImpl, x: Exchanged)
    reads d, d.client
  {
    && d.isConnected == x.isConnected
    && d.client != null && x.socket.Some? && d.client.socket == x.socket.value
  }

  /** CommunicationManagerImpl. */
  class CommunicationManagerImpl {
    var isSender: bool
    var deviceName: string
    var isTest: bool
    var devices: seq<Devices.ClientDeviceImpl>
    /** The host listeners (HostDeviceImpl collectors) launched so far. */
    var hostListeners: nat
    /** The calls made to WifiP2pManager, in order. */
    var requests: seq<P2pRequest>

    /** The list holds each device object once. */
    ghost predicate Valid()
      reads this
    {
      forall i, j :: 0 <= i < j < |devices| ==> devices[i] != devices[j]
    }

    constructor ()
      ensures Valid()
      ensures !isSender && deviceName == NoName && !isTest && devices == [] && hostListeners == 0 && requests == []
    {
      isSender := false;
      deviceName := NoName;
      isTest := false;
      devices := [];
      hostListeners := 0;
      requests := [];
    }

    /** `setMode(isSender)`. */
    method SetMode(isSender: bool)
      modifies this
      ensures this.isSender == isSender
      ensures deviceName == old(deviceName) && isTest == old(isTest) && devices == old(devices)
      ensures hostListeners == old(hostListeners) && requests == old(requests)
    {
      this.isSender := isSender;
    }

    /**
     * The factory's devices for `found`, adopted only when their number differs from the current
     * list's (`if (devices.size != clients.size)`).
     */
    method Adopt(found: seq<WifiP2pDevice>)
      requires Valid()
      modifies this
      ensures Valid()
      ensures |old(devices)| == |found| ==> devices == old(devices)
      ensures |old(devices)| != |found| ==>
        NewDevices(devices, found) && forall i :: 0 <= i < |devices| ==> fresh(devices[i])
      ensures isSender == old(isSender) && deviceName == old(deviceName) && isTest == old(isTest)
      ensures hostListeners == old(hostListeners) && requests == old(requests)
    {
      var clients: seq<Devices.ClientDeviceImpl> := [];
      var k := 0;
      while k < |found|
        invariant 0 <= k <= |found| && |clients| == k
        invariant forall i :: 0 <= i < k ==> fresh(clients[i])
        invariant forall i, j :: 0 <= i < j < k ==> clients[i] != clients[j]
        invariant NewDevices(clients, found[..k])
        invariant unchanged(this)
      {
        var c := new Devices.ClientDeviceImpl(found[k].deviceAddress);
        clients := clients + [c];
        k := k + 1;
      }
      if |devices| != |clients| {
        devices := clients;
      }
    }

    /** `requestPeers()`: ask for the peer list and adopt the peers not named "samsung". */
    method RequestPeers(deviceList: seq<WifiP2pDevice>)
      requires Valid()
      modifies this
      ensures Valid()
      ensures requests == old(requests) + [RequestPeerList]
      ensures |old(devices)| == |KeptPeers(deviceList)| ==> devices == old(devices)
      ensures |old(devices)| != |KeptPeers(deviceList)| ==>
        NewDevices(devices, KeptPeers(deviceList)) && forall i :: 0 <= i < |devices| ==> fresh(devices[i])
      ensures isSender == old(isSender) && deviceName == old(deviceName) && isTest == old(isTest)
      ensures hostListeners == old(hostListeners)
    {
      requests := requests + [RequestPeerList];
      Adopt(KeptPeers(deviceList));
    }

    /** `requestPeersCo()`: ask for the peer list and adopt every peer, unfiltered. */
    method RequestPeersCo(deviceList: seq<WifiP2pDevice>)
      requires Valid()
      modifies this
      ensures Valid()
      ensures requests == old(requests) + [RequestPeerList]
      ensures |old(devices)| == |deviceList| ==> devices == old(devices)
      ensures |old(devices)| != |deviceList| ==>
        NewDevices(devices, deviceList) && forall i :: 0 <= i < |devices| ==> fresh(devices[i])
      ensures isSender == old(isSender) && deviceName == old(deviceName) && isTest == old(isTest)
      ensures hostListeners == old(hostListeners)
    {
      requests := requests + [RequestPeerList];
      Adopt(deviceList);
    }

    /**
     * `discoverPeers()`: while the list is empty, start a discovery and ask for the peers; the
     * k-th request is answered with `replies[k]`. The loop stops at the first non-empty answer;
     * running out of answers leaves it still waiting.
     */
    method DiscoverPeers(replies: seq<seq<WifiP2pDevice>>) returns (found: bool)
      requires Valid()
      modifies this
      ensures Valid()
      ensures found <==> devices != []
      ensures old(devices) != [] ==> devices == old(devices) && requests == old(requests)
      ensures old(devices) == [] ==>
        var first := FirstNonEmpty(replies, 0);
        && requests == old(requests) + Rounds(if first < |replies| then first + 1 else |replies|)
        && (first < |replies| ==> NewDevices(devices, replies[first]) && forall i :: 0 <= i < |devices| ==> fresh(devices[i]))
        && (first == |replies| ==> devices == [])
      ensures isSender == old(isSender) && deviceName == old(deviceName) && isTest == old(isTest)
      ensures hostListeners == old(hostListeners)
    {
      var k := 0;
      while devices == [] && k < |replies|
        invariant Valid()
        invariant 0 <= k <= |replies|
        invariant old(devices) != [] ==> k == 0 && devices == old(devices) && requests == old(requests)
        invariant old(devices) == [] ==> requests == old(requests) + Rounds(k)
        invariant old(devices) == [] && devices == [] ==> forall j :: 0 <= j < k ==> replies[j] == []
        invariant old(devices) == [] && devices != [] ==>
          && k >= 1 && replies[k - 1] != [] && (forall j :: 0 <= j < k - 1 ==> replies[j] == [])
          && NewDevices(devices, replies[k - 1]) && forall i :: 0 <= i < |devices| ==> fresh(devices[i])
        invariant isSender == old(isSender) && deviceName == old(deviceName) && isTest == old(isTest)
        invariant hostListeners == old(hostListeners)
      {
        requests := requests + [P2pRequest.DiscoverPeers];
        RequestPeersCo(replies[k]);
        k := k + 1;
      }
      return devices != [];
    }

    /** `onPeerConnectionChanged`: `networkInfo!!` throws without network info. */
    method OnPeerConnectionChanged(networkConnected: Option<bool>) returns (thrown: Option<Throwable>)
      modifies this
      ensures thrown == (if networkConnected.None? then Some(Platform(NullPointerException, None)) else None)
      ensures hostListeners == old(hostListeners) + (if StartsHostListener(ConnectionChanged(networkConnected), isSender) then 1 else 0)
      ensures isSender == old(isSender) && deviceName == old(deviceName) && isTest == old(isTest)
      ensures devices == old(devices) && requests == old(requests)
    {
      if networkConnected.None? {
        return Some(Platform(NullPointerException, None));
      }
      if networkConnected.value {
        if isSender {
          return None;
        }
        hostListeners := hostListeners + 1;
      }
      return None;
    }

    /**
     * `onReceive(intent)`. A PEERS_CHANGED broadcast runs `requestPeers`, whose request is
     * answered with `peers`.
     */
    method OnReceive(intent: P2pIntent, peers: seq<WifiP2pDevice>) returns (thrown: Option<Throwable>)
      requires Valid()
      modifies this
      ensures Valid()
      ensures thrown == (if intent == ConnectionChanged(None) then Some(Platform(NullPointerException, None)) else None)
      ensures deviceName == (if intent.ThisDeviceChanged? then ReportedName(intent.device) else old(deviceName))
      ensures hostListeners == old(hostListeners) + (if StartsHostListener(intent, isSender) then 1 else 0)
      ensures requests == old(requests) + (if intent == PeersChanged then [RequestPeerList] else [])
      ensures intent != PeersChanged || |old(devices)| == |KeptPeers(peers)| ==> devices == old(devices)
      ensures intent == PeersChanged && |old(devices)| != |KeptPeers(peers)| ==>
        NewDevices(devices, KeptPeers(peers)) && forall i :: 0 <= i < |devices| ==> fresh(devices[i])
      ensures isSender == old(isSender) && isTest == old(isTest)
    {
      thrown := None;
      match intent {
        case StateChanged(_) =>
        case PeersChanged =>
          RequestPeers(peers);
        case ConnectionChanged(networkConnected) =>
          thrown := OnPeerConnectionChanged(networkConnected);
        case ThisDeviceChanged(device) =>
          deviceName := ReportedName(device);
        case UnrelatedAction =>
        case NoIntent =>
      }
    }

    /**
     * `testCommunication(data)`: a sender writes the envelope unchanged on a socket to the fixed
     * address and closes it (the socket it leaves is returned); a receiver launches a host listener.
     */
    method TestCommunication(data: TransferData, test: Devices.ClientPlatform)
      returns (thrown: Option<Throwable>, testSocket: Option<SocketState>)
      modifies this
      ensures isSender ==>
        && hostListeners == old(hostListeners)
        && (thrown, testSocket) == (match Devices.DeliverOnce(data, test)
                                    case Err(e) => (Some(e), None)
                                    case Ok(s) => (None, Some(s)))
      ensures !isSender ==> thrown.None? && testSocket.None? && hostListeners == old(hostListeners) + 1
      ensures isSender == old(isSender) && deviceName == old(deviceName) && isTest == old(isTest)
      ensures devices == old(devices) && requests == old(requests)
    {
      if isSender {
        var created := SocketFactory.Create(Devices.PeerConfig, test.connect);
        if created.socket.Err? {
          return Some(created.socket.error), None;
        }
        var c := new ClientImpl(created.socket.value);
        var writeLog := c.Write(data, test.streamOk, test.write);
        var closeLog := c.Close(test.close);
        return None, Some(c.socket);
      }
      hostListeners := hostListeners + 1;
      return None, None;
    }

    /** One turn of `sendBroadcast`'s loop: connect, send the envelope, disconnect. */
    static method Serve(d: Devices.ClientDeviceImpl, envelope: TransferData, s: PeerScript, ghost x: Exchanged)
      returns (thrown: Option<Throwable>)
      requires x == Exchange(d.isConnected, s, envelope)
      modifies d`isConnected, d`client
      ensures d.isConnected == x.isConnected && thrown == x.thrown
      ensures x.socket.Some? ==> d.client != null && fresh(d.client) && d.client.socket == x.socket.value
      ensures x.socket.None? ==> d.client == old(d.client)
    {
      thrown := d.Connect(s.pair, s.wait);
      if thrown.Some? {
        return;
      }
      thrown := d.SendData(envelope, s.send);
      if thrown.Some? {
        return;
      }
      d.Disconnect();
    }

    /**
     * `sendBroadcast(data)`. In test mode only `testCommunication` runs. Otherwise each device of
     * a snapshot of the list is served in order with the rewritten envelope, `scripts[i]` giving
     * the platform's answers for the i-th; the first exception ends the broadcast and propagates,
     * and the devices after it are left alone.
     */
    method SendBroadcast(data: TransferData, scripts: seq<PeerScript>, test: Devices.ClientPlatform)
      returns (thrown: Option<Throwable>, testSocket: Option<SocketState>)
      requires Valid()
      requires |scripts| == |devices|
      modifies this, devices`isConnected, devices`client
      ensures Valid()
      ensures devices == old(devices) && isSender == old(isSender) && deviceName == old(deviceName)
      ensures isTest == old(isTest) && requests == old(requests)
      ensures old(isTest) && isSender ==>
        && hostListeners == old(hostListeners)
        && (thrown, testSocket) == (match Devices.DeliverOnce(data, test)
                                    case Err(e) => (Some(e), None)
                                    case Ok(s) => (None, Some(s)))
      ensures old(isTest) && !isSender ==> thrown.None? && testSocket.None? && hostListeners == old(hostListeners) + 1
      ensures old(isTest) ==> forall i :: 0 <= i < |devices| ==>
        devices[i].isConnected == old(devices[i].isConnected) && devices[i].client == old(devices[i].client)
      ensures !old(isTest) ==>
        var envelope := Rewrite(data, deviceName);
        var stop := FirstFailure(old(Flags(devices)), scripts, envelope, 0);
        && testSocket.None? && hostListeners == old(hostListeners)
        && (forall i :: 0 <= i < stop ==> Delivered(devices[i], old(devices[i].isConnected), scripts[i], envelope))
        && (forall i :: 0 <= i < stop ==> fresh(devices[i].client))
        && (stop < |devices| ==>
              var x := Exchange(old(devices[stop].isConnected), scripts[stop], envelope);
              thrown == x.thrown && devices[stop].isConnected == x.isConnected
              && devices[stop].client == old(devices[stop].client))
        && (stop == |devices| ==> thrown.None?)
        && (forall i :: stop < i < |devices| ==>
              devices[i].isConnected == old(devices[i].isConnected) && devices[i].client == old(devices[i].client))
      ensures forall i :: 0 <= i < |devices| ==> devices[i].macAndInetAddress == old(devices[i].macAndInetAddress)
    {
      if isTest {
        thrown, testSocket := TestCommunication(data, test);
        return;
      }
      thrown := ServeAll(devices, Rewrite(data, deviceName), scripts);
      testSocket := None;
    }

    /**
     * `devices.toList().forEach { ... }`: serve the devices of the snapshot in order; the first
     * exception ends the loop.
     */
    static method ServeAll(snapshot: seq<Devices.ClientDeviceImpl>, envelope: TransferData, scripts: seq<PeerScript>)
      returns (thrown: Option<Throwable>)
      requires forall i, j :: 0 <= i < j < |snapshot| ==> snapshot[i] != snapshot[j]
      requires |scripts| == |snapshot|
      modifies snapshot`isConnected, snapshot`client
      ensures var stop := FirstFailure(old(Flags(snapshot)), scripts, envelope, 0);
        && (forall i :: 0 <= i < stop ==> Delivered(snapshot[i], old(snapshot[i].isConnected), scripts[i], envelope))
        && (forall i :: 0 <= i < stop ==> fresh(snapshot[i].client))
        && (stop < |snapshot| ==>
              var x := Exchange(old(snapshot[stop].isConnected), scripts[stop], envelope);
              thrown == x.thrown && snapshot[stop].isConnected == x.isConnected
              && snapshot[stop].client == old(snapshot[stop].client))
        && (stop == |snapshot| ==> thrown.None?)
        && (forall i :: stop < i < |snapshot| ==>
              snapshot[i].isConnected == old(snapshot[i].isConnected) && snapshot[i].client == old(snapshot[i].client))
      ensures forall i :: 0 <= i < |snapshot| ==> snapshot[i].macAndInetAddress == old(snapshot[i].macAndInetAddress)
    {
      ghost var conns := Flags(snapshot);
      ghost var stop := FirstFailure(conns, scripts, envelope, 0);
      ghost var xs := seq(|snapshot|, i requires 0 <= i < |snapshot| => Exchange(conns[i], scripts[i], envelope));
      var k;
      thrown, k := ServeEach(snapshot, envelope, scripts, conns, xs);
      forall i | 0 <= i < |snapshot| ensures xs[i].thrown.Some? <==> Fails(conns[i], scripts[i], envelope) {
        ExchangeSpec(conns[i], scripts[i], envelope);
      }
      assert k == stop;
    }

    /**
     * The loop of `sendBroadcast` against the exchanges `xs` the devices are due: it ends at the
     * first one that throws, after serving every device before it.
     */
    static method ServeEach(snapshot: seq<Devices.ClientDeviceImpl>, envelope: TransferData, scripts: seq<PeerScript>,
                            ghost conns: seq<bool>, ghost xs: seq<Exchanged>)
      returns (thrown: Option<Throwable>, k: nat)
      requires forall i, j :: 0 <= i < j < |snapshot| ==> snapshot[i] != snapshot[j]
      requires |scripts| == |snapshot| == |conns| == |xs|
      requires forall i :: 0 <= i < |snapshot| ==> snapshot[i].isConnected == conns[i]
      requires forall i :: 0 <= i < |xs| ==> xs[i] == Exchange(conns[i], scripts[i], envelope)
      modifies snapshot`isConnected, snapshot`client
      ensures k <= |snapshot|
      ensures forall i :: 0 <= i < k ==> xs[i].thrown.None? && HoldsExchange(snapshot[i], xs[i]) && fresh(snapshot[i].client)
      ensures k < |snapshot| ==>
        && thrown == xs[k].thrown && thrown.Some?
        && snapshot[k].isConnected == xs[k].isConnected && snapshot[k].client == old(snapshot[k].client)
      ensures k == |snapshot| ==> thrown.None?
      ensures forall i :: k < i < |snapshot| ==>
        snapshot[i].isConnected == old(snapshot[i].isConnected) && snapshot[i].client == old(snapshot[i].client)
    {
      k := 0;
      thrown := None;
      while k < |snapshot|
        invariant 0 <= k <= |snapshot| && thrown.None?
        invariant forall i :: 0 <= i < k ==> xs[i].thrown.None? && HoldsExchange(snapshot[i], xs[i]) && fresh(snapshot[i].client)
        invariant forall i :: k <= i < |snapshot| ==>
          snapshot[i].isConnected == conns[i] && snapshot[i].client == old(snapshot[i].client)
      {
        var d := snapshot[k];
        assert d.isConnected == conns[k];
        assert forall i :: 0 <= i < |snapshot| && i != k ==> snapshot[i] != d;
        thrown := Serve(d, envelope, scripts[k], xs[k]);
        if thrown.Some? {
          return;
        }
        k := k + 1;
      }
    }
  }
}
