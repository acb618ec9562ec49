/**
 * What the two Wi-Fi Direct (P2P) components share: the peer table (the `_devices` map of
 * connected flags, keyed by device address and listed in insertion order), the rule that
 * rebuilds it from a reported peer list, the connect-request rule, the broadcast-to-command
 * mapping, the connection-wait result rule and the DNS-SD TXT record.
 */
module P2pCommon {
  import opened Wrappers
  import opened Text
  import opened Entities

  /** A peer as the platform reports it. */
  datatype WifiP2pDevice = WifiP2pDevice(deviceAddress: string, deviceName: string)

  /** The commands emitted on the component's shared flow. */
  datatype BroadcastCommand = DeviceConnected | DeviceDisconnected | CurrentDeviceChanged(wifiP2pDevice: WifiP2pDevice)

  /** The calls made to the platform's WifiP2pManager, in order. */
  datatype P2pRequest =
    | Initialize
    | DiscoverPeers
    | RequestPeerList
    | Connect(deviceAddress: string, groupOwnerIntent: int)
    | RemoveGroup
    | AddLocalService(instanceName: string, serviceType: string, record: map<string, string>)
    | SetDnsSdResponseListeners

  /** The addresses of a list of peers: what `WifiP2pDevice.equals` and `hashCode` compare. */
  function Addresses(ds: seq<WifiP2pDevice>): seq<string> {
    seq(|ds|, i requires 0 <= i < |ds| => ds[i].deviceAddress)
  }

  /**
   * `_devices`: a hash map keyed by WifiP2pDevice, whose `equals` compares the device address
   * only. `flags` holds each known address's connected flag; `order` holds the key objects in the
   * order a LinkedHashMap iterates them (the first object stored under an address stays the key).
   */
  datatype PeerTable = PeerTable(flags: map<string, bool>, order: seq<WifiP2pDevice>)
  {
    ghost predicate Valid() {
      && (forall i, j :: 0 <= i < j < |order| ==> order[i].deviceAddress != order[j].deviceAddress)
      && (forall a :: a in flags <==> a in Addresses(order))
    }
  }

  /** `_devices[device] ?: false`: the flag stored under the device's address. */
  function FlagOf(flags: map<string, bool>, d: WifiP2pDevice): bool {
    if d.deviceAddress in flags then flags[d.deviceAddress] else false
  }

  /** The flags after `clients.forEach { _devices[it] = oldDevices[it] ?: false }` on a cleared map. */
  function Rebuilt(previous: map<string, bool>, clients: seq<WifiP2pDevice>): map<string, bool>
    decreases |clients|
  {
    if clients == [] then map[]
    else Rebuilt(previous, clients[..|clients| - 1])[clients[|clients| - 1].deviceAddress := FlagOf(previous, clients[|clients| - 1])]
  }

  /** The key order of the same rebuild: the first device reported under each address, in reported order. */
  function KeyOrder(clients: seq<WifiP2pDevice>): seq<WifiP2pDevice>
    decreases |clients|
  {
    if clients == [] then []
    else
      var prefix := KeyOrder(clients[..|clients| - 1]);
      if clients[|clients| - 1].deviceAddress in Addresses(prefix) then prefix else prefix + [clients[|clients| - 1]]
  }

  /** The rebuilt flags: the reported addresses, each with its old flag or false. */
  lemma {:induction false} RebuiltFlags(previous: map<string, bool>, clients: seq<WifiP2pDevice>)
    ensures forall a :: a in Rebuilt(previous, clients) <==> a in Addresses(clients)
    ensures forall d :: d in clients ==>
      d.deviceAddress in Rebuilt(previous, clients) && Rebuilt(previous, clients)[d.deviceAddress] == FlagOf(previous, d)
    decreases |clients|
  {
    if clients != [] {
      var init := clients[..|clients| - 1];
      RebuiltFlags(previous, init);
      assert clients == init + [clients[|clients| - 1]];
      assert Addresses(clients) == Addresses(init) + [clients[|clients| - 1].deviceAddress];
    }
  }

  /** The rebuilt key order: one reported device per reported address. */
  lemma {:induction false} KeyOrderSpec(clients: seq<WifiP2pDevice>)
    ensures forall a :: a in Addresses(KeyOrder(clients)) <==> a in Addresses(clients)
    ensures forall d :: d in KeyOrder(clients) ==> d in clients
    ensures forall i, j :: 0 <= i < j < |KeyOrder(clients)| ==>
      KeyOrder(clients)[i].deviceAddress != KeyOrder(clients)[j].deviceAddress
    decreases |clients|
  {
    if clients != [] {
      var init := clients[..|clients| - 1];
      var last := clients[|clients| - 1];
      KeyOrderSpec(init);
      assert clients == init + [last];
      assert Addresses(clients) == Addresses(init) + [last.deviceAddress];
      var prefix := KeyOrder(init);
      if last.deviceAddress !in Addresses(prefix) {
        assert Addresses(prefix + [last]) == Addresses(prefix) + [last.deviceAddress];
        forall i | 0 <= i < |prefix| ensures prefix[i].deviceAddress != last.deviceAddress {
          assert Addresses(prefix)[i] == prefix[i].deviceAddress;
        }
      }
    }
  }

  /**
   * After a rebuild the known addresses are exactly the reported ones; each reported device gets
   * the flag its address had (so a peer reported under a new name keeps its flag) and a new
   * address starts as not connected; the key order lists each address once, with a reported device.
   */
  lemma RebuiltSpec(previous: map<string, bool>, clients: seq<WifiP2pDevice>)
    ensures forall a :: a in Rebuilt(previous, clients) <==> a in Addresses(clients)
    ensures forall d :: d in clients ==>
      d.deviceAddress in Rebuilt(previous, clients) && Rebuilt(previous, clients)[d.deviceAddress] == FlagOf(previous, d)
    ensures forall a :: a in Addresses(KeyOrder(clients)) <==> a in Addresses(clients)
    ensures forall d :: d in KeyOrder(clients) ==> d in clients
    ensures forall i, j :: 0 <= i < j < |KeyOrder(clients)| ==>
      KeyOrder(clients)[i].deviceAddress != KeyOrder(clients)[j].deviceAddress
  {
    RebuiltFlags(previous, clients);
    KeyOrderSpec(clients);
  }

  /**
   * The `requestPeers` callback: the table is rebuilt only when the reported count differs from
   * the table's size.
   */
  function ApplyPeers(t: PeerTable, clients: seq<WifiP2pDevice>): PeerTable {
    if |t.flags| != |clients| then PeerTable(Rebuilt(t.flags, clients), KeyOrder(clients)) else t
  }

  /**
   * Equal counts leave the table alone, even when the devices differ; otherwise the known
   * addresses are exactly the reported ones, each reported device with its address's old flag,
   * new ones false. The table stays well formed either way.
   */
  lemma ApplyPeersSpec(t: PeerTable, clients: seq<WifiP2pDevice>)
    requires t.Valid()
    ensures ApplyPeers(t, clients).Valid()
    ensures |t.flags| == |clients| ==> ApplyPeers(t, clients) == t
    ensures |t.flags| != |clients| ==>
      && (forall a :: a in ApplyPeers(t, clients).flags <==> a in Addresses(clients))
      && (forall d :: d in clients ==>
            d.deviceAddress in ApplyPeers(t, clients).flags && ApplyPeers(t, clients).flags[d.deviceAddress] == FlagOf(t.flags, d))
      && (forall d :: d in ApplyPeers(t, clients).order ==> d in clients)
  {
    RebuiltSpec(t.flags, clients);
  }

  /** One step of the rebuild loop: the prefix grows by one reported device. */
  lemma RebuildStep(previous: map<string, bool>, clients: seq<WifiP2pDevice>, i: nat)
    requires i < |clients|
    ensures Rebuilt(previous, clients[..i + 1]) ==
      Rebuilt(previous, clients[..i])[clients[i].deviceAddress := FlagOf(previous, clients[i])]
    ensures KeyOrder(clients[..i + 1]) ==
      if clients[i].deviceAddress in Addresses(KeyOrder(clients[..i])) then KeyOrder(clients[..i])
      else KeyOrder(clients[..i]) + [clients[i]]
  {
    assert clients[..i + 1][..i] == clients[..i];
  }

  /** `requestPeers`'s callback: clear and refill the map when the count differs. */
  method RebuildPeers(t: PeerTable, clients: seq<WifiP2pDevice>) returns (r: PeerTable)
    ensures r == ApplyPeers(t, clients)
  {
    if |t.flags| == |clients| {
      return t;
    }
    var oldDevices := t.flags;
    var flags: map<string, bool> := map[];
    var order: seq<WifiP2pDevice> := [];
    var i := 0;
    while i < |clients|
      invariant 0 <= i <= |clients|
      invariant flags == Rebuilt(oldDevices, clients[..i]) && order == KeyOrder(clients[..i])
    {
      var device := clients[i];
      RebuildStep(oldDevices, clients, i);
      flags := flags[device.deviceAddress := if device.deviceAddress in oldDevices then oldDevices[device.deviceAddress] else false];
      if device.deviceAddress !in Addresses(order) {
        order := order + [device];
      }
      i := i + 1;
    }
    assert clients[..i] == clients;
    r := PeerTable(flags, order);
  }

  /**
   * The `while (_devices.isEmpty())` wait of `getWifiP2pDevices`: each further reply is a peer
   * list that a concurrent `requestPeers` delivers. Running out of replies means still waiting.
   */
  function Poll(t: PeerTable, replies: seq<seq<WifiP2pDevice>>): (PeerTable, Option<seq<WifiP2pDevice>>)
    decreases |replies|
  {
    if |t.flags| > 0 then (t, Some(t.order))
    else if replies == [] then (t, None)
    else Poll(ApplyPeers(t, replies[0]), replies[1..])
  }

  /** `getWifiP2pDevices` after its own `requestPeers` gets the first reply. */
  function AwaitDevices(t: PeerTable, replies: seq<seq<WifiP2pDevice>>): (PeerTable, Option<seq<WifiP2pDevice>>) {
    if replies == [] then (t, None) else Poll(ApplyPeers(t, replies[0]), replies[1..])
  }

  /**
   * `getWifiP2pDevices` returns only once the table is not empty, and then returns its keys, one
   * per known address; while it has not returned the table is empty.
   */
  lemma {:induction false} PollSpec(t: PeerTable, replies: seq<seq<WifiP2pDevice>>)
    requires t.Valid()
    ensures var (t', found) := Poll(t, replies);
      && t'.Valid()
      && (found.Some? <==> |t'.flags| > 0)
      && (found.Some? ==>
            found.value == t'.order && |found.value| > 0
            && (forall a :: a in Addresses(found.value) <==> a in t'.flags)
            && (forall i, j :: 0 <= i < j < |found.value| ==> found.value[i].deviceAddress != found.value[j].deviceAddress))
    decreases |replies|
  {
    if |t.flags| > 0 {
      var k :| k in t.flags;
      assert k in Addresses(t.order);
    } else if replies != [] {
      ApplyPeersSpec(t, replies[0]);
      PollSpec(ApplyPeers(t, replies[0]), replies[1..]);
    }
  }

  /** The polling loop of `getWifiP2pDevices`. */
  method AwaitPeers(t: PeerTable, replies: seq<seq<WifiP2pDevice>>) returns (r: PeerTable, found: Option<seq<WifiP2pDevice>>)
    ensures (r, found) == AwaitDevices(t, replies)
  {
    if replies == [] {
      return t, None;
    }
    r := RebuildPeers(t, replies[0]);
    var k := 1;
    while |r.flags| == 0
      invariant 1 <= k <= |replies|
      invariant Poll(r, replies[k..]) == AwaitDevices(t, replies)
      decreases |replies| - k
    {
      if k == |replies| {
        return r, None;
      }
      assert replies[k..][1..] == replies[k + 1..];
      r := RebuildPeers(r, replies[k]);
      k := k + 1;
    }
    return r, Some(r.order);
  }

  /**
   * The first broadcast the `waitConnectionBroadcast` receiver gets. The wait is a plain
   * `suspendCoroutine`, which `withTimeout` cannot cancel: only a broadcast ends it, and one that
   * arrives after the 60-second deadline makes `withTimeout` throw once the block resumes.
   */
  datatype WaitOutcome =
    | ConnectionIntent(networkConnected: bool)   // WIFI_P2P_CONNECTION_CHANGED_ACTION in time
    | ConnectionIntentNoInfo                     // the same action without EXTRA_NETWORK_INFO
    | OtherIntent                                // any other action in time
    | LateIntent                                 // a broadcast after the deadline: false whatever it says
    | WaitFailed(cause: Throwable)               // anything else thrown while waiting

  /** What `networkInfo!!` throws on a connection intent without network info. */
  const MissingNetworkInfo: Throwable := Platform(NullPointerException, None)

  /**
   * `waitConnectionBroadcast`: the connected flag of a connection intent, false for another
   * action, a late broadcast (the TimeoutCancellationException is caught) or a failure; a
   * connection intent without network info makes the receiver throw.
   */
  function WaitResult(w: WaitOutcome): Result<bool, Throwable> {
    match w
    case ConnectionIntent(c) => Ok(c)
    case ConnectionIntentNoInfo => Err(MissingNetworkInfo)
    case _ => Ok(false)
  }

  /**
   * The wait reports a connection only for a connection intent whose network is connected, and
   * throws only for a connection intent without network info, then the NullPointerException.
   */
  lemma WaitResultSpec(w: WaitOutcome)
    ensures WaitResult(w) == Ok(true) <==> w == ConnectionIntent(true)
    ensures WaitResult(w).Err? <==> w == ConnectionIntentNoInfo
    ensures WaitResult(w).Err? ==> WaitResult(w).error == Platform(NullPointerException, None)
  {
  }

  /** What the pair command (`WifiP2pManager.connect`) reports. */
  datatype PairResult = PairSucceeded | PairFailed(code: int)

  /** Storing a flag the way `_devices[device] = value` does: a new address goes last, a known one keeps its key. */
  function Put(t: PeerTable, d: WifiP2pDevice, flag: bool): PeerTable {
    PeerTable(t.flags[d.deviceAddress := flag], if d.deviceAddress in t.flags then t.order else t.order + [d])
  }

  /**
   * `sendConnectRequest` after the pair command: a failed pair throws ConnectToRemoteError with
   * the code as text; a peer whose address is flagged connected gives true at once; otherwise
   * the wait result is stored under the peer and returned, unless the wait throws.
   */
  function ConnectRequest(t: PeerTable, device: WifiP2pDevice, pair: PairResult, wait: WaitOutcome)
    : (PeerTable, Result<bool, Throwable>)
  {
    if pair.PairFailed? then (t, Err(Remote(ConnectToRemoteError(IntToString(pair.code)))))
    else if FlagOf(t.flags, device) then (t, Ok(true))
    else
      match WaitResult(wait)
      case Err(e) => (t, Err(e))
      case Ok(c) => (Put(t, device, c), Ok(c))
  }

  /**
   * The outcomes of a connect request: the pair failure (table untouched), the peer already
   * connected under its address (true, table untouched), the connection intent without network
   * info (NullPointerException, table untouched), and the waited-for result, which is stored
   * under the peer's address and nowhere else, a new address going last. The answer is true
   * exactly when the address was connected already or the intent reports a connected network.
   */
  lemma ConnectRequestSpec(t: PeerTable, device: WifiP2pDevice, pair: PairResult, wait: WaitOutcome)
    requires t.Valid()
    ensures var (t', r) := ConnectRequest(t, device, pair, wait);
      && t'.Valid()
      && (pair.PairFailed? ==> t' == t && r == Err(Remote(ConnectToRemoteError(IntToString(pair.code)))))
      && (pair.PairSucceeded? && FlagOf(t.flags, device) ==> t' == t && r == Ok(true))
      && (pair.PairSucceeded? && !FlagOf(t.flags, device) && wait == ConnectionIntentNoInfo ==>
            t' == t && r == Err(Platform(NullPointerException, None)))
      && (pair.PairSucceeded? && !FlagOf(t.flags, device) && wait != ConnectionIntentNoInfo ==>
            r == Ok(wait.ConnectionIntent? && wait.networkConnected)
            && t'.flags == t.flags[device.deviceAddress := r.value]
            && t'.order == (if device.deviceAddress in t.flags then t.order else t.order + [device]))
      && (r == Ok(true) <==> pair.PairSucceeded? && (FlagOf(t.flags, device) || wait == ConnectionIntent(true)))
  {
    if pair.PairSucceeded? && !FlagOf(t.flags, device) && wait != ConnectionIntentNoInfo {
      var t' := Put(t, device, WaitResult(wait).value);
      if device.deviceAddress !in t.flags {
        assert Addresses(t'.order) == Addresses(t.order) + [device.deviceAddress];
        forall i, j | 0 <= i < j < |t'.order| ensures t'.order[i].deviceAddress != t'.order[j].deviceAddress {
          if j == |t.order| {
            assert Addresses(t.order)[i] == t.order[i].deviceAddress;
          }
        }
      }
    }
  }

  /** The broadcasts the component's receiver is registered for, plus what else may arrive. */
  datatype P2pIntent =
    | StateChanged(wifiState: int)
    | PeersChanged
    | ConnectionChanged(networkConnected: Option<bool>)   // None: no network info attached
    | ThisDeviceChanged(device: Option<WifiP2pDevice>)     // None: no device attached
    | UnrelatedAction
    | NoIntent                                            // a null intent or action

  /** What `onReceive` does. */
  datatype Reaction = OnlyLogs | RequestPeersAgain | Emit(command: BroadcastCommand)

  function ReactionTo(intent: P2pIntent): Reaction {
    match intent
    case StateChanged(_) => OnlyLogs
    case PeersChanged => RequestPeersAgain
    case ConnectionChanged(n) => Emit(if n == Some(true) then DeviceConnected else DeviceDisconnected)
    case ThisDeviceChanged(d) => if d.Some? then Emit(CurrentDeviceChanged(d.value)) else OnlyLogs
    case UnrelatedAction => OnlyLogs
    case NoIntent => OnlyLogs
  }

  /**
   * DeviceConnected is emitted exactly for a connection change whose network info is present and
   * connected, DeviceDisconnected for every other connection change (missing info included);
   * CurrentDeviceChanged carries the attached device and is not emitted without one; only a peer
   * change asks for the peer list again.
   */
  lemma ReactionSpec(intent: P2pIntent)
    ensures ReactionTo(intent) == Emit(DeviceConnected) <==> intent == ConnectionChanged(Some(true))
    ensures ReactionTo(intent) == Emit(DeviceDisconnected) <==>
      intent.ConnectionChanged? && intent.networkConnected != Some(true)
    ensures (ReactionTo(intent).Emit? && ReactionTo(intent).command.CurrentDeviceChanged?) <==>
      intent.ThisDeviceChanged? && intent.device.Some?
    ensures ReactionTo(intent).Emit? && ReactionTo(intent).command.CurrentDeviceChanged? ==>
      ReactionTo(intent).command.wifiP2pDevice == intent.device.value
    ensures ReactionTo(intent) == RequestPeersAgain <==> intent == PeersChanged
  {
  }

  /** The TXT record keys. */
  const DevicePortKey := "devicePort"
  const DeviceIpKey := "deviceIp"
  const NoIpText := "Can't get ip"

  /** `registerDnsService`'s record: the server port as text and the local IP or a fixed text. */
  function TxtRecord(localIp: Option<string>): map<string, string> {
    map[DevicePortKey := IntToString(LocalServerPort), DeviceIpKey := localIp.GetOr(NoIpText)]
  }

  /** The TXT-record listener's lookups: `record[DEVICE_IP_KEY]` and `record[DEVICE_PORT_KEY]`. */
  function ReadTxtRecord(record: map<string, string>): (Option<string>, Option<string>) {
    (if DeviceIpKey in record then Some(record[DeviceIpKey]) else None,
     if DevicePortKey in record then Some(record[DevicePortKey]) else None)
  }

  /**
   * The record has exactly the two keys, the port reads back as "8080" and the IP as the local
   * address or "Can't get ip".
   */
  lemma TxtRecordRoundTrip(localIp: Option<string>)
    ensures TxtRecord(localIp).Keys == {"devicePort", "deviceIp"}
    ensures ReadTxtRecord(TxtRecord(localIp)) ==
      (Some(if localIp.Some? then localIp.value else "Can't get ip"), Some("8080"))
  {
    assert IntToString(8080) == "8080";
  }
}
