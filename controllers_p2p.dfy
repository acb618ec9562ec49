/**
 * controllers/P2pController: the Wi-Fi Direct component that keeps the peer table, pairs with a
 * peer, turns the platform's broadcasts into commands and advertises this device's address in a
 * DNS-SD TXT record under "private_nsd_service". Its `stopWork` removes the group only when
 * some peer is known.
 */
module ControllersP2p {
  import opened Wrappers
  import opened Entities
  import opened P2pCommon
  import LocalAddress

  /** The instance name advertised: controllers/NsdController's SERVICE_NAME. */
  const ServiceName := "private_nsd_service"

  class P2pController {
    var channelInitialized: bool
    var receiverRegistered: bool
    var table: PeerTable
    var commands: seq<BroadcastCommand>
    var requests: seq<P2pRequest>

    ghost predicate Valid()
      reads this
    {
      table.Valid()
    }

    constructor ()
      ensures Valid() && !channelInitialized && !receiverRegistered
      ensures table == PeerTable(map[], []) && commands == [] && requests == []
    {
      channelInitialized := false;
      receiverRegistered := false;
      table := PeerTable(map[], []);
      commands := [];
      requests := [];
    }

    /** `startWork`: open the channel and register for the four P2P broadcasts. */
    method StartWork()
      requires Valid()
      modifies this
      ensures Valid() && channelInitialized && receiverRegistered
      ensures requests == old(requests) + [Initialize]
      ensures table == old(table) && commands == old(commands)
    {
      channelInitialized := true;
      requests := requests + [Initialize];
      receiverRegistered := true;
    }

    /** The `requestPeers` callback with the peer list the platform reports. */
    method RequestPeers(clients: seq<WifiP2pDevice>)
      requires Valid()
      modifies this
      ensures Valid()
      ensures table == ApplyPeers(old(table), clients)
      ensures channelInitialized == old(channelInitialized) && receiverRegistered == old(receiverRegistered)
      ensures commands == old(commands) && requests == old(requests)
    {
      ApplyPeersSpec(table, clients);
      table := RebuildPeers(table, clients);
    }

    /**
     * `getWifiP2pDevices`: discover, request the peers, then wait until the table is not empty.
     * `replies` are the peer lists the platform reports meanwhile; None means still waiting.
     */
    method GetWifiP2pDevices(replies: seq<seq<WifiP2pDevice>>) returns (found: Option<seq<WifiP2pDevice>>)
      requires Valid()
      modifies this
      ensures Valid()
      ensures (table, found) == AwaitDevices(old(table), replies)
      ensures requests == old(requests) + [DiscoverPeers, RequestPeerList]
      ensures channelInitialized == old(channelInitialized) && receiverRegistered == old(receiverRegistered)
      ensures commands == old(commands)
    {
      requests := requests + [DiscoverPeers, RequestPeerList];
      if replies != [] {
        ApplyPeersSpec(table, replies[0]);
        PollSpec(ApplyPeers(table, replies[0]), replies[1..]);
      }
      table, found := AwaitPeers(table, replies);
    }

    /** `sendConnectRequest`: send the pair command with group-owner intent 0, then apply the rule. */
    method SendConnectRequest(device: WifiP2pDevice, pair: PairResult, wait: WaitOutcome)
      returns (r: Result<bool, Throwable>)
      requires Valid()
      modifies this
      ensures Valid()
      ensures (table, r) == ConnectRequest(old(table), device, pair, wait)
      ensures requests == old(requests) + [Connect(device.deviceAddress, 0)]
      ensures channelInitialized == old(channelInitialized) && receiverRegistered == old(receiverRegistered)
      ensures commands == old(commands)
    {
      requests := requests + [Connect(device.deviceAddress, 0)];
      ConnectRequestSpec(table, device, pair, wait);
      table, r := ConnectRequest(table, device, pair, wait).0, ConnectRequest(table, device, pair, wait).1;
    }

    /** `stopWork`: unregister the receiver and, when some peer is known, remove the group. */
    method StopWork()
      requires Valid()
      modifies this
      ensures Valid() && !receiverRegistered
      ensures requests == old(requests) + (if |old(table).flags| > 0 then [RemoveGroup] else [])
      ensures table == old(table) && channelInitialized == old(channelInitialized) && commands == old(commands)
    {
      receiverRegistered := false;
      if |table.flags| > 0 {
        requests := requests + [RemoveGroup];
      }
    }

    /** `onReceive`: log, ask for the peers again, or emit a command. */
    method OnReceive(intent: P2pIntent) returns (reaction: Reaction)
      requires Valid()
      modifies this
      ensures Valid()
      ensures reaction == ReactionTo(intent)
      ensures commands == old(commands) + (if reaction.Emit? then [reaction.command] else [])
      ensures requests == old(requests) + (if reaction == RequestPeersAgain then [RequestPeerList] else [])
      ensures table == old(table) && channelInitialized == old(channelInitialized)
      ensures receiverRegistered == old(receiverRegistered)
    {
      reaction := ReactionTo(intent);
      if reaction.Emit? {
        commands := commands + [reaction.command];
      } else if reaction == RequestPeersAgain {
        requests := requests + [RequestPeerList];
      }
    }

    /** `registerDnsService`: advertise the TXT record built from this device's local address. */
    method RegisterDnsService(interfaces: Option<seq<LocalAddress.NetworkInterface>>)
      requires Valid()
      modifies this
      ensures Valid()
      ensures requests == old(requests) +
        [AddLocalService("private_nsd_service", "_nsdchat._tcp", TxtRecord(LocalAddress.LocalIp(interfaces)))]
      ensures table == old(table) && channelInitialized == old(channelInitialized)
      ensures receiverRegistered == old(receiverRegistered) && commands == old(commands)
    {
      var localIp := LocalAddress.GetLocalIpAddress(interfaces);
      requests := requests + [AddLocalService(ServiceName, ServiceType, TxtRecord(localIp))];
    }

    /** `discoverDnsSdServiceResponse`: install the listeners, which only log what they read. */
    method DiscoverDnsSdServiceResponse()
      requires Valid()
      modifies this
      ensures Valid()
      ensures requests == old(requests) + [SetDnsSdResponseListeners]
      ensures table == old(table) && channelInitialized == old(channelInitialized)
      ensures receiverRegistered == old(receiverRegistered) && commands == old(commands)
    {
      requests := requests + [SetDnsSdResponseListeners];
    }
  }
}
