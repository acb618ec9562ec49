# Wi-Fi Direct socket communication, modelled in Dafny

This project models the core of an Android library that sends `TransferData` envelopes between
devices over Wi-Fi Direct. It covers four layers.

- **Sockets.** `ClientImpl` wraps one socket. It has a lazy object reader and writer, a `read`
  that wraps every failure, a `write` that never throws, and a guarded three-step `close`.
  `ServerImpl` accepts connections on port 8080 and hands one envelope per connection to a
  callback. `SocketFactoryImpl` builds the outbound socket and the listening socket.
  `getLocalIpAddress` finds the first non-loopback IPv4 address.
- **Service discovery (NSD).** There are three snapshots of the same component: the two
  `NsdController`s and `NsdManagerImpl`. Each registers this device and discovers services of
  type `_nsdchat._tcp`. Each resolves the matching services and skips its own.
- **Wi-Fi Direct peers.** `P2pController` and `P2pManagerImpl` keep the peer table with its
  connected flags and pair with a peer. They turn platform broadcasts into commands and advertise
  the local address in a DNS-SD TXT record.
- **The manager.** `CommunicationManagerImpl` keeps the list of `ClientDeviceImpl` peers and sends
  a rewritten envelope to each of them in turn. It reacts to the peer, connection and
  this-device broadcasts. `ClientDeviceImpl` pairs with one peer, sends one envelope over a fresh
  socket, and builds a MAC-to-address table of the reachable hosts of the local subnet.

The modules follow the source files:

| module | file |
|---|---|
| `SocketClient` | ClientImpl.kt |
| `SocketServer` | ServerImpl.kt |
| `SocketFactory` | SocketFactoryImpl.kt |
| `LocalAddress` | Utils.kt and its three copies |
| `NsdCommon` | what the three NSD components share |
| `ControllersNsd` | controllers/NsdController.kt |
| `ManagersNsd` | managers/NsdController.kt |
| `NsdManager` | NsdManagerImpl.kt |
| `P2pCommon` | what the two P2P components share |
| `ControllersP2p` | controllers/P2pController.kt |
| `P2pManager` | P2pManagerImpl.kt |
| `Subnet` | the subnet scan shared by the manager and the device |
| `Devices` | devices/ClientDeviceImpl.kt |
| `Communication` | CommunicationManagerImpl.kt |

`Wrappers`, `Text` and `Entities` hold `Option`/`Result`, string helpers and the shared records.

How the model stands in for what it cannot see:

- **Sockets are records of flags.** A socket is a `SocketState` value: endpoint, timeouts,
  shutdown flags, closed flag, objects written and objects flushed. It is held in a `ClientImpl`
  field.
- **Platform answers are oracle parameters.** What the Android platform answers comes in as a
  parameter of the method that meets it. This covers resolution, bind and connect faults, write
  and close faults, broadcasts, peer lists, ping results, probe results and interface look-ups.
- **Platform calls are recorded.** Calls into `NsdManager` and `WifiP2pManager` are appended to
  a `requests` field. Items emitted into a flow are appended to a `commands` field.
- **Waiting loops run on scripts.** The polling loops and the accept loop consume a finite
  script. A script that runs out means "still waiting".
- **Class methods are proved against functions.** Each class method is proved against a
  specification function, and the properties are lemmas about that function.

The code behaves as follows where its names or configuration suggest otherwise:

- `create` makes a single connection attempt. The configured `readWriteTimeout` is never
  applied to the socket (the socket's read timeout stays 0).
- `sendBroadcast` does not isolate failures per peer. The first exception, from pairing or from
  `sendData`, aborts the `forEach`, and the remaining peers are not served.
- `getMacAddress` returns inside the first loop iteration. The MAC text is therefore the first
  byte in hex, followed by one space when more bytes exist.
- `createServerSocket` binds to the local IPv4 address on the fixed port 8080 with a backlog
  of 55. It does not take a port argument.

## Model

| member | source | states |
|---|---|---|
| SocketClient.LazyBuiltOnce | socketCommunicationImplementation/src/main/java/com/gmail/maystruks08/communicationimplementation/ClientImpl.kt:17-32 | A lazy stream is built on first use and never rebuilt: a second read returns the first value |
| SocketClient.ReadWrapsEveryFailure | socketCommunicationImplementation/src/main/java/com/gmail/maystruks08/communicationimplementation/ClientImpl.kt:34-42 | `read` returns exactly the envelope on the stream; a missing reader, a foreign object or a read failure becomes ReadFromClientSocketError with the cause's message, and a message-less cause a NullPointerException |
| SocketClient.WriteEffectSpec | socketCommunicationImplementation/src/main/java/com/gmail/maystruks08/communicationimplementation/ClientImpl.kt:45-55 | `write` never changes anything but the written objects; it writes nothing without a writer and, when nothing fails, writes the object exactly once and flushes it |
| SocketClient.CloseSpec | socketCommunicationImplementation/src/main/java/com/gmail/maystruks08/communicationimplementation/ClientImpl.kt:57-70 | An error-free `close` leaves input shut, output shut and the socket closed; an open socket closes without error when the platform raises nothing; `close` only sets flags; a second close changes nothing and raises nothing |
| SocketClient.ClientImpl.constructor | socketCommunicationImplementation/src/main/java/com/gmail/maystruks08/communicationimplementation/ClientImpl.kt:10-15 | A client wraps the given socket and has built neither stream |
| SocketClient.ClientImpl.Reader | socketCommunicationImplementation/src/main/java/com/gmail/maystruks08/communicationimplementation/ClientImpl.kt:17-24 | The reader is built once: present exactly when the stream could be had from a socket neither closed nor shut for input |
| SocketClient.ClientImpl.Writer | socketCommunicationImplementation/src/main/java/com/gmail/maystruks08/communicationimplementation/ClientImpl.kt:25-32 | The writer is built once: present exactly when the stream could be had from a socket neither closed nor shut for output |
| SocketClient.ClientImpl.Read | socketCommunicationImplementation/src/main/java/com/gmail/maystruks08/communicationimplementation/ClientImpl.kt:34-42 | The result is the wrapped read outcome for the reader as built; the socket and the writer are untouched |
| SocketClient.ClientImpl.Write | socketCommunicationImplementation/src/main/java/com/gmail/maystruks08/communicationimplementation/ClientImpl.kt:45-55 | A shut output is refused before the writer is built; the socket changes as WriteEffect says; the success line is logged exactly when the writer exists and neither write nor flush fails |
| SocketClient.ClientImpl.Close | socketCommunicationImplementation/src/main/java/com/gmail/maystruks08/communicationimplementation/ClientImpl.kt:57-70 | The socket becomes CloseSteps' result and the error line is logged exactly when a step threw |
| SocketServer.HandleSpec | socketCommunicationImplementation/src/main/java/com/gmail/maystruks08/communicationimplementation/ServerImpl.kt:63-79 | Each connection gives the callback exactly one envelope, the one read or a code-0 failure envelope with a ReadFromClientSocketError; only a message-less read failure gives no callback, leaves the client registered and lets its NullPointerException escape the handler; the connection is closed in every case |
| SocketServer.StopServerSpec | socketCommunicationImplementation/src/main/java/com/gmail/maystruks08/communicationimplementation/ServerImpl.kt:47-60 | `close` closes only an existing open listener, leaves the clients alone when that throws, otherwise shuts every open client down; a second close does nothing; only the listener's closed flag changes |
| SocketServer.ServeOnlyConnections | socketCommunicationImplementation/src/main/java/com/gmail/maystruks08/communicationimplementation/ServerImpl.kt:28-45 | With only connections arriving the accept loop never ends and the listener is unchanged; the delivered list grows by exactly the connections' envelopes in arrival order, the registry by exactly the leaked clients' sockets in order, and the escaped list by their exceptions in order |
| SocketServer.ServeConnection | socketCommunicationImplementation/src/main/java/com/gmail/maystruks08/communicationimplementation/ServerImpl.kt:34-40 | A connection accepted on an open listener is handled and absorbed, and the loop goes on with the rest; its delivery, leaked socket and escaped exception lead the rest's |
| SocketServer.ServeStops | socketCommunicationImplementation/src/main/java/com/gmail/maystruks08/communicationimplementation/ServerImpl.kt:28-45 | The loop fails at the first failing accept or a close during accept, and returns after a close between two accepts, with the listener closed and the clients closed |
| SocketServer.RemoveFirstOfAppended | socketCommunicationImplementation/src/main/java/com/gmail/maystruks08/communicationimplementation/ServerImpl.kt:63-79 | Removing the client just registered restores the registry |
| SocketServer.ServerImpl.constructor | socketCommunicationImplementation/src/main/java/com/gmail/maystruks08/communicationimplementation/ServerImpl.kt:17-26 | A new server has no listener, no clients, has delivered nothing and no exception has escaped |
| SocketServer.ServerImpl.Close | socketCommunicationImplementation/src/main/java/com/gmail/maystruks08/communicationimplementation/ServerImpl.kt:47-60 | The listener and the clients' sockets become StopServer's result; the registry itself, the deliveries and the escaped exceptions are unchanged |
| SocketServer.ServerImpl.Process | socketCommunicationImplementation/src/main/java/com/gmail/maystruks08/communicationimplementation/ServerImpl.kt:63-79 | The envelope delivered, the exception that escapes and the closed socket are those of Handle on the client's socket |
| SocketServer.ServerImpl.HandleClient | socketCommunicationImplementation/src/main/java/com/gmail/maystruks08/communicationimplementation/ServerImpl.kt:63-79 | The registry grows by the client exactly when it leaked, and then its exception joins the escaped list; the delivered list grows by the delivery otherwise; the registry stays free of duplicates |
| SocketServer.ServerImpl.Finish | socketCommunicationImplementation/src/main/java/com/gmail/maystruks08/communicationimplementation/ServerImpl.kt:67-77 | With a delivery the callback receives it and the client leaves the registry; without one the client stays registered, nothing is delivered and the handler's exception is recorded as escaped |
| SocketServer.ServerImpl.Register | socketCommunicationImplementation/src/main/java/com/gmail/maystruks08/communicationimplementation/ServerImpl.kt:65 | The client is appended to the registry, which stays free of duplicates; nothing else changes |
| SocketServer.ServerImpl.Deregister | socketCommunicationImplementation/src/main/java/com/gmail/maystruks08/communicationimplementation/ServerImpl.kt:77 | Removing the client registered last restores the registry as it was before it was added; nothing else changes |
| SocketServer.ServerImpl.Accept | socketCommunicationImplementation/src/main/java/com/gmail/maystruks08/communicationimplementation/ServerImpl.kt:34-40 | One turn of the accept loop moves the listener, the registry's sockets, the deliveries and the escaped exceptions exactly as Step does, and fails exactly where Step fails; only fresh clients join the registry |
| SocketServer.ServerImpl.ReadFromClients | socketCommunicationImplementation/src/main/java/com/gmail/maystruks08/communicationimplementation/ServerImpl.kt:28-45 | A listener that could not be created gives "Server error" and changes nothing else; otherwise the listener, registry, deliveries and escaped exceptions end as Serve says, and every ServerError outcome throws "Server error" |
| SocketFactory.CreateSpec | socketCommunicationImplementation/src/main/java/com/gmail/maystruks08/communicationimplementation/SocketFactoryImpl.kt:14-28 | `create` succeeds exactly for an in-range port, a non-negative timeout and a platform that binds, resolves and connects; the socket goes to the configured endpoint with the connect timeout and no read timeout; failures are CreateSocketError; ping is only logged on failure and never changes the outcome |
| SocketFactory.CreateServerSocketSpec | socketCommunicationImplementation/src/main/java/com/gmail/maystruks08/communicationimplementation/SocketFactoryImpl.kt:30-44 | `createServerSocket` succeeds exactly with a local address and a bind that works, then listens on that address, port 8080, backlog 55, with address reuse; no local address gives CreateSocketError("hostname can't be null") |
| LocalAddress.FirstQualifyingSpec | remoteCommunication/src/main/java/com/gmail/maystruks08/remotecommunication/Utils.kt:14-30 | The first non-loopback IPv4 address is found exactly when one exists, and no earlier address qualifies |
| LocalAddress.LocalIpSpec | remoteCommunication/src/main/java/com/gmail/maystruks08/remotecommunication/Utils.kt:14-30 | `getLocalIpAddress` is null exactly when enumeration throws or no interface has a non-loopback IPv4 address; otherwise it is the host address of such an address |
| LocalAddress.GetLocalIpAddress | remoteCommunication/src/main/java/com/gmail/maystruks08/remotecommunication/Utils.kt:14-30 | The nested enumeration loops return LocalIp of the enumeration |
| NsdCommon.ClassifySpec | remoteCommunication/src/main/java/com/gmail/maystruks08/remotecommunication/controllers/NsdController.kt:84-97 | A found service is resolved exactly when its type is "_nsdchat._tcp.", it is not this device's own service and its name contains the wanted name; a wrong type and the own name are told apart |
| NsdCommon.ResolvesOnlyMatchesAppend | remoteCommunication/src/main/java/com/gmail/maystruks08/remotecommunication/controllers/NsdController.kt:84-97 | Appending requests that keep the resolve rule (every resolve is of a service of the right type whose name contains the wanted name) keeps it |
| NsdCommon.RegistrationSpec | remoteCommunication/src/main/java/com/gmail/maystruks08/remotecommunication/controllers/NsdController.kt:40-59 | Only a successful registration (or a failed unregistration of a kept one) leaves a current service; success records the platform's service and name; NsdManagerImpl never forgets a recorded name |
| NsdCommon.NameOf | remoteCommunication/src/main/java/com/gmail/maystruks08/remotecommunication/controllers/NsdController.kt:150-152 | The current service's name exists exactly when a current service does |
| ControllersNsd.NsdController.constructor | remoteCommunication/src/main/java/com/gmail/maystruks08/remotecommunication/controllers/NsdController.kt:17-27 | No listeners, no current service, no connected services, nothing requested or emitted |
| ControllersNsd.NsdController.StartWork | remoteCommunication/src/main/java/com/gmail/maystruks08/remotecommunication/controllers/NsdController.kt:29-60 | Forgets the current service and asks to register "private_nsd_service", "_nsdchat._tcp", port 8080 |
| ControllersNsd.NsdController.OnRegistrationEvent | remoteCommunication/src/main/java/com/gmail/maystruks08/remotecommunication/controllers/NsdController.kt:40-59 | The current service follows the registration listener's rule; nothing else changes |
| ControllersNsd.NsdController.StopWork | remoteCommunication/src/main/java/com/gmail/maystruks08/remotecommunication/controllers/NsdController.kt:62-72 | Unregisters and stops discovery only for listeners that exist, then clears the listeners, the current service and the connected set |
| ControllersNsd.NsdController.DiscoverNdsServices | remoteCommunication/src/main/java/com/gmail/maystruks08/remotecommunication/controllers/NsdController.kt:74-122 | Asks to discover "_nsdchat._tcp" and installs the discovery listener |
| ControllersNsd.NsdController.OnServiceFound | remoteCommunication/src/main/java/com/gmail/maystruks08/remotecommunication/controllers/NsdController.kt:84-97 | The action is Classify against the current service's name; a resolve of the found service is requested exactly for ResolveIt; every resolve in the request log stays one of a matching service |
| ControllersNsd.NsdController.OnServiceLost | remoteCommunication/src/main/java/com/gmail/maystruks08/remotecommunication/controllers/NsdController.kt:99-103 | The lost service leaves the connected set; nothing else changes |
| ControllersNsd.NsdController.OnDiscoveryStopped | remoteCommunication/src/main/java/com/gmail/maystruks08/remotecommunication/controllers/NsdController.kt:104-107 | ServiceDiscoveryFinished is emitted |
| ControllersNsd.NsdController.OnDiscoveryFailed | remoteCommunication/src/main/java/com/gmail/maystruks08/remotecommunication/controllers/NsdController.kt:109-117 | A start or stop failure asks to stop discovery |
| ControllersNsd.NsdController.OnServiceResolved | remoteCommunication/src/main/java/com/gmail/maystruks08/remotecommunication/controllers/NsdController.kt:136-147 | The own service is skipped; any other joins the connected set and is announced once with NewServiceConnected; every connected service stays announced |
| ManagersNsd.NsdController.constructor | remoteCommunication/src/main/java/com/gmail/maystruks08/remotecommunication/managers/NsdController.kt:16-26 | No listeners, no current service, no connected services, nothing requested or emitted |
| ManagersNsd.NsdController.StartWork | remoteCommunication/src/main/java/com/gmail/maystruks08/remotecommunication/managers/NsdController.kt:28-59 | Forgets the current service and asks to register "NsdChat", "_nsdchat._tcp", port 8080 |
| ManagersNsd.NsdController.OnRegistrationEvent | remoteCommunication/src/main/java/com/gmail/maystruks08/remotecommunication/managers/NsdController.kt:39-58 | The current service follows the registration listener's rule; nothing else changes |
| ManagersNsd.NsdController.StopWork | remoteCommunication/src/main/java/com/gmail/maystruks08/remotecommunication/managers/NsdController.kt:61-69 | Unregisters and stops discovery for listeners that exist, clears the current service and the connected set, and keeps both listener references |
| ManagersNsd.NsdController.DiscoverNdsServices | remoteCommunication/src/main/java/com/gmail/maystruks08/remotecommunication/managers/NsdController.kt:71-119 | Asks to discover "_nsdchat._tcp" and installs the discovery listener |
| ManagersNsd.NsdController.OnServiceFound | remoteCommunication/src/main/java/com/gmail/maystruks08/remotecommunication/managers/NsdController.kt:81-94 | The action is Classify against the current service's name; a resolve of the found service is requested exactly for ResolveIt; every resolve in the request log stays one of a matching service |
| ManagersNsd.NsdController.OnServiceLost | remoteCommunication/src/main/java/com/gmail/maystruks08/remotecommunication/managers/NsdController.kt:96-100 | The lost service leaves the connected set; nothing else changes |
| ManagersNsd.NsdController.OnDiscoveryStopped | remoteCommunication/src/main/java/com/gmail/maystruks08/remotecommunication/managers/NsdController.kt:101-104 | ServiceDiscoveryFinished is emitted |
| ManagersNsd.NsdController.OnDiscoveryFailed | remoteCommunication/src/main/java/com/gmail/maystruks08/remotecommunication/managers/NsdController.kt:106-116 | A start or stop failure asks to stop discovery |
| ManagersNsd.NsdController.OnServiceResolved | remoteCommunication/src/main/java/com/gmail/maystruks08/remotecommunication/managers/NsdController.kt:130-141 | The own service is skipped; any other joins the connected set and is announced once |
| NsdManager.NsdManagerImpl.constructor | remoteCommunication/src/main/java/com/gmail/maystruks08/remotecommunication/NsdManagerImpl.kt:19-30 | No recorded name, no kept service, nothing requested or emitted |
| NsdManager.NsdManagerImpl.OnStart | remoteCommunication/src/main/java/com/gmail/maystruks08/remotecommunication/NsdManagerImpl.kt:32-39 | Asks to register "NsdChat", "_nsdchat._tcp", port 8080 |
| NsdManager.NsdManagerImpl.OnStop | remoteCommunication/src/main/java/com/gmail/maystruks08/remotecommunication/NsdManagerImpl.kt:41-46 | Asks to unregister and to stop discovery |
| NsdManager.NsdManagerImpl.OnRegistrationEvent | remoteCommunication/src/main/java/com/gmail/maystruks08/remotecommunication/NsdManagerImpl.kt:121-138 | Only a successful registration records the name |
| NsdManager.NsdManagerImpl.DiscoverNdsServices | remoteCommunication/src/main/java/com/gmail/maystruks08/remotecommunication/NsdManagerImpl.kt:48-94 | Asks to discover "_nsdchat._tcp" |
| NsdManager.NsdManagerImpl.OnServiceFound | remoteCommunication/src/main/java/com/gmail/maystruks08/remotecommunication/NsdManagerImpl.kt:58-71 | The action is Classify against the recorded name; a resolve of the found service is requested exactly for ResolveIt; every resolve in the request log stays one of a matching service |
| NsdManager.NsdManagerImpl.OnDiscoveryFailed | remoteCommunication/src/main/java/com/gmail/maystruks08/remotecommunication/NsdManagerImpl.kt:81-92 | A start or stop failure asks to stop discovery |
| NsdManager.NsdManagerImpl.OnServiceResolved | remoteCommunication/src/main/java/com/gmail/maystruks08/remotecommunication/NsdManagerImpl.kt:106-117 | A service with the recorded name is skipped; any other becomes the kept service and is emitted; the kept service is always the last one emitted |
| P2pCommon.RebuiltSpec | remoteCommunication/src/main/java/com/gmail/maystruks08/remotecommunication/controllers/P2pController.kt:206-219 | After a rebuild the keys are exactly the reported devices' addresses, each device's address keeps the flag it had under that address (so a renamed record of a connected peer stays connected) or gets false, and the order lists one reported device per address |
| P2pCommon.ApplyPeersSpec | remoteCommunication/src/main/java/com/gmail/maystruks08/remotecommunication/controllers/P2pController.kt:206-219 | A peer list of the table's size leaves it alone even if the devices differ; otherwise the keys become exactly the reported addresses with their old flags; the table stays well formed (addresses distinct, keys and order agree) |
| P2pCommon.RebuildPeers | remoteCommunication/src/main/java/com/gmail/maystruks08/remotecommunication/controllers/P2pController.kt:206-219 | The clear-and-refill loop yields ApplyPeers |
| P2pCommon.PollSpec | remoteCommunication/src/main/java/com/gmail/maystruks08/remotecommunication/controllers/P2pController.kt:58-74 | `getWifiP2pDevices` returns only once the table is not empty, and then returns one device per key address, each address once |
| P2pCommon.AwaitPeers | remoteCommunication/src/main/java/com/gmail/maystruks08/remotecommunication/controllers/P2pController.kt:58-74 | The polling loop yields AwaitDevices |
| P2pCommon.WaitResultSpec | remoteCommunication/src/main/java/com/gmail/maystruks08/remotecommunication/controllers/P2pController.kt:231-261 | The wait reports a connection exactly for a connection broadcast whose network is connected; a connection broadcast without network info throws a NullPointerException; any other broadcast, or one after the 60-second deadline, gives false |
| P2pCommon.ConnectRequestSpec | remoteCommunication/src/main/java/com/gmail/maystruks08/remotecommunication/controllers/P2pController.kt:77-107 | A failed pair throws ConnectToRemoteError with the code and leaves the table; a peer whose address is flagged gives true; a connection broadcast without network info throws a NullPointerException and leaves the table; otherwise the wait result is stored under the peer's address only, a new address going last; the answer is true exactly when the address was connected or the broadcast says connected |
| P2pCommon.ReactionSpec | remoteCommunication/src/main/java/com/gmail/maystruks08/remotecommunication/controllers/P2pController.kt:117-158 | DeviceConnected exactly for a connected network, DeviceDisconnected for any other connection broadcast, CurrentDeviceChanged exactly for an attached device (carrying it), a peer-list request exactly for PEERS_CHANGED |
| P2pCommon.TxtRecordRoundTrip | remoteCommunication/src/main/java/com/gmail/maystruks08/remotecommunication/controllers/P2pController.kt:160-189 | The TXT record has exactly the keys devicePort and deviceIp, and reading it back gives "8080" and the local address or "Can't get ip" |
| ControllersP2p.P2pController.constructor | remoteCommunication/src/main/java/com/gmail/maystruks08/remotecommunication/controllers/P2pController.kt:33-46 | An empty peer table, nothing registered, requested or emitted |
| ControllersP2p.P2pController.StartWork | remoteCommunication/src/main/java/com/gmail/maystruks08/remotecommunication/controllers/P2pController.kt:52-56 | Initialises the channel and registers the receiver |
| ControllersP2p.P2pController.RequestPeers | remoteCommunication/src/main/java/com/gmail/maystruks08/remotecommunication/controllers/P2pController.kt:206-219 | The table becomes ApplyPeers of the reported list and stays well formed |
| ControllersP2p.P2pController.GetWifiP2pDevices | remoteCommunication/src/main/java/com/gmail/maystruks08/remotecommunication/controllers/P2pController.kt:58-74 | Asks to discover and for the peer list; the table and the answer are AwaitDevices' |
| ControllersP2p.P2pController.SendConnectRequest | remoteCommunication/src/main/java/com/gmail/maystruks08/remotecommunication/controllers/P2pController.kt:77-107 | Sends the pair command with group-owner intent 0; the table and the answer (or the pair failure or the missing-network-info exception) are ConnectRequest's |
| ControllersP2p.P2pController.StopWork | remoteCommunication/src/main/java/com/gmail/maystruks08/remotecommunication/controllers/P2pController.kt:109-113 | Unregisters the receiver and asks to remove the group exactly when some peer is known |
| ControllersP2p.P2pController.OnReceive | remoteCommunication/src/main/java/com/gmail/maystruks08/remotecommunication/controllers/P2pController.kt:117-158 | The reaction is ReactionTo the broadcast; a command is emitted or the peer list requested accordingly |
| ControllersP2p.P2pController.RegisterDnsService | remoteCommunication/src/main/java/com/gmail/maystruks08/remotecommunication/controllers/P2pController.kt:160-174 | Advertises "private_nsd_service", "_nsdchat._tcp" with the TXT record of the local address |
| ControllersP2p.P2pController.DiscoverDnsSdServiceResponse | remoteCommunication/src/main/java/com/gmail/maystruks08/remotecommunication/controllers/P2pController.kt:176-189 | Installs the DNS-SD response listeners; nothing else changes |
| P2pManager.P2pManagerImpl.constructor | remoteCommunication/src/main/java/com/gmail/maystruks08/remotecommunication/P2pManagerImpl.kt:31-44 | An empty peer table, nothing registered, requested or emitted |
| P2pManager.P2pManagerImpl.StartWork | remoteCommunication/src/main/java/com/gmail/maystruks08/remotecommunication/P2pManagerImpl.kt:50-54 | Initialises the channel and registers the receiver |
| P2pManager.P2pManagerImpl.RequestPeers | remoteCommunication/src/main/java/com/gmail/maystruks08/remotecommunication/P2pManagerImpl.kt:205-217 | The table becomes ApplyPeers of the reported list and stays well formed |
| P2pManager.P2pManagerImpl.GetWifiP2pDevices | remoteCommunication/src/main/java/com/gmail/maystruks08/remotecommunication/P2pManagerImpl.kt:56-72 | Asks to discover and for the peer list; the table and the answer are AwaitDevices' |
| P2pManager.P2pManagerImpl.SendConnectRequest | remoteCommunication/src/main/java/com/gmail/maystruks08/remotecommunication/P2pManagerImpl.kt:75-105 | Sends the pair command with group-owner intent 0; the table and the answer (or the pair failure or the missing-network-info exception) are ConnectRequest's |
| P2pManager.P2pManagerImpl.StopWork | remoteCommunication/src/main/java/com/gmail/maystruks08/remotecommunication/P2pManagerImpl.kt:107-112 | Unregisters the receiver and always asks to remove the group |
| P2pManager.P2pManagerImpl.OnReceive | remoteCommunication/src/main/java/com/gmail/maystruks08/remotecommunication/P2pManagerImpl.kt:116-157 | The reaction is ReactionTo the broadcast; a command is emitted or the peer list requested accordingly |
| P2pManager.P2pManagerImpl.RegisterDnsService | remoteCommunication/src/main/java/com/gmail/maystruks08/remotecommunication/P2pManagerImpl.kt:159-173 | Advertises "NsdChat", "_nsdchat._tcp" with the TXT record of the local address |
| P2pManager.P2pManagerImpl.DiscoverDnsService | remoteCommunication/src/main/java/com/gmail/maystruks08/remotecommunication/P2pManagerImpl.kt:175-188 | Installs the DNS-SD response listeners; nothing else changes |
| Subnet.SubnetPrefix | remoteCommunication/src/main/java/com/gmail/maystruks08/remotecommunication/CommunicationManagerImpl.kt:323-324 | The prefix is a prefix of the address, empty or ending in '.', and no '.' follows it in the address |
| Subnet.CandidatesDistinct | remoteCommunication/src/main/java/com/gmail/maystruks08/remotecommunication/CommunicationManagerImpl.kt:326-337 | Different host numbers give different candidate addresses |
| Subnet.CandidateInSubnet | remoteCommunication/src/main/java/com/gmail/maystruks08/remotecommunication/CommunicationManagerImpl.kt:326-337 | Every candidate cut after its last '.' gives the prefix back |
| Subnet.ScanUpToSpec | remoteCommunication/src/main/java/com/gmail/maystruks08/remotecommunication/CommunicationManagerImpl.kt:326-337 | The scan fails exactly when some probe throws, then with one of the thrown causes; otherwise it holds exactly the reachable candidates, each once, all inside the prefix |
| Subnet.ScanStaysFailed | remoteCommunication/src/main/java/com/gmail/maystruks08/remotecommunication/CommunicationManagerImpl.kt:326-337 | Once a probe has thrown, later probes do not change the outcome |
| Subnet.ScanSubnet | remoteCommunication/src/main/java/com/gmail/maystruks08/remotecommunication/CommunicationManagerImpl.kt:326-337 | The probe loop over hosts 0..254 yields Scan |
| Subnet.GetAllIpsInLocaleNetwork | remoteCommunication/src/main/java/com/gmail/maystruks08/remotecommunication/CommunicationManagerImpl.kt:320-341 | The result is the scan of the local address's subnet |
| Devices.ConnectStepSpec | remoteCommunication/src/main/java/com/gmail/maystruks08/remotecommunication/devices/ClientDeviceImpl.kt:48-75 | `connect` throws exactly when pairing fails (ConnectToRemoteError with the code) or an unconnected device's wait meets a connection broadcast without network info (NullPointerException); a throw leaves the flag; otherwise the device is connected exactly when it was or the broadcast says connected |
| Devices.DeliverOnceSpec | remoteCommunication/src/main/java/com/gmail/maystruks08/remotecommunication/devices/ClientDeviceImpl.kt:77-96 | A delivery fails exactly when the socket cannot be created, with CreateSocketError; otherwise the socket goes to 192.168.0.106:8080 with a 1000 ms connect timeout and no read timeout, carries the envelope exactly once when it can be written, is flushed when nothing fails and shut and closed when close meets no error |
| Devices.SendOutcomeSpec | remoteCommunication/src/main/java/com/gmail/maystruks08/remotecommunication/devices/ClientDeviceImpl.kt:77-96 | A failing connection-info query is the outcome whatever the socket platform would do, so no socket is made; otherwise the delivery fails exactly when the socket cannot be created, with CreateSocketError, and succeeds with a socket to 192.168.0.106:8080 (1000 ms connect timeout, no read timeout) carrying the envelope once when it can be written and closed when close succeeds |
| Devices.MacTextSpec | remoteCommunication/src/main/java/com/gmail/maystruks08/remotecommunication/devices/ClientDeviceImpl.kt:108-123 | The MAC text exists exactly for a non-empty hardware address; it is two upper-case hex digits reading back as the first byte unsigned, followed by one space exactly when more bytes exist |
| Devices.LastWith | remoteCommunication/src/main/java/com/gmail/maystruks08/remotecommunication/devices/ClientDeviceImpl.kt:125-132 | The index of the last address whose MAC text is the key, or -1 |
| Devices.MacTableSpec | remoteCommunication/src/main/java/com/gmail/maystruks08/remotecommunication/devices/ClientDeviceImpl.kt:125-132 | The table has a key exactly for each MAC text some address yields, mapped to the last address yielding it |
| Devices.ClientDeviceImpl.constructor | remoteCommunication/src/main/java/com/gmail/maystruks08/remotecommunication/devices/DeviceFactoryImpl.kt:25-35 | A device keeps the peer's address, has no client, no cached table and is not connected |
| Devices.ClientDeviceImpl.Connect | remoteCommunication/src/main/java/com/gmail/maystruks08/remotecommunication/devices/ClientDeviceImpl.kt:48-75 | The flag and the exception are ConnectStep's, including the NullPointerException of a broadcast without network info; the client and the cache are untouched |
| Devices.ClientDeviceImpl.SendData | remoteCommunication/src/main/java/com/gmail/maystruks08/remotecommunication/devices/ClientDeviceImpl.kt:77-96 | Throws exactly what SendOutcome fails with and then keeps the old client; otherwise keeps a fresh client whose socket is the delivered one |
| Devices.ClientDeviceImpl.GetMacAddress | remoteCommunication/src/main/java/com/gmail/maystruks08/remotecommunication/devices/ClientDeviceImpl.kt:108-123 | The loop that returns in its first iteration yields MacText |
| Devices.ClientDeviceImpl.GetHasMapWithMacAndIp | remoteCommunication/src/main/java/com/gmail/maystruks08/remotecommunication/devices/ClientDeviceImpl.kt:125-132 | A failed scan propagates and leaves the cache; otherwise the map is MacTable of the scanned addresses and is cached |
| Devices.ClientDeviceImpl.Disconnect | remoteCommunication/src/main/java/com/gmail/maystruks08/remotecommunication/devices/ClientDeviceImpl.kt:185-199 | Changes nothing |
| Communication.RewriteSpec | remoteCommunication/src/main/java/com/gmail/maystruks08/remotecommunication/CommunicationManagerImpl.kt:136-140 | The rewritten envelope keeps code and error, and its payload is "From :" + name + " -> " followed by the original payload or "null" |
| Communication.WithoutSpec | remoteCommunication/src/main/java/com/gmail/maystruks08/remotecommunication/CommunicationManagerImpl.kt:246-262 | The kept peers (KeptPeers is the filter for "samsung") are exactly those whose name does not contain the word in any case, and there are no more of them than reported |
| Communication.WithoutAppend | remoteCommunication/src/main/java/com/gmail/maystruks08/remotecommunication/CommunicationManagerImpl.kt:246-262 | The filter keeps the reported order: filtering a concatenation concatenates the filtered parts |
| Communication.ExchangeSpec | remoteCommunication/src/main/java/com/gmail/maystruks08/remotecommunication/CommunicationManagerImpl.kt:136-140 | Serving a peer throws exactly when its pair fails, an unconnected peer's wait meets a connection broadcast without network info, or `sendData` throws; only otherwise does the envelope reach its socket, exactly once when it can be written |
| Communication.FirstFailure | remoteCommunication/src/main/java/com/gmail/maystruks08/remotecommunication/CommunicationManagerImpl.kt:136-140 | The first peer from a position on whose exchange throws, given the peers' connected flags; none before it does |
| Communication.FirstNonEmpty | remoteCommunication/src/main/java/com/gmail/maystruks08/remotecommunication/CommunicationManagerImpl.kt:200-209 | The first non-empty peer list from a position on; all before it are empty |
| Communication.Rounds | remoteCommunication/src/main/java/com/gmail/maystruks08/remotecommunication/CommunicationManagerImpl.kt:200-209 | n rounds of the discovery loop make 2n requests, alternating discover and peer-list requests |
| Communication.ReceiveAgreesWithControllers | remoteCommunication/src/main/java/com/gmail/maystruks08/remotecommunication/CommunicationManagerImpl.kt:149-177 | The manager starts a host listener exactly where the controllers emit DeviceConnected and only in receiver mode, asks for peers exactly where they do, and takes the attached device's name or "No Name" |
| Communication.CommunicationManagerImpl.constructor | remoteCommunication/src/main/java/com/gmail/maystruks08/remotecommunication/CommunicationManagerImpl.kt:35-55 | Receiver mode, name "No Name", no devices, no listeners, nothing requested |
| Communication.CommunicationManagerImpl.SetMode | remoteCommunication/src/main/java/com/gmail/maystruks08/remotecommunication/CommunicationManagerImpl.kt:81-83 | Sets the sender flag; nothing else changes |
| Communication.CommunicationManagerImpl.Adopt | remoteCommunication/src/main/java/com/gmail/maystruks08/remotecommunication/CommunicationManagerImpl.kt:246-262 | The list is replaced by fresh devices for the found peers exactly when the sizes differ |
| Communication.CommunicationManagerImpl.RequestPeers | remoteCommunication/src/main/java/com/gmail/maystruks08/remotecommunication/CommunicationManagerImpl.kt:246-262 | Asks for the peer list and adopts the peers not named "samsung" |
| Communication.CommunicationManagerImpl.RequestPeersCo | remoteCommunication/src/main/java/com/gmail/maystruks08/remotecommunication/CommunicationManagerImpl.kt:226-244 | Asks for the peer list and adopts every peer |
| Communication.CommunicationManagerImpl.DiscoverPeers | remoteCommunication/src/main/java/com/gmail/maystruks08/remotecommunication/CommunicationManagerImpl.kt:200-209 | A non-empty list is left alone; otherwise discovery rounds run until the first non-empty answer, whose peers are adopted; found exactly when the list ends non-empty |
| Communication.CommunicationManagerImpl.OnPeerConnectionChanged | remoteCommunication/src/main/java/com/gmail/maystruks08/remotecommunication/CommunicationManagerImpl.kt:179-198 | Missing network info throws a NullPointerException; a connected network in receiver mode starts one host listener |
| Communication.CommunicationManagerImpl.OnReceive | remoteCommunication/src/main/java/com/gmail/maystruks08/remotecommunication/CommunicationManagerImpl.kt:149-177 | A device broadcast sets the name, a connection broadcast may start a listener or throw, a peer broadcast requests and adopts the filtered peers |
| Communication.CommunicationManagerImpl.TestCommunication | remoteCommunication/src/main/java/com/gmail/maystruks08/remotecommunication/CommunicationManagerImpl.kt:107-125 | A sender delivers the unchanged envelope once to the fixed address (or throws what creation throws); a receiver starts a host listener |
| Communication.CommunicationManagerImpl.Serve | remoteCommunication/src/main/java/com/gmail/maystruks08/remotecommunication/CommunicationManagerImpl.kt:136-140 | One device's turn ends with the exchange's flag, exception and, on success, a fresh client holding the delivered socket |
| Communication.CommunicationManagerImpl.SendBroadcast | remoteCommunication/src/main/java/com/gmail/maystruks08/remotecommunication/CommunicationManagerImpl.kt:128-141 | Test mode runs only the test; otherwise every device before the first failing one receives the rewritten envelope, the failing one's exception propagates, and the later devices are untouched |
| Communication.CommunicationManagerImpl.ServeAll | remoteCommunication/src/main/java/com/gmail/maystruks08/remotecommunication/CommunicationManagerImpl.kt:136-140 | Devices before the first failure are delivered to, the failing one's exception is returned, later devices and all caches are untouched |
| Communication.CommunicationManagerImpl.ServeEach | remoteCommunication/src/main/java/com/gmail/maystruks08/remotecommunication/CommunicationManagerImpl.kt:136-140 | The loop stops at the first device whose exchange throws and returns that exception; every device before it holds its exchange's flag and a fresh client with the delivered socket; the devices after it are untouched |

## Left out

- Concurrency. The coroutines, the mutexes and the shared flows are not modelled.
  - Each accepted client is handled to completion before the next accept.
  - A concurrent `close` is one event of the accept script.
  - `getAllIpsInLocaleNetwork`'s 255 asynchronous probes run in parallel and fill the list in
    completion order. The model probes sequentially in host order and reports the
    lowest-numbered failure, which stands for the one `awaitAll` rethrows.
- Subnet.ScanSubnet: the list is in host order, not completion order, for the reason above.
- Logging. `CommunicationLogger` only logs; only the log lines that decide behaviour are kept.
  This covers `ClientImpl`'s write and close log lines and whether `create` logs a ping result.
- Serialization. `ObjectInputStream`/`ObjectOutputStream` are not modelled. A read yields an
  envelope, a foreign object or an exception, as the platform answers.
- `ping` and `isReachable(300)`. They are not run; the exit code and the probe result are given
  per address.
- Android platform calls. Registration, discovery, resolution, pairing, group removal and
  `addLocalService` are recorded as requests. Their answers arrive through the callback methods.
- Device identity. `WifiP2pDevice` and `NsdServiceInfo` are records. `NsdServiceInfo` carries an
  identity field because it has no `equals`. `WifiP2pDevice` equals another exactly when their
  device addresses are equal, so the peer table is keyed by address; which of two records with
  one address the table lists is the first one reported.
- Communication.KeptPeers: "samsung" is matched ignoring the case of ASCII letters only. Kotlin's
  `ignoreCase` also folds non-ASCII letters.
- A null enumeration from `NetworkInterface.getNetworkInterfaces()` is treated like a
  `SocketException`: no address.
- `InetAddress` is modelled as its address string.
- `getConnectionInfo` only passes the platform's answer through. It is modelled as the possible
  exception of `sendData`'s first step.
- Callbacks that only log are not separate members. These are `onDiscoveryStarted`,
  `onResolveFailed`, `NsdManagerImpl`'s `onServiceLost` and `onDiscoveryStopped`, and the DNS-SD
  TXT and service listeners; the TXT listeners' look-ups are
  `P2pCommon.ReadTxtRecord`.
- Stale listeners. The listener objects themselves are not modelled, only whether one exists.
  The `IllegalArgumentException` Android raises for a listener registered twice or never
  registered is not modelled either.
- `messageCode` is an unbounded integer. Kotlin's 32-bit `Int` is never computed on here.
- `CommunicationManagerImpl`'s `onResume`, `onPause`, `observeBroadcast`, `registerReceiver`,
  `unregisterReceiver`, `disconnectDevice`, `deletePersistentGroups` and `discoverPeersCo`,
  and `P2pManagerImpl`'s `deletePersistentGroups`. They only register with or call into the
  platform, or call reflection, and have no state the model keeps; `discoverPeers`' loop is
  modelled with its requests.
- P2pCommon.WaitResult: a connection broadcast without network info makes `networkInfo!!` throw
  a NullPointerException inside the broadcast receiver, on the main thread, where it ends the
  process. The model reports that exception as the outcome of `sendConnectRequest` and `connect`
  (the table or flag left unchanged); the process ending is not modelled.
- P2pCommon.WaitResult: when no broadcast ever arrives, `sendConnectRequest` and `connect` never
  return. The wait is a plain `suspendCoroutine`, which ignores the cancellation of
  `withTimeout(60 * 1000)`, so the 60-second limit does not end it and a timeout never yields
  false on its own. The model has no outcome for a call that never returns; every `WaitOutcome`
  is a broadcast that did arrive (`LateIntent` for one after the deadline).
- SocketServer.ServerImpl.HandleClient: the NullPointerException of a message-less read failure
  escapes the launched coroutine and is recorded in `escaped`. What the injected scope's handler
  then does, including cancelling the scope so that later connections go unhandled, is not
  modelled; the model goes on handling later connections.
- Devices.ClientDeviceImpl.Connect: the pair request's configuration (the device address and
  group-owner intent 0) is not recorded on the device.
- Communication.CommunicationManagerImpl.SendBroadcast: it requires one platform script per
  device. The script stands for what the platform does and is not a demand of the source.
- The `HostDeviceImpl` listener that a receiver starts is counted in `hostListeners`. What it
  reads is the server's behaviour, modelled in `SocketServer`.
- Communication.CommunicationManagerImpl.TestCommunication: the socket of the test send is
  returned as an out-parameter, because the source keeps no reference to it.
- `MainActivity` and the interfaces (`Client`, `Server`, `SocketFactory`, `CommunicationManager`,
  `ClientDevice`, `DeviceFactory`, `HostDevice`) are not part of this model.
