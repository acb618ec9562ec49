/**
 * NsdManagerImpl: the oldest of the three NSD components. It records only the name under which
 * this device got registered, and keeps the latest resolved service of another device.
 */
module NsdManager {
  import opened Wrappers
  import opened Entities
  import opened NsdCommon

  const ServiceName := "NsdChat"

  /** What the discovery flow emits. */
  datatype NsdServiceCommand = ReceivedRemoteConnectionInfo(serviceInfo: NsdServiceInfo)

  class NsdManagerImpl {
    var serviceName: Option<string>           // `_serviceName`
    var serviceInfo: Option<NsdServiceInfo>   // `_serviceInfo`
    var requests: seq<NsdRequest>
    var commands: seq<NsdServiceCommand>

    /**
     * Every resolve asked of the platform was for a matching service, and the kept service is
     * the one of the latest event emitted.
     */
    ghost predicate Valid()
      reads this
    {
      && ResolvesOnlyMatches(requests, ServiceName)
      && (serviceInfo.Some? <==> |commands| > 0)
      && (serviceInfo.Some? ==> commands[|commands| - 1] == ReceivedRemoteConnectionInfo(serviceInfo.value))
    }

    constructor ()
      ensures Valid() && serviceName.None? && serviceInfo.None? && requests == [] && commands == []
    {
      serviceName := None;
      serviceInfo := None;
      requests := [];
      commands := [];
    }

    /** `onStart`: register name "NsdChat", the service type and the server's port. */
    method OnStart()
      requires Valid()
      modifies this
      ensures Valid()
      ensures requests == old(requests) + [RegisterService(Registration("NsdChat", "_nsdchat._tcp", 8080))]
      ensures serviceName == old(serviceName) && serviceInfo == old(serviceInfo) && commands == old(commands)
    {
      requests := requests + [RegisterService(Registration(ServiceName, ServiceType, LocalServerPort))];
    }

    /** `onStop`: unregister, then stop discovery. */
    method OnStop()
      requires Valid()
      modifies this
      ensures Valid()
      ensures requests == old(requests) + [UnregisterService, StopServiceDiscovery]
      ensures serviceName == old(serviceName) && serviceInfo == old(serviceInfo) && commands == old(commands)
    {
      requests := requests + [UnregisterService, StopServiceDiscovery];
    }

    /** `registrationListener`: only a successful registration does anything; it records the name. */
    method OnRegistrationEvent(e: RegistrationEvent)
      requires Valid()
      modifies this
      ensures Valid()
      ensures serviceName == OwnNameAfter(old(serviceName), e)
      ensures serviceInfo == old(serviceInfo) && requests == old(requests) && commands == old(commands)
    {
      if e.ServiceRegistered? {
        serviceName := Some(e.registered.serviceName);
      }
    }

    /** `discoverNdsServices`: start discovering the service type. */
    method DiscoverNdsServices()
      requires Valid()
      modifies this
      ensures Valid()
      ensures requests == old(requests) + [DiscoverServices("_nsdchat._tcp")]
      ensures serviceName == old(serviceName) && serviceInfo == old(serviceInfo) && commands == old(commands)
    {
      requests := requests + [DiscoverServices(ServiceType)];
    }

    /** `onServiceFound`: classify against the recorded own name, resolve a matching service. */
    method OnServiceFound(service: NsdServiceInfo) returns (action: FoundAction)
      requires Valid()
      modifies this
      ensures Valid()
      ensures action == Classify(service, old(serviceName), ServiceName)
      ensures requests == old(requests) + (if action == ResolveIt then [ResolveService(service)] else [])
      ensures serviceName == old(serviceName) && serviceInfo == old(serviceInfo) && commands == old(commands)
    {
      action := Classify(service, serviceName, ServiceName);
      ResolvesOnlyMatchesAppend(requests, FoundRequests(service, serviceName, ServiceName), ServiceName);
      requests := requests + FoundRequests(service, serviceName, ServiceName);
    }

    /** `onStartDiscoveryFailed` and `onStopDiscoveryFailed`: ask the platform to stop discovery. */
    method OnDiscoveryFailed(errorCode: int)
      requires Valid()
      modifies this
      ensures Valid()
      ensures requests == old(requests) + [StopServiceDiscovery]
      ensures serviceName == old(serviceName) && serviceInfo == old(serviceInfo) && commands == old(commands)
    {
      ResolvesOnlyMatchesAppend(requests, [StopServiceDiscovery], ServiceName);
      requests := requests + [StopServiceDiscovery];
    }

    /**
     * `onServiceResolved`: a service named like this device is skipped; any other replaces the
     * kept service (latest wins) and is emitted exactly once.
     */
    method OnServiceResolved(resolved: NsdServiceInfo)
      requires Valid()
      modifies this
      ensures Valid()
      ensures SameService(resolved.serviceName, old(serviceName)) ==>
        serviceInfo == old(serviceInfo) && commands == old(commands)
      ensures !SameService(resolved.serviceName, old(serviceName)) ==>
        serviceInfo == Some(resolved) && commands == old(commands) + [ReceivedRemoteConnectionInfo(resolved)]
      ensures serviceName == old(serviceName) && requests == old(requests)
    {
      if serviceName == Some(resolved.serviceName) {
        return;
      }
      serviceInfo := Some(resolved);
      commands := commands + [ReceivedRemoteConnectionInfo(resolved)];
    }
  }
}
