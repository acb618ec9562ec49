/**
 * controllers/NsdController: registers this device as "private_nsd_service", discovers the
 * other devices of the same type, resolves the matching ones and keeps the set of resolved
 * services. Every platform callback is a method; every call into NsdManager is recorded in
 * `requests`; every item sent into the discovery flow is recorded in `commands`.
 */
module ControllersNsd {
  import opened Wrappers
  import opened Entities
  import opened NsdCommon

  /** SERVICE_NAME of this snapshot. */
  const ServiceName := "private_nsd_service"

  /** NsdControllerCommand: what the discovery flow emits. */
  datatype NsdControllerCommand =
    | NewServiceConnected(nsdServiceInfo: NsdServiceInfo)
    | ServiceDisconnected(nsdServiceInfo: NsdServiceInfo)
    | ServiceDiscoveryFinished

  class NsdController {
    var registrationListener: bool   // `_registrationListener != null`
    var discoveryListener: bool      // `_discoveryListener != null`
    var currentService: Option<NsdServiceInfo>
    var connectedServices: set<NsdServiceInfo>
    var requests: seq<NsdRequest>
    var commands: seq<NsdControllerCommand>

    /**
     * Every resolve asked of the platform was for a matching service, and every service in the
     * connected set has been announced by a NewServiceConnected.
     */
    ghost predicate Valid()
      reads this
    {
      && ResolvesOnlyMatches(requests, ServiceName)
      && forall s :: s in connectedServices ==> NewServiceConnected(s) in commands
    }

    constructor ()
      ensures Valid()
      ensures !registrationListener && !discoveryListener && currentService.None?
      ensures connectedServices == {} && requests == [] && commands == []
    {
      registrationListener := false;
      discoveryListener := false;
      currentService := None;
      connectedServices := {};
      requests := [];
      commands := [];
    }

    /** `checkIsTheSameService`: a current service exists and has the same name. */
    predicate IsTheSameService(service: NsdServiceInfo)
      reads this
    {
      SameService(service.serviceName, NameOf(currentService))
    }

    /** `startWork`: forget the current service, then register name, type and the server's port. */
    method StartWork()
      requires Valid()
      modifies this
      ensures Valid()
      ensures currentService.None? && registrationListener
      ensures requests == old(requests) + [RegisterService(Registration("private_nsd_service", "_nsdchat._tcp", 8080))]
      ensures discoveryListener == old(discoveryListener) && connectedServices == old(connectedServices)
      ensures commands == old(commands)
    {
      currentService := None;
      requests := requests + [RegisterService(Registration(ServiceName, ServiceType, LocalServerPort))];
      registrationListener := true;
    }

    /** The registration listener's four callbacks. */
    method OnRegistrationEvent(e: RegistrationEvent)
      requires Valid()
      modifies this
      ensures Valid()
      ensures currentService == CurrentServiceAfter(old(currentService), e)
      ensures registrationListener == old(registrationListener) && discoveryListener == old(discoveryListener)
      ensures connectedServices == old(connectedServices) && requests == old(requests) && commands == old(commands)
    {
      match e
      case ServiceRegistered(info) => currentService := Some(info);
      case RegistrationFailed(_) => currentService := None;
      case ServiceUnregistered => currentService := None;
      case UnregistrationFailed(_) =>
    }

    /** `stopWork`: unregister and stop discovery when their listeners exist, then reset everything. */
    method StopWork()
      requires Valid()
      modifies this
      ensures Valid()
      ensures requests == old(requests) + (if old(registrationListener) then [UnregisterService] else [])
                                        + (if old(discoveryListener) then [StopServiceDiscovery] else [])
      ensures currentService.None? && !registrationListener && !discoveryListener && connectedServices == {}
      ensures commands == old(commands)
    {
      if registrationListener {
        requests := requests + [UnregisterService];
      }
      if discoveryListener {
        requests := requests + [StopServiceDiscovery];
      }
      currentService := None;
      registrationListener := false;
      discoveryListener := false;
      connectedServices := {};
    }

    /** `discoverNdsServices`: start discovering the service type with a new listener. */
    method DiscoverNdsServices()
      requires Valid()
      modifies this
      ensures Valid()
      ensures requests == old(requests) + [DiscoverServices("_nsdchat._tcp")] && discoveryListener
      ensures registrationListener == old(registrationListener) && currentService == old(currentService)
      ensures connectedServices == old(connectedServices) && commands == old(commands)
    {
      requests := requests + [DiscoverServices(ServiceType)];
      discoveryListener := true;
    }

    /** `onServiceFound`: classify, and resolve only a matching service of another device. */
    method OnServiceFound(service: NsdServiceInfo) returns (action: FoundAction)
      requires Valid()
      modifies this
      ensures Valid()
      ensures action == Classify(service, NameOf(old(currentService)), ServiceName)
      ensures requests == old(requests) + (if action == ResolveIt then [ResolveService(service)] else [])
      ensures registrationListener == old(registrationListener) && discoveryListener == old(discoveryListener)
      ensures currentService == old(currentService) && connectedServices == old(connectedServices)
      ensures commands == old(commands)
    {
      action := Classify(service, NameOf(currentService), ServiceName);
      ResolvesOnlyMatchesAppend(requests, FoundRequests(service, NameOf(currentService), ServiceName), ServiceName);
      requests := requests + FoundRequests(service, NameOf(currentService), ServiceName);
    }

    /** `onServiceLost`: forget the service (the same object). */
    method OnServiceLost(service: NsdServiceInfo)
      requires Valid()
      modifies this
      ensures Valid()
      ensures connectedServices == old(connectedServices) - {service}
      ensures registrationListener == old(registrationListener) && discoveryListener == old(discoveryListener)
      ensures currentService == old(currentService) && requests == old(requests) && commands == old(commands)
    {
      connectedServices := connectedServices - {service};
    }

    /** `onDiscoveryStopped`: tell the flow that discovery has finished. */
    method OnDiscoveryStopped()
      requires Valid()
      modifies this
      ensures Valid()
      ensures commands == old(commands) + [ServiceDiscoveryFinished]
      ensures registrationListener == old(registrationListener) && discoveryListener == old(discoveryListener)
      ensures currentService == old(currentService) && connectedServices == old(connectedServices)
      ensures requests == old(requests)
    {
      commands := commands + [ServiceDiscoveryFinished];
    }

    /** `onStartDiscoveryFailed` and `onStopDiscoveryFailed`: ask the platform to stop discovery. */
    method OnDiscoveryFailed(errorCode: int)
      requires Valid()
      modifies this
      ensures Valid()
      ensures requests == old(requests) + [StopServiceDiscovery]
      ensures registrationListener == old(registrationListener) && discoveryListener == old(discoveryListener)
      ensures currentService == old(currentService) && connectedServices == old(connectedServices)
      ensures commands == old(commands)
    {
      ResolvesOnlyMatchesAppend(requests, [StopServiceDiscovery], ServiceName);
      requests := requests + [StopServiceDiscovery];
    }

    /**
     * `onServiceResolved`: this device's own service is skipped; any other is added to the
     * connected set and announced exactly once.
     */
    method OnServiceResolved(serviceInfo: NsdServiceInfo)
      requires Valid()
      modifies this
      ensures Valid()
      ensures old(IsTheSameService(serviceInfo)) ==>
        connectedServices == old(connectedServices) && commands == old(commands)
      ensures !old(IsTheSameService(serviceInfo)) ==>
        connectedServices == old(connectedServices) + {serviceInfo}
        && commands == old(commands) + [NewServiceConnected(serviceInfo)]
      ensures registrationListener == old(registrationListener) && discoveryListener == old(discoveryListener)
      ensures currentService == old(currentService) && requests == old(requests)
    {
      if IsTheSameService(serviceInfo) {
        return;
      }
      connectedServices := connectedServices + {serviceInfo};
      commands := commands + [NewServiceConnected(serviceInfo)];
    }
  }
}
