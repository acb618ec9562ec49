/**
 * What the three NSD (DNS-SD service discovery) components share: the service records the
 * platform reports, the requests they make to the platform's NsdManager, the ordered
 * classification of a found service, and the registration-listener events.
 */
module NsdCommon {
  import opened Wrappers
  import opened Text
  import opened Entities

  /**
   * An `NsdServiceInfo` as the platform hands it over. The class has no `equals` of its own, so
   * two reports are the same only when they are the same object: `id` stands for that identity.
   */
  datatype NsdServiceInfo = NsdServiceInfo(id: nat, serviceName: string, serviceType: string)

  /** The record passed to `registerService`. */
  datatype Registration = Registration(serviceName: string, serviceType: string, port: int)

  /** The calls made to the platform's NsdManager, in order. */
  datatype NsdRequest =
    | RegisterService(registration: Registration)
    | UnregisterService
    | DiscoverServices(discoveredType: string)
    | StopServiceDiscovery
    | ResolveService(service: NsdServiceInfo)

  /** The callbacks of a registration listener. */
  datatype RegistrationEvent =
    | ServiceRegistered(registered: NsdServiceInfo)
    | RegistrationFailed(errorCode: int)
    | ServiceUnregistered
    | UnregistrationFailed(errorCode: int)

  /** The branch `onServiceFound` takes. */
  datatype FoundAction = UnknownType | SameMachine | ResolveIt | Dropped

  /** "The same service": this device has a registered name and the found service carries it. */
  predicate SameService(serviceName: string, ownName: Option<string>) {
    ownName == Some(serviceName)
  }

  /**
   * The `when` of `onServiceFound`: a wrong type is ignored first, then this device's own
   * service, then a name containing the wanted name is resolved; anything else is dropped.
   */
  function Classify(service: NsdServiceInfo, ownName: Option<string>, wantedName: string): FoundAction {
    if service.serviceType != ServiceType + "." then UnknownType
    else if SameService(service.serviceName, ownName) then SameMachine
    else if Contains(service.serviceName, wantedName) then ResolveIt
    else Dropped
  }

  /**
   * A found service is resolved exactly when it has the type with the trailing dot, is not this
   * device's own service, and its name contains the wanted name at some position. Before any
   * registration no service counts as this device's own.
   */
  lemma ClassifySpec(service: NsdServiceInfo, ownName: Option<string>, wantedName: string)
    ensures Classify(service, ownName, wantedName) == ResolveIt <==>
      service.serviceType == "_nsdchat._tcp." && !SameService(service.serviceName, ownName)
      && exists i: nat :: OccursAt(service.serviceName, wantedName, i)
    ensures Classify(service, ownName, wantedName) == UnknownType <==> service.serviceType != "_nsdchat._tcp."
    ensures Classify(service, ownName, wantedName) == SameMachine <==>
      service.serviceType == "_nsdchat._tcp." && ownName == Some(service.serviceName)
    ensures ownName.None? ==> Classify(service, ownName, wantedName) != SameMachine
  {
    if Contains(service.serviceName, wantedName) {
      ContainsImpliesOccurs(service.serviceName, wantedName);
    }
    if exists i: nat :: OccursAt(service.serviceName, wantedName, i) {
      var i: nat :| OccursAt(service.serviceName, wantedName, i);
      OccursImpliesContains(service.serviceName, wantedName, i);
    }
  }

  /** The requests `onServiceFound` makes: one resolve, or none. */
  function FoundRequests(service: NsdServiceInfo, ownName: Option<string>, wantedName: string): seq<NsdRequest> {
    if Classify(service, ownName, wantedName) == ResolveIt then [ResolveService(service)] else []
  }

  /** A resolve request is only ever made for a service of the right type whose name matches. */
  predicate ResolvesOnlyMatches(requests: seq<NsdRequest>, wantedName: string) {
    forall k :: 0 <= k < |requests| && requests[k].ResolveService? ==>
      requests[k].service.serviceType == ServiceType + "." && Contains(requests[k].service.serviceName, wantedName)
  }

  /** Appending what `onServiceFound` requests, or any request that is not a resolve, keeps the rule. */
  lemma {:induction false} ResolvesOnlyMatchesAppend(requests: seq<NsdRequest>, more: seq<NsdRequest>, wantedName: string)
    requires ResolvesOnlyMatches(requests, wantedName)
    requires ResolvesOnlyMatches(more, wantedName)
    ensures ResolvesOnlyMatches(requests + more, wantedName)
  {
    forall k | 0 <= k < |requests + more| && (requests + more)[k].ResolveService?
      ensures (requests + more)[k].service.serviceType == ServiceType + "."
      ensures Contains((requests + more)[k].service.serviceName, wantedName)
    {
      if k >= |requests| {
        assert (requests + more)[k] == more[k - |requests|];
      }
    }
  }

  /**
   * The registration listener of the two NsdController snapshots: success records the
   * registered service, failure and unregistration clear it, a failed unregistration keeps it.
   */
  function CurrentServiceAfter(current: Option<NsdServiceInfo>, e: RegistrationEvent): Option<NsdServiceInfo> {
    match e
    case ServiceRegistered(info) => Some(info)
    case RegistrationFailed(_) => None
    case ServiceUnregistered => None
    case UnregistrationFailed(_) => current
  }

  /**
   * The registration listener of NsdManagerImpl: success records the registered name; no other
   * callback touches it.
   */
  function OwnNameAfter(ownName: Option<string>, e: RegistrationEvent): Option<string> {
    if e.ServiceRegistered? then Some(e.registered.serviceName) else ownName
  }

  /**
   * Only a successful registration makes a current service (the one the platform registered,
   * whose name may differ from the one requested); after it the own name of both listener
   * variants is that registration's name; NsdManagerImpl never forgets a name once recorded.
   */
  lemma RegistrationSpec(current: Option<NsdServiceInfo>, ownName: Option<string>, e: RegistrationEvent)
    ensures CurrentServiceAfter(current, e).Some? <==> e.ServiceRegistered? || (e.UnregistrationFailed? && current.Some?)
    ensures e.ServiceRegistered? ==>
      CurrentServiceAfter(current, e) == Some(e.registered) && OwnNameAfter(ownName, e) == Some(e.registered.serviceName)
    ensures ownName.Some? ==> OwnNameAfter(ownName, e).Some?
    ensures !e.ServiceRegistered? ==> OwnNameAfter(ownName, e) == ownName
  {
  }

  /** The name of the current service, as `_currentServiceInfo?.serviceName`. */
  function NameOf(current: Option<NsdServiceInfo>): (r: Option<string>)
    ensures r.Some? <==> current.Some?
  {
    if current.Some? then Some(current.value.serviceName) else None
  }
}
