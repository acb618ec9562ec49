/**
 * `getLocalIpAddress`: the first non-loopback IPv4 address of the first network interface that
 * has one, in the order the platform enumerates them; null when there is none or when
 * enumerating the interfaces fails with a SocketException. The same routine is repeated in
 * the socket factory, the communication manager and the client device.
 */
module LocalAddress {
  import opened Wrappers

  /** An address bound to an interface: its textual form and the two tests the routine applies. */
  datatype InetAddress = InetAddress(hostAddress: string, isLoopback: bool, isIPv4: bool)

  datatype NetworkInterface = NetworkInterface(addresses: seq<InetAddress>)

  /** `!isLoopbackAddress && internetAddress is Inet4Address`. */
  predicate Qualifies(a: InetAddress) {
    !a.isLoopback && a.isIPv4
  }

  /** Every address of every interface, in enumeration order. */
  function AllAddresses(interfaces: seq<NetworkInterface>): seq<InetAddress> {
    if interfaces == [] then [] else interfaces[0].addresses + AllAddresses(interfaces[1..])
  }

  /** The host address of the first qualifying address. */
  function FirstQualifying(addresses: seq<InetAddress>): Option<string> {
    if addresses == [] then None
    else if Qualifies(addresses[0]) then Some(addresses[0].hostAddress)
    else FirstQualifying(addresses[1..])
  }

  /**
   * The routine's answer; `enumerated` is None when `NetworkInterface.getNetworkInterfaces()`
   * throws a SocketException.
   */
  function LocalIp(enumerated: Option<seq<NetworkInterface>>): Option<string> {
    if enumerated.None? then None else FirstQualifying(AllAddresses(enumerated.value))
  }

  /**
   * The first qualifying address is found exactly when one exists, and what is returned is the
   * host address of a qualifying address before which no address qualifies.
   */
  lemma {:induction false} FirstQualifyingSpec(addresses: seq<InetAddress>)
    ensures FirstQualifying(addresses).None? <==> forall k :: 0 <= k < |addresses| ==> !Qualifies(addresses[k])
    ensures FirstQualifying(addresses).Some? ==>
      exists k :: 0 <= k < |addresses| && Qualifies(addresses[k])
        && addresses[k].hostAddress == FirstQualifying(addresses).value
        && forall m :: 0 <= m < k ==> !Qualifies(addresses[m])
    decreases |addresses|
  {
    if addresses != [] && !Qualifies(addresses[0]) {
      var rest := addresses[1..];
      FirstQualifyingSpec(rest);
      assert forall k :: 0 < k < |addresses| ==> addresses[k] == rest[k - 1];
      if FirstQualifying(rest).Some? {
        var k :| 0 <= k < |rest| && Qualifies(rest[k]) && rest[k].hostAddress == FirstQualifying(rest).value
          && forall m :: 0 <= m < k ==> !Qualifies(rest[m]);
        assert addresses[k + 1] == rest[k];
      }
    } else if addresses != [] {
      assert Qualifies(addresses[0]);
    }
  }

  /** An address in the list of one interface appears in the flattened enumeration. */
  lemma {:induction false} AllAddressesContains(interfaces: seq<NetworkInterface>, i: nat, j: nat)
    requires i < |interfaces| && j < |interfaces[i].addresses|
    ensures interfaces[i].addresses[j] in AllAddresses(interfaces)
    decreases i
  {
    if i > 0 {
      assert interfaces[1..][i - 1] == interfaces[i];
      AllAddressesContains(interfaces[1..], i - 1, j);
    }
  }

  /**
   * The routine returns null exactly when enumeration fails or no interface carries a
   * non-loopback IPv4 address; whatever it returns is the text of such an address.
   */
  lemma LocalIpSpec(enumerated: Option<seq<NetworkInterface>>)
    ensures LocalIp(enumerated).None? <==>
      enumerated.None? ||
      forall i, j :: 0 <= i < |enumerated.value| && 0 <= j < |enumerated.value[i].addresses| ==>
        !Qualifies(enumerated.value[i].addresses[j])
    ensures LocalIp(enumerated).Some? ==>
      exists a :: a in AllAddresses(enumerated.value) && Qualifies(a) && a.hostAddress == LocalIp(enumerated).value
  {
    if enumerated.Some? {
      var all := AllAddresses(enumerated.value);
      FirstQualifyingSpec(all);
      if LocalIp(enumerated).None? {
        forall i, j | 0 <= i < |enumerated.value| && 0 <= j < |enumerated.value[i].addresses|
          ensures !Qualifies(enumerated.value[i].addresses[j])
        {
          AllAddressesContains(enumerated.value, i, j);
        }
      } else {
        var k :| 0 <= k < |all| && Qualifies(all[k]) && all[k].hostAddress == LocalIp(enumerated).value
          && forall m :: 0 <= m < k ==> !Qualifies(all[m]);
        assert all[k] in all;
        if forall i, j :: 0 <= i < |enumerated.value| && 0 <= j < |enumerated.value[i].addresses| ==>
             !Qualifies(enumerated.value[i].addresses[j]) {
          AllAddressesMembers(enumerated.value, all[k]);
        }
      }
    }
  }

  /** Every address of the flattened enumeration belongs to one interface. */
  lemma {:induction false} AllAddressesMembers(interfaces: seq<NetworkInterface>, a: InetAddress)
    requires a in AllAddresses(interfaces)
    ensures exists i, j :: 0 <= i < |interfaces| && 0 <= j < |interfaces[i].addresses| && interfaces[i].addresses[j] == a
    decreases |interfaces|
  {
    if a in interfaces[0].addresses {
      var j :| 0 <= j < |interfaces[0].addresses| && interfaces[0].addresses[j] == a;
      assert interfaces[0].addresses[j] == a;
    } else {
      AllAddressesMembers(interfaces[1..], a);
      var i, j :| 0 <= i < |interfaces[1..]| && 0 <= j < |interfaces[1..][i].addresses| && interfaces[1..][i].addresses[j] == a;
      assert interfaces[i + 1].addresses[j] == a;
    }
  }

  /** The answer of the enumeration of a sequence that starts with an already scanned prefix. */
  lemma FirstQualifyingSkip(s: seq<InetAddress>, rest: seq<InetAddress>)
    requires s != [] && !Qualifies(s[0])
    ensures FirstQualifying(s + rest) == FirstQualifying(s[1..] + rest)
  {
    assert (s + rest)[1..] == s[1..] + rest;
  }

  /** The nested enumeration loops of `getLocalIpAddress`. */
  method GetLocalIpAddress(enumerated: Option<seq<NetworkInterface>>) returns (ip: Option<string>)
    ensures ip == LocalIp(enumerated)
  {
    if enumerated.None? {
      return None;
    }
    var interfaces := enumerated.value;
    var i := 0;
    while i < |interfaces|
      invariant 0 <= i <= |interfaces|
      invariant FirstQualifying(AllAddresses(interfaces[i..])) == LocalIp(enumerated)
    {
      var addresses := interfaces[i].addresses;
      assert interfaces[i..][1..] == interfaces[i + 1..];
      assert AllAddresses(interfaces[i..]) == addresses + AllAddresses(interfaces[i + 1..]);
      var j := 0;
      while j < |addresses|
        invariant 0 <= j <= |addresses|
        invariant FirstQualifying(addresses[j..] + AllAddresses(interfaces[i + 1..])) == LocalIp(enumerated)
      {
        var address := addresses[j];
        if !address.isLoopback && address.isIPv4 {
          assert (addresses[j..] + AllAddresses(interfaces[i + 1..]))[0] == address;
          return Some(address.hostAddress);
        }
        FirstQualifyingSkip(addresses[j..], AllAddresses(interfaces[i + 1..]));
        assert addresses[j..][1..] == addresses[j + 1..];
        j := j + 1;
      }
      assert addresses[j..] + AllAddresses(interfaces[i + 1..]) == AllAddresses(interfaces[i + 1..]);
      i := i + 1;
    }
    assert interfaces[i..] == [];
    return None;
  }
}
