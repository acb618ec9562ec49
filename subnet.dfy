/**
 * getAllIpsInLocaleNetwork, shared by CommunicationManagerImpl and ClientDeviceImpl: take the
 * local IPv4 address, cut it after its last '.', and probe the 255 hosts `prefix + i` for
 * i in 0..254; the reachable ones are collected.
 */
module Subnet {
  import opened Wrappers
  import opened Text
  import opened Entities
  import LocalAddress

  /** The last host number probed (`for (i in 0..254)`). */
  const LastHost := 254

  /**
   * `ipString.substring(0, ipString.lastIndexOf(".") + 1)` of `ip.orEmpty()`: the address up to
   * and including its last '.', or "" when there is no address or no '.'.
   */
  function SubnetPrefix(ip: Option<string>): (prefix: string)
    ensures prefix <= ip.GetOr("")
    ensures prefix == "" || prefix[|prefix| - 1] == '.'
    ensures forall k :: |prefix| <= k < |ip.GetOr("")| ==> ip.GetOr("")[k] != '.'
  {
    var s := ip.GetOr("");
    s[..LastIndexOf(s, '.') + 1]
  }

  /** The probed address `"$prefix$i"`. */
  function Candidate(prefix: string, i: nat): string {
    prefix + NatToString(i)
  }

  /** Different host numbers give different candidate addresses. */
  lemma CandidatesDistinct(prefix: string, i: nat, j: nat)
    ensures Candidate(prefix, i) == Candidate(prefix, j) ==> i == j
  {
    if Candidate(prefix, i) == Candidate(prefix, j) {
      assert NatToString(i) == Candidate(prefix, i)[|prefix|..];
      assert NatToString(j) == Candidate(prefix, j)[|prefix|..];
      NatToStringRoundTrip(i);
      NatToStringRoundTrip(j);
    }
  }

  /**
   * Every candidate lies in the subnet it was built from: cutting a candidate after its last
   * '.' gives the prefix back.
   */
  lemma CandidateInSubnet(ip: Option<string>, i: nat)
    ensures SubnetPrefix(Some(Candidate(SubnetPrefix(ip), i))) == SubnetPrefix(ip)
  {
    var p := SubnetPrefix(ip);
    var c := Candidate(p, i);
    var digits := NatToString(i);
    assert forall k :: |p| <= k < |c| ==> c[k] == digits[k - |p|];
    assert forall k :: |p| <= k < |c| ==> c[k] != '.';
    var r := LastIndexOf(c, '.');
    if p == "" {
      assert r == -1;
    } else {
      assert c[|p| - 1] == '.';
      assert r == |p| - 1;
    }
    assert c[..r + 1] == p;
  }

  /** What `inetAddress.isReachable(300)` does for one candidate. */
  datatype Probe = Reachable | Unreachable | ProbeThrows(cause: Throwable)

  /** The probe for an address; one the platform says nothing about does not answer. */
  function ProbeOf(probes: map<string, Probe>, address: string): Probe {
    if address in probes then probes[address] else Unreachable
  }

  /**
   * The reachable candidates among the first `n`, in host-number order, or the failure of the
   * lowest-numbered probe that throws (which `awaitAll` rethrows).
   */
  function ScanUpTo(prefix: string, probes: map<string, Probe>, n: nat): Result<seq<string>, Throwable> {
    if n == 0 then Ok([])
    else
      match ScanUpTo(prefix, probes, n - 1)
      case Err(e) => Err(e)
      case Ok(found) =>
        match ProbeOf(probes, Candidate(prefix, n - 1))
        case Reachable => Ok(found + [Candidate(prefix, n - 1)])
        case Unreachable => Ok(found)
        case ProbeThrows(e) => Err(e)
  }

  /** The whole scan of hosts 0..254. */
  function Scan(prefix: string, probes: map<string, Probe>): Result<seq<string>, Throwable> {
    ScanUpTo(prefix, probes, LastHost + 1)
  }

  /**
   * The scan fails exactly when some probe throws, and then with the cause of one that did;
   * otherwise it yields exactly the reachable candidates, each once, in host-number order,
   * every one of them inside the subnet.
   */
  lemma {:induction false} ScanUpToSpec(prefix: string, probes: map<string, Probe>, n: nat)
    ensures ScanUpTo(prefix, probes, n).Err? <==>
      exists i :: 0 <= i < n && ProbeOf(probes, Candidate(prefix, i)).ProbeThrows?
    ensures ScanUpTo(prefix, probes, n).Err? ==>
      exists i :: 0 <= i < n && ProbeOf(probes, Candidate(prefix, i)) == ProbeThrows(ScanUpTo(prefix, probes, n).error)
    ensures ScanUpTo(prefix, probes, n).Ok? ==>
      var found := ScanUpTo(prefix, probes, n).value;
      && |found| <= n
      && (forall i :: 0 <= i < n && ProbeOf(probes, Candidate(prefix, i)) == Reachable ==> Candidate(prefix, i) in found)
      && (forall h :: h in found ==> exists i :: 0 <= i < n && h == Candidate(prefix, i) && ProbeOf(probes, h) == Reachable)
      && (forall a, b :: 0 <= a < b < |found| ==> found[a] != found[b])
      && (forall h :: h in found ==> prefix <= h)
  {
    if n > 0 {
      ScanUpToSpec(prefix, probes, n - 1);
      var c := Candidate(prefix, n - 1);
      match ScanUpTo(prefix, probes, n - 1)
      case Err(e) =>
      case Ok(found) =>
        if ProbeOf(probes, c) == Reachable {
          var found' := found + [c];
          forall a, b | 0 <= a < b < |found'| ensures found'[a] != found'[b] {
            if b == |found| {
              assert found[a] in found;
              var i :| 0 <= i < n - 1 && found[a] == Candidate(prefix, i);
              CandidatesDistinct(prefix, i, n - 1);
            }
          }
        }
    }
  }

  /** Once a probe has thrown, later probes do not change the outcome. */
  lemma {:induction false} ScanStaysFailed(prefix: string, probes: map<string, Probe>, i: nat, n: nat)
    requires i <= n
    requires ScanUpTo(prefix, probes, i).Err?
    ensures ScanUpTo(prefix, probes, n) == ScanUpTo(prefix, probes, i)
  {
    if i < n {
      ScanStaysFailed(prefix, probes, i, n - 1);
    }
  }

  /** The candidate loop: probes hosts 0..254 in order and collects the reachable ones. */
  method ScanSubnet(prefix: string, probes: map<string, Probe>) returns (r: Result<seq<string>, Throwable>)
    ensures r == Scan(prefix, probes)
  {
    var found: seq<string> := [];
    var i := 0;
    while i <= LastHost
      invariant 0 <= i <= LastHost + 1
      invariant ScanUpTo(prefix, probes, i) == Ok(found)
    {
      var testIp := prefix + NatToString(i);
      match ProbeOf(probes, testIp) {
        case Reachable =>
          found := found + [testIp];
        case Unreachable =>
        case ProbeThrows(e) =>
          ScanStaysFailed(prefix, probes, i + 1, LastHost + 1);
          return Err(e);
      }
      i := i + 1;
    }
    return Ok(found);
  }

  /**
   * `getAllIpsInLocaleNetwork`: the scan of the subnet of the first non-loopback IPv4 address.
   * Without an address the prefix is "" and the bare numbers "0".."254" are probed.
   */
  method GetAllIpsInLocaleNetwork(enumerated: Option<seq<LocalAddress.NetworkInterface>>, probes: map<string, Probe>)
    returns (r: Result<seq<string>, Throwable>)
    ensures r == Scan(SubnetPrefix(LocalAddress.LocalIp(enumerated)), probes)
  {
    var ipString := LocalAddress.GetLocalIpAddress(enumerated);
    var prefix := SubnetPrefix(ipString);
    r := ScanSubnet(prefix, probes);
  }
}
