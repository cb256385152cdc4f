/**
 * Which Docker container runs a given Cassandra node: a scan of the
 * caller's container names by IP, with a loose match, and a fallback
 * through the cluster's host metadata with an exact match.
 */
module ContainerManager {
  import opened Wrappers
  import opened Text
  import opened Driver

  /** One entry of a container's `NetworkSettings.Networks`, in the mapping's iteration order. */
  datatype Network = Network(name: string, ipAddress: Option<string>)

  /**
   * The Docker daemon as the mapper sees it: a container's networks, or None
   * when the container cannot be found or inspected.
   */
  type DockerState = string -> Option<seq<Network>>

  /** An IP lookup for a container name: None when the lookup fails. */
  type Probe = string -> Option<string>

  /** Python truthiness of an optional string: present and not empty. */
  predicate Truthy(s: Option<string>) {
    s.Some? && s.value != ""
  }

  // ---------------------------------------------------------------------
  // get_container_ip

  /** The IP of the first network, in iteration order, that has a non-empty one. */
  function FirstNetworkIp(networks: seq<Network>): (r: Option<string>)
    ensures r.Some? ==> r.value != ""
    ensures r.Some? <==> exists i :: 0 <= i < |networks| && Truthy(networks[i].ipAddress)
    ensures r.Some? ==> exists i :: (0 <= i < |networks| && networks[i].ipAddress == r
      && forall j :: 0 <= j < i ==> !Truthy(networks[j].ipAddress))
    decreases |networks|
  {
    if networks == [] then None
    else if Truthy(networks[0].ipAddress) then networks[0].ipAddress
    else
      var r := FirstNetworkIp(networks[1..]);
      assert forall i :: 1 <= i < |networks| ==> networks[i] == networks[1..][i - 1];
      if r.Some? then
        var i :| 0 <= i < |networks[1..]| && networks[1..][i].ipAddress == r
          && forall j :: 0 <= j < i ==> !Truthy(networks[1..][j].ipAddress);
        assert networks[i + 1].ipAddress == r;
        r
      else r
  }

  /** The IP a container reports: None when it cannot be inspected or has no IP on any network. */
  function ContainerIp(docker: DockerState, name: string): (r: Option<string>)
  {
    match docker(name)
    case None => None
    case Some(networks) => FirstNetworkIp(networks)
  }

  /** get_container_ip: the first network's non-empty IP; None if there is none or the inspection fails. */
  method GetContainerIp(docker: DockerState, name: string) returns (ip: Option<string>)
    ensures ip == ContainerIp(docker, name)
    ensures ip.Some? ==> ip.value != ""
  {
    var inspected := docker(name);
    if inspected.None? {
      return None;
    }
    var networks := inspected.value;
    var i := 0;
    while i < |networks|
      invariant 0 <= i <= |networks|
      invariant FirstNetworkIp(networks[i..]) == FirstNetworkIp(networks)
    {
      assert networks[i..][1..] == networks[i + 1..];
      var address := networks[i].ipAddress;
      if address.Some? && address.value != "" {
        return address;
      }
      i := i + 1;
    }
    return None;
  }

  /** The lookup that map_replica_node_to_container uses: the Docker API. */
  function ApiProbe(docker: DockerState): (r: Probe)
  {
    name => ContainerIp(docker, name)
  }

  // ---------------------------------------------------------------------
  // First-match scans

  /** `names[i]` is the first name that `hit` accepts. */
  predicate FirstHitAt(names: seq<string>, hit: string -> bool, i: int) {
    0 <= i < |names| && hit(names[i]) && forall j :: 0 <= j < i ==> !hit(names[j])
  }

  /** The first name in list order that `hit` accepts. */
  function FirstWhere(names: seq<string>, hit: string -> bool): (r: Option<string>)
    ensures r.None? <==> forall i :: 0 <= i < |names| ==> !hit(names[i])
    ensures r.Some? ==> exists i :: FirstHitAt(names, hit, i) && names[i] == r.value
    decreases |names|
  {
    if names == [] then None
    else if hit(names[0]) then
      assert FirstHitAt(names, hit, 0);
      Some(names[0])
    else
      var r := FirstWhere(names[1..], hit);
      assert forall i :: 1 <= i < |names| ==> names[i] == names[1..][i - 1];
      if r.Some? then
        var i :| FirstHitAt(names[1..], hit, i) && names[1..][i] == r.value;
        assert FirstHitAt(names, hit, i + 1);
        r
      else r
  }

  /** One step of a first-match scan: the head when it hits, else the scan of the rest. */
  lemma FirstWhereStep(names: seq<string>, hit: string -> bool)
    requires names != []
    ensures FirstWhere(names, hit) == if hit(names[0]) then Some(names[0]) else FirstWhere(names[1..], hit)
  {
  }

  /** The first hit is a listed name. */
  lemma FirstWhereListed(names: seq<string>, hit: string -> bool)
    ensures FirstWhere(names, hit).Some? ==> FirstWhere(names, hit).value in names && hit(FirstWhere(names, hit).value)
  {
    if FirstWhere(names, hit).Some? {
      var i :| FirstHitAt(names, hit, i) && names[i] == FirstWhere(names, hit).value;
    }
  }

  // ---------------------------------------------------------------------
  // map_replica_node_to_container

  /** The direct rule: equal, or either string contains the other. */
  predicate LooseMatch(ip: string, target: string) {
    ip == target || Contains(ip, target) || Contains(target, ip)
  }

  /** A container that reports a non-empty IP loosely matching the target. */
  predicate DirectHit(probe: Probe, name: string, target: string) {
    Truthy(probe(name)) && LooseMatch(probe(name).value, target)
  }

  /** The direct scan: the first listed container whose IP loosely matches the target. */
  function DirectScan(probe: Probe, names: seq<string>, target: string): (r: Option<string>)
  {
    FirstWhere(names, name => DirectHit(probe, name, target))
  }

  /** `host_address == target or (broadcast_address and broadcast_address == target)` */
  predicate HostQualifies(host: Host, target: string) {
    host.address == target || Broadcast(host) == Some(target)
  }

  /** A container whose non-empty IP is exactly the host's address or its broadcast address. */
  predicate ExactHit(probe: Probe, name: string, host: Host) {
    Truthy(probe(name)) && (probe(name).value == host.address || Broadcast(host) == probe(name))
  }

  /** The first listed container that is this host. */
  function HostContainer(probe: Probe, names: seq<string>, host: Host): (r: Option<string>)
  {
    FirstWhere(names, name => ExactHit(probe, name, host))
  }

  /** The fallback: the container of the first qualifying host, in metadata order, that has one. */
  function Fallback(probe: Probe, names: seq<string>, hosts: seq<Host>, target: string): (r: Option<string>)
    ensures r.Some? ==> exists k :: (0 <= k < |hosts| && HostQualifies(hosts[k], target)
      && HostContainer(probe, names, hosts[k]) == r)
    ensures r.None? <==> forall k :: 0 <= k < |hosts| ==>
      !HostQualifies(hosts[k], target) || HostContainer(probe, names, hosts[k]).None?
    decreases |hosts|
  {
    if hosts == [] then None
    else
      assert forall k :: 1 <= k < |hosts| ==> hosts[k] == hosts[1..][k - 1];
      if HostQualifies(hosts[0], target) && HostContainer(probe, names, hosts[0]).Some? then
        HostContainer(probe, names, hosts[0])
      else
        Fallback(probe, names, hosts[1..], target)
  }

  /** One step of the fallback: the head host decides if it qualifies and has a container. */
  lemma FallbackStep(probe: Probe, names: seq<string>, hosts: seq<Host>, target: string)
    requires hosts != []
    ensures Fallback(probe, names, hosts, target)
         == if HostQualifies(hosts[0], target) && HostContainer(probe, names, hosts[0]).Some?
            then HostContainer(probe, names, hosts[0])
            else Fallback(probe, names, hosts[1..], target)
  {
  }

  /**
   * The first qualifying host with a container decides the fallback, whatever
   * the hosts after it would give.
   */
  lemma {:induction false} FallbackFirstWins(probe: Probe, names: seq<string>, hosts: seq<Host>, target: string, k: nat)
    requires k < |hosts| && HostQualifies(hosts[k], target) && HostContainer(probe, names, hosts[k]).Some?
    requires forall m :: 0 <= m < k ==> !HostQualifies(hosts[m], target) || HostContainer(probe, names, hosts[m]).None?
    ensures Fallback(probe, names, hosts, target) == HostContainer(probe, names, hosts[k])
    decreases k
  {
    if k == 0 {
      FallbackStep(probe, names, hosts, target);
    } else {
      var rest := hosts[1..];
      assert !HostQualifies(hosts[0], target) || HostContainer(probe, names, hosts[0]).None?;
      forall m | 0 <= m < k - 1
        ensures !HostQualifies(rest[m], target) || HostContainer(probe, names, rest[m]).None?
      {
        assert rest[m] == hosts[m + 1];
      }
      assert rest[k - 1] == hosts[k];
      FallbackFirstWins(probe, names, rest, target, k - 1);
      FallbackStep(probe, names, hosts, target);
    }
  }

  /** The mapping: the direct scan; when it finds nothing, the fallback if a cluster is given; else None. */
  function MapSpec(probe: Probe, names: seq<string>, cluster: Option<Metadata>, target: string): (r: Option<string>)
    ensures r.Some? ==> r.value in names && Truthy(probe(r.value))
    ensures DirectScan(probe, names, target).Some? ==> r == DirectScan(probe, names, target)
    ensures cluster.None? && DirectScan(probe, names, target).None? ==> r.None?
    ensures cluster.Some? && DirectScan(probe, names, target).None? ==> r == Fallback(probe, names, cluster.value.hosts, target)
  {
    FirstWhereListed(names, name => DirectHit(probe, name, target));
    match DirectScan(probe, names, target)
    case Some(name) => Some(name)
    case None =>
      match cluster
      case None => None
      case Some(metadata) =>
        var r := Fallback(probe, names, metadata.hosts, target);
        if r.Some? then
          var k :| 0 <= k < |metadata.hosts| && HostQualifies(metadata.hosts[k], target)
            && HostContainer(probe, names, metadata.hosts[k]) == r;
          FirstWhereListed(names, name => ExactHit(probe, name, metadata.hosts[k]));
          r
        else r
  }

  /** The direct loop of map_replica_node_to_container, returning at the first loose match. */
  method ScanContainers(docker: DockerState, target: string, names: seq<string>) returns (found: Option<string>)
    ensures found == DirectScan(ApiProbe(docker), names, target)
  {
    var i := 0;
    while i < |names|
      invariant 0 <= i <= |names|
      invariant DirectScan(ApiProbe(docker), names[i..], target) == DirectScan(ApiProbe(docker), names, target)
    {
      assert names[i..][1..] == names[i + 1..];
      FirstWhereStep(names[i..], name => DirectHit(ApiProbe(docker), name, target));
      var ip := GetContainerIp(docker, names[i]);
      if ip.Some? && ip.value != ""
        && (ip.value == target || Contains(ip.value, target) || Contains(target, ip.value))
      {
        return Some(names[i]);
      }
      i := i + 1;
    }
    return None;
  }

  /** The inner loop of the fallback: the first container whose IP is exactly the host's. */
  method ContainerOfHost(docker: DockerState, names: seq<string>, host: Host) returns (found: Option<string>)
    ensures found == HostContainer(ApiProbe(docker), names, host)
  {
    var broadcast := Broadcast(host);
    var k := 0;
    while k < |names|
      invariant 0 <= k <= |names|
      invariant HostContainer(ApiProbe(docker), names[k..], host) == HostContainer(ApiProbe(docker), names, host)
    {
      assert names[k..][1..] == names[k + 1..];
      FirstWhereStep(names[k..], name => ExactHit(ApiProbe(docker), name, host));
      var ip := GetContainerIp(docker, names[k]);
      if ip.Some? && ip.value != "" && (ip.value == host.address || ip == broadcast) {
        return Some(names[k]);
      }
      k := k + 1;
    }
    return None;
  }

  /** The outer loop of the fallback, returning the first qualifying host's container. */
  method ScanHosts(docker: DockerState, target: string, names: seq<string>, hosts: seq<Host>) returns (found: Option<string>)
    ensures found == Fallback(ApiProbe(docker), names, hosts, target)
  {
    var h := 0;
    while h < |hosts|
      invariant 0 <= h <= |hosts|
      invariant Fallback(ApiProbe(docker), names, hosts[h..], target) == Fallback(ApiProbe(docker), names, hosts, target)
    {
      assert hosts[h..][1..] == hosts[h + 1..];
      var host := hosts[h];
      FallbackStep(ApiProbe(docker), names, hosts[h..], target);
      var broadcast := Broadcast(host);
      if host.address == target || (broadcast.Some? && broadcast.value == target) {
        found := ContainerOfHost(docker, names, host);
        if found.Some? {
          return;
        }
      }
      h := h + 1;
    }
    return None;
  }

  /** map_replica_node_to_container: the container running the node at `target`, or None. */
  method MapReplicaNodeToContainer(docker: DockerState, target: string, names: seq<string>, cluster: Option<Metadata>)
    returns (container: Option<string>)
    ensures container == MapSpec(ApiProbe(docker), names, cluster, target)
  {
    container := ScanContainers(docker, target, names);
    if container.None? && cluster.Some? {
      container := ScanHosts(docker, target, names, cluster.value.hosts);
    }
  }

  // ---------------------------------------------------------------------
  // Properties of the matching rules

  /** The loose match is symmetric, holds for equal strings, and is exactly mutual containment. */
  lemma LooseMatchProperties(a: string, b: string)
    ensures LooseMatch(a, b) <==> LooseMatch(b, a)
    ensures LooseMatch(a, a)
    ensures LooseMatch(a, b) <==> Contains(a, b) || Contains(b, a)
  {
    ContainsSelfAndEmpty(a);
  }

  /** Two strings of the same length match loosely only when they are equal. */
  lemma LooseMatchSameLength(a: string, b: string)
    requires |a| == |b|
    ensures LooseMatch(a, b) <==> a == b
  {
    ContainsSameLength(a, b);
    ContainsSameLength(b, a);
  }

  /** An empty target address matches the first container that reports any IP. */
  lemma {:induction false} EmptyTargetTakesFirstWithIp(probe: Probe, names: seq<string>)
    ensures DirectScan(probe, names, "") == FirstWhere(names, name => Truthy(probe(name)))
    decreases |names|
  {
    if names != [] {
      if probe(names[0]).Some? {
        ContainsSelfAndEmpty(probe(names[0]).value);
      }
      EmptyTargetTakesFirstWithIp(probe, names[1..]);
    }
  }

  /**
   * List position decides, not exactness: with 10.0.0.10 listed before
   * 10.0.0.1, the target 10.0.0.1 maps to the first container.
   */
  lemma ListOrderBeatsExactness(probe: Probe)
    requires probe("cassandra-node2") == Some("10.0.0.10")
    requires probe("cassandra-node1") == Some("10.0.0.1")
    ensures DirectScan(probe, ["cassandra-node2", "cassandra-node1"], "10.0.0.1") == Some("cassandra-node2")
  {
    var ip := "10.0.0.10";
    assert OccursAt(ip, "10.0.0.1", 0) by {
      assert ip[0..8] == "10.0.0.1";
    }
    assert DirectHit(probe, "cassandra-node2", "10.0.0.1");
  }

  /** A container without an IP is skipped by the direct scan. */
  lemma NoIpNeverDirect(probe: Probe, names: seq<string>, target: string, name: string)
    requires !Truthy(probe(name))
    ensures DirectScan(probe, names, target) != Some(name)
  {
    FirstWhereListed(names, n => DirectHit(probe, n, target));
  }

  /**
   * A fallback result is a container whose IP is exactly the address or the
   * broadcast address of a host that qualified for the target.
   */
  lemma FallbackIsExact(probe: Probe, names: seq<string>, hosts: seq<Host>, target: string)
    ensures var r := Fallback(probe, names, hosts, target);
      r.Some? ==> exists k :: 0 <= k < |hosts| && HostQualifies(hosts[k], target) && ExactHit(probe, r.value, hosts[k])
  {
    var r := Fallback(probe, names, hosts, target);
    if r.Some? {
      var k :| 0 <= k < |hosts| && HostQualifies(hosts[k], target) && HostContainer(probe, names, hosts[k]) == r;
      FirstWhereListed(names, name => ExactHit(probe, name, hosts[k]));
    }
  }
}
