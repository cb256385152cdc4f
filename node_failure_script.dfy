/**
 * The standalone node-failure script: its Docker command logger and the
 * address-to-container mapping it performs inline in `main`, which reads
 * container IPs through the `docker inspect` command line and, in its
 * host-metadata fallback, keeps the last match instead of the first.
 */
module NodeFailureScript {
  import opened Wrappers
  import opened Text
  import opened Driver
  import opened ContainerManager
  import NodeFailureApp

  // ---------------------------------------------------------------------
  // log_docker_command

  /** The `cmd` argument: a list of words, or a single word. */
  datatype DockerCmd = CmdList(words: seq<string>) | CmdWord(word: string)

  /** The `args` argument: None, a list of words, or a single word. */
  datatype DockerArgs = NoArgs | ArgList(items: seq<string>) | ArgWord(word: string)

  function CmdWords(cmd: DockerCmd): (r: seq<string>)
  {
    match cmd
    case CmdList(words) => words
    case CmdWord(word) => [word]
  }

  /** The words `args` contributes: falsy arguments (None, "" or an empty list) contribute none. */
  function ArgWords(args: DockerArgs): (r: seq<string>)
  {
    match args
    case NoArgs => []
    case ArgList(items) => items
    case ArgWord(word) => if word == "" then [] else [word]
  }

  /** The argument list of the logged command. */
  function CommandParts(cmd: DockerCmd, args: DockerArgs): (parts: seq<string>)
    ensures |parts| >= 1 && parts[0] == "docker"
    ensures |parts| == 1 + |CmdWords(cmd)| + |ArgWords(args)|
    ensures parts[1..1 + |CmdWords(cmd)|] == CmdWords(cmd) && parts[1 + |CmdWords(cmd)|..] == ArgWords(args)
  {
    ["docker"] + CmdWords(cmd) + ArgWords(args)
  }

  /** log_docker_command: the log line, with the command's words joined by single spaces. */
  method LogDockerCommand(cmd: DockerCmd, args: DockerArgs) returns (line: string)
    ensures line == "Docker Command: " + Join(CommandParts(cmd, args), ' ')
  {
    var fullCmd: seq<string>;
    if cmd.CmdList? {
      fullCmd := ["docker"] + cmd.words;
    } else {
      fullCmd := ["docker", cmd.word];
    }
    assert fullCmd == ["docker"] + CmdWords(cmd);
    if args.ArgList? && args.items != [] {
      fullCmd := fullCmd + args.items;
    } else if args.ArgWord? && args.word != "" {
      fullCmd := fullCmd + [args.word];
    } else {
      assert ArgWords(args) == [];
      assert fullCmd == fullCmd + ArgWords(args);
    }
    assert fullCmd == CommandParts(cmd, args);
    line := "Docker Command: " + Join(fullCmd, ' ');
  }

  /** When no word holds a space, the logged command splits back into its words. */
  lemma LoggedCommandReadsBack(cmd: DockerCmd, args: DockerArgs)
    requires forall i :: 0 <= i < |CmdWords(cmd)| ==> ' ' !in CmdWords(cmd)[i]
    requires forall i :: 0 <= i < |ArgWords(args)| ==> ' ' !in ArgWords(args)[i]
    ensures Split(Join(CommandParts(cmd, args), ' '), ' ') == CommandParts(cmd, args)
  {
    var parts := CommandParts(cmd, args);
    forall i | 0 <= i < |parts| ensures ' ' !in parts[i] {
      if i > 0 && i <= |CmdWords(cmd)| {
        assert parts[i] == CmdWords(cmd)[i - 1];
      } else if i > |CmdWords(cmd)| {
        assert parts[i] == ArgWords(args)[i - 1 - |CmdWords(cmd)|];
      }
    }
    SplitJoin(parts, ' ');
  }

  /** Five words are joined with a single space between each two. */
  lemma JoinFive(a: string, b: string, c: string, d: string, e: string)
    ensures Join([a, b, c, d, e], ' ') == a + " " + b + " " + c + " " + d + " " + e
  {
    assert Join([e], ' ') == e;
    assert [d, e][1..] == [e];
    assert Join([d, e], ' ') == d + " " + e;
    assert [c, d, e][1..] == [d, e];
    assert Join([c, d, e], ' ') == c + " " + d + " " + e;
    assert [b, c, d, e][1..] == [c, d, e];
    assert Join([b, c, d, e], ' ') == b + " " + c + " " + d + " " + e;
    assert [a, b, c, d, e][1..] == [b, c, d, e];
  }

  /** A word command with list arguments: `docker exec -it container-name bash`. */
  lemma ExecCommandExample()
    ensures Join(CommandParts(CmdWord("exec"), ArgList(["-it", "container-name", "bash"])), ' ')
         == "docker exec -it container-name bash"
  {
    var args := ["-it", "container-name", "bash"];
    assert ArgWords(ArgList(args)) == args;
    assert CommandParts(CmdWord("exec"), ArgList(args)) == ["docker", "exec", "-it", "container-name", "bash"];
    JoinFive("docker", "exec", "-it", "container-name", "bash");
    assert "docker" + " " + "exec" == "docker exec";
    assert "docker exec" + " " + "-it" == "docker exec -it";
    assert "docker exec -it" + " " + "container-name" == "docker exec -it container-name";
    assert "docker exec -it container-name" + " " + "bash" == "docker exec -it container-name bash";
  }

  // ---------------------------------------------------------------------
  // The IP lookup through the docker command line

  /**
   * What the template `{{range .NetworkSettings.Networks}}{{.IPAddress}}{{end}}`
   * prints: every network's IP, in order, with no separator.
   */
  function ConcatIps(networks: seq<Network>): (r: string)
    decreases |networks|
  {
    if networks == [] then ""
    else (if networks[0].ipAddress.Some? then networks[0].ipAddress.value else "") + ConcatIps(networks[1..])
  }

  /** The stripped output of `docker inspect` for one container, or None when the command fails. */
  function InspectedIp(docker: DockerState, name: string): (r: Option<string>)
  {
    match docker(name)
    case None => None
    case Some(networks) => Some(Strip(ConcatIps(networks) + "\n"))
  }

  /** The lookup the script uses: the docker command line. */
  function CliProbe(docker: DockerState): (r: Probe)
  {
    name => InspectedIp(docker, name)
  }

  /** One `docker inspect` call and the strip of its output. */
  method InspectIp(docker: DockerState, name: string) returns (ip: Option<string>)
    ensures ip == CliProbe(docker)(name)
    ensures ip.Some? ==> ip.value == [] || (!IsSpace(ip.value[0]) && !IsSpace(ip.value[|ip.value| - 1]))
  {
    var inspected := docker(name);
    if inspected.None? {
      return None;
    }
    var output := ConcatIps(inspected.value) + "\n";
    return Some(Strip(output));
  }

  /** For a container on one network, the command line and the Docker API report the same IP. */
  lemma ProbesAgreeOnOneNetwork(docker: DockerState, name: string, network: string, ip: string)
    requires docker(name) == Some([Network(network, Some(ip))])
    requires ip != "" && !IsSpace(ip[0]) && !IsSpace(ip[|ip| - 1])
    ensures CliProbe(docker)(name) == ApiProbe(docker)(name) == Some(ip)
  {
    var networks := [Network(network, Some(ip))];
    assert ConcatIps(networks) == ip + "";
    assert ip + "" == ip;
    StripTrimmed(ip, "\n");
    assert FirstNetworkIp(networks) == Some(ip);
  }

  /**
   * On two networks they disagree: the API takes the first IP, the command
   * line prints both run together.
   */
  lemma ProbesDifferOnTwoNetworks(docker: DockerState, name: string)
    requires docker(name) == Some([Network("a", Some("10.0.0.1")), Network("b", Some("10.0.1.1"))])
    ensures ApiProbe(docker)(name) == Some("10.0.0.1")
    ensures CliProbe(docker)(name) == Some("10.0.0.110.0.1.1")
  {
    var networks := [Network("a", Some("10.0.0.1")), Network("b", Some("10.0.1.1"))];
    assert networks[1..][1..] == [];
    assert ConcatIps(networks[1..]) == "10.0.1.1" + "";
    assert ConcatIps(networks) == "10.0.0.110.0.1.1";
    StripTrimmed("10.0.0.110.0.1.1", "\n");
  }

  // ---------------------------------------------------------------------
  // The inline mapping in main

  /** The containers the script knows. */
  const ContainerNames: seq<string> := ["cassandra-node1", "cassandra-node2", "cassandra-node3"]

  /** The script's exact rule: the IP equals the host's address or broadcast address, with no check that it is non-empty. */
  predicate ScriptExactHit(probe: Probe, name: string, host: Host) {
    probe(name).Some? && (probe(name).value == host.address || Broadcast(host) == probe(name))
  }

  /** The container the inner loop settles on for one host: the first exact hit. */
  function ScriptHostContainer(probe: Probe, names: seq<string>, host: Host): (r: Option<string>)
  {
    FirstWhere(names, name => ScriptExactHit(probe, name, host))
  }

  /** `hosts[k]` is the last host for which `pick` gives a container. */
  predicate LastPickAt(hosts: seq<Host>, pick: Host -> Option<string>, k: int) {
    0 <= k < |hosts| && pick(hosts[k]).Some?
    && forall m :: k < m < |hosts| ==> pick(hosts[m]).None?
  }

  /** What the host loop leaves behind when each host overwrites the earlier ones: the last host's container. */
  function LastPick(hosts: seq<Host>, pick: Host -> Option<string>): (r: Option<string>)
    ensures r.Some? ==> exists k :: LastPickAt(hosts, pick, k) && pick(hosts[k]) == r
    ensures r.None? <==> forall k :: 0 <= k < |hosts| ==> pick(hosts[k]).None?
    decreases |hosts|
  {
    if hosts == [] then None
    else
      var n := |hosts| - 1;
      var front := hosts[..n];
      assert forall k :: 0 <= k < n ==> front[k] == hosts[k];
      if pick(hosts[n]).Some? then
        assert LastPickAt(hosts, pick, n);
        pick(hosts[n])
      else
        var r := LastPick(front, pick);
        if r.Some? then
          var k :| LastPickAt(front, pick, k) && pick(front[k]) == r;
          assert LastPickAt(hosts, pick, k);
          r
        else r
  }

  /** The script's container for one host: the inner loop's hit when the host qualifies. */
  function ScriptPick(probe: Probe, names: seq<string>, target: string): (r: Host -> Option<string>)
  {
    host => if HostQualifies(host, target) then ScriptHostContainer(probe, names, host) else None
  }

  /**
   * The script's fallback: every host is visited and only the inner loop is
   * left early, so the last qualifying host with a container decides.
   */
  function LastFallback(probe: Probe, names: seq<string>, hosts: seq<Host>, target: string): (r: Option<string>)
  {
    LastPick(hosts, ScriptPick(probe, names, target))
  }

  /** One step of the host loop: the newest host overwrites when it has a container. */
  lemma LastPickStep(hosts: seq<Host>, pick: Host -> Option<string>)
    requires hosts != []
    ensures LastPick(hosts, pick)
         == if pick(hosts[|hosts| - 1]).Some? then pick(hosts[|hosts| - 1]) else LastPick(hosts[..|hosts| - 1], pick)
  {
  }

  /** The script's mapping: the direct scan, else the last-match fallback. */
  function ScriptMapSpec(probe: Probe, names: seq<string>, hosts: seq<Host>, target: string): (r: Option<string>)
  {
    match DirectScan(probe, names, target)
    case Some(name) => Some(name)
    case None => LastFallback(probe, names, hosts, target)
  }

  /** The mapping in the script's `main`: a direct scan, then a scan of all hosts that breaks only the inner loop. */
  method MapReplicaInline(docker: DockerState, replicaNode: string, hosts: seq<Host>) returns (containerToStop: Option<string>)
    ensures containerToStop == ScriptMapSpec(CliProbe(docker), ContainerNames, hosts, replicaNode)
  {
    containerToStop := ScanDirect(docker, ContainerNames, replicaNode);
    if containerToStop.Some? {
      return;
    }
    containerToStop := ScanAllHosts(docker, ContainerNames, hosts, replicaNode);
  }

  /** The script's direct loop over the containers, left at the first loose match of a non-empty IP. */
  method ScanDirect(docker: DockerState, names: seq<string>, replicaNode: string) returns (found: Option<string>)
    ensures found == DirectScan(CliProbe(docker), names, replicaNode)
  {
    found := None;
    var i := 0;
    while i < |names|
      invariant 0 <= i <= |names|
      invariant DirectScan(CliProbe(docker), names[i..], replicaNode) == DirectScan(CliProbe(docker), names, replicaNode)
    {
      assert names[i..][1..] == names[i + 1..];
      FirstWhereStep(names[i..], name => DirectHit(CliProbe(docker), name, replicaNode));
      var ip := InspectIp(docker, names[i]);
      if ip.Some? && ip.value != ""
        && (ip.value == replicaNode || Contains(ip.value, replicaNode) || Contains(replicaNode, ip.value))
      {
        found := Some(names[i]);
        return;
      }
      i := i + 1;
    }
  }

  /** The script's host loop: every host is visited, and a qualifying host with a container overwrites the choice. */
  method ScanAllHosts(docker: DockerState, names: seq<string>, hosts: seq<Host>, replicaNode: string) returns (containerToStop: Option<string>)
    ensures containerToStop == LastFallback(CliProbe(docker), names, hosts, replicaNode)
  {
    containerToStop := None;
    var h := 0;
    while h < |hosts|
      invariant 0 <= h <= |hosts|
      invariant containerToStop == LastFallback(CliProbe(docker), names, hosts[..h], replicaNode)
    {
      var host := hosts[h];
      var broadcast := Broadcast(host);
      assert hosts[..h + 1][..h] == hosts[..h] && hosts[..h + 1][h] == host;
      LastPickStep(hosts[..h + 1], ScriptPick(CliProbe(docker), names, replicaNode));
      if host.address == replicaNode || (broadcast.Some? && broadcast.value == replicaNode) {
        var found := ScanForHost(docker, names, host);
        if found.Some? {
          containerToStop := found;
        }
      }
      h := h + 1;
    }
    assert hosts[..|hosts|] == hosts;
  }

  /** The inner loop of the script's fallback for one host, left at the first exact hit. */
  method ScanForHost(docker: DockerState, names: seq<string>, host: Host) returns (found: Option<string>)
    ensures found == ScriptHostContainer(CliProbe(docker), names, host)
  {
    var broadcast := Broadcast(host);
    found := None;
    var k := 0;
    while k < |names|
      invariant 0 <= k <= |names|
      invariant ScriptHostContainer(CliProbe(docker), names[k..], host) == ScriptHostContainer(CliProbe(docker), names, host)
    {
      assert names[k..][1..] == names[k + 1..];
      FirstWhereStep(names[k..], name => ScriptExactHit(CliProbe(docker), name, host));
      var ip := InspectIp(docker, names[k]);
      if ip.Some? && (ip.value == host.address || ip == broadcast) {
        found := Some(names[k]);
        break;
      }
      k := k + 1;
    }
  }

  /** Steps 6 and 7 of the script's `main`: the primary replica and the container to stop, or exit status 1. */
  method IdentifyTarget(replicaNodes: seq<string>, docker: DockerState, hosts: seq<Host>) returns (outcome: NodeFailureApp.TargetOutcome)
    ensures outcome == NodeFailureApp.PrimaryTarget(replicaNodes, target => ScriptMapSpec(CliProbe(docker), ContainerNames, hosts, target))
  {
    if replicaNodes == [] {
      return NodeFailureApp.Exit(1);
    }
    var replicaNode := replicaNodes[0];
    var containerToStop := MapReplicaInline(docker, replicaNode, hosts);
    if containerToStop.None? || containerToStop.value == "" {
      return NodeFailureApp.Exit(1);
    }
    return NodeFailureApp.Stop(replicaNode, containerToStop.value);
  }

  // ---------------------------------------------------------------------
  // The script against the container manager

  function Reversed<T>(s: seq<T>): (r: seq<T>)
    ensures |r| == |s|
    decreases |s|
  {
    if s == [] then [] else [s[|s| - 1]] + Reversed(s[..|s| - 1])
  }

  /** Two predicates that agree on every name find the same first name. */
  lemma {:induction false} FirstWhereAgree(names: seq<string>, p: string -> bool, q: string -> bool)
    requires forall n :: p(n) == q(n)
    ensures FirstWhere(names, p) == FirstWhere(names, q)
    decreases |names|
  {
    if names != [] {
      FirstWhereAgree(names[1..], p, q);
    }
  }

  /**
   * Where every reported IP is non-empty, the script's fallback is the
   * container manager's fallback over the hosts in reverse order: the last
   * match wins instead of the first.
   */
  lemma {:induction false} LastFallbackIsFirstOfReversed(probe: Probe, names: seq<string>, hosts: seq<Host>, target: string)
    requires forall n :: probe(n).Some? ==> probe(n).value != ""
    ensures LastFallback(probe, names, hosts, target) == Fallback(probe, names, Reversed(hosts), target)
    decreases |hosts|
  {
    if hosts != [] {
      var last := hosts[|hosts| - 1];
      FirstWhereAgree(names, name => ScriptExactHit(probe, name, last), name => ExactHit(probe, name, last));
      LastFallbackIsFirstOfReversed(probe, names, hosts[..|hosts| - 1], target);
      var rev := Reversed(hosts);
      assert rev[0] == last && rev[1..] == Reversed(hosts[..|hosts| - 1]);
      FallbackStep(probe, names, rev, target);
    }
  }

  /**
   * The script's inner loop has no emptiness test: a container reporting an
   * empty IP matches a host with an empty address, where the container
   * manager finds nothing.
   */
  lemma EmptyIpMatchesOnlyInScript(probe: Probe)
    requires probe("c1") == Some("")
    ensures ScriptHostContainer(probe, ["c1"], Host("", None)) == Some("c1")
    ensures HostContainer(probe, ["c1"], Host("", None)).None?
  {
    FirstWhereStep(["c1"], name => ScriptExactHit(probe, name, Host("", None)));
    FirstWhereStep(["c1"], name => ExactHit(probe, name, Host("", None)));
    assert ["c1"][1..] == [];
  }

  /**
   * Two hosts share the broadcast address the replica is known by: the
   * container manager stops the first host's container, the script the
   * second's.
   */
  lemma FirstVersusLastHost(probe: Probe, metadata: Metadata)
    requires probe("c1") == Some("10.0.0.1") && probe("c2") == Some("10.0.0.2")
    requires metadata.hosts == [Host("10.0.0.1", Some("10.0.0.9")), Host("10.0.0.2", Some("10.0.0.9"))]
    ensures MapSpec(probe, ["c1", "c2"], Some(metadata), "10.0.0.9") == Some("c1")
    ensures ScriptMapSpec(probe, ["c1", "c2"], metadata.hosts, "10.0.0.9") == Some("c2")
  {
    var names := ["c1", "c2"];
    var h1, h2 := Host("10.0.0.1", Some("10.0.0.9")), Host("10.0.0.2", Some("10.0.0.9"));
    LooseMatchSameLength("10.0.0.1", "10.0.0.9");
    LooseMatchSameLength("10.0.0.2", "10.0.0.9");
    assert !DirectHit(probe, "c1", "10.0.0.9") && !DirectHit(probe, "c2", "10.0.0.9");
    assert DirectScan(probe, names, "10.0.0.9") == None by {
      assert names[1..][1..] == [];
    }
    assert ExactHit(probe, "c1", h1);
    assert HostContainer(probe, names, h1) == Some("c1");
    assert ScriptExactHit(probe, "c2", h2) && !ScriptExactHit(probe, "c1", h2);
    assert ScriptHostContainer(probe, names, h2) == Some("c2") by {
      assert names[1..][0] == "c2";
    }
    assert metadata.hosts[|metadata.hosts| - 1] == h2;
  }
}
