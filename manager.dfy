// src/connection/manager.rs: topology discovery (standalone, cluster,
// sentinel), the per-name client cache, and the operations that fan out over
// the master nodes (DBSIZE and SCAN).
//
// What the servers answer is an input (`Network`); opening a client and a
// connection is folded into those answers.

module Manager {
  import opened Wrappers
  import opened Text
  import opened Sorting
  import opened Config
  import opened AsyncConnection

  datatype ServerType = Standalone | Cluster | Sentinel

  datatype NodeRole = Master | Slave | Fail | Unknown

  datatype RedisNode = RedisNode(addr: string, role: NodeRole, masterName: Option<string>)

  datatype ClusterNodeInfo = ClusterNodeInfo(ip: string, port: nat, role: NodeRole)

  // ---------------------------------------------------------------------
  // Addresses and `CLUSTER NODES`
  // ---------------------------------------------------------------------

  /// `parse_address`: `ip:port` optionally followed by `@cport`.
  function ParseAddress(s: string): (r: Result<(string, nat, Option<nat>)>)
    ensures r.Ok? ==> ':' !in r.value.0 && '@' !in r.value.0 && IsPrefix(r.value.0 + ":", s)
    ensures r.Ok? ==> r.value.1 < U16_BOUND && (r.value.2.Some? ==> r.value.2.value < U16_BOUND)
    ensures r.Ok? ==> (r.value.2.Some? <==> '@' in s)
    ensures ':' !in s ==> r.Err?
    ensures var addrPart := if SplitOnce(s, '@').Some? then SplitOnce(s, '@').value.0 else s;
      r.Ok? <==> SplitOnce(addrPart, ':').Some?
                 && ParseU16(SplitOnce(addrPart, ':').value.1).Some?
                 && (SplitOnce(s, '@').Some? ==> ParseU16(SplitOnce(s, '@').value.1).Some?)
    ensures var addrPart := if SplitOnce(s, '@').Some? then SplitOnce(s, '@').value.0 else s;
      r.Ok? ==> r.value.0 == SplitOnce(addrPart, ':').value.0
                && r.value.1 == ParseU16(SplitOnce(addrPart, ':').value.1).value
                && (SplitOnce(s, '@').Some? ==> r.value.2 == ParseU16(SplitOnce(s, '@').value.1))
  {
    var parts := match SplitOnce(s, '@')
      case Some((a, c)) => (a, Some(c))
      case None => (s, None);
    var addrPart := parts.0;
    assert IsPrefix(addrPart, s) && '@' !in addrPart by {
      SplitOncePrefix(s, '@');
    }
    match SplitOnce(addrPart, ':')
    case None => Err(Invalid("Invalid address format: " + addrPart))
    case Some((ip, portText)) =>
      assert IsPrefix(ip + ":", s) by {
        SplitOncePrefix(addrPart, ':');
        PrefixTransitive(ip + ":", addrPart, s);
      }
      match ParseU16(portText)
      case None => Err(Invalid("Invalid port '" + portText + "'"))
      case Some(port) =>
        match parts.1
        case None => Ok((ip, port, None))
        case Some(c) =>
          match ParseU16(c)
          case None => Err(Invalid("Invalid cluster bus port '" + c + "'"))
          case Some(cport) => Ok((ip, port, Some(cport)))
  }

  /// The role a node's flag list gives it: master beats slave beats fail;
  /// anything else (handshake, noaddr, ...) is Unknown.
  function RoleFromFlags(flagsField: string): (role: NodeRole)
    ensures role == Master <==> "master" in Split(flagsField, ',')
    ensures role == Slave <==> "master" !in Split(flagsField, ',') && "slave" in Split(flagsField, ',')
    ensures role == Fail <==> "master" !in Split(flagsField, ',') && "slave" !in Split(flagsField, ',')
                              && "fail" in Split(flagsField, ',')
  {
    var flags := Split(flagsField, ',');
    if "master" in flags then Master
    else if "slave" in flags then Slave
    else if "fail" in flags then Fail
    else Unknown
  }

  /// One line of `CLUSTER NODES`: lines with fewer than eight fields are
  /// skipped; otherwise the address in field 1 must parse.
  function ClusterLine(line: string): (r: Result<Option<ClusterNodeInfo>>)
    ensures |SplitWhitespace(line)| < 8 ==> r == Ok(None)
    ensures |SplitWhitespace(line)| >= 8 ==>
      match ParseAddress(SplitWhitespace(line)[1])
      case Err(e) => r == Err(e)
      case Ok(a) => r == Ok(Some(ClusterNodeInfo(a.0, a.1, RoleFromFlags(SplitWhitespace(line)[2]))))
  {
    var parts := SplitWhitespace(line);
    if |parts| < 8 then Ok(None)
    else match ParseAddress(parts[1])
      case Err(e) => Err(e)
      case Ok((ip, port, _)) => Ok(Some(ClusterNodeInfo(ip, port, RoleFromFlags(parts[2]))))
  }

  /// What `parse_cluster_nodes` computes, line by line.
  function ClusterNodes(raw: string): Result<seq<ClusterNodeInfo>>
  {
    CollectOk(Lines(Trim(raw)), ClusterLine)
  }

  /// `parse_cluster_nodes`.
  method ParseClusterNodes(raw: string) returns (r: Result<seq<ClusterNodeInfo>>)
    ensures r == ClusterNodes(raw)
  {
    r := CollectLines(Lines(Trim(raw)));
  }

  /// The loop of `parse_cluster_nodes` over the reply's lines.
  method CollectLines(lines: seq<string>) returns (r: Result<seq<ClusterNodeInfo>>)
    ensures r == CollectOk(lines, ClusterLine)
  {
    var nodes: seq<ClusterNodeInfo> := [];
    var i := 0;
    while i < |lines|
      invariant 0 <= i <= |lines|
      invariant CollectOk(lines[..i], ClusterLine) == Ok(nodes)
    {
      var next := CollectLine(lines, i, nodes);
      if next.Err? {
        return next;
      }
      nodes := next.value;
      i := i + 1;
    }
    assert lines[..i] == lines;
    r := Ok(nodes);
  }

  /// One turn of the loop of `parse_cluster_nodes`: the nodes so far,
  /// extended by line `i`, or the error that ends the whole parse.
  method CollectLine(lines: seq<string>, i: nat, nodes: seq<ClusterNodeInfo>) returns (r: Result<seq<ClusterNodeInfo>>)
    requires i < |lines| && CollectOk(lines[..i], ClusterLine) == Ok(nodes)
    ensures r.Ok? ==> CollectOk(lines[..i + 1], ClusterLine) == r
    ensures r.Err? ==> CollectOk(lines, ClusterLine) == r
  {
    CollectOkStep(lines, i, ClusterLine);
    var line := ParseLine(lines[i]);
    if line.Err? {
      CollectOkStopsAtError(lines, i + 1, ClusterLine);
      return Err(line.error);
    }
    if line.value.Some? {
      r := Ok(nodes + [line.value.value]);
    } else {
      r := Ok(nodes);
    }
  }

  /// The body of the loop of `parse_cluster_nodes`: a line with fewer than
  /// eight fields is skipped, otherwise its address is parsed.
  method ParseLine(text: string) returns (r: Result<Option<ClusterNodeInfo>>)
    ensures r == ClusterLine(text)
  {
    var parts := SplitWhitespace(text);
    if |parts| < 8 {
      return Ok(None);
    }
    var address := ParseAddress(parts[1]);
    if address.Err? {
      return Err(address.error);
    }
    var (ip, port, _) := address.value;
    r := Ok(Some(ClusterNodeInfo(ip, port, RoleFromFlags(parts[2]))));
  }

  /// The lines of a `CLUSTER NODES` reply that carry at least eight fields.
  function KeptLines(lines: seq<string>): (kept: seq<string>)
    ensures forall k :: 0 <= k < |kept| ==> |SplitWhitespace(kept[k])| >= 8
    ensures |kept| <= |lines|
  {
    if lines == [] then []
    else
      var last := lines[|lines| - 1];
      KeptLines(lines[..|lines| - 1]) + if |SplitWhitespace(last)| >= 8 then [last] else []
  }

  /// A successful parse has one node per kept line, in input order, each
  /// read from that line's address and flags.
  lemma {:induction false} ClusterNodesPerKeptLine(lines: seq<string>)
    requires CollectOk(lines, ClusterLine).Ok?
    ensures |CollectOk(lines, ClusterLine).value| == |KeptLines(lines)|
    ensures forall k :: 0 <= k < |KeptLines(lines)| ==>
              ClusterLine(KeptLines(lines)[k]) == Ok(Some(CollectOk(lines, ClusterLine).value[k]))
  {
    if lines != [] {
      var init := lines[..|lines| - 1];
      var last := lines[|lines| - 1];
      assert forall i :: 0 <= i < |init| ==> init[i] == lines[i];
      assert CollectOk(init, ClusterLine).Ok?;
      ClusterNodesPerKeptLine(init);
      var ys := CollectOk(init, ClusterLine).value;
      var kept := KeptLines(init);
      if |SplitWhitespace(last)| < 8 {
        assert ClusterLine(last) == Ok(None);
        assert CollectOk(lines, ClusterLine).value == ys;
        assert KeptLines(lines) == kept;
      } else {
        var y := ClusterLine(last).value.value;
        assert CollectOk(lines, ClusterLine).value == ys + [y];
        assert KeptLines(lines) == kept + [last];
      }
    }
  }

  /// A kept line whose address does not parse fails the whole reply: it is
  /// not skipped.
  lemma MalformedAddressFailsAll(lines: seq<string>, k: nat)
    requires k < |lines| && |SplitWhitespace(lines[k])| >= 8
    requires ParseAddress(SplitWhitespace(lines[k])[1]).Err?
    ensures CollectOk(lines, ClusterLine).Err?
  {
    assert ClusterLine(lines[k]).Err?;
  }

  // ---------------------------------------------------------------------
  // Sentinel discovery
  // ---------------------------------------------------------------------

  const MULTIPLE_MASTERS: string :=
    Invalid("Multiple masters found in Sentinel, please specify master_name")

  /// The endpoint `cfg` with its host and port replaced by a discovered node's.
  function NodeUrl(cfg: RedisConfig, ip: string, port: nat): string
  {
    ConnectionUrl(cfg.(host := ip, port := port))
  }

  /// One entry of `SENTINEL MASTERS`: `ip`, `port` (a u16) and `name` must be
  /// present; an entry for another master than the configured one is skipped.
  function SentinelEntry(cfg: RedisConfig, masterName: Option<string>, item: map<string, string>)
    : (r: Result<Option<RedisNode>>)
    ensures r.Ok? ==> "ip" in item && "port" in item && ParseU16(item["port"]).Some? && "name" in item
    ensures r.Ok? && r.value.Some? ==>
              r.value.value == RedisNode(NodeUrl(cfg, item["ip"], ParseU16(item["port"]).value),
                                         Master, Some(item["name"]))
    ensures r.Ok? ==> (r.value.None? <==> masterName.Some? && item["name"] != masterName.value)
  {
    if "ip" !in item then Err(Invalid("ip is not found"))
    else if "port" !in item then Err(Invalid("port is not found"))
    else match ParseU16(item["port"])
      case None => Err(Invalid("Invalid port"))
      case Some(port) =>
        if "name" !in item then Err(Invalid("master_name is not found"))
        else
          var name := item["name"];
          if masterName.Some? && name != masterName.value then Ok(None)
          else Ok(Some(RedisNode(NodeUrl(cfg, item["ip"], port), Master, Some(name))))
  }

  function SentinelStep(cfg: RedisConfig, masterName: Option<string>): map<string, string> -> Result<Option<RedisNode>>
  {
    item => SentinelEntry(cfg, masterName, item)
  }

  /// More than one distinct master name among the nodes.
  predicate Ambiguous(nodes: seq<RedisNode>)
  {
    exists i, j :: 0 <= i < |nodes| && 0 <= j < |nodes| && nodes[i].masterName != nodes[j].masterName
  }

  /// What the sentinel branch of `get_redis_nodes` computes.
  function SentinelNodes(cfg: RedisConfig, masterName: Option<string>, items: seq<map<string, string>>)
    : Result<seq<RedisNode>>
  {
    match CollectOk(items, SentinelStep(cfg, masterName))
    case Err(e) => Err(e)
    case Ok(nodes) => if Ambiguous(nodes) then Err(MULTIPLE_MASTERS) else Ok(nodes)
  }

  /// The sentinel branch of `get_redis_nodes`, after the SENTINEL MASTERS reply.
  method CollectSentinelNodes(cfg: RedisConfig, masterName: Option<string>, items: seq<map<string, string>>)
    returns (r: Result<seq<RedisNode>>)
    ensures r == SentinelNodes(cfg, masterName, items)
  {
    var nodes: seq<RedisNode> := [];
    var i := 0;
    while i < |items|
      invariant 0 <= i <= |items|
      invariant CollectOk(items[..i], SentinelStep(cfg, masterName)) == Ok(nodes)
    {
      assert items[..i + 1][..i] == items[..i];
      var item := items[i];
      var entry := SentinelEntry(cfg, masterName, item);
      if entry.Err? {
        CollectOkStopsAtError(items, i + 1, SentinelStep(cfg, masterName));
        return Err(entry.error);
      }
      if entry.value.Some? {
        nodes := nodes + [entry.value.value];
      }
      i := i + 1;
    }
    assert items[..i] == items;
    if exists a, b :: 0 <= a < |nodes| && 0 <= b < |nodes| && nodes[a].masterName != nodes[b].masterName {
      return Err(MULTIPLE_MASTERS);
    }
    r := Ok(nodes);
  }

  /// Every node sentinel discovery keeps is a master of the one master name
  /// (the configured one, when there is one), and every entry was complete.
  lemma {:induction false} SentinelNodesAreOneMaster(cfg: RedisConfig, masterName: Option<string>,
                                                     items: seq<map<string, string>>)
    requires SentinelNodes(cfg, masterName, items).Ok?
    ensures forall k :: 0 <= k < |items| ==>
              "ip" in items[k] && "port" in items[k] && "name" in items[k] && ParseU16(items[k]["port"]).Some?
    ensures forall n :: n in SentinelNodes(cfg, masterName, items).value ==> n.role == Master && n.masterName.Some?
    ensures masterName.Some? ==>
              forall n :: n in SentinelNodes(cfg, masterName, items).value ==> n.masterName == masterName
    ensures forall n, m :: n in SentinelNodes(cfg, masterName, items).value && m in SentinelNodes(cfg, masterName, items).value
              ==> n.masterName == m.masterName
  {
    var step := SentinelStep(cfg, masterName);
    forall k | 0 <= k < |items|
      ensures "ip" in items[k] && "port" in items[k] && "name" in items[k] && ParseU16(items[k]["port"]).Some?
    {
      assert step(items[k]).Ok?;
    }
    CollectedNodesAreMasters(cfg, masterName, items);
  }

  lemma {:induction false} CollectedNodesAreMasters(cfg: RedisConfig, masterName: Option<string>,
                                                    items: seq<map<string, string>>)
    requires CollectOk(items, SentinelStep(cfg, masterName)).Ok?
    ensures forall n :: n in CollectOk(items, SentinelStep(cfg, masterName)).value ==>
              n.role == Master && n.masterName.Some? && (masterName.Some? ==> n.masterName == masterName)
  {
    if items != [] {
      CollectedNodesAreMasters(cfg, masterName, items[..|items| - 1]);
    }
  }

  // ---------------------------------------------------------------------
  // Server type detection and discovery
  // ---------------------------------------------------------------------

  /// What a server says about itself: whether ROLE reports a sentinel, and
  /// the `cluster_enabled` field of `INFO cluster` when present.
  datatype Probe = Probe(isSentinel: bool, clusterEnabled: Option<int>)

  /// `detect_server_type`, given the replies.
  function ServerTypeOf(p: Probe): (t: ServerType)
    ensures t == Sentinel <==> p.isSentinel
    ensures t == Cluster <==> !p.isSentinel && p.clusterEnabled == Some(1)
  {
    if p.isSentinel then Sentinel
    else if (if p.clusterEnabled.Some? then p.clusterEnabled.value else 0) == 1 then Cluster
    else Standalone
  }

  /// The answers of the servers, by connection URL.
  datatype Network = Network(
    probe: string -> Result<Probe>,
    clusterNodes: string -> Result<string>,
    sentinelMasters: string -> Result<seq<map<string, string>>>)

  /// Whether a failed probe is retried without the password.
  predicate RetryWithoutPassword(cfg: RedisConfig, error: string)
  {
    cfg.password.Some? && Contains(error, "AuthenticationFailed")
  }

  /// The server type and the URL of the client that found it: the configured
  /// URL, or on an authentication failure with a password set, the URL
  /// without the password.
  function DetectWithRetry(cfg: RedisConfig, net: Network): (r: Result<(ServerType, string)>)
    ensures net.probe(ConnectionUrl(cfg)).Ok? ==>
              r == Ok((ServerTypeOf(net.probe(ConnectionUrl(cfg)).value), ConnectionUrl(cfg)))
    ensures (net.probe(ConnectionUrl(cfg)).Err? && !RetryWithoutPassword(cfg, net.probe(ConnectionUrl(cfg)).error))
              ==> r == Err(net.probe(ConnectionUrl(cfg)).error)
    ensures r.Ok? && r.value.1 != ConnectionUrl(cfg) ==>
              RetryWithoutPassword(cfg, net.probe(ConnectionUrl(cfg)).error)
              && r.value.1 == ConnectionUrl(cfg.(password := None))
    ensures net.probe(ConnectionUrl(cfg)).Err? && RetryWithoutPassword(cfg, net.probe(ConnectionUrl(cfg)).error) ==>
              var plain := ConnectionUrl(cfg.(password := None));
              r == if net.probe(plain).Ok? then Ok((ServerTypeOf(net.probe(plain).value), plain))
                   else Err(net.probe(plain).error)
  {
    var url := ConnectionUrl(cfg);
    match net.probe(url)
    case Ok(p) => Ok((ServerTypeOf(p), url))
    case Err(e) =>
      if !RetryWithoutPassword(cfg, e) then Err(e)
      else
        var plain := ConnectionUrl(cfg.(password := None));
        match net.probe(plain)
        case Err(e2) => Err(e2)
        case Ok(p) => Ok((ServerTypeOf(p), plain))
  }

  function ToRedisNode(cfg: RedisConfig, info: ClusterNodeInfo): RedisNode
  {
    RedisNode(NodeUrl(cfg, info.ip, info.port), info.role, None)
  }

  /// The nodes of a server of type `t`, reached over `clientUrl`.
  function NodesOfType(cfg: RedisConfig, t: ServerType, clientUrl: string, masterName: Option<string>, net: Network)
    : (r: Result<(seq<RedisNode>, ServerType)>)
    ensures r.Ok? ==> r.value.1 == t
    ensures t == Standalone ==> r == Ok(([RedisNode(ConnectionUrl(cfg), Master, None)], Standalone))
  {
    match t
    case Cluster =>
      (match net.clusterNodes(clientUrl)
       case Err(e) => Err(e)
       case Ok(raw) =>
         match ClusterNodes(raw)
         case Err(e) => Err(e)
         case Ok(infos) => Ok((seq(|infos|, i requires 0 <= i < |infos| => ToRedisNode(cfg, infos[i])), Cluster)))
    case Sentinel =>
      (match net.sentinelMasters(clientUrl)
       case Err(e) => Err(e)
       case Ok(items) =>
         match SentinelNodes(cfg, masterName, items)
         case Err(e) => Err(e)
         case Ok(nodes) => Ok((nodes, Sentinel)))
    case Standalone => Ok(([RedisNode(ConnectionUrl(cfg), Master, None)], Standalone))
  }

  /// What `get_redis_nodes` computes.
  function Discover(configs: seq<RedisConfig>, name: string, masterName: Option<string>, net: Network)
    : Result<(seq<RedisNode>, ServerType)>
  {
    match GetConfig(configs, name)
    case Err(e) => Err(e)
    case Ok(cfg) =>
      match DetectWithRetry(cfg, net)
      case Err(e) => Err(e)
      case Ok((t, clientUrl)) => NodesOfType(cfg, t, clientUrl, masterName, net)
  }

  /// `get_redis_nodes`.
  method GetRedisNodes(configs: seq<RedisConfig>, name: string, masterName: Option<string>, net: Network)
    returns (r: Result<(seq<RedisNode>, ServerType)>)
    ensures r == Discover(configs, name, masterName, net)
  {
    var config := GetConfig(configs, name);
    if config.Err? {
      return Err(config.error);
    }
    var cfg := config.value;
    var detected := DetectWithRetry(cfg, net);
    if detected.Err? {
      return Err(detected.error);
    }
    var (serverType, clientUrl) := detected.value;
    match serverType {
      case Cluster =>
        var reply := net.clusterNodes(clientUrl);
        if reply.Err? {
          return Err(reply.error);
        }
        var infos := ParseClusterNodes(reply.value);
        if infos.Err? {
          return Err(infos.error);
        }
        var nodes := seq(|infos.value|, i requires 0 <= i < |infos.value| => ToRedisNode(cfg, infos.value[i]));
        r := Ok((nodes, Cluster));
      case Sentinel =>
        var reply := net.sentinelMasters(clientUrl);
        if reply.Err? {
          return Err(reply.error);
        }
        var nodes := CollectSentinelNodes(cfg, masterName, reply.value);
        if nodes.Err? {
          return Err(nodes.error);
        }
        r := Ok((nodes.value, Sentinel));
      case Standalone =>
        r := Ok(([RedisNode(ConnectionUrl(cfg), Master, None)], Standalone));
    }
  }

  /// A standalone server is one master node at the configured URL, password
  /// included, even when the server type was found without the password.
  lemma StandaloneIsOneMaster(configs: seq<RedisConfig>, name: string, masterName: Option<string>, net: Network)
    requires Discover(configs, name, masterName, net).Ok?
    requires Discover(configs, name, masterName, net).value.1 == Standalone
    ensures GetConfig(configs, name).Ok?
    ensures Discover(configs, name, masterName, net).value.0
            == [RedisNode(ConnectionUrl(GetConfig(configs, name).value), Master, None)]
  {
  }

  // ---------------------------------------------------------------------
  // Clients and the client cache
  // ---------------------------------------------------------------------

  datatype ClientKind = SingleClient(url: string) | ClusterClient(urls: seq<string>)

  datatype RedisClient = RedisClient(client: ClientKind, nodes: seq<RedisNode>, masterNodes: seq<RedisNode>)

  /// The master nodes of `nodes`, in order.
  function Masters(nodes: seq<RedisNode>): (ms: seq<RedisNode>)
    ensures forall n :: n in ms <==> n in nodes && n.role == Master
    ensures |ms| <= |nodes|
  {
    if nodes == [] then []
    else (if nodes[0].role == Master then [nodes[0]] else []) + Masters(nodes[1..])
  }

  /// Picking the masters distributes over concatenation, so `Masters` keeps
  /// the nodes' order and repetitions as `filter` does.
  lemma {:induction false} MastersAppend(a: seq<RedisNode>, b: seq<RedisNode>)
    ensures Masters(a + b) == Masters(a) + Masters(b)
    decreases |a|
  {
    if a != [] {
      assert (a + b)[1..] == a[1..] + b;
      MastersAppend(a[1..], b);
    } else {
      assert a + b == b;
    }
  }

  /// `RedisClient::nodes`: (number of masters, number of nodes).
  function NodeCounts(c: RedisClient): (counts: (nat, nat))
    ensures counts.0 == |c.masterNodes| && counts.1 == |c.nodes|
  {
    (|c.masterNodes|, |c.nodes|)
  }

  const NO_NODES: string := Invalid("No Redis node found")

  /// The client `get_client` builds from discovered nodes: a cluster client
  /// over every node, otherwise a single client on the first node.
  function BuildClient(nodes: seq<RedisNode>, t: ServerType): (r: Result<RedisClient>)
    ensures r.Ok? ==> r.value.nodes == nodes && r.value.masterNodes == Masters(nodes)
    ensures r.Ok? ==> NodeCounts(r.value) == (|Masters(nodes)|, |nodes|)
    ensures r.Err? <==> t != Cluster && nodes == []
  {
    var kind :=
      if t == Cluster then ClusterClient(seq(|nodes|, i requires 0 <= i < |nodes| => nodes[i].addr))
      else if nodes == [] then SingleClient("")
      else SingleClient(nodes[0].addr);
    if t != Cluster && nodes == [] then Err(NO_NODES)
    else Ok(RedisClient(kind, nodes, Masters(nodes)))
  }

  /// The outcome of the code as written: indexing the first node of an empty
  /// list aborts the program.
  datatype Built = Panicked | Built(client: RedisClient)

  /// `get_client`'s construction step as written.
  function BuildClientAsWritten(nodes: seq<RedisNode>, t: ServerType): (b: Built)
    ensures b.Panicked? <==> t != Cluster && nodes == []
    ensures b.Built? ==> BuildClient(nodes, t) == Ok(b.client)
  {
    if t == Cluster then Built(RedisClient(ClusterClient(seq(|nodes|, i requires 0 <= i < |nodes| => nodes[i].addr)), nodes, Masters(nodes)))
    else if nodes == [] then Panicked
    else Built(RedisClient(SingleClient(nodes[0].addr), nodes, Masters(nodes)))
  }

  lemma SentinelPortParses()
    ensures ParseU16("6379") == Some(6379)
  {
    assert "6379" == Decimal(6379);
    ParseDecimal(6379, U16_BOUND);
  }

  /// The only entry names another master, so nothing is collected.
  lemma OtherMasterSkipped(cfg: RedisConfig, item: map<string, string>)
    requires item == map["ip" := "10.0.0.1", "port" := "6379", "name" := "other"]
    ensures SentinelNodes(cfg, Some("mymaster"), [item]) == Ok([])
  {
    SentinelPortParses();
    var step := SentinelStep(cfg, Some("mymaster"));
    assert step(item) == Ok(None);
    assert [item][..0] == [] && [item][..1] == [item];
    CollectOkStep([item], 0, step);
    assert !Ambiguous([]);
  }

  /// A sentinel that only knows other masters than the configured one yields
  /// no node, and the code as written then aborts.
  lemma SentinelWithoutMatchPanics()
    ensures var cfg := RedisConfig("local", "127.0.0.1", 26379, None);
            var items := [map["ip" := "10.0.0.1", "port" := "6379", "name" := "other"]];
            SentinelNodes(cfg, Some("mymaster"), items) == Ok([])
            && BuildClientAsWritten([], Sentinel).Panicked?
            && BuildClient([], Sentinel) == Err(NO_NODES)
  {
    OtherMasterSkipped(RedisConfig("local", "127.0.0.1", 26379, None),
                       map["ip" := "10.0.0.1", "port" := "6379", "name" := "other"]);
  }

  /// The client cache (`ConnectionManager`).
  class ConnectionManager {
    var clients: map<string, RedisClient>

    constructor ()
      ensures clients == map[]
    {
      clients := map[];
    }

    /// `get_client`: a cached client is returned as is, without discovery;
    /// otherwise the nodes are discovered, the client built and cached.
    method GetClient(name: string, configs: seq<RedisConfig>, masterName: Option<string>, net: Network)
      returns (r: Result<RedisClient>)
      modifies this
      ensures name in old(clients) ==> r == Ok(old(clients)[name]) && clients == old(clients)
      ensures name !in old(clients) ==>
        match Discover(configs, name, masterName, net)
        case Err(e) => r == Err(e) && clients == old(clients)
        case Ok((nodes, t)) =>
          r == BuildClient(nodes, t)
          && (r.Ok? ==> clients == old(clients)[name := r.value])
          && (r.Err? ==> clients == old(clients))
    {
      if name in clients {
        return Ok(clients[name]);
      }
      var discovered := GetRedisNodes(configs, name, masterName, net);
      if discovered.Err? {
        return Err(discovered.error);
      }
      var (nodes, serverType) := discovered.value;
      r := BuildClient(nodes, serverType);
      if r.Ok? {
        clients := clients[name := r.value];
      }
    }
  }

  // ---------------------------------------------------------------------
  // Fan-out operations
  // ---------------------------------------------------------------------

  /// The masters' addresses, in master order.
  function MasterAddrs(c: RedisClient): (addrs: seq<string>)
    ensures |addrs| == |c.masterNodes|
    ensures forall i :: 0 <= i < |addrs| ==> addrs[i] == c.masterNodes[i].addr
  {
    seq(|c.masterNodes|, i requires 0 <= i < |c.masterNodes| => c.masterNodes[i].addr)
  }

  /// The database index the manager's fan-out runs on: its call passes none.
  const FANOUT_DB: nat := 0

  const DBSIZE_CMD: Cmd := Cmd(["DBSIZE"])

  function Sum(xs: seq<nat>): nat
  {
    if xs == [] then 0 else xs[0] + Sum(xs[1..])
  }

  lemma {:induction false} SumBounds(xs: seq<nat>, k: nat)
    requires k < |xs|
    ensures xs[k] <= Sum(xs)
  {
    if k > 0 { SumBounds(xs[1..], k - 1); }
  }

  /// The DBSIZE reply of every master in master order, a failed one
  /// counting as zero.
  function ReplyCounts(c: RedisClient, run: (string, nat, Cmd) -> Result<nat>): (counts: seq<nat>)
    ensures |counts| == |c.masterNodes|
    ensures forall i :: 0 <= i < |counts| && run(c.masterNodes[i].addr, FANOUT_DB, DBSIZE_CMD).Ok? ==>
              counts[i] == run(c.masterNodes[i].addr, FANOUT_DB, DBSIZE_CMD).value
  {
    seq<nat>(|c.masterNodes|, i requires 0 <= i < |c.masterNodes| => CountOf(run(c.masterNodes[i].addr, FANOUT_DB, DBSIZE_CMD)))
  }

  function CountOf(reply: Result<nat>): nat
  {
    if reply.Ok? then reply.value else 0
  }

  /// `RedisClient::dbsize`: DBSIZE on every master, summed.
  function DbSize(c: RedisClient, run: (string, nat, Cmd) -> Result<nat>): (r: Result<nat>)
    ensures r.Ok? <==> forall i :: 0 <= i < |c.masterNodes| ==> run(c.masterNodes[i].addr, FANOUT_DB, DBSIZE_CMD).Ok?
    ensures r.Ok? ==> r.value == Sum(ReplyCounts(c, run))
    ensures r.Err? ==> exists i :: 0 <= i < |c.masterNodes| && run(c.masterNodes[i].addr, FANOUT_DB, DBSIZE_CMD) == Err(r.error)
                                   && forall j :: 0 <= j < i ==> run(c.masterNodes[j].addr, FANOUT_DB, DBSIZE_CMD).Ok?
    ensures r.Ok? ==> forall i :: 0 <= i < |c.masterNodes| ==>
              run(c.masterNodes[i].addr, FANOUT_DB, DBSIZE_CMD).Ok?
              && run(c.masterNodes[i].addr, FANOUT_DB, DBSIZE_CMD).value <= r.value
    ensures r.Ok? && |c.masterNodes| == 1 ==> r.value == run(c.masterNodes[0].addr, FANOUT_DB, DBSIZE_CMD).value
  {
    var q := QueryAsyncMasters(MasterAddrs(c), FANOUT_DB, [DBSIZE_CMD], run);
    DbSizeReplies(c, run);
    match q
    case Err(e) => Err(e)
    case Ok(counts) => Ok(Sum(counts))
  }

  lemma DbSizeReplies(c: RedisClient, run: (string, nat, Cmd) -> Result<nat>)
    ensures var q := QueryAsyncMasters(MasterAddrs(c), FANOUT_DB, [DBSIZE_CMD], run);
      (q.Ok? <==> forall i :: 0 <= i < |c.masterNodes| ==> run(c.masterNodes[i].addr, FANOUT_DB, DBSIZE_CMD).Ok?)
      && (q.Ok? ==> q.value == ReplyCounts(c, run))
      && (q.Ok? ==> forall i :: 0 <= i < |c.masterNodes| ==>
            run(c.masterNodes[i].addr, FANOUT_DB, DBSIZE_CMD).Ok?
            && run(c.masterNodes[i].addr, FANOUT_DB, DBSIZE_CMD).value <= Sum(q.value))
      && (q.Ok? && |c.masterNodes| == 1 ==> Sum(q.value) == run(c.masterNodes[0].addr, FANOUT_DB, DBSIZE_CMD).value)
      && (q.Err? ==> exists i :: 0 <= i < |c.masterNodes| && run(c.masterNodes[i].addr, FANOUT_DB, DBSIZE_CMD) == Err(q.error)
                                 && forall j :: 0 <= j < i ==> run(c.masterNodes[j].addr, FANOUT_DB, DBSIZE_CMD).Ok?)
  {
    var addrs := MasterAddrs(c);
    var q := QueryAsyncMasters(addrs, FANOUT_DB, [DBSIZE_CMD], run);
    assert forall i :: 0 <= i < |addrs| ==> CommandFor([DBSIZE_CMD], i) == DBSIZE_CMD;
    if q.Ok? {
      DbSizeCounts(c, run, q.value);
    } else {
      DbSizeFirstError(c, run, q.error);
    }
  }

  /// The replies of a successful DBSIZE fan-out are the masters' counts.
  lemma DbSizeCounts(c: RedisClient, run: (string, nat, Cmd) -> Result<nat>, counts: seq<nat>)
    requires QueryAsyncMasters(MasterAddrs(c), FANOUT_DB, [DBSIZE_CMD], run) == Ok(counts)
    ensures counts == ReplyCounts(c, run)
    ensures forall i :: 0 <= i < |c.masterNodes| ==>
              run(c.masterNodes[i].addr, FANOUT_DB, DBSIZE_CMD) == Ok(counts[i]) && counts[i] <= Sum(counts)
    ensures |c.masterNodes| == 1 ==> Sum(counts) == counts[0]
  {
    var addrs := MasterAddrs(c);
    forall i | 0 <= i < |c.masterNodes|
      ensures run(c.masterNodes[i].addr, FANOUT_DB, DBSIZE_CMD) == Ok(counts[i])
      ensures counts[i] <= Sum(counts)
    {
      assert CommandFor([DBSIZE_CMD], i) == DBSIZE_CMD;
      assert run(addrs[i], FANOUT_DB, CommandFor([DBSIZE_CMD], i)) == Ok(counts[i]);
      SumBounds(counts, i);
    }
    if |counts| == 1 {
      assert counts[1..] == [];
    }
  }

  /// A failed DBSIZE fan-out reports the error of a master all of whose
  /// predecessors answered.
  lemma DbSizeFirstError(c: RedisClient, run: (string, nat, Cmd) -> Result<nat>, e: string)
    requires QueryAsyncMasters(MasterAddrs(c), FANOUT_DB, [DBSIZE_CMD], run) == Err(e)
    ensures exists i :: 0 <= i < |c.masterNodes| && run(c.masterNodes[i].addr, FANOUT_DB, DBSIZE_CMD) == Err(e)
                        && forall j :: 0 <= j < i ==> run(c.masterNodes[j].addr, FANOUT_DB, DBSIZE_CMD).Ok?
  {
    var addrs := MasterAddrs(c);
    var i :| 0 <= i < |addrs| && run(addrs[i], FANOUT_DB, CommandFor([DBSIZE_CMD], i)) == Err(e)
             && forall j :: 0 <= j < i ==> run(addrs[j], FANOUT_DB, CommandFor([DBSIZE_CMD], j)).Ok?;
    assert CommandFor([DBSIZE_CMD], i) == DBSIZE_CMD;
    forall j | 0 <= j < i
      ensures run(c.masterNodes[j].addr, FANOUT_DB, DBSIZE_CMD).Ok?
    {
      assert CommandFor([DBSIZE_CMD], j) == DBSIZE_CMD;
      assert run(addrs[j], FANOUT_DB, CommandFor([DBSIZE_CMD], j)).Ok?;
    }
  }

  function ScanCmd(cursor: nat, pattern: string, count: nat): Cmd
  {
    Cmd(["SCAN", Decimal(cursor), "MATCH", pattern, "COUNT", Decimal(count)])
  }

  function ScanCmds(cursors: seq<nat>, pattern: string, count: nat): (cmds: seq<Cmd>)
    ensures |cmds| == |cursors|
    ensures forall i :: 0 <= i < |cursors| ==> cmds[i] == ScanCmd(cursors[i], pattern, count)
  {
    seq(|cursors|, i requires 0 <= i < |cursors| => ScanCmd(cursors[i], pattern, count))
  }

  /// All keys of the per-node replies, node after node.
  function AllKeys(replies: seq<(nat, seq<string>)>): seq<string>
  {
    if replies == [] then [] else replies[0].1 + AllKeys(replies[1..])
  }

  /// The SCAN replies of the masters, one per master.
  function ScanReplies(c: RedisClient, cursors: seq<nat>, pattern: string, count: nat,
                       run: (string, nat, Cmd) -> Result<(nat, seq<string>)>): Result<seq<(nat, seq<string>)>>
  {
    QueryAsyncMasters(MasterAddrs(c), FANOUT_DB, ScanCmds(cursors, pattern, count), run)
  }

  /// `RedisClient::scan`: one SCAN per cursor, sent to the masters; the new
  /// cursors come back one per master in master order and the keys of all
  /// masters are merged and sorted.
  method Scan(c: RedisClient, cursors: seq<nat>, pattern: string, count: nat,
              run: (string, nat, Cmd) -> Result<(nat, seq<string>)>)
    returns (r: Result<(seq<nat>, seq<string>)>)
    requires cursors != [] ==> c.masterNodes != []
    ensures cursors == [] ==> r == Err(COMMANDS_EMPTY)
    ensures ScanReplies(c, cursors, pattern, count, run).Err? ==> r == Err(ScanReplies(c, cursors, pattern, count, run).error)
    ensures ScanReplies(c, cursors, pattern, count, run).Ok? ==> r.Ok?
    ensures r.Ok? ==>
      var replies := ScanReplies(c, cursors, pattern, count, run).value;
      |r.value.0| == |c.masterNodes|
      && (forall i :: 0 <= i < |replies| ==> r.value.0[i] == replies[i].0)
      && multiset(r.value.1) == multiset(AllKeys(replies))
      && Sorted(r.value.1)
  {
    var query := ScanReplies(c, cursors, pattern, count, run);
    if query.Err? {
      return Err(query.error);
    }
    var newCursors, keys := Gather(query.value);
    var sorted := SortBy(keys, Identity);
    r := Ok((newCursors, sorted));
  }

  /// The loop of `scan` over the replies: the cursors in reply order and
  /// every reply's keys, concatenated.
  method Gather(values: seq<(nat, seq<string>)>) returns (newCursors: seq<nat>, keys: seq<string>)
    ensures |newCursors| == |values|
    ensures forall j :: 0 <= j < |values| ==> newCursors[j] == values[j].0
    ensures keys == AllKeys(values)
  {
    newCursors := [];
    keys := [];
    var i := 0;
    while i < |values|
      invariant 0 <= i <= |values|
      invariant |newCursors| == i
      invariant forall j :: 0 <= j < i ==> newCursors[j] == values[j].0
      invariant keys + AllKeys(values[i..]) == AllKeys(values)
    {
      assert values[i..][1..] == values[i + 1..];
      newCursors := newCursors + [values[i].0];
      keys := keys + values[i].1;
      i := i + 1;
    }
  }

  /// `RedisClient::count_masters`.
  function CountMasters(c: RedisClient): (n: nat)
    ensures n == NodeCounts(c).0
  {
    |c.masterNodes|
  }

  /// The cursors a first scan starts from: one zero per master.
  function FirstCursors(c: RedisClient): (cursors: seq<nat>)
    ensures |cursors| == CountMasters(c)
    ensures forall i :: 0 <= i < |cursors| ==> cursors[i] == 0
  {
    seq(CountMasters(c), _ => 0)
  }

  /// `RedisClient::first_scan`: a scan from cursor 0 on every master.
  method FirstScan(c: RedisClient, pattern: string, count: nat,
                   run: (string, nat, Cmd) -> Result<(nat, seq<string>)>)
    returns (r: Result<(seq<nat>, seq<string>)>)
    ensures c.masterNodes == [] ==> r == Err(COMMANDS_EMPTY)
    ensures r.Ok? ==>
      ScanReplies(c, FirstCursors(c), pattern, count, run).Ok? &&
      var replies := ScanReplies(c, FirstCursors(c), pattern, count, run).value;
      |r.value.0| == |c.masterNodes|
      && (forall i :: 0 <= i < |replies| ==> r.value.0[i] == replies[i].0)
      && multiset(r.value.1) == multiset(AllKeys(replies))
      && Sorted(r.value.1)
  {
    r := Scan(c, FirstCursors(c), pattern, count, run);
  }

  /// Every SCAN of a first scan asks from cursor 0.
  lemma FirstScanSendsZero(c: RedisClient, pattern: string, count: nat, i: nat)
    requires i < |c.masterNodes|
    ensures CommandFor(ScanCmds(FirstCursors(c), pattern, count), i) == ScanCmd(0, pattern, count)
  {
  }

  lemma DecimalHasNoSeparator(n: nat)
    ensures ':' !in Decimal(n) && '@' !in Decimal(n)
  {
    var d := Decimal(n);
    assert forall k :: 0 <= k < |d| ==> IsDigit(d[k]);
  }

  /// A port text that is not a u16 makes the address invalid.
  lemma BadPortRejected(host: string, portText: string)
    requires ':' !in host && '@' !in host && '@' !in portText && ParseU16(portText).None?
    ensures ParseAddress(host + [':'] + portText).Err?
  {
    var s := host + [':'] + portText;
    assert '@' !in s by {
      assert forall k :: 0 <= k < |s| ==> s[k] == (if k < |host| then host[k] else if k == |host| then ':' else portText[k - |host| - 1]);
    }
    assert SplitOnce(s, '@').None?;
    SplitOnceAt(host, ':', portText);
  }

  lemma NinesNotU16()
    ensures ParseU16("99999").None?
  {
    assert "99999"[..4] == "9999" && "9999"[..3] == "999" && "999"[..2] == "99" && "99"[..1] == "9";
    assert DigitsValue("99999") == 99999;
  }

  /// Port 99999 is rejected whatever the host.
  lemma OutOfRangePortRejected(host: string)
    requires ':' !in host && '@' !in host
    ensures ParseAddress(host + [':'] + "99999").Err?
  {
    NinesNotU16();
    BadPortRejected(host, "99999");
  }

  /// The connection URL of an endpoint ends in an address the cluster
  /// address parser reads back as the endpoint's host and port.
  lemma AddressRoundTrip(host: string, port: nat)
    requires ':' !in host && '@' !in host && port < U16_BOUND
    ensures ParseAddress(Address(host, port)) == Ok((host, port, None))
  {
    var s := Address(host, port);
    assert s == host + [':'] + Decimal(port);
    DecimalHasNoSeparator(port);
    assert '@' !in s;
    SplitOnceAt(host, ':', Decimal(port));
    ParseDecimal(port, U16_BOUND);
  }

  /// Likewise with a cluster bus port after `@`.
  lemma AddressWithBusPortRoundTrip(host: string, port: nat, cport: nat)
    requires ':' !in host && '@' !in host && port < U16_BOUND && cport < U16_BOUND
    ensures ParseAddress(Address(host, port) + "@" + Decimal(cport)) == Ok((host, port, Some(cport)))
  {
    var a := Address(host, port);
    assert a == host + [':'] + Decimal(port);
    DecimalHasNoSeparator(port);
    assert '@' !in a;
    SplitOnceAt(a, '@', Decimal(cport));
    SplitOnceAt(host, ':', Decimal(port));
    ParseDecimal(port, U16_BOUND);
    ParseDecimal(cport, U16_BOUND);
  }
}
