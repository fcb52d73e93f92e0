// The server state of src/states/server.rs: scan bookkeeping, the key map and
// its tree, the bounded error log, the saved server list and the selection
// of a server. A task started with `spawn` is modelled as the state change
// made when it is started and a completion method that takes the
// outcome of that work as input; saving the server list to disk is such an outcome.

module ServerState {
  import opened Wrappers
  import opened KeyTrie

  datatype ServerStatus = Idle | Loading

  /// `QueryMode`: only whether it is `All` matters here.
  datatype QueryMode = All | Other

  /// `KeyType`: keys found by a scan start as `Unknown`.
  datatype KeyType = Unknown | Known(kind: string)

  /// A configured server (`RedisServer`), with the fields the sidebar's form
  /// edits and the time of the last update.
  datatype RedisServer = RedisServer(
    id: string, name: string, host: string, port: nat,
    username: Option<string>, password: Option<string>,
    masterName: Option<string>, description: Option<string>,
    tls: Option<bool>, insecure: Option<bool>,
    clientCert: Option<string>, clientKey: Option<string>, rootCert: Option<string>,
    sshTunnel: Option<bool>, sshAddr: Option<string>, sshUsername: Option<string>,
    sshPassword: Option<string>, sshKey: Option<string>,
    updatedAt: Option<string>)

  datatype ErrorMessage = ErrorMessage(category: string, message: string, createdAt: int)

  datatype ServerTask =
    | Ping | SelectServer | RemoveServer | UpdateOrInsertServer | FillKeyTypes
    | Selectkey | DeleteKey | ScanKeys | ScanPrefix | UpdateKeyTtl
    | DeleteListItem | UpdateListValue | LoadMoreListValue | SaveValue

  /// `ServerTask::as_str`, the category of the error a failed task logs.
  function TaskName(t: ServerTask): string
  {
    match t
    case Ping => "ping"
    case SelectServer => "select_server"
    case RemoveServer => "remove_server"
    case UpdateOrInsertServer => "update_or_insert_server"
    case FillKeyTypes => "fill_key_types"
    case Selectkey => "select_key"
    case DeleteKey => "delete_key"
    case ScanKeys => "scan_keys"
    case ScanPrefix => "scan_prefix"
    case UpdateKeyTtl => "update_key_ttl"
    case DeleteListItem => "delete_list_item"
    case UpdateListValue => "update_list_value"
    case LoadMoreListValue => "load_more_list_value"
    case SaveValue => "save_value"
  }

  const MAX_ERROR_MESSAGES := 10

  /// The error log after `add_error_message`: when it already holds ten
  /// entries the oldest is dropped, then the new one is appended.
  function WithError(log: seq<ErrorMessage>, m: ErrorMessage): (r: seq<ErrorMessage>)
    ensures |log| <= MAX_ERROR_MESSAGES ==> |r| <= MAX_ERROR_MESSAGES
    ensures r != [] && r[|r| - 1] == m
    ensures |log| < MAX_ERROR_MESSAGES ==> r[..|r| - 1] == log
    ensures |log| >= MAX_ERROR_MESSAGES ==> r[..|r| - 1] == log[1..]
  {
    var kept := if |log| >= MAX_ERROR_MESSAGES then log[1..] else log;
    assert (kept + [m])[..|kept|] == kept;
    kept + [m]
  }

  /// A full log stays full: every further error replaces the oldest one.
  lemma {:induction false} ErrorLogStaysBounded(log: seq<ErrorMessage>, ms: seq<ErrorMessage>)
    requires |log| <= MAX_ERROR_MESSAGES
    ensures |AddAll(log, ms)| <= MAX_ERROR_MESSAGES
    ensures |log| + |ms| >= MAX_ERROR_MESSAGES ==> |AddAll(log, ms)| == MAX_ERROR_MESSAGES
    ensures |log| + |ms| < MAX_ERROR_MESSAGES ==> AddAll(log, ms) == log + ms
    decreases |ms|
  {
    if ms != [] {
      ErrorLogStaysBounded(WithError(log, ms[0]), ms[1..]);
      var next := WithError(log, ms[0]);
      if |log| < MAX_ERROR_MESSAGES {
        assert next == log + [ms[0]];
        assert log + ms == next + ms[1..];
      }
    }
  }

  /// The log after adding each of `ms` in turn.
  function AddAll(log: seq<ErrorMessage>, ms: seq<ErrorMessage>): seq<ErrorMessage>
    decreases |ms|
  {
    if ms == [] then log else AddAll(WithError(log, ms[0]), ms[1..])
  }

  /// The key map after `extend_keys`: keys it did not hold are added as
  /// `Unknown`, the others keep their type.
  function Extended(keys: map<string, KeyType>, found: seq<string>): (r: map<string, KeyType>)
    ensures r.Keys == keys.Keys + set k | k in found
    ensures forall k :: k in keys ==> r[k] == keys[k]
    ensures forall k :: k in r && k !in keys ==> r[k] == Unknown
  {
    map k | k in keys.Keys + (set k | k in found) ::
      if k in keys then keys[k] else Unknown
  }

  /// Scanning the same keys again changes nothing.
  lemma ExtendedIdempotent(keys: map<string, KeyType>, found: seq<string>)
    ensures Extended(Extended(keys, found), found) == Extended(keys, found)
  {
  }

  lemma ExtendedStep(keys: map<string, KeyType>, found: seq<string>, i: nat)
    requires i < |found|
    ensures Extended(keys, found[..i + 1]) ==
      var prev := Extended(keys, found[..i]);
      if found[i] in prev then prev else prev[found[i] := Unknown]
  {
    var longer, shorter := found[..i + 1], found[..i];
    assert longer == shorter + [found[i]];
    assert (set k | k in longer) == (set k | k in shorter) + {found[i]};
  }

  /// Some scanned key is not yet in the map.
  predicate AnyNew(keys: map<string, KeyType>, found: seq<string>)
  {
    exists i :: 0 <= i < |found| && found[i] !in keys
  }

  /// One more scanned key: something new has been seen exactly when it was
  /// before or this key is unknown; a key already in the extended map but
  /// not in the original one was new earlier.
  lemma AnyNewStep(keys: map<string, KeyType>, found: seq<string>, i: nat)
    requires i < |found|
    ensures AnyNew(keys, found[..i + 1]) <==> AnyNew(keys, found[..i]) || found[i] !in keys
    ensures found[i] in Extended(keys, found[..i]) && found[i] !in keys ==> AnyNew(keys, found[..i])
  {
    var longer, shorter := found[..i + 1], found[..i];
    assert forall j :: 0 <= j < i ==> longer[j] == shorter[j];
    assert longer[i] == found[i];
    if found[i] in Extended(keys, shorter) && found[i] !in keys {
      assert found[i] in shorter;
      var j :| 0 <= j < |shorter| && shorter[j] == found[i];
    }
  }

  /// `remove_server`'s list: every entry with that name is dropped, the
  /// others stay in order.
  function WithoutServer(servers: seq<RedisServer>, name: string): (r: seq<RedisServer>)
    ensures forall s :: s in r <==> s in servers && s.name != name
    ensures |r| <= |servers|
  {
    if servers == [] then []
    else if servers[0].name == name then WithoutServer(servers[1..], name)
    else [servers[0]] + WithoutServer(servers[1..], name)
  }

  /// Removal distributes over concatenation, so the kept entries stay in
  /// order and repeated entries stay repeated, as `retain` leaves them.
  lemma {:induction false} WithoutServerAppend(a: seq<RedisServer>, b: seq<RedisServer>, name: string)
    ensures WithoutServer(a + b, name) == WithoutServer(a, name) + WithoutServer(b, name)
    decreases |a|
  {
    if a != [] {
      assert (a + b)[1..] == a[1..] + b;
      WithoutServerAppend(a[1..], b, name);
    } else {
      assert a + b == b;
    }
  }

  /// Index of the first entry with that name (`iter_mut().find`).
  function FindServer(servers: seq<RedisServer>, name: string): (r: Option<nat>)
    ensures r.Some? ==> r.value < |servers| && servers[r.value].name == name
                        && forall j :: 0 <= j < r.value ==> servers[j].name != name
    ensures r.None? <==> forall j :: 0 <= j < |servers| ==> servers[j].name != name
  {
    if servers == [] then None
    else if servers[0].name == name then Some(0)
    else match FindServer(servers[1..], name)
      case None => None
      case Some(i) => Some(i + 1)
  }

  /// The list `update_or_insrt_server` would save: an entry with the same
  /// name is replaced in place (an error when the server is meant to be
  /// new), otherwise the server is appended.
  function Upserted(servers: seq<RedisServer>, server: RedisServer, isNew: bool): (r: Result<seq<RedisServer>>)
    ensures r.Err? <==> isNew && exists j :: 0 <= j < |servers| && servers[j].name == server.name
    ensures r.Err? ==> r.error == Invalid("server already exists")
    ensures r.Ok? ==> FindServer(r.value, server.name) != None
                      && r.value[FindServer(r.value, server.name).value] == server
    ensures r.Ok? ==> forall j :: 0 <= j < |servers| && servers[j].name != server.name ==> servers[j] in r.value
    ensures forall i :: 0 <= i < |servers| && servers[i].name == server.name && !isNew
                        && (forall j :: 0 <= j < i ==> servers[j].name != server.name) ==>
              r == Ok(servers[i := server])
    ensures (forall j :: 0 <= j < |servers| ==> servers[j].name != server.name) ==> r == Ok(servers + [server])
  {
    match FindServer(servers, server.name)
    case Some(i) =>
      if isNew then Err(Invalid("server already exists"))
      else
        var r := servers[i := server];
        assert forall j :: 0 <= j < |servers| && j != i ==> r[j] == servers[j];
        assert FindServer(r, server.name) == Some(i) by {
          FindServerPrefix(servers, r, server.name, i);
        }
        Ok(r)
    case None =>
      var r := servers + [server];
      assert FindServer(r, server.name) == Some(|servers|) by {
        FindServerPrefix(servers, r, server.name, |servers|);
      }
      Ok(r)
  }

  /// When `a` and `b` agree before `i` and `b[i]` has the name, the first
  /// match in `b` is at `i`, provided `a` has no earlier match.
  lemma {:induction false} FindServerPrefix(a: seq<RedisServer>, b: seq<RedisServer>, name: string, i: nat)
    requires i < |b| && b[i].name == name && i <= |a|
    requires forall j :: 0 <= j < i ==> a[j] == b[j] && a[j].name != name
    ensures FindServer(b, name) == Some(i)
    decreases i
  {
    if i > 0 {
      FindServerPrefix(a[1..], b[1..], name, i - 1);
    }
  }

  /// After removing a name, adding a new server of that name succeeds and
  /// puts it at the end.
  lemma RemoveThenAdd(servers: seq<RedisServer>, server: RedisServer)
    ensures Upserted(WithoutServer(servers, server.name), server, true)
         == Ok(WithoutServer(servers, server.name) + [server])
  {
    var rest := WithoutServer(servers, server.name);
    assert forall j :: 0 <= j < |rest| ==> rest[j] in rest;
  }

  /// Removing twice is removing once.
  lemma {:induction false} RemoveIdempotent(servers: seq<RedisServer>, name: string)
    ensures WithoutServer(WithoutServer(servers, name), name) == WithoutServer(servers, name)
    decreases |servers|
  {
    if servers != [] {
      RemoveIdempotent(servers[1..], name);
      if servers[0].name != name {
        var rest := WithoutServer(servers[1..], name);
        assert ([servers[0]] + rest)[1..] == rest;
      }
    }
  }

  /// The task of `remove_server`: the list without the name, once saved.
  function RemoveServerTask(servers: Option<seq<RedisServer>>, name: string, saved: Result<()>): (r: Result<seq<RedisServer>>)
    ensures r.Ok? <==> saved.Ok?
    ensures r.Err? ==> r.error == saved.error
    ensures r.Ok? ==> forall s :: s in r.value ==> s.name != name
  {
    var list := if servers.Some? then servers.value else [];
    if saved.Err? then Err(saved.error) else Ok(WithoutServer(list, name))
  }

  /// The task of `update_or_insrt_server`: the server, stamped with the
  /// update time, put into the list, then the list saved.
  function UpsertServerTask(servers: Option<seq<RedisServer>>, server: RedisServer, isNew: bool,
                            now: string, saved: Result<()>): (r: Result<seq<RedisServer>>)
    ensures var u := Upserted(if servers.Some? then servers.value else [], server.(updatedAt := Some(now)), isNew);
      && (r.Ok? <==> u.Ok? && saved.Ok?)
      && (r.Ok? ==> r.value == u.value)
      && (r.Err? ==> r.error == if u.Err? then u.error else saved.error)
    ensures r.Ok? ==> var i := FindServer(r.value, server.name);
      i.Some? && r.value[i.value] == server.(updatedAt := Some(now))
    ensures isNew && servers.Some? && (exists j :: 0 <= j < |servers.value| && servers.value[j].name == server.name)
            ==> r == Err(Invalid("server already exists"))
  {
    var list := if servers.Some? then servers.value else [];
    match Upserted(list, server.(updatedAt := Some(now)), isNew)
    case Err(e) => Err(e)
    case Ok(v) => if saved.Err? then Err(saved.error) else Ok(v)
  }

  /// What the select task reports: key count, latency, node counts, version.
  datatype SelectReply = SelectReply(dbsize: nat, latency: nat, nodes: (nat, nat), version: string)

  class ZedisServerState {
    var server: string
    var queryMode: QueryMode
    var status: ServerStatus
    var dbsize: Option<nat>
    var nodes: (nat, nat)
    var version: string
    var latency: Option<nat>
    var servers: Option<seq<RedisServer>>
    var key: Option<string>
    var keyword: string
    var cursors: Option<seq<nat>>
    var scaning: bool
    var scanCompleted: bool
    var scanTimes: nat
    var keyTreeId: string
    var loadedPrefixes: set<string>
    var keys: map<string, KeyType>
    var errorMessages: seq<ErrorMessage>

    /// The scan state `reset_scan` leaves.
    predicate ScanCleared()
      reads this
    {
      keyword == [] && cursors.None? && keys == map[] && !scaning && !scanCompleted
      && scanTimes == 0 && loadedPrefixes == {}
    }

    /// `ZedisServerState::new` (the derived default).
    constructor ()
      ensures ScanCleared() && server == [] && status == Idle && servers.None?
      ensures dbsize.None? && latency.None? && key.None? && nodes == (0, 0) && version == []
      ensures errorMessages == [] && keyTreeId == [] && queryMode == All
    {
      server := [];
      queryMode := All;
      status := Idle;
      dbsize := None;
      nodes := (0, 0);
      version := [];
      latency := None;
      servers := None;
      key := None;
      keyword := [];
      cursors := None;
      scaning := false;
      scanCompleted := false;
      scanTimes := 0;
      keyTreeId := [];
      loadedPrefixes := {};
      keys := map[];
      errorMessages := [];
    }

    /// `reset_scan`; `treeId` is the fresh UUID it draws for the key tree.
    method ResetScan(treeId: string)
      modifies this`keyword, this`cursors, this`keys, this`keyTreeId, this`scaning,
               this`scanCompleted, this`scanTimes, this`loadedPrefixes
      ensures ScanCleared() && keyTreeId == treeId
      ensures ScanCount() == 0
    {
      keyword := [];
      cursors := None;
      keys := map[];
      keyTreeId := treeId;
      scaning := false;
      scanCompleted := false;
      scanTimes := 0;
      loadedPrefixes := {};
    }

    /// Nothing is known about a server: no name, version, node counts,
    /// size, latency or selected key.
    predicate Forgotten()
      reads this
    {
      server == [] && version == [] && nodes == (0, 0) && dbsize.None? && latency.None? && key.None?
    }

    /// `reset`: forgets the server and everything learnt about it; the
    /// query mode, status, server list and error log are outside its frame.
    method Reset(treeId: string)
      modifies this`server, this`version, this`nodes, this`dbsize, this`latency, this`key
      modifies this`keyword, this`cursors, this`keys, this`keyTreeId, this`scaning,
               this`scanCompleted, this`scanTimes, this`loadedPrefixes
      ensures ScanCleared() && keyTreeId == treeId && Forgotten()
    {
      server := [];
      version := [];
      nodes := (0, 0);
      dbsize := None;
      latency := None;
      key := None;
      ResetScan(treeId);
    }

    /// `extend_keys`: adds the scanned keys it did not know as `Unknown`
    /// and draws a new tree id (`treeId`) only when one of them was new.
    method ExtendKeys(found: seq<string>, treeId: string)
      modifies this`keys, this`keyTreeId
      ensures keys == Extended(old(keys), found)
      ensures keyTreeId == if AnyNew(old(keys), found) then treeId else old(keyTreeId)
    {
      var inserted := 0;
      var i := 0;
      while i < |found|
        invariant 0 <= i <= |found|
        invariant keys == Extended(old(keys), found[..i])
        invariant (inserted != 0) <==> AnyNew(old(keys), found[..i])
        invariant keyTreeId == old(keyTreeId)
      {
        ExtendedStep(old(keys), found, i);
        AnyNewStep(old(keys), found, i);
        if found[i] !in keys {
          keys := keys[found[i] := Unknown];
          inserted := inserted + 1;
        }
        i := i + 1;
      }
      assert found[..i] == found;
      if inserted != 0 {
        keyTreeId := treeId;
      }
    }

    /// `add_error_message`; `createdAt` is the clock reading it stamps.
    method AddErrorMessage(category: string, message: string, createdAt: int)
      modifies this`errorMessages
      ensures errorMessages == WithError(old(errorMessages), ErrorMessage(category, message, createdAt))
    {
      if |errorMessages| >= MAX_ERROR_MESSAGES {
        errorMessages := errorMessages[1..];
      }
      errorMessages := errorMessages + [ErrorMessage(category, message, createdAt)];
    }

    /// `is_busy`.
    function IsBusy(): (r: bool)
      reads this
      ensures r <==> status != Idle
    {
      !status.Idle?
    }

    /// `scan_count`: the number of keys known.
    function ScanCount(): (r: nat)
      reads this
      ensures r == |keys.Keys|
    {
      |keys|
    }

    /// `key_tree`: the trie of the known keys shown as sorted tree items.
    method KeyTree(expandedItems: set<string>, expandAll: bool) returns (items: seq<TreeItem>)
      ensures exists root :: IsTrieOf(root, keys.Keys) && Shows(items, root, expandedItems, expandAll)
    {
      var root := BuildTrie(keys.Keys);
      items := ConvertChildren(root, expandedItems, expandAll);
    }

    /// The completion of the server-list tasks: a saved list replaces the
    /// one held, a failure is logged under the name of its task.
    method CompleteServersTask(task: ServerTask, result: Result<seq<RedisServer>>, createdAt: int)
      modifies this`servers, this`errorMessages
      ensures result.Ok? ==> servers == Some(result.value) && errorMessages == old(errorMessages)
      ensures result.Err? ==>
                servers == old(servers)
                && errorMessages == WithError(old(errorMessages), ErrorMessage(TaskName(task), result.error, createdAt))
    {
      if result.Err? {
        AddErrorMessage(TaskName(task), result.error, createdAt);
      } else {
        servers := Some(result.value);
      }
    }

    /// `remove_server`, started and completed; `saved` is the outcome of
    /// writing the list.
    method RemoveServer(name: string, saved: Result<()>, createdAt: int)
      modifies this`servers, this`errorMessages
      ensures saved.Ok? ==>
                servers == Some(WithoutServer(if old(servers).Some? then old(servers).value else [], name))
                && errorMessages == old(errorMessages)
      ensures saved.Err? ==>
                servers == old(servers)
                && errorMessages == WithError(old(errorMessages),
                                              ErrorMessage(TaskName(ServerTask.RemoveServer), saved.error, createdAt))
    {
      var result := RemoveServerTask(servers, name, saved);
      CompleteServersTask(ServerTask.RemoveServer, result, createdAt);
    }

    /// `update_or_insrt_server`, started and completed; `now` is the time it
    /// stamps on the server and `saved` the outcome of writing the list.
    method UpdateOrInsertServer(server: RedisServer, isNew: bool, now: string, saved: Result<()>, createdAt: int)
      modifies this`servers, this`errorMessages
      ensures var list := if old(servers).Some? then old(servers).value else [];
        var r := Upserted(list, server.(updatedAt := Some(now)), isNew);
        if r.Ok? && saved.Ok? then servers == Some(r.value) && errorMessages == old(errorMessages)
        else servers == old(servers)
             && errorMessages == WithError(old(errorMessages),
                                           ErrorMessage(TaskName(ServerTask.UpdateOrInsertServer),
                                                        if r.Err? then r.error else saved.error, createdAt))
    {
      var result := UpsertServerTask(servers, server, isNew, now, saved);
      CompleteServersTask(ServerTask.UpdateOrInsertServer, result, createdAt);
    }

    /// `select`: a different server resets the state and, unless the new
    /// name is empty, starts loading it (`started`).
    method Select(name: string, mode: QueryMode, treeId: string) returns (started: bool)
      modifies this
      ensures name == old(server) ==> started == false && unchanged(this)
      ensures name != old(server) ==>
                server == name && queryMode == mode
                && version == [] && dbsize.None? && latency.None? && key.None? && nodes == (0, 0)
                && keyTreeId == treeId && servers == old(servers) && errorMessages == old(errorMessages)
                && keyword == [] && keys == map[] && cursors.None? && !scanCompleted && scanTimes == 0
                && loadedPrefixes == {}
                && started == (name != [])
                && (started ==> status == Loading && scaning)
                && (!started ==> status == old(status) && !scaning)
    {
      started := false;
      if server != name {
        Reset(treeId);
        server := name;
        queryMode := mode;
        if server == [] {
          return;
        }
        status := Loading;
        scaning := true;
        started := true;
      }
    }

    /// The completion of the select task for `selected`. A failure is
    /// logged first; if another server has been selected since, nothing
    /// else happens. Otherwise a reply is taken in, loading ends, and the
    /// result says whether a full key scan follows (`QueryMode::All`).
    method CompleteSelect(selected: string, result: Result<SelectReply>, createdAt: int) returns (scanNext: bool)
      modifies this`latency, this`dbsize, this`nodes, this`version, this`status,
               this`scaning, this`errorMessages
      ensures result.Err? ==>
                errorMessages == WithError(old(errorMessages), ErrorMessage(TaskName(SelectServer), result.error, createdAt))
      ensures result.Ok? ==> errorMessages == old(errorMessages)
      ensures server != selected ==>
                !scanNext && status == old(status) && scaning == old(scaning)
                && latency == old(latency) && dbsize == old(dbsize) && nodes == old(nodes) && version == old(version)
      ensures server == selected ==>
                status == Idle
                && scanNext == (queryMode == All)
                && scaning == (if queryMode == All then old(scaning) else false)
                && (result.Ok? ==> latency == Some(result.value.latency) && dbsize == Some(result.value.dbsize)
                                   && nodes == result.value.nodes && version == result.value.version)
                && (result.Err? ==> latency == old(latency) && dbsize == old(dbsize)
                                    && nodes == old(nodes) && version == old(version))
    {
      scanNext := false;
      if result.Err? {
        AddErrorMessage(TaskName(SelectServer), result.error, createdAt);
      }
      if server != selected {
        return;
      }
      if result.Ok? {
        latency := Some(result.value.latency);
        dbsize := Some(result.value.dbsize);
        nodes := result.value.nodes;
        version := result.value.version;
      }
      status := Idle;
      if queryMode == All {
        scanNext := true;
      } else {
        scaning := false;
      }
    }
  }

  /// With no keys the key tree is empty.
  lemma EmptyKeyTree(root: KeyNode, expandedItems: set<string>, expandAll: bool, items: seq<TreeItem>)
    requires IsTrieOf(root, {}) && Shows(items, root, expandedItems, expandAll)
    ensures items == []
  {
    if root.children != map[] {
      var s :| s in root.children;
      NodeAtStep(root, s, []);
    }
  }
}
