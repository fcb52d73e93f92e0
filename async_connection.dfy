// src/connection/async_connection.rs: the process-wide pool of single-node
// connections keyed by (configuration hash, database index), and the fan-out
// of commands to every master node.
//
// A live connection is an opaque handle; what the network answers (PING,
// opening a connection, SELECT, the reply to a command) is an input.

module AsyncConnection {
  import opened Wrappers

  /// An established multiplexed connection, known only by identity.
  datatype Conn = Conn(id: nat)

  /// A Redis command and its arguments.
  datatype Cmd = Cmd(args: seq<string>)

  type PoolKey = (nat, nat)

  /// The connection pool (`CONNECTION_POOL`).
  class ConnectionPool {
    var entries: map<PoolKey, Conn>

    constructor ()
      ensures entries == map[]
    {
      entries := map[];
    }

    /// `open_single_connection`. `pingOk` says whether a PING on a pooled
    /// handle succeeds, `connected` is the outcome of opening a new connection,
    /// and `selectError` the failure of `SELECT db`, if any.
    method OpenSingleConnection(hash: nat, db: nat, pingOk: Conn -> bool,
                                connected: Result<Conn>, selectError: Option<string>)
      returns (r: Result<Conn>, reused: bool, selectIssued: bool)
      modifies this
      ensures reused <==> (hash, db) in old(entries) && pingOk(old(entries)[(hash, db)])
      ensures reused ==> r == Ok(old(entries)[(hash, db)]) && entries == old(entries) && !selectIssued
      ensures !reused ==> selectIssued == (connected.Ok? && db != 0)
      ensures !reused && connected.Err? ==> r == Err(connected.error) && entries == old(entries)
      ensures !reused && selectIssued && selectError.Some? ==>
                r == Err(selectError.value) && entries == old(entries)
      ensures !reused && connected.Ok? && (db == 0 || selectError.None?) ==>
                r == Ok(connected.value) && entries == old(entries)[(hash, db) := connected.value]
    {
      var key := (hash, db);
      if key in entries && pingOk(entries[key]) {
        return Ok(entries[key]), true, false;
      }
      reused := false;
      selectIssued := false;
      if connected.Err? {
        return Err(connected.error), false, false;
      }
      var conn := connected.value;
      if db != 0 {
        selectIssued := true;
        if selectError.Some? {
          return Err(selectError.value), false, true;
        }
      }
      entries := entries[key := conn];
      r := Ok(conn);
    }
  }

  /// The command sent to the node at `index`: its own command when there is
  /// one, otherwise the first.
  function CommandFor(cmds: seq<Cmd>, index: nat): (c: Cmd)
    requires |cmds| > 0
    ensures index < |cmds| ==> c == cmds[index]
    ensures index >= |cmds| ==> c == cmds[0]
  {
    if index < |cmds| then cmds[index] else cmds[0]
  }

  const COMMANDS_EMPTY: string := Invalid("Commands are empty")

  /// Runs, in address order, the reply of every node; stops at the first
  /// failure.
  function RunAll<T>(addrs: seq<string>, from: nat, db: nat, cmds: seq<Cmd>,
                     run: (string, nat, Cmd) -> Result<T>): (r: Result<seq<T>>)
    requires |cmds| > 0 && from <= |addrs|
    ensures r.Ok? ==> |r.value| == |addrs| - from
    ensures r.Ok? ==> forall i :: from <= i < |addrs| ==>
              run(addrs[i], db, CommandFor(cmds, i)) == Ok(r.value[i - from])
    ensures r.Err? <==> exists i :: from <= i < |addrs| && run(addrs[i], db, CommandFor(cmds, i)).Err?
    ensures r.Err? ==> exists i :: from <= i < |addrs| && run(addrs[i], db, CommandFor(cmds, i)) == Err(r.error)
                                   && forall j :: from <= j < i ==> run(addrs[j], db, CommandFor(cmds, j)).Ok?
    decreases |addrs| - from
  {
    if from == |addrs| then Ok([])
    else match run(addrs[from], db, CommandFor(cmds, from))
      case Err(e) => Err(e)
      case Ok(v) =>
        match RunAll(addrs, from + 1, db, cmds, run)
        case Err(e) => Err(e)
        case Ok(vs) => Ok([v] + vs)
  }

  /// `query_async_masters`. `run(addr, db, cmd)` is what connecting to
  /// `addr`, selecting `db` and sending `cmd` yields.
  function QueryAsyncMasters<T>(addrs: seq<string>, db: nat, cmds: seq<Cmd>,
                                run: (string, nat, Cmd) -> Result<T>): (r: Result<seq<T>>)
    ensures cmds == [] ==> r == Err(COMMANDS_EMPTY)
    ensures r.Ok? ==> |cmds| > 0 && |r.value| == |addrs|
    ensures r.Ok? ==> forall i :: 0 <= i < |addrs| ==>
              run(addrs[i], db, CommandFor(cmds, i)) == Ok(r.value[i])
    ensures cmds != [] ==>
              (r.Err? <==> exists i :: 0 <= i < |addrs| && run(addrs[i], db, CommandFor(cmds, i)).Err?)
    ensures cmds != [] && r.Err? ==>
              exists i :: 0 <= i < |addrs| && run(addrs[i], db, CommandFor(cmds, i)) == Err(r.error)
                          && forall j :: 0 <= j < i ==> run(addrs[j], db, CommandFor(cmds, j)).Ok?
  {
    if cmds == [] then Err(COMMANDS_EMPTY) else RunAll(addrs, 0, db, cmds, run)
  }
}
