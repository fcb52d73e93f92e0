// The server list of the sidebar in src/views/sidebar.rs: the cached
// (id, name) entries it shows, which entry is current, what a click does,
// and how the edit dialog turns its form into a server configuration and
// decides whether to reconnect. `RedisServer::get_hash` is not part of
// this model; it is the `hash` parameter.

module Sidebar {
  import opened Wrappers
  import opened Text
  import opened ServerState

  datatype Route = Home | Editor | Settings

  /// The (id, name) entries of the configured servers that are opened, in
  /// configuration order.
  function OpenedNames(servers: seq<RedisServer>, openIds: set<string>): (r: seq<(string, string)>)
    ensures |r| <= |servers|
    ensures forall e :: e in r <==> exists i :: 0 <= i < |servers| && servers[i].id in openIds
                                                 && e == (servers[i].id, servers[i].name)
  {
    if servers == [] then []
    else
      var rest := OpenedNames(servers[1..], openIds);
      assert forall i :: 1 <= i < |servers| ==> servers[1..][i - 1] == servers[i];
      if servers[0].id in openIds then [(servers[0].id, servers[0].name)] + rest else rest
  }

  /// Opening no further servers keeps the configuration order: the entries
  /// of a prefix of the configuration come first.
  lemma {:induction false} OpenedNamesPrefix(a: seq<RedisServer>, b: seq<RedisServer>, openIds: set<string>)
    ensures OpenedNames(a + b, openIds) == OpenedNames(a, openIds) + OpenedNames(b, openIds)
  {
    if a != [] {
      assert (a + b)[0] == a[0] && (a + b)[1..] == a[1..] + b;
      OpenedNamesPrefix(a[1..], b, openIds);
    } else {
      assert a + b == b;
    }
  }

  /// The home entry has an empty id and name, so it is never mistaken for
  /// a configured server with a non-empty id.
  function HomeEntry(): (e: (string, string))
    ensures e.0 == [] && e.1 == []
  {
    ([], [])
  }

  /// An entry is shown as current only on the home and editor routes, and
  /// only when its id is the selected server's.
  predicate IsCurrent(route: Route, itemId: string, selectedId: string)
  {
    (route == Home || route == Editor) && itemId == selectedId
  }

  /// Clicking an entry: nothing when it is current; otherwise the route to
  /// go to (home for the home entry, the editor for a server) and the
  /// server to select.
  function ClickTarget(route: Route, itemId: string, selectedId: string): (r: Option<(Route, string)>)
    ensures r.None? <==> IsCurrent(route, itemId, selectedId)
    ensures r.Some? ==> r.value.1 == itemId && (r.value.0 == Home <==> itemId == [])
    ensures r.Some? ==> r.value.0 != Settings
  {
    if IsCurrent(route, itemId, selectedId) then None
    else Some((if itemId == [] then Home else Editor, itemId))
  }

  /// After a click, a second click on the same entry does nothing, once the
  /// selection follows the click.
  lemma ClickTwice(route: Route, itemId: string, selectedId: string)
    requires ClickTarget(route, itemId, selectedId).Some?
    ensures ClickTarget(ClickTarget(route, itemId, selectedId).value.0, itemId, itemId).None?
  {
  }

  /// The fields of the edit dialog, as the user left them.
  datatype ServerForm = ServerForm(
    name: string, host: string, port: string,
    username: string, password: string, masterName: string, description: string,
    enableTls: bool, insecure: bool,
    clientCert: string, clientKey: string, rootCert: string,
    sshTunnel: bool, sshAddr: string, sshUsername: string, sshPassword: string, sshKey: string)

  /// An empty text field means "not set".
  function OptionalText(s: string): (r: Option<string>)
    ensures r.None? <==> s == []
    ensures r.Some? ==> r.value == s
  {
    if s == [] then None else Some(s)
  }

  /// The port field: a u16, or 6379 when it is not one.
  function PortOrDefault(text: string): (port: nat)
    ensures port < U16_BOUND
    ensures ParseU16(text).Some? ==> port == ParseU16(text).value
    ensures ParseU16(text).None? ==> port == 6379
  {
    match ParseU16(text)
    case Some(p) => p
    case None => 6379
  }

  /// The configuration the dialog saves for server `id`, or None when the
  /// name or the host is empty. Certificates are dropped unless TLS is on;
  /// flags that are off are not set; everything the form does not edit
  /// comes from the current configuration.
  function Submitted(id: string, form: ServerForm, current: RedisServer): (r: Option<RedisServer>)
    ensures r.None? <==> form.name == [] || form.host == []
    ensures r.Some? ==>
      var s := r.value;
      && s.id == id && s.name == form.name && s.host == form.host
      && s.port == PortOrDefault(form.port)
      && s.username == OptionalText(form.username) && s.password == OptionalText(form.password)
      && s.masterName == OptionalText(form.masterName) && s.description == OptionalText(form.description)
      && (s.tls.Some? <==> form.enableTls) && (s.tls.Some? ==> s.tls.value)
      && (s.insecure.Some? <==> form.insecure) && (s.insecure.Some? ==> s.insecure.value)
      && (form.enableTls ==> s.clientCert == OptionalText(form.clientCert)
                             && s.clientKey == OptionalText(form.clientKey)
                             && s.rootCert == OptionalText(form.rootCert))
      && (!form.enableTls ==> s.clientCert.None? && s.clientKey.None? && s.rootCert.None?)
      && (s.sshTunnel.Some? <==> form.sshTunnel) && (s.sshTunnel.Some? ==> s.sshTunnel.value)
      && s.sshAddr == OptionalText(form.sshAddr) && s.sshUsername == OptionalText(form.sshUsername)
      && s.sshPassword == OptionalText(form.sshPassword) && s.sshKey == OptionalText(form.sshKey)
      && s.updatedAt == current.updatedAt
  {
    if form.name == [] || form.host == [] then None
    else
      var tls := form.enableTls;
      Some(RedisServer(
        id, form.name, form.host, PortOrDefault(form.port),
        OptionalText(form.username), OptionalText(form.password),
        OptionalText(form.masterName), OptionalText(form.description),
        if tls then Some(true) else None,
        if form.insecure then Some(true) else None,
        if tls then OptionalText(form.clientCert) else None,
        if tls then OptionalText(form.clientKey) else None,
        if tls then OptionalText(form.rootCert) else None,
        if form.sshTunnel then Some(true) else None,
        OptionalText(form.sshAddr), OptionalText(form.sshUsername),
        OptionalText(form.sshPassword), OptionalText(form.sshKey),
        current.updatedAt))
  }

  function TextOf(o: Option<string>): string
  {
    match o case Some(s) => s case None => []
  }

  /// The dialog's fields filled in from a server's configuration; a port
  /// of 0 leaves the port field empty.
  function FormOf(s: RedisServer): (form: ServerForm)
    ensures form.name == s.name && form.host == s.host
    ensures s.port != 0 ==> form.port == Decimal(s.port)
    ensures s.port == 0 ==> form.port == []
    ensures form.enableTls == (s.tls == Some(true)) && form.insecure == (s.insecure == Some(true))
    ensures form.sshTunnel == (s.sshTunnel == Some(true))
  {
    ServerForm(
      s.name, s.host, if s.port != 0 then Decimal(s.port) else [],
      TextOf(s.username), TextOf(s.password), TextOf(s.masterName), TextOf(s.description),
      s.tls.Some? && s.tls.value, s.insecure.Some? && s.insecure.value,
      TextOf(s.clientCert), TextOf(s.clientKey), TextOf(s.rootCert),
      s.sshTunnel.Some? && s.sshTunnel.value,
      TextOf(s.sshAddr), TextOf(s.sshUsername), TextOf(s.sshPassword), TextOf(s.sshKey))
  }

  /// A configuration the form can represent: a non-zero u16 port and
  /// representable fields otherwise.
  predicate Representable(s: RedisServer)
  {
    0 < s.port < U16_BOUND && FieldsRepresentable(s)
  }

  /// The fields other than the port that the form can represent: a name
  /// and a host, no empty text set, flags either on or not set, and no
  /// certificates without TLS.
  predicate FieldsRepresentable(s: RedisServer)
  {
    && s.name != [] && s.host != []
    && s.username != Some([]) && s.password != Some([]) && s.masterName != Some([])
    && s.description != Some([]) && s.clientCert != Some([]) && s.clientKey != Some([])
    && s.rootCert != Some([]) && s.sshAddr != Some([]) && s.sshUsername != Some([])
    && s.sshPassword != Some([]) && s.sshKey != Some([])
    && s.tls != Some(false) && s.insecure != Some(false) && s.sshTunnel != Some(false)
    && (s.tls.None? ==> s.clientCert.None? && s.clientKey.None? && s.rootCert.None?)
  }

  lemma OptionalTextOf(o: Option<string>)
    requires o != Some([])
    ensures OptionalText(TextOf(o)) == o
  {
  }

  /// Submitting the dialog unchanged gives back the configuration it was
  /// filled from, except that a port of 0 is saved as 6379.
  lemma UnchangedFormRoundTrip(s: RedisServer)
    requires FieldsRepresentable(s) && s.port < U16_BOUND
    ensures Submitted(s.id, FormOf(s), s) == Some(if s.port == 0 then s.(port := 6379) else s)
  {
    if s.port != 0 {
      ParseDecimal(s.port, U16_BOUND);
    } else {
      assert ParseU16([]).None?;
    }
    OptionalTextOf(s.username);
    OptionalTextOf(s.password);
    OptionalTextOf(s.masterName);
    OptionalTextOf(s.description);
    OptionalTextOf(s.clientCert);
    OptionalTextOf(s.clientKey);
    OptionalTextOf(s.rootCert);
    OptionalTextOf(s.sshAddr);
    OptionalTextOf(s.sshUsername);
    OptionalTextOf(s.sshPassword);
    OptionalTextOf(s.sshKey);
  }

  /// What the submit handler does: nothing when the name or host is empty;
  /// otherwise the configuration to store and whether to drop the cached
  /// client and reconnect, which happens exactly when the hash changed.
  function SubmitPlan<H(==)>(id: string, form: ServerForm, current: RedisServer,
                             original: H, hash: RedisServer -> H): (r: Option<(RedisServer, bool)>)
    ensures r.None? <==> form.name == [] || form.host == []
    ensures r.Some? ==> Submitted(id, form, current) == Some(r.value.0)
    ensures r.Some? ==> (r.value.1 <==> hash(r.value.0) != original)
  {
    match Submitted(id, form, current)
    case None => None
    case Some(s) => Some((s, hash(s) != original))
  }

  /// Saving the dialog without touching it never reconnects when the
  /// server has a port.
  lemma UnchangedFormKeepsConnection<H>(s: RedisServer, hash: RedisServer -> H)
    requires Representable(s)
    ensures SubmitPlan(s.id, FormOf(s), s, hash(s), hash) == Some((s, false))
  {
    UnchangedFormRoundTrip(s);
  }

  /// Saving the dialog untouched for a server with port 0 stores port 6379
  /// and reconnects exactly when that changes the hash.
  lemma UnchangedFormPortZero<H>(s: RedisServer, hash: RedisServer -> H)
    requires FieldsRepresentable(s) && s.port == 0
    ensures SubmitPlan(s.id, FormOf(s), s, hash(s), hash)
         == Some((s.(port := 6379), hash(s.(port := 6379)) != hash(s)))
  {
    UnchangedFormRoundTrip(s);
  }

  /// The sidebar's cached list and selection.
  class SidebarState {
    var serverNames: seq<(string, string)>
    var serverId: string

    constructor ()
      ensures serverNames == [] && serverId == []
    {
      serverNames := [];
      serverId := [];
    }

    /// `update_server_names`: the home entry, then the opened servers in
    /// configuration order; only the home entry when no list is loaded.
    method UpdateServerNames(servers: Option<seq<RedisServer>>, openIds: set<string>)
      modifies this`serverNames
      ensures |serverNames| >= 1 && serverNames[0] == HomeEntry()
      ensures servers.None? ==> serverNames == [HomeEntry()]
      ensures servers.Some? ==> serverNames == [HomeEntry()] + OpenedNames(servers.value, openIds)
    {
      var names := [HomeEntry()];
      if servers.Some? {
        var list := servers.value;
        for i := 0 to |list|
          invariant names == [HomeEntry()] + OpenedNames(list[..i], openIds)
        {
          OpenedNamesPrefix(list[..i], [list[i]], openIds);
          assert list[..i + 1] == list[..i] + [list[i]];
          if list[i].id in openIds {
            names := names + [(list[i].id, list[i].name)];
          }
        }
        assert list[..|list|] == list;
      }
      serverNames := names;
    }
  }
}
