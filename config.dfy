// src/connection/config.rs: a named Redis endpoint, its connection URL and
// the lookup of an endpoint by name. Reading the configuration file from the
// home directory is I/O and is not part of this module; the parsed list of
// endpoints is the input of `GetConfig`.

module Config {
  import opened Wrappers
  import opened Text

  datatype RedisConfig = RedisConfig(name: string, host: string, port: nat, password: Option<string>)

  predicate ValidConfig(c: RedisConfig)
  {
    c.port < U16_BOUND
  }

  /// `host:port`.
  function Address(host: string, port: nat): (a: string)
    ensures IsPrefix(host + ":", a) && a[|host| + 1..] == Decimal(port)
  {
    var a := host + ":" + Decimal(port);
    assert a[..|host| + 1] == host + ":";
    a
  }

  /// `RedisConfig::get_connection_url`: the `redis://` scheme, then the
  /// password as user-info when one is configured, then `host:port`.
  function ConnectionUrl(c: RedisConfig): (url: string)
    ensures IsPrefix("redis://", url)
    ensures IsSuffix(Address(c.host, c.port), url)
    ensures c.password.None? ==> url[8..] == Address(c.host, c.port)
    ensures c.password.Some? ==>
      url[8..] == ":" + c.password.value + "@" + Address(c.host, c.port)
  {
    var addr := Address(c.host, c.port);
    match c.password
    case Some(pw) =>
      var url := "redis://" + (":" + pw + "@" + addr);
      assert url[..8] == "redis://" && url[8..] == ":" + pw + "@" + addr;
      assert url[|url| - |addr|..] == addr;
      url
    case None =>
      var url := "redis://" + addr;
      assert url[..8] == "redis://" && url[8..] == addr;
      url
  }

  /// `get_config`: the first endpoint with the requested name, or the
  /// "not found" error.
  function GetConfig(configs: seq<RedisConfig>, name: string): (r: Result<RedisConfig>)
    ensures r.Ok? ==> r.value.name == name && r.value in configs
    ensures r.Ok? ==> exists i :: 0 <= i < |configs| && configs[i] == r.value
                         && forall j :: 0 <= j < i ==> configs[j].name != name
    ensures r.Err? <==> forall i :: 0 <= i < |configs| ==> configs[i].name != name
    ensures r.Err? ==> r.error == Invalid("Redis config not found: " + name)
  {
    if configs == [] then Err(Invalid("Redis config not found: " + name))
    else if configs[0].name == name then Ok(configs[0])
    else
      var r := GetConfig(configs[1..], name);
      if r.Ok? then
        var i :| 0 <= i < |configs[1..]| && configs[1..][i] == r.value
                 && forall j :: 0 <= j < i ==> configs[1..][j].name != name;
        assert configs[i + 1] == r.value;
        r
      else
        assert forall i :: 1 <= i < |configs| ==> configs[i] == configs[1..][i - 1];
        r
  }
}
