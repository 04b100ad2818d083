/**
 * The path-prefix reverse proxy started from `config.ini`: the path map built
 * from the INI sections, the choice of route for a request URL, the checks
 * on the `[main]` section and the port the proxy listens on.
 */
module ProxyMain {
  import opened Wrappers
  import opened Props
  import opened Text
  import opened Ini
  import opened Files

  /**
   * `{ port: parseInt(port, 10), entry }`: where requests under `entry` go.  The
   * route keeps the port's text and `Port` parses it where the port is used;
   * parsing is pure, so this gives the same number as parsing when the map is built.
   */
  datatype Route = Route(portText: string, entry: string)

  /** `parseInt(port, 10)`; `None` is `NaN`. */
  function Port(r: Route): Option<int> {
    ParseInt(r.portText, false)
  }

  /** `section !== 'main' && config[section].port && config[section].entry`. */
  predicate Routable(section: string, node: IniNode) {
    section != "main" && node.Section?
    && IniTruthy(Lookup(node.entries, "port")) && IniTruthy(Lookup(node.entries, "entry"))
  }

  function RouteOf(node: IniNode): Route
    requires node.Section? && Lookup(node.entries, "port").Some? && Lookup(node.entries, "entry").Some?
  {
    Route(IniString(Lookup(node.entries, "port").value),
          IniString(Lookup(node.entries, "entry").value))
  }

  /** The path map after the first `n` sections: each routable section is stored under its entry. */
  function PathMapUpTo(config: Doc, n: nat): Props<Route>
    requires n <= |config|
  {
    if n == 0 then []
    else
      var m := PathMapUpTo(config, n - 1);
      var (section, node) := config[n - 1];
      if Routable(section, node) then Set(m, RouteOf(node).entry, RouteOf(node)) else m
  }

  /** `generatePathMap(config)`. */
  method GeneratePathMap(config: Doc) returns (m: Props<Route>)
    ensures m == PathMapUpTo(config, |config|)
  {
    m := [];
    var i := 0;
    while i < |config|
      invariant 0 <= i <= |config|
      invariant m == PathMapUpTo(config, i)
    {
      var (section, node) := config[i];
      ghost var next := PathMapUpTo(config, i + 1);
      assert next == if Routable(section, node) then Set(m, RouteOf(node).entry, RouteOf(node)) else m;
      if section != "main" && node.Section?
         && IniTruthy(Lookup(node.entries, "port")) && IniTruthy(Lookup(node.entries, "entry")) {
        var path := IniString(Lookup(node.entries, "entry").value);
        m := Set(m, path, Route(IniString(Lookup(node.entries, "port").value), path));
      }
      i := i + 1;
    }
  }

  /** The route of the last routable section among the first `n` whose entry is `k`. */
  function LastRoute(config: Doc, n: nat, k: string): Option<Route>
    requires n <= |config|
  {
    if n == 0 then None
    else
      var (section, node) := config[n - 1];
      if Routable(section, node) && RouteOf(node).entry == k then Some(RouteOf(node))
      else LastRoute(config, n - 1, k)
  }

  /**
   * The path map holds a key exactly when some section other than `main` with
   * a port and an entry has that entry, and the route stored is the last such
   * section's: a later section with the same entry overwrites an earlier one.
   */
  lemma {:induction false} PathMapLookup(config: Doc, n: nat, k: string)
    requires n <= |config|
    ensures Lookup(PathMapUpTo(config, n), k) == LastRoute(config, n, k)
  {
    if n > 0 {
      PathMapLookup(config, n - 1, k);
      var (section, node) := config[n - 1];
      if Routable(section, node) {
        var route := RouteOf(node);
        var m := PathMapUpTo(config, n - 1);
        assert PathMapUpTo(config, n) == Set(m, route.entry, route);
        assert Lookup(Set(m, route.entry, route), k) == if k == route.entry then Some(route) else Lookup(m, k);
      }
    }
  }

  /** A path map's keys are distinct, and every route is stored under its own entry. */
  lemma {:induction false} PathMapWellFormed(config: Doc, n: nat)
    requires n <= |config|
    ensures DistinctKeys(PathMapUpTo(config, n))
    ensures forall i :: 0 <= i < |PathMapUpTo(config, n)| ==> PathMapUpTo(config, n)[i].1.entry == PathMapUpTo(config, n)[i].0
  {
    if n > 0 {
      PathMapWellFormed(config, n - 1);
    }
    var m := PathMapUpTo(config, n);
    forall i | 0 <= i < |m|
      ensures m[i].1.entry == m[i].0
    {
      LookupDistinct(m, i);
      PathMapLookup(config, n, m[i].0);
      LastRouteEntry(config, n, m[i].0);
    }
  }

  lemma {:induction false} LastRouteEntry(config: Doc, n: nat, k: string)
    requires n <= |config|
    ensures LastRoute(config, n, k).Some? ==> LastRoute(config, n, k).value.entry == k
  {
    if n > 0 {
      LastRouteEntry(config, n - 1, k);
    }
  }

  // ---------------------------------------------------------------- requests

  /** What `handleRequest` does with a request: answer 404, or forward a path to a local port. */
  datatype Response = NotFound(status: nat, body: string) | Forward(port: Option<int>, path: string)

  /** `url.startsWith(path)` for the `i`-th path of the routes, and for no earlier one. */
  predicate FirstMatch(routes: Props<Route>, url: string, i: nat) {
    i < |routes| && StartsWith(url, routes[i].0) && forall j :: 0 <= j < i ==> !StartsWith(url, routes[j].0)
  }

  /**
   * `handleRequest(pathToConfigMap, req, res)`: the first path (in the map's
   * order) that the URL starts with selects the route, whose entry is then
   * removed from the URL; with none, 404 `Not Found`.
   */
  method HandleRequest(routes: Props<Route>, url: string) returns (r: Response)
    ensures r.NotFound? <==> forall j :: 0 <= j < |routes| ==> !StartsWith(url, routes[j].0)
    ensures r.NotFound? ==> r == NotFound(404, "Not Found")
    ensures r.Forward? ==> exists i: nat :: (FirstMatch(routes, url, i)
      && r == Forward(Port(routes[i].1), ReplaceFirst(url, routes[i].1.entry, "")))
  {
    var target: Option<Route> := None;
    ghost var at: nat := 0;
    var i := 0;
    while i < |routes|
      invariant 0 <= i <= |routes|
      invariant target.None?
      invariant forall j :: 0 <= j < i ==> !StartsWith(url, routes[j].0)
    {
      if StartsWith(url, routes[i].0) {
        target := Some(routes[i].1);
        at := i;
        break;
      }
      i := i + 1;
    }
    if target.None? {
      return NotFound(404, "Not Found");
    }
    assert FirstMatch(routes, url, at) && target.value == routes[at].1;
    return Forward(Port(target.value), ReplaceFirst(url, target.value.entry, ""));
  }

  /**
   * In a path map, the route a URL selects is stored under its entry, so the
   * forwarded path is the URL with exactly that prefix removed.
   */
  lemma ForwardStripsPrefix(config: Doc, url: string, i: nat)
    requires FirstMatch(PathMapUpTo(config, |config|), url, i)
    ensures var m := PathMapUpTo(config, |config|);
      && ReplaceFirst(url, m[i].1.entry, "") == url[|m[i].0|..]
      && url == m[i].0 + ReplaceFirst(url, m[i].1.entry, "")
  {
    var m := PathMapUpTo(config, |config|);
    PathMapWellFormed(config, |config|);
    StripPrefix(url, m[i].0);
  }

  // ---------------------------------------------------------------- startup

  /** The outcome of `validateMainConfig`: passed, or the error code it throws. */
  datatype Check = Passed | Refused(code: string)

  /** `!!config.main`: a section is an object and so truthy; a scalar by its value. */
  predicate NodeTruthy(n: Option<IniNode>) {
    n.Some? && (n.value.Section? || IniTruthy(Some(n.value.v)))
  }

  /** `mainConfig[key]`: a scalar has no such property. */
  function Field(n: Option<IniNode>, key: string): Option<IniVal> {
    if n.Some? && n.value.Section? then Lookup(n.value.entries, key) else None
  }

  /**
   * `validateMainConfig(mainConfig)`: E002 without a main section, E003 without
   * a protocol, and for `https` only, E004 without a certificate and E005
   * without a key, in that order.
   */
  function ValidateMainConfig(main: Option<IniNode>): (r: Check)
    ensures r == Refused("E002") <==> !NodeTruthy(main)
    ensures r == Refused("E003") <==> NodeTruthy(main) && !IniTruthy(Field(main, "protocol"))
    ensures r == Refused("E004") <==> NodeTruthy(main) && Field(main, "protocol") == Some(IStr("https"))
                                      && !IniTruthy(Field(main, "cert"))
    ensures r == Refused("E005") <==> NodeTruthy(main) && Field(main, "protocol") == Some(IStr("https"))
                                      && IniTruthy(Field(main, "cert")) && !IniTruthy(Field(main, "key"))
    ensures r.Passed? ==> IniTruthy(Field(main, "protocol"))
    ensures NodeTruthy(main) && IniTruthy(Field(main, "protocol")) && Field(main, "protocol") != Some(IStr("https"))
            ==> r.Passed?
  {
    if !NodeTruthy(main) then Refused("E002")
    else if !IniTruthy(Field(main, "protocol")) then Refused("E003")
    else if Field(main, "protocol") == Some(IStr("https")) && !IniTruthy(Field(main, "cert")) then Refused("E004")
    else if Field(main, "protocol") == Some(IStr("https")) && !IniTruthy(Field(main, "key")) then Refused("E005")
    else Passed
  }

  /** The port the proxy listens on. */
  function ListenPort(protocol: Option<IniVal>): (p: nat)
    ensures p == 443 <==> protocol == Some(IStr("https"))
    ensures p == 443 || p == 80
  {
    if protocol == Some(IStr("https")) then 443 else 80
  }

  /** What `main()` reaches: a listening server, or the error that stopped it. */
  datatype Started = Listening(port: nat, secure: bool, routes: Props<Route>) | StartFailed(code: string)

  /**
   * `main()`: reads and parses `config.ini` (E001 when it cannot be read),
   * validates `[main]`, reads the certificate and key for `https` (E006 when
   * they cannot be read: `certsReadable`), builds the path map and listens on
   * 443 or 80.
   */
  method Start(reading: Reading, ini: IniCodec, certsReadable: bool) returns (r: Started)
    ensures !reading.Text? ==> r == StartFailed("E001")
    ensures reading.Text? ==>
      var config := ini.parse(reading.s);
      var main := Lookup(config, "main");
      var secure := Field(main, "protocol") == Some(IStr("https"));
      r == if ValidateMainConfig(main).Refused? then StartFailed(ValidateMainConfig(main).code)
           else if secure && !certsReadable then StartFailed("E006")
           else Listening(ListenPort(Field(main, "protocol")), secure, PathMapUpTo(config, |config|))
    ensures r.Listening? ==> DistinctKeys(r.routes) && (r.port == 443 <==> r.secure)
  {
    if !reading.Text? {
      return StartFailed("E001");
    }
    var config := ini.parse(reading.s);
    var main := Lookup(config, "main");
    var check := ValidateMainConfig(main);
    if check.Refused? {
      return StartFailed(check.code);
    }
    var protocol := Field(main, "protocol");
    if protocol == Some(IStr("https")) && !certsReadable {
      return StartFailed("E006");
    }
    var routes := GeneratePathMap(config);
    PathMapWellFormed(config, |config|);
    return Listening(ListenPort(protocol), protocol == Some(IStr("https")), routes);
  }
}
