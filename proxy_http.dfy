/**
 * The second proxy, configured from the `[server]`, `[proxy]` and `[https]`
 * sections of `config.ini`: the configuration merged over its defaults, the
 * host list, and the choice of upstream target for a request path.
 */
module ProxyHttp {
  import opened Wrappers
  import opened Props
  import opened Text
  import opened Ini

  /** `DEFAULT_CONFIG.server`. */
  const DefaultServer: Props<IniVal> := [("protocol", IStr("http")), ("host", IList(["localhost"]))]

  /** `DEFAULT_CONFIG.https`. */
  const DefaultHttps: Props<IniVal> := [("key", IStr("./private.key")), ("cert", IStr("./certificate.pem"))]

  /**
   * The own properties `...config[name]` copies: a section's entries; a string's
   * characters or a list's items under the keys `"0"`, `"1"`, …; nothing for a
   * boolean or a missing section.
   */
  function Spreadable(n: Option<IniNode>): Props<IniVal> {
    match n
    case None => []
    case Some(Section(es)) => es
    case Some(Leaf(IStr(s))) => seq(|s|, i requires 0 <= i < |s| => (NatToString(i), IStr([s[i]])))
    case Some(Leaf(IList(xs))) => seq(|xs|, i requires 0 <= i < |xs| => (NatToString(i), IStr(xs[i])))
    case Some(Leaf(IBool(_))) => []
  }

  /** `finalConfig`: each section of the file spread over its defaults. */
  datatype FinalConfig = FinalConfig(server: Props<IniVal>, proxy: Props<IniVal>, https: Props<IniVal>)

  function Finalize(config: Doc): FinalConfig {
    FinalConfig(Spread(DefaultServer, Spreadable(Lookup(config, "server"))),
                Spread([], Spreadable(Lookup(config, "proxy"))),
                Spread(DefaultHttps, Spreadable(Lookup(config, "https"))))
  }

  /** A section's entries are those of an object, so its keys are distinct. */
  predicate WellFormed(n: Option<IniNode>) {
    n.Some? && n.value.Section? ==> DistinctKeys(n.value.entries)
  }

  /** Index keys are distinct: `parseInt` reads each decimal key back as its index. */
  lemma IndexKeysDistinct(n: Option<IniNode>)
    requires WellFormed(n)
    ensures DistinctKeys(Spreadable(n))
  {
    var ps := Spreadable(n);
    if n.Some? && n.value.Leaf? && !n.value.v.IBool? {
      forall i, j | 0 <= i < j < |ps|
        ensures ps[i].0 != ps[j].0
      {
        ParseIntOfDecimal(i, false);
        ParseIntOfDecimal(j, false);
      }
    }
  }

  /**
   * In every merged section, a key the file gives takes the file's value and
   * every other key keeps its default.
   */
  lemma FinalizeLookup(config: Doc, k: string)
    requires WellFormed(Lookup(config, "server")) && WellFormed(Lookup(config, "proxy"))
    requires WellFormed(Lookup(config, "https"))
    ensures var f := Finalize(config);
      var server := Spreadable(Lookup(config, "server"));
      var proxy := Spreadable(Lookup(config, "proxy"));
      var https := Spreadable(Lookup(config, "https"));
      && Lookup(f.server, k) == (if Has(server, k) then Lookup(server, k) else Lookup(DefaultServer, k))
      && Lookup(f.proxy, k) == Lookup(proxy, k)
      && Lookup(f.https, k) == (if Has(https, k) then Lookup(https, k) else Lookup(DefaultHttps, k))
  {
    IndexKeysDistinct(Lookup(config, "server"));
    IndexKeysDistinct(Lookup(config, "proxy"));
    IndexKeysDistinct(Lookup(config, "https"));
    SpreadLookup(DefaultServer, Spreadable(Lookup(config, "server")), k);
    SpreadLookup([], Spreadable(Lookup(config, "proxy")), k);
    SpreadLookup(DefaultHttps, Spreadable(Lookup(config, "https")), k);
  }

  /**
   * `hosts`: a list is kept, any other truthy value is split on `;`, and a
   * falsy one gives `['localhost']`.  `None` is the `TypeError` of calling
   * `split` on `true`.
   */
  function Hosts(server: Props<IniVal>): (r: Option<seq<string>>)
    ensures var h := Lookup(server, "host");
      && (h.Some? && h.value.IList? ==> r == Some(h.value.xs))
      && (h.Some? && h.value.IStr? && h.value.s != "" ==>
            r.Some? && Join(r.value, ';') == h.value.s && forall i :: 0 <= i < |r.value| ==> ';' !in r.value[i])
      && (!IniTruthy(h) ==> r == Some(["localhost"]))
      && (r.None? <==> h == Some(IBool(true)))
  {
    var h := Lookup(server, "host");
    if h.Some? && h.value.IList? then Some(h.value.xs)
    else if IniTruthy(h) then
      if h.value.IStr? then
        JoinSplit(h.value.s, ';');
        Some(Split(h.value.s, ';'))
      else None
    else Some(["localhost"])
  }

  /** `{ protocol, host, port }` from a `protocol:host:port` target string. */
  datatype Target = Target(protocol: string, host: string, port: Option<string>)

  /**
   * `const [targetProtocol = 'http', host = 'localhost', port] = targetInfo.split(':')`:
   * `split` yields at least one segment, so the protocol default never applies;
   * segments after the third are ignored.
   */
  function ParseTarget(info: string): (t: Target)
    ensures ':' !in t.protocol && StartsWith(info, t.protocol)
    ensures t.protocol == info || StartsWith(info, t.protocol + [':'])
    ensures ':' !in info ==> t == Target(info, "localhost", None)
  {
    var parts := Split(info, ':');
    JoinSplit(info, ':');
    assert info == parts[0] || StartsWith(info, parts[0] + [':']) by {
      if |parts| > 1 { assert Join(parts, ':') == parts[0] + [':'] + Join(parts[1..], ':'); }
    }
    Target(parts[0],
           if |parts| > 1 then parts[1] else "localhost",
           if |parts| > 2 then Some(parts[2]) else None)
  }

  /** A target written as `protocol:host:port` reads back as its three parts. */
  lemma ParseTargetOfParts(p: string, h: string, port: string)
    requires ':' !in p && ':' !in h && ':' !in port
    ensures ParseTarget(p + ":" + h + ":" + port) == Target(p, h, Some(port))
  {
    var parts := [p, h, port];
    assert parts[1..] == [h, port] && parts[1..][1..] == [port];
    assert Join([h, port], ':') == h + ":" + port;
    assert Join(parts, ':') == p + ":" + h + ":" + port;
    SplitJoin(parts, ':');
  }

  /** Segments after the third are ignored: `protocol:host:port:rest` reads as `protocol:host:port`. */
  lemma ParseTargetIgnoresRest(p: string, h: string, port: string, rest: string)
    requires ':' !in p && ':' !in h && ':' !in port
    ensures ParseTarget(p + ":" + h + ":" + port + ":" + rest) == Target(p, h, Some(port))
  {
    var tail := port + ":" + rest;
    var mid := h + ":" + tail;
    assert p + ":" + h + ":" + port + ":" + rest == p + [':'] + mid;
    assert mid == h + [':'] + tail;
    assert tail == port + [':'] + rest;
    SplitCons(p, mid, ':');
    SplitCons(h, tail, ':');
    SplitCons(port, rest, ':');
  }

  /** A target written as `protocol:host` reads back with no port. */
  lemma ParseTargetWithoutPort(p: string, h: string)
    requires ':' !in p && ':' !in h
    ensures ParseTarget(p + ":" + h) == Target(p, h, None)
  {
    var parts := [p, h];
    assert parts[1..] == [h];
    assert Join(parts, ':') == p + ":" + h;
    SplitJoin(parts, ':');
  }

  /** What `findTarget(path)` gives: `null`, a target, or the `TypeError` of a target that is not a string. */
  datatype Match = NoTarget | Found(target: Target) | BadTarget

  /** `findTarget(path)` over the proxy entries from the `i`-th on. */
  function FindTarget(proxy: Props<IniVal>, path: string, i: nat): (r: Match)
    requires i <= |proxy|
    ensures r.NoTarget? <==> forall j :: i <= j < |proxy| ==> !StartsWith(path, proxy[j].0)
    ensures !r.NoTarget? ==> exists j :: (i <= j < |proxy| && StartsWith(path, proxy[j].0)
      && (forall l :: i <= l < j ==> !StartsWith(path, proxy[l].0))
      && (r.Found? <==> proxy[j].1.IStr?)
      && (r.Found? ==> r.target == ParseTarget(proxy[j].1.s)))
    decreases |proxy| - i
  {
    if i == |proxy| then NoTarget
    else if StartsWith(path, proxy[i].0) then
      if proxy[i].1.IStr? then Found(ParseTarget(proxy[i].1.s)) else BadTarget
    else FindTarget(proxy, path, i + 1)
  }

  /** What the server does with a request: 404, or relay the unchanged URL to the target. */
  datatype Reply =
    | NoMapping(status: nat, body: string)
    | Relay(secure: bool, host: string, port: Option<string>, path: string)
    | Crash

  /**
   * The request handler: `No mapping found for this path` with 404 when no
   * source matches; otherwise the request goes, with its URL unchanged, to the
   * target over `https` exactly when the target's protocol is `https`.
   */
  function Serve(f: FinalConfig, url: string): (r: Reply)
    ensures r.NoMapping? <==> forall j :: 0 <= j < |f.proxy| ==> !StartsWith(url, f.proxy[j].0)
    ensures r.NoMapping? ==> r == NoMapping(404, "No mapping found for this path")
    ensures r.Relay? ==> r.path == url
    ensures r.Relay? ==> FindTarget(f.proxy, url, 0).Found? && var t := FindTarget(f.proxy, url, 0).target;
      r.host == t.host && r.port == t.port && (r.secure <==> t.protocol == "https")
  {
    match FindTarget(f.proxy, url, 0)
    case NoTarget => NoMapping(404, "No mapping found for this path")
    case BadTarget => Crash
    case Found(t) => Relay(t.protocol == "https", t.host, t.port, url)
  }

  /** `protocol === 'https' ? 443 : 80`, the port every host is listened on. */
  function ListenPort(f: FinalConfig): (p: nat)
    ensures p == 443 <==> Lookup(f.server, "protocol") == Some(IStr("https"))
    ensures p == 443 || p == 80
  {
    if Lookup(f.server, "protocol") == Some(IStr("https")) then 443 else 80
  }

  /** With no `[server]` section the proxy speaks `http` on port 80 on `localhost` only. */
  lemma DefaultsWithoutServer(config: Doc)
    requires !Has(config, "server")
    ensures ListenPort(Finalize(config)) == 80
    ensures Hosts(Finalize(config).server) == Some(["localhost"])
  {
    var f := Finalize(config);
    assert f.server == DefaultServer;
    assert Lookup(DefaultServer, "protocol") == Some(IStr("http"));
    assert Lookup(DefaultServer, "host") == Some(IList(["localhost"]));
  }
}
