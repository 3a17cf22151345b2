/**
  The data-plane middleware of a runtime gateway: find the target of a request, check the
  ingress secret, look up the route, then forward to the owning gateway or serve the guest.
  Headers carry lower-case names; of a query only the first value of each name is read.
 */
module GatewayRouting {
  import opened Wrappers
  import opened Text
  import opened HostParse

  type Headers = map<string, string>
  type Query = map<string, string>

  const FORWARDED := "x-runtime-gateway-forwarded"
  const SANDBOX_ID := "x-sandbox-id"
  const GUEST_PORT := "x-guest-port"
  const TRAFFIC_TOKEN := "e2b-traffic-access-token"
  const ACCESS_TOKEN := "x-access-token"

  const HOP_BY_HOP := {"connection", "keep-alive", "proxy-authenticate", "proxy-authorization", "te", "trailers",
                       "transfer-encoding", "upgrade", "host"}
  const WEBSOCKET_HEADERS := {"authorization", "origin", "sec-websocket-protocol",
                              FORWARDED, SANDBOX_ID, GUEST_PORT, TRAFFIC_TOKEN}

  datatype Kind = Http | WebSocket

  datatype Request = Request(kind: Kind, headers: Headers, query: Query)

  datatype Config = Config(instanceId: string, domain: string, debug: bool,
                           ingressToken: string, tokenHeader: string, envdPort: int)

  datatype Route = Route(owner: string, base: string, isPublic: bool, token: string)

  datatype Lookup = NoSandbox | Failed(status: nat) | Found(route: Route)

  datatype Denial =
    | MissingIngressToken
    | InvalidIngressToken
    | NoTrafficTokenSet
    | MissingTrafficToken
    | InvalidTrafficToken

  /** What the middleware does with a request. */
  datatype Decision =
    | PassOn
    | Deny(denial: Denial)
    | Refuse(status: nat)
    | Forward(base: string, headers: Headers)
    | Guest(headers: Headers)

  function Header(headers: map<string, string>, name: string): string { if name in headers then headers[name] else "" }

  function TargetOf(sid: string, portText: string): Option<Target> {
    if sid == "" || !Digits(portText) || !IsPort(ToNat(portText)) then None else Some((ToNat(portText), sid))
  }

  function ParseForwardedRoute(headers: Headers): Option<Target> {
    if Strip(Header(headers, FORWARDED)) != "1" then None
    else TargetOf(Strip(Header(headers, SANDBOX_ID)), Strip(Header(headers, GUEST_PORT)))
  }

  function LocalHost(host: string): string {
    var h := Lower(Strip(if IndexOf(host, ',') < 0 then host else host[..IndexOf(host, ',')]));
    if ':' in h && h[0] != '[' then h[..LastIndexOf(h, ':')] else h
  }

  function ParseLocalQueryRoute(query: Query, host: string): Option<Target> {
    if LocalHost(host) !in {"127.0.0.1", "localhost", "::1", "[::1]"} then None
    else
      var port := if Header(query, "guest_port") != "" then Header(query, "guest_port") else Header(query, "port");
      TargetOf(Strip(Header(query, "sandbox_id")), Strip(port))
  }

  /** Whom the request is for: by host name, by the forwarding headers, or by a local query. */
  function ParsedTarget(cfg: Config, req: Request): Option<Target> {
    var host := Header(req.headers, "host");
    var byHost := ParseIngressHost(host, cfg.domain, cfg.debug, Header(req.headers, SANDBOX_ID),
        Header(req.headers, GUEST_PORT));
    if byHost.Some? then byHost
    else if ParseForwardedRoute(req.headers).Some? then ParseForwardedRoute(req.headers)
    else ParseLocalQueryRoute(req.query, host)
  }

  function Layer2Deny(cfg: Config, req: Request): Option<Denial> {
    var expected, name := Strip(cfg.ingressToken), Strip(cfg.tokenHeader);
    var provided := Strip(Header(req.headers, Lower(name)));
    if ParseLocalQueryRoute(req.query, Header(req.headers, "host")).Some? then None
    else if Strip(Header(req.headers, FORWARDED)) == "1" then None
    else if expected == "" || name == "" then None
    else if provided == "" then Some(MissingIngressToken)
    else if provided != expected then Some(InvalidIngressToken)
    else None
  }

  function Clamp(port: int): int { if port < 1 then 1 else if port > 65535 then 65535 else port }

  function Layer3Deny(route: Route, headers: Headers, port: nat, envdPort: int, query: Query): Option<Denial> {
    if route.isPublic then None
    else if port == Clamp(envdPort)
        && (Strip(Header(headers, ACCESS_TOKEN)) != "" || Strip(Header(query, "signature")) != "")
    then None
    else TrafficDeny(route, headers)
  }

  function TrafficDeny(route: Route, headers: Headers): Option<Denial> {
    var expected, traffic := Strip(route.token), Strip(Header(headers, TRAFFIC_TOKEN));
    if expected == "" then Some(NoTrafficTokenSet)
    else if traffic == "" then Some(MissingTrafficToken)
    else if traffic != expected then Some(InvalidTrafficToken)
    else None
  }

  type RouteTable = (string, nat) -> Lookup

  /** The owner is another gateway that can be reached. */
  predicate Elsewhere(cfg: Config, route: Route) {
    Strip(route.owner) != "" && Strip(cfg.instanceId) != "" && Strip(route.owner) != Strip(cfg.instanceId)
        && route.base != ""
  }

  function ForwardHeaders(headers: Headers, port: nat, sid: string): Headers {
    headers[FORWARDED := "1"][SANDBOX_ID := sid][GUEST_PORT := FromNat(port)]
  }

  function Decide(cfg: Config, table: RouteTable, req: Request): Decision {
    var target := ParsedTarget(cfg, req);
    if target.None? then PassOn
    else
      var (port, sid) := target.value;
      if Layer2Deny(cfg, req).Some? then Deny(Layer2Deny(cfg, req).value)
      else
        match table(Strip(sid), port)
        case NoSandbox => Refuse(404)
        case Failed(status) => Refuse(status)
        case Found(route) =>
          if Elsewhere(cfg, route) then Forward(route.base, ForwardHeaders(req.headers, port, sid))
          else
            var denial := Layer3Deny(route, req.headers, port, cfg.envdPort, req.query);
            if denial.Some? then Deny(denial.value) else Guest(req.headers)
  }

  /** What the proxies send on: everything but the hop-by-hop headers, or for a web socket the
      listed headers with their values stripped; the client then names the host it calls. */
  function SentHeaders(kind: Kind, headers: Headers, host: string): Headers {
    match kind
    case Http => (headers - HOP_BY_HOP)["host" := host]
    case WebSocket =>
      (map k | k in headers && k in WEBSOCKET_HEADERS && Strip(headers[k]) != "" :: Strip(headers[k]))["host" := host]
  }

  /** The gateways of a cluster: which one a route base reaches, and by what host name. */
  datatype Network = Network(table: RouteTable, reach: string -> Config, hostOf: string -> string)

  function Arrived(net: Network, req: Request, base: string, headers: Headers): Request {
    Request(req.kind, SentHeaders(req.kind, headers, net.hostOf(base)), req.query)
  }

  /** The forward hops a request makes, counted up to a limit. */
  function Hops(net: Network, cfg: Config, req: Request, limit: nat): nat
    decreases limit
  {
    if limit == 0 then 0
    else
      match Decide(cfg, net.table, req)
      case Forward(base, headers) => 1 + Hops(net, net.reach(base), Arrived(net, req, base, headers), limit - 1)
      case _ => 0
  }

  // ----- The owner sees the same target -----

  lemma NamesDiffer()
    ensures FORWARDED != SANDBOX_ID && SANDBOX_ID != GUEST_PORT && FORWARDED != GUEST_PORT
    ensures "host" !in {FORWARDED, SANDBOX_ID, GUEST_PORT}
  {
    assert |FORWARDED| == 27 && |SANDBOX_ID| == 12 && |GUEST_PORT| == 12 && |"host"| == 4;
    assert SANDBOX_ID[2] != GUEST_PORT[2];
  }

  lemma SentForwarding(kind: Kind, headers: Headers, host: string, name: string)
    requires name in {FORWARDED, SANDBOX_ID, GUEST_PORT} && name in headers
    ensures Strip(Header(SentHeaders(kind, headers, host), name)) == Strip(headers[name])
  {
    NamesDiffer();
    StripIsTrimmed(headers[name]);
    StripIsTrimmed(Strip(headers[name]));
    assert Strip("") == "";
    if kind == Http { ForwardingIsKept(name); }
  }

  lemma ForwardingIsKept(name: string)
    requires name in {FORWARDED, SANDBOX_ID, GUEST_PORT}
    ensures name !in HOP_BY_HOP
  {
    assert name[0] == 'x';
  }

  lemma ForwardKeepsHeaders(kind: Kind, headers: Headers, port: nat, sid: string, host: string)
    requires Strip(sid) != ""
    ensures var sent := SentHeaders(kind, ForwardHeaders(headers, port, sid), host);
            && Header(sent, "host") == host && Strip(Header(sent, FORWARDED)) == "1"
            && Strip(Header(sent, SANDBOX_ID)) == Strip(sid) && Strip(Header(sent, GUEST_PORT)) == FromNat(port)
  {
    NamesDiffer();
    var added := ForwardHeaders(headers, port, sid);
    SentForwarding(kind, added, host, FORWARDED);
    SentForwarding(kind, added, host, SANDBOX_ID);
    SentForwarding(kind, added, host, GUEST_PORT);
    StripIsTrimmed("1");
    StripIsTrimmed(FromNat(port));
  }

  /** A request that carries forwarding headers for this target. */
  predicate Carries(req: Request, port: nat, sid: string, host: string) {
    && Header(req.headers, "host") == host && Strip(Header(req.headers, FORWARDED)) == "1"
    && Strip(Header(req.headers, SANDBOX_ID)) == sid && Strip(Header(req.headers, GUEST_PORT)) == FromNat(port)
  }

  /** A gateway that is called by a name that is not a sandbox host reads the forwarded target,
      in debug mode too, and does not ask for the ingress secret again. */
  lemma CarriedTargetIsRead(cfg: Config, req: Request, port: nat, sid: string, host: string)
    requires Carries(req, port, sid, host) && IsPort(port) && sid != "" && Parse(host, cfg.domain).None?
    ensures ParsedTarget(cfg, req) == Some((port, sid)) && Layer2Deny(cfg, req) == None
  {
    StripIsTrimmed(Header(req.headers, SANDBOX_ID));
  }

  /** What a forwarding gateway knew: the target it read, and the route it found. */
  lemma ForwardMeaning(cfg: Config, table: RouteTable, req: Request)
    requires Decide(cfg, table, req).Forward?
    ensures ParsedTarget(cfg, req).Some?
    ensures var (port, sid) := ParsedTarget(cfg, req).value; var forward := Decide(cfg, table, req);
            && table(Strip(sid), port).Found? && Elsewhere(cfg, table(Strip(sid), port).route)
            && forward == Forward(table(Strip(sid), port).route.base, ForwardHeaders(req.headers, port, sid))
  {
  }

  lemma TargetIsPort(cfg: Config, req: Request)
    requires ParsedTarget(cfg, req).Some?
    ensures IsPort(ParsedTarget(cfg, req).value.0)
  {
  }

  /** From the first forward hop on, each gateway on the way reads the same port and sandbox;
      it forwards again, to the same base, exactly when it is not the owner. */
  lemma OnTheWay(net: Network, cfg: Config, req: Request, port: nat, sid: string, route: Route)
    requires Carries(req, port, sid, net.hostOf(route.base)) && IsPort(port) && sid != "" && Trimmed(sid)
    requires net.table(sid, port) == Found(route) && Parse(net.hostOf(route.base), cfg.domain).None?
    ensures ParsedTarget(cfg, req) == Some((port, sid))
    ensures Decide(cfg, net.table, req) ==
              if Elsewhere(cfg, route) then Forward(route.base, ForwardHeaders(req.headers, port, sid))
              else var denial := Layer3Deny(route, req.headers, port, cfg.envdPort, req.query);
                   if denial.Some? then Deny(denial.value) else Guest(req.headers)
    ensures Carries(Arrived(net, req, route.base, ForwardHeaders(req.headers, port, sid)), port, sid,
        net.hostOf(route.base))
  {
    CarriedTargetIsRead(cfg, req, port, sid, net.hostOf(route.base));
    StripIsTrimmed(sid);
    ForwardKeepsHeaders(req.kind, req.headers, port, sid, net.hostOf(route.base));
  }

  lemma {:induction false} HopsOnTheWay(net: Network, req: Request, port: nat, sid: string, route: Route, limit: nat)
    requires Carries(req, port, sid, net.hostOf(route.base)) && IsPort(port) && sid != "" && Trimmed(sid)
    requires net.table(sid, port) == Found(route)
    requires Parse(net.hostOf(route.base), net.reach(route.base).domain).None?
    ensures Hops(net, net.reach(route.base), req, limit) == if Elsewhere(net.reach(route.base), route) then limit else 0
    decreases limit
  {
    if limit == 0 {
    } else {
      var cfg := net.reach(route.base);
      OnTheWay(net, cfg, req, port, sid, route);
      if Elsewhere(cfg, route) {
        HopsOnTheWay(net, Arrived(net, req, route.base, ForwardHeaders(req.headers, port, sid)), port, sid, route,
            limit - 1);
      }
    }
  }

  /** The request that reaches the gateway behind the base, after the first forward hop. */
  lemma FirstHop(net: Network, cfg: Config, req: Request)
    requires Decide(cfg, net.table, req).Forward?
    requires Strip(ParsedTarget(cfg, req).value.1) != ""
    ensures var (port, sid) := ParsedTarget(cfg, req).value;
            var Forward(base, headers) := Decide(cfg, net.table, req);
            Carries(Arrived(net, req, base, headers), port, Strip(sid), net.hostOf(base))
  {
    ForwardMeaning(cfg, net.table, req);
    var (port, sid) := ParsedTarget(cfg, req).value;
    var route := net.table(Strip(sid), port).route;
    ForwardKeepsHeaders(req.kind, req.headers, port, sid, net.hostOf(route.base));
  }

  /** Bounded hops: under one route table a forwarded request makes exactly one hop, and the
      gateway it reaches reads the same port and sandbox, if and only if the route base reaches
      the owner (or a gateway that does not know its own name). Otherwise it is forwarded again
      and again, for as long as anyone counts. */
  lemma OneHopIff(net: Network, cfg: Config, req: Request)
    requires Decide(cfg, net.table, req).Forward?
    requires Strip(ParsedTarget(cfg, req).value.1) != ""
    requires var base := Decide(cfg, net.table, req).base; Parse(net.hostOf(base), net.reach(base).domain).None?
    ensures var (port, sid) := ParsedTarget(cfg, req).value;
            var Forward(base, headers) := Decide(cfg, net.table, req);
            ParsedTarget(net.reach(base), Arrived(net, req, base, headers)) == Some((port, Strip(sid)))
    ensures var base, self := Decide(cfg, net.table, req).base,
        Strip(net.reach(Decide(cfg, net.table, req).base).instanceId);
            var (port, sid) := ParsedTarget(cfg, req).value;
            var owner := Strip(net.table(Strip(sid), port).route.owner);
            && ((forall limit :: limit > 0 ==> Hops(net, cfg, req, limit) == 1) <==> self in {"", owner})
            && (self !in {"", owner} ==> forall limit :: Hops(net, cfg, req, limit) == limit)
  {
    ForwardMeaning(cfg, net.table, req);
    TargetIsPort(cfg, req);
    FirstHop(net, cfg, req);
    var (port, sid) := ParsedTarget(cfg, req).value;
    var route := net.table(Strip(sid), port).route;
    var next := Arrived(net, req, route.base, ForwardHeaders(req.headers, port, sid));
    StripIsTrimmed(sid);
    CarriedTargetIsRead(net.reach(route.base), next, port, Strip(sid), net.hostOf(route.base));
    forall limit | limit > 0
      ensures Hops(net, cfg, req, limit) == if Elsewhere(net.reach(route.base), route) then limit else 1
    {
      HopsOnTheWay(net, next, port, Strip(sid), route, limit - 1);
    }
    assert Hops(net, cfg, req, 2) == if Elsewhere(net.reach(route.base), route) then 2 else 1;
  }

  // ----- The owner gives the same answer -----

  lemma HttpKeepsHeader(headers: Headers, port: nat, sid: string, host: string, name: string)
    requires name !in HOP_BY_HOP + {FORWARDED, SANDBOX_ID, GUEST_PORT}
    ensures Header(SentHeaders(Http, ForwardHeaders(headers, port, sid), host), name) == Header(headers, name)
  {
  }

  /** For HTTP the owner's traffic check answers as it would have for the original headers. */
  lemma HttpOwnerAnswersAlike(route: Route, headers: Headers, port: nat, sid: string, host: string, envdPort: int,
      query: Query)
    ensures Layer3Deny(route, SentHeaders(Http, ForwardHeaders(headers, port, sid), host), port, envdPort, query) ==
            Layer3Deny(route, headers, port, envdPort, query)
  {
    assert |ACCESS_TOKEN| == 14 && |TRAFFIC_TOKEN| == 24 && |FORWARDED| == 27 && |SANDBOX_ID| == 12
        && |GUEST_PORT| == 12;
    assert ACCESS_TOKEN[0] == 'x' && TRAFFIC_TOKEN[0] == 'e';
    HttpKeepsHeader(headers, port, sid, host, ACCESS_TOKEN);
    HttpKeepsHeader(headers, port, sid, host, TRAFFIC_TOKEN);
  }

  lemma WebSocketHeaders(headers: Headers, port: nat, sid: string, host: string)
    ensures var sent := SentHeaders(WebSocket, ForwardHeaders(headers, port, sid), host);
            && Strip(Header(sent, TRAFFIC_TOKEN)) == Strip(Header(headers, TRAFFIC_TOKEN))
            && Header(sent, ACCESS_TOKEN) == ""
  {
    StripIsTrimmed("");
    StripIsTrimmed(Header(headers, TRAFFIC_TOKEN));
    StripIsTrimmed(Strip(Header(headers, TRAFFIC_TOKEN)));
    assert |ACCESS_TOKEN| == 14 && |TRAFFIC_TOKEN| == 24 && |FORWARDED| == 27 && |SANDBOX_ID| == 12
        && |GUEST_PORT| == 12;
    assert ACCESS_TOKEN[0] == 'x' && "sec-websocket-protocol"[0] == 's' && "authorization"[0] == 'a'
        && "origin"[0] == 'o';
  }

  /** For a web socket it does exactly when the request does not rest on the exemption for
      envd's own token: that header is not sent on. */
  lemma WebSocketOwnerAnswersAlikeIff(route: Route, headers: Headers, port: nat, sid: string, host: string,
                                      envdPort: int, query: Query)
    ensures Layer3Deny(route, SentHeaders(WebSocket, ForwardHeaders(headers, port, sid), host), port, envdPort,
        query) ==
            Layer3Deny(route, headers, port, envdPort, query) <==>
              || route.isPublic || port != Clamp(envdPort) || Strip(Header(query, "signature")) != ""
              || Strip(Header(headers, ACCESS_TOKEN)) == "" || TrafficDeny(route, headers) == None
  {
    WebSocketHeaders(headers, port, sid, host);
    StripIsTrimmed("");
  }

  // ----- Who is let through -----

  /** The traffic check admits exactly: everyone to a public route; a request to the envd port that
      brings an access token or a signature for envd; and one that brings the route's own token. */
  lemma AdmittedIff(route: Route, headers: Headers, port: nat, envdPort: int, query: Query)
    ensures Layer3Deny(route, headers, port, envdPort, query) == None <==>
              || route.isPublic
              || (port == (if envdPort < 1 then 1 else if envdPort > 65535 then 65535 else envdPort)
                  && (Strip(Header(headers, "x-access-token")) != "" || Strip(Header(query, "signature")) != ""))
              || (Strip(route.token) != "" && Strip(Header(headers, "e2b-traffic-access-token")) == Strip(route.token))
  {
  }

  /** The reason it gives: no token is set, none is brought, or another one is. */
  lemma DeniedWhy(route: Route, headers: Headers, port: nat, envdPort: int, query: Query)
    requires Layer3Deny(route, headers, port, envdPort, query).Some?
    ensures match Layer3Deny(route, headers, port, envdPort, query).value
            case NoTrafficTokenSet => Strip(route.token) == ""
            case MissingTrafficToken => Strip(route.token) != ""
                && Strip(Header(headers, "e2b-traffic-access-token")) == ""
            case InvalidTrafficToken =>
              Strip(Header(headers, "e2b-traffic-access-token")) !in {"", Strip(route.token)}
                  && Strip(route.token) != ""
            case _ => false
  {
  }

  /** The ingress check admits exactly: local requests that name their sandbox in the query, forwarded
      ones, every one where no secret is set, and one that brings the secret. */
  lemma IngressAdmittedIff(cfg: Config, req: Request)
    ensures Layer2Deny(cfg, req) == None <==>
              || ParseLocalQueryRoute(req.query, Header(req.headers, "host")).Some?
              || Strip(Header(req.headers, "x-runtime-gateway-forwarded")) == "1"
              || Strip(cfg.ingressToken) == "" || Strip(cfg.tokenHeader) == ""
              || Strip(Header(req.headers, Lower(Strip(cfg.tokenHeader)))) == Strip(cfg.ingressToken)
  {
  }

  /** The route's owner is this gateway, or is not known, or cannot be reached. */
  predicate ServedHere(cfg: Config, route: Route) {
    Strip(route.owner) == "" || Strip(cfg.instanceId) == "" || Strip(route.owner) == Strip(cfg.instanceId)
        || route.base == ""
  }

  /** A request reaches the guest, with its headers as they came, exactly when it is for a sandbox, the
      ingress check lets it in, its route is found and served here, and the traffic check admits it. */
  lemma GuestIff(cfg: Config, table: RouteTable, req: Request)
    ensures Decide(cfg, table, req) == Guest(req.headers) <==>
              && ParsedTarget(cfg, req).Some? && Layer2Deny(cfg, req) == None
              && var (port, sid) := ParsedTarget(cfg, req).value;
                 && table(Strip(sid), port).Found? && ServedHere(cfg, table(Strip(sid), port).route)
                 && Layer3Deny(table(Strip(sid), port).route, req.headers, port, cfg.envdPort, req.query) == None
    ensures Decide(cfg, table, req).Guest? ==> Decide(cfg, table, req) == Guest(req.headers)
  {
  }

  /** It is forwarded exactly when the route is another gateway's, before any traffic check; it goes on
      to the application exactly when it is for no sandbox. */
  lemma ForwardIff(cfg: Config, table: RouteTable, req: Request)
    ensures Decide(cfg, table, req).Forward? <==>
              && ParsedTarget(cfg, req).Some? && Layer2Deny(cfg, req) == None
              && var (port, sid) := ParsedTarget(cfg, req).value;
                 table(Strip(sid), port).Found? && !ServedHere(cfg, table(Strip(sid), port).route)
    ensures Decide(cfg, table, req) == PassOn <==> ParsedTarget(cfg, req) == None
    ensures ParsedTarget(cfg, req).Some? && Layer2Deny(cfg, req) == None ==>
              var (port, sid) := ParsedTarget(cfg, req).value;
              && (table(Strip(sid), port).NoSandbox? ==> Decide(cfg, table, req) == Refuse(404))
              && (table(Strip(sid), port).Failed? ==> Decide(cfg, table, req) == Refuse(table(Strip(sid), port).status))
    ensures ParsedTarget(cfg, req).Some? && Layer2Deny(cfg, req).Some? ==>
              Decide(cfg, table, req) == Deny(Layer2Deny(cfg, req).value)
  {
  }

  // ----- Whom a request is for -----

  /** In production a sandbox's host name decides, whatever the headers and the query say. */
  lemma HostDecides(cfg: Config, req: Request)
    requires !cfg.debug && Parse(Header(req.headers, "host"), cfg.domain).Some?
    ensures ParsedTarget(cfg, req) == Parse(Header(req.headers, "host"), cfg.domain)
  {
  }

  /** A host name that the reading of local addresses leaves as it is. */
  predicate PlainName(host: string) {
    host != "" && forall k :: 0 <= k < |host| ==> 'a' <= host[k] <= 'z' || IsDigit(host[k]) || host[k] == '.'
  }

  lemma PlainNameIsItself(host: string)
    requires PlainName(host)
    ensures LocalHost(host) == host
  {
    LocalHostOf(host);
  }

  lemma PlainNameWithPort(host: string, portText: string)
    requires PlainName(host) && Digits(portText)
    ensures LocalHost(host + ":" + portText) == host
  {
    var named := host + ":" + portText;
    forall k | 0 <= k < |named| ensures LowerChar(named[k]) == named[k] && named[k] != ',' && !IsSpace(named[k]) {
      assert named[k] == if k < |host| then host[k] else if k == |host| then ':' else portText[k - |host| - 1];
    }
    LocalHostOf(named);
    assert ':' !in portText;
    LastIndexIs(host, ':', portText);
    assert named[|host|] == ':' && named[0] == host[0] && named[..|host|] == host;
  }

  lemma LocalNames(host: string, portText: string)
    requires host in {"localhost", "127.0.0.1"} && Digits(portText)
    ensures LocalHost(host) == host && LocalHost(host + ":" + portText) == host
  {
    PlainNameIsItself(host);
    PlainNameWithPort(host, portText);
  }

  lemma TargetIs(port: nat, sid: string)
    requires Trimmed(sid) && sid != ""
    ensures TargetOf(Strip(sid), Strip(FromNat(port))) == if IsPort(port) then Some((port, sid)) else None
  {
    StripIsTrimmed(sid);
    StripIsTrimmed(FromNat(port));
  }

  lemma LocalQueryAt(query: Query, host: string, port: nat, sid: string)
    requires LocalHost(host) in {"localhost", "127.0.0.1"} && Header(query, "sandbox_id") == sid
    requires (if Header(query, "guest_port") != "" then Header(query, "guest_port") else Header(query, "port"))
        == FromNat(port)
    ensures ParseLocalQueryRoute(query, host) == TargetOf(Strip(sid), Strip(FromNat(port)))
  {
  }

  /** A request to a local address is for the sandbox and port its query names. */
  lemma LocalQueryIsRead(host: string, portText: string, port: nat, sid: string, key: string)
    requires host in {"localhost", "127.0.0.1"} && Digits(portText) && key in {"guest_port", "port"}
    requires Trimmed(sid) && sid != ""
    ensures var query, target := map["sandbox_id" := sid, key := FromNat(port)], if IsPort(port)
        then Some((port, sid)) else None;
            ParseLocalQueryRoute(query, host) == target && ParseLocalQueryRoute(query, host + ":" + portText) == target
  {
    var query := map["sandbox_id" := sid, key := FromNat(port)];
    LocalNames(host, portText);
    QueryNames(port, sid, key);
    TargetIs(port, sid);
    LocalQueryAt(query, host, port, sid);
    LocalQueryAt(query, host + ":" + portText, port, sid);
  }

  lemma QueryNames(port: nat, sid: string, key: string)
    requires key in {"guest_port", "port"}
    ensures var query := map["sandbox_id" := sid, key := FromNat(port)];
            && Header(query, "sandbox_id") == sid
            && (if Header(query, "guest_port") != "" then Header(query, "guest_port") else Header(query, "port"))
                == FromNat(port)
  {
    assert "sandbox_id"[0] == 's' && "guest_port"[0] == 'g' && "port"[0] == 'p';
  }

  // ----- What is sent on -----

  /** Over HTTP: every header but those of the connection itself, as it came. */
  lemma SentOverHttp(headers: Headers, host: string, name: string)
    ensures var sent := SentHeaders(Http, headers, host);
            if name == "host" then name in sent && sent[name] == host
            else if name in {"connection", "keep-alive", "proxy-authenticate", "proxy-authorization", "te", "trailers",
                             "transfer-encoding", "upgrade"} then name !in sent
            else (name in sent <==> name in headers) && (name in headers ==> sent[name] == headers[name])
  {
  }

  /** Over a web socket: the listed headers that are not blank, stripped, and nothing else. */
  lemma SentOverWebSocket(headers: Headers, host: string, name: string)
    ensures var sent := SentHeaders(WebSocket, headers, host);
            if name == "host" then name in sent && sent[name] == host
            else if name in {"authorization", "origin", "sec-websocket-protocol", "x-runtime-gateway-forwarded",
                             "x-sandbox-id", "x-guest-port", "e2b-traffic-access-token"}
                    && name in headers && Strip(headers[name]) != ""
            then name in sent && sent[name] == Strip(headers[name])
            else name !in sent
  {
  }

  /** A guest port in the query goes before a port. */
  lemma GuestPortGoesFirst(query: Query, host: string)
    requires "guest_port" in query && query["guest_port"] != ""
    ensures ParseLocalQueryRoute(query, host) == ParseLocalQueryRoute(query - {"port"}, host)
  {
    assert "guest_port"[0] == 'g' && "port"[0] == 'p' && "sandbox_id"[0] == 's';
  }

  lemma LocalHostOf(host: string)
    requires Trimmed(host) && ',' !in host && forall k :: 0 <= k < |host| ==> LowerChar(host[k]) == host[k]
    ensures LocalHost(host) == if ':' in host && host[0] != '[' then host[..LastIndexOf(host, ':')] else host
  {
    StripIsTrimmed(host);
    assert Lower(host) == host;
  }

  predicate IsSix(host: string) { forall k :: 0 <= k < |host| ==> host[k] in {':', '0', '1', '8', '[', ']'} }

  lemma BracketedIsItself(host: string)
    requires host != "" && host[0] == '[' && IsSix(host)
    ensures LocalHost(host) == host
  {
    LocalHostOf(host);
  }

  lemma BareIsCut(host: string, n: nat)
    requires IsSix(host) && n < |host|
        && host[0] != '[' && host[n] == ':' && forall k :: n < k < |host| ==> host[k] != ':'
    ensures LocalHost(host) == host[..n]
  {
    LocalHostOf(host);
    LastIndexIsUnique(host, ':', n);
  }

  /** Of the sixth version's local address only the form in brackets and without a port is taken. */
  lemma LocalSix()
    ensures LocalHost("[::1]") == "[::1]"
  {
    BracketedIsItself("[::1]");
  }

  lemma LocalSixWithPort()
    ensures LocalHost("[::1]:80") == "[::1]:80"
  {
    BracketedIsItself("[::1]:80");
  }

  lemma LocalSixBare()
    ensures LocalHost("::1") == "::1"[..1]
  {
    BareIsCut("::1", 1);
  }

  /** A request to it is for the sandbox and port its query names, and in the other forms for none. */
  lemma LocalSixIsRead(port: nat, sid: string)
    requires Trimmed(sid) && sid != ""
    ensures var query := map["sandbox_id" := sid, "guest_port" := FromNat(port)];
            && ParseLocalQueryRoute(query, "[::1]") == (if IsPort(port) then Some((port, sid)) else None)
            && ParseLocalQueryRoute(query, "[::1]:80") == None && ParseLocalQueryRoute(query, "::1") == None
  {
    LocalSix();
    LocalSixWithPort();
    LocalSixBare();
    QueryNames(port, sid, "guest_port");
    TargetIs(port, sid);
  }

}
