// Routing a request (tls10.go:662-687). The path arithmetic of the Go library,
// the directory a gateway path leads to, proxied and static replies are parameters.
module Dispatch {
  import opened Bytes
  import opened Prf
  import opened Results
  import opened Primitives
  import opened Text
  import opened LongestFirst
  import opened DnsRules
  import opened Http
  import opened HttpReply
  import opened Replay

  /** A server's configuration; `base` is path.Base, `gateway` gwDirFor, `files`
      serveStatic. */
  datatype Site = Site(
    proxies: seq<Rule<bytes>>,
    mode: Mode,
    base: bytes -> bytes,
    gateway: bytes -> Option<Gateway>,
    proxy: (Rule<bytes>, Request) -> bytes,
    files: bytes -> bytes)

  datatype Routed = ToProxy(rule: Rule<bytes>) | Image(body: bytes) | Static

  function EndpointOf(base: bytes): Option<Endpoint> {
    if base == Ascii("v2.5_i-connect") || base == Ascii("v2.1_d-connect") then Some(Connect)
    else if base == Ascii("v2.5_others") then Some(Others)
    else None
  }

  function Route(p: Crypto, s: Site, req: Request): Routed {
    match ProxyFor(s.proxies, req.path)
    case Some(rule) => ToProxy(rule)
    case None =>
      match EndpointOf(s.base(req.path))
      case None => Static
      case Some(e) =>
        match s.gateway(req.path)
        case None => Image([])
        case Some(g) => Image(Answer(p, g, s.mode, e, req.body))
  }

  /** dispatch. */
  function Respond(p: Crypto, s: Site, req: Request): bytes {
    match Route(p, s, req)
    case ToProxy(rule) => s.proxy(rule, req)
    case Image(body) => HttpResponse(Ascii("image/gif"), body)
    case Static => s.files(req.path)
  }

  /** The gateway and endpoint a request is replayed from, if it is. */
  function ReplayTarget(s: Site, req: Request): Option<(Gateway, Endpoint)> {
    if ProxyFor(s.proxies, req.path).Some? then None
    else
      match (EndpointOf(s.base(req.path)), s.gateway(req.path))
      case (Some(e), Some(g)) => Some((g, e))
      case _ => None
  }

  /** What each kind of path is answered: the longest proxy prefix comes first,
      then the three endpoint names, over a gateway if the path leads to one, and
      every other path is a file. */
  lemma {:induction false} RoutesByName(p: Crypto, s: Site, req: Request)
    requires FirstMatch(s.proxies, Starting(req.path)).None?
    ensures var connect := s.base(req.path) in {Ascii("v2.5_i-connect"), Ascii("v2.1_d-connect")};
      var others := s.base(req.path) == Ascii("v2.5_others");
      && (!connect && !others ==> Respond(p, s, req) == s.files(req.path))
      && (connect || others ==>
           Respond(p, s, req) == HttpResponse(Ascii("image/gif"),
             match s.gateway(req.path)
             case None => []
             case Some(g) => Answer(p, g, s.mode, if connect then Connect else Others, req.body)))
  {
    hide Answer, HttpResponse;
    EndpointNames();
  }

  lemma EndpointNames()
    ensures Ascii("v2.5_others") != Ascii("v2.5_i-connect") && Ascii("v2.5_others") != Ascii("v2.1_d-connect")
  {
    assert |Ascii("v2.5_others")| == 11 && |Ascii("v2.5_i-connect")| == 14 && |Ascii("v2.1_d-connect")| == 14;
  }

  /** A proxied request gets what the backend of the first covering prefix answers. */
  lemma {:induction false} ProxiedResponse(p: Crypto, s: Site, req: Request)
    requires FirstMatch(s.proxies, Starting(req.path)).Some?
    ensures Respond(p, s, req) == s.proxy(FirstMatch(s.proxies, Starting(req.path)).value, req)
  {
    hide Answer, HttpResponse;
  }

  /** Switching from off to fallback changes the answer to a request only if it
      is replayed, well-formed but uncaptured, and its gateway has a
      success.raw; proxied and static requests and replayed captures keep theirs. */
  lemma {:induction false} FallbackOnlyForUncaptured(p: Crypto, s: Site, req: Request)
    requires s.mode == Off
    ensures Route(p, s, req) != Route(p, s.(mode := Fallback), req) ==>
      var t := ReplayTarget(s, req);
      && t.Some? && t.value.0.success.Some?
      && Uncaptured(t.value.0, req.body, IdOffset(t.value.1))
  {
    hide Answer, Uncaptured, EndpointOf;
    var t := ReplayTarget(s, req);
    if t.Some? {
      FallbackRefinesOff(p, t.value.0, t.value.1, req.body);
    }
  }

  /** The proxied requests are those some prefix covers, in every mode, and they
      go to the longest one however the flags were ordered. */
  lemma {:induction false} ProxiedIff(p: Crypto, s: Site, req: Request, flags: seq<Rule<bytes>>)
    requires s.proxies == StableSort(flags)
    ensures Route(p, s, req).ToProxy? <==> exists i :: 0 <= i < |flags| && HasPrefix(req.path, flags[i].key)
    ensures Route(p, s, req).ToProxy? ==>
      exists i :: IsBest(flags, Starting(req.path), i) && Route(p, s, req).rule == flags[i]
  {
    hide Answer, EndpointOf, HasPrefix, StableSort, FirstMatch, ProxyFor, IsBest;
    ProxySpec(flags, req.path);
  }
}
