/**
 The dispatcher: checks that cost nothing, then the limiter, then the body, then the signed
 handler's verification; and what limiter and replay window guarantee together.
 */
module Server {
  import opened Common
  import opened Text
  import RateLimit
  import Replay
  import Signing

  const MAX_REQUEST_LINE := 4096

  datatype Access = Open | ForSigned | ForAdmin

  /** `matches` is the route's pattern, anchored at both ends. */
  datatype Route = Route(verb: string, matches: string -> bool, access: Access)

  /** One HTTP request as it reaches the dispatcher, with the two clocks read while serving it. */
  datatype Incoming = Incoming(ip: string, verb: string, target: string, contentLength: Option<string>,
                               waiting: Bytes, headers: map<string, string>, mono: real, wall: int)

  datatype Env = Env(limits: RateLimit.Config, policy: Signing.Policy, crypto: Signing.Crypto, routes: seq<Route>,
                     pathOf: string -> string, maxRequestBytes: int)

  datatype Reply = Refused(status: int, code: string) | Handled(identity: Option<Signing.Identity>)

  predicate CarriesBody(verb: string) {
    verb == "POST" || verb == "PUT" || verb == "PATCH"
  }

  // ---- routing ------------------------------------------------------------

  predicate Serves(r: Route, verb: string, path: string) {
    r.matches(path) && r.verb == verb
  }

  /** The first route for the verb and path is taken; a path known under other verbs only is a 405. */
  ghost predicate Resolves(routes: seq<Route>, verb: string, path: string, r: Result<nat, Reply>) {
    match r
    case Ok(i) => i < |routes| && Serves(routes[i], verb, path) && forall k :: 0 <= k < i ==> !Serves(routes[k], verb, path)
    case Err(e) =>
      && (forall k :: 0 <= k < |routes| ==> !Serves(routes[k], verb, path))
      && e == if exists k :: 0 <= k < |routes| && routes[k].matches(path) then Refused(405, "method_not_allowed")
              else Refused(404, "not_found")
  }

  method Resolve(routes: seq<Route>, verb: string, path: string) returns (r: Result<nat, Reply>)
    ensures Resolves(routes, verb, path, r)
  {
    var pathExists := false;
    for i := 0 to |routes|
      invariant forall k :: 0 <= k < i ==> !Serves(routes[k], verb, path)
      invariant pathExists <==> exists k :: 0 <= k < i && routes[k].matches(path)
    {
      if routes[i].matches(path) {
        pathExists := true;
        if routes[i].verb == verb {
          return Ok(i);
        }
      }
    }
    return Err(if pathExists then Refused(405, "method_not_allowed") else Refused(404, "not_found"));
  }

  /** At most one resolution fits. */
  lemma ResolvesUnique(routes: seq<Route>, verb: string, path: string, a: Result<nat, Reply>, b: Result<nat, Reply>)
    requires Resolves(routes, verb, path, a) && Resolves(routes, verb, path, b)
    ensures a == b
  {
    if a.Ok? && b.Ok? {
      assert a.value <= b.value && b.value <= a.value;
    }
  }

  function FirstServing(routes: seq<Route>, verb: string, path: string, from: nat): (i: nat)
    requires from <= |routes|
    ensures from <= i <= |routes| && (i < |routes| ==> Serves(routes[i], verb, path))
    ensures forall k :: from <= k < i ==> !Serves(routes[k], verb, path)
    decreases |routes| - from
  {
    if from == |routes| || Serves(routes[from], verb, path) then from
    else FirstServing(routes, verb, path, from + 1)
  }

  ghost function Resolution(routes: seq<Route>, verb: string, path: string): (r: Result<nat, Reply>)
    ensures Resolves(routes, verb, path, r)
  {
    var i := FirstServing(routes, verb, path, 0);
    if i < |routes| then Ok(i)
    else if exists k :: 0 <= k < |routes| && routes[k].matches(path) then Err(Refused(405, "method_not_allowed"))
    else Err(Refused(404, "not_found"))
  }

  // ---- one request --------------------------------------------------------

  /** The declared body length, or the refusal; nothing is read for it. */
  function DeclaredLength(env: Env, inc: Incoming): Result<nat, Reply> {
    if !CarriesBody(inc.verb) then Ok(0)
    else if inc.contentLength.None? then Err(Refused(411, "length_required"))
    else
      match ParseInt(inc.contentLength.value)
      case None => Err(Refused(400, "bad_content_length"))
      case Some(n) => if 0 <= n <= env.maxRequestBytes then Ok(n) else Err(Refused(413, "too_large"))
  }

  /** Everything decided before the limiter is asked: the route and the body length. */
  ghost function Triage(env: Env, inc: Incoming): Result<(nat, nat), Reply> {
    if |inc.target| > MAX_REQUEST_LINE then Err(Refused(414, "uri_too_long"))
    else
      match DeclaredLength(env, inc)
      case Err(e) => Err(e)
      case Ok(n) =>
        match Resolution(env.routes, inc.verb, env.pathOf(inc.target))
        case Err(e) => Err(e)
        case Ok(i) => Ok((i, n))
  }

  /** What is verified: the verb and the target as received, and the body actually read. */
  function RequestOf(inc: Incoming, body: Bytes): Signing.Request {
    Signing.Request(Utf8(inc.verb), Utf8(inc.target), inc.headers, body)
  }

  /** What a verified identity may reach. */
  function Admitted(access: Access, v: Result<Signing.Identity, Signing.SignatureError>): Reply {
    match v
    case Err(e) => Refused(e.status, e.code)
    case Ok(id) => if access == ForAdmin && !id.isAdmin then Refused(403, "not_admin") else Handled(Some(id))
  }

  ghost predicate Asks(env: Env, inc: Incoming) {
    Triage(env, inc).Ok?
  }

  function LimiterCall(inc: Incoming): RateLimit.Call {
    RateLimit.Call(inc.ip, inc.mono)
  }

  /** Body bytes taken off the socket: the declared length, or what there is when that is less. */
  function ReadLength(inc: Incoming, length: nat): (n: nat)
    ensures n <= |inc.waiting| && n <= length
  {
    if !CarriesBody(inc.verb) then 0 else if length < |inc.waiting| then length else |inc.waiting|
  }

  /** The arrival at the replay window, when the body is complete, the route signed and the headers parse. */
  ghost function ArrivalOf(env: Env, inc: Incoming, route: Route, length: nat): Option<Replay.Attempt>
    requires Signing.HashIsHex(env.crypto)
  {
    var body := inc.waiting[..ReadLength(inc, length)];
    var parsed := Signing.ParseSignatureHeaders(inc.headers);
    if (CarriesBody(inc.verb) && |body| != length) || route.access == Open || parsed.Err? then None
    else Some(Signing.AttemptOf(env.crypto, RequestOf(inc, body), parsed.value, inc.wall))
  }

  /** What serving an allowed request does to the nonce table, and its reply. */
  ghost function Served(env: Env, nonces: Replay.Table, inc: Incoming, route: Route, length: nat): (Replay.Table, Reply)
    requires Signing.HashIsHex(env.crypto)
  {
    var parsed := Signing.ParseSignatureHeaders(inc.headers);
    match ArrivalOf(env, inc, route, length)
    case Some(a) =>
      var (t, o) := Replay.Arrive(env.policy.window, nonces, a);
      (t, Admitted(route.access, Signing.Verdict(env.policy, parsed.value, o)))
    case None =>
      (nonces, if CarriesBody(inc.verb) && ReadLength(inc, length) != length then Refused(400, "short_body")
               else if route.access == Open then Handled(None)
               else Refused(400, "malformed_signature"))
  }

  datatype World = World(limiter: RateLimit.State, nonces: Replay.Table)

  /** A request that got as far as the limiter: charged, and served when it may proceed. */
  ghost function Charged(env: Env, w: World, inc: Incoming, route: Route, length: nat): (World, Reply, nat)
    requires Signing.HashIsHex(env.crypto)
  {
    var (l, allowed) := RateLimit.AllowStep(env.limits, w.limiter, LimiterCall(inc));
    if !allowed then (World(l, w.nonces), Refused(429, "rate_limited"), 0)
    else
      var (t, reply) := Served(env, w.nonces, inc, route, length);
      (World(l, t), reply, ReadLength(inc, length))
  }

  /** One dispatched request: the new state, the reply, the body bytes read. */
  ghost function Step(env: Env, w: World, inc: Incoming): (World, Reply, nat)
    requires Signing.HashIsHex(env.crypto)
  {
    match Triage(env, inc)
    case Err(e) => (w, e, 0)
    case Ok((i, n)) => Charged(env, w, inc, env.routes[i], n)
  }

  class Dispatcher {
    const env: Env
    const limiter: RateLimit.TokenBucketLimiter
    const replay: Replay.ReplayWindow

    constructor (env: Env, limiter: RateLimit.TokenBucketLimiter, replay: Replay.ReplayWindow)
      ensures this.env == env && this.limiter == limiter && this.replay == replay
    {
      this.env, this.limiter, this.replay := env, limiter, replay;
    }

    ghost predicate Valid()
      reads limiter, limiter.buckets.Values, limiter.globalBucket
    {
      limiter.Valid() && limiter.cfg == env.limits && Signing.HashIsHex(env.crypto)
    }

    ghost function View(): World
      reads limiter, limiter.buckets.Values, limiter.globalBucket, replay
    {
      World(limiter.View(), replay.nonces)
    }

    method CheckLength(inc: Incoming) returns (r: Result<nat, Reply>)
      ensures r == DeclaredLength(env, inc)
    {
      var length := 0;
      if CarriesBody(inc.verb) {
        if inc.contentLength.None? {
          return Err(Refused(411, "length_required"));
        }
        var parsed := ParseInt(inc.contentLength.value);
        if parsed.None? {
          return Err(Refused(400, "bad_content_length"));
        }
        if parsed.value < 0 || parsed.value > env.maxRequestBytes {
          return Err(Refused(413, "too_large"));
        }
        length := parsed.value;
      }
      return Ok(length);
    }

    /** The body is read here and nowhere else; a signed route then verifies before its handler runs. */
    method Serve(inc: Incoming, route: Route, length: nat) returns (reply: Reply, bytesRead: nat)
      requires Signing.HashIsHex(env.crypto)
      modifies replay
      ensures (replay.nonces, reply) == Served(env, old(replay.nonces), inc, route, length)
      ensures bytesRead == ReadLength(inc, length)
    {
      bytesRead := ReadLength(inc, length);
      if CarriesBody(inc.verb) && bytesRead != length {
        return Refused(400, "short_body"), bytesRead;
      }
      if route.access == Open {
        return Handled(None), bytesRead;
      }
      var signed := RequestOf(inc, inc.waiting[..bytesRead]);
      var verified := Signing.VerifySignedRequest(env.crypto, env.policy, signed, inc.wall, replay);
      reply := Admitted(route.access, verified);
    }

    /** The checks that cost nothing, in order: target size, declared length, route. */
    method Sort(inc: Incoming) returns (r: Result<(nat, nat), Reply>)
      ensures r == Triage(env, inc)
    {
      if |inc.target| > MAX_REQUEST_LINE {
        return Err(Refused(414, "uri_too_long"));
      }
      var length := CheckLength(inc);
      if length.Err? {
        return Err(length.error);
      }
      var resolved := Resolve(env.routes, inc.verb, env.pathOf(inc.target));
      ResolvesUnique(env.routes, inc.verb, env.pathOf(inc.target), resolved, Resolution(env.routes, inc.verb, env.pathOf(inc.target)));
      if resolved.Err? {
        return Err(resolved.error);
      }
      return Ok((resolved.value, length.value));
    }

    /** The limiter is charged before a body byte is read. */
    method Charge(inc: Incoming, route: Route, length: nat) returns (reply: Reply, bytesRead: nat)
      requires Valid()
      modifies limiter`buckets, limiter`order, limiter`globalStarted, limiter`trace,
               limiter.buckets.Values, limiter.globalBucket, replay
      ensures Valid() && (View(), reply, bytesRead) == Charged(env, old(View()), inc, route, length)
      ensures fresh(limiter.buckets.Values - old(limiter.buckets.Values))
    {
      var allowed := limiter.Allow(inc.ip, inc.mono);
      if !allowed {
        return Refused(429, "rate_limited"), 0;
      }
      ghost var limited := limiter.View();
      reply, bytesRead := Serve(inc, route, length);
      assert limiter.View() == limited;
    }

    method Dispatch(inc: Incoming) returns (reply: Reply, bytesRead: nat)
      requires Valid()
      modifies limiter`buckets, limiter`order, limiter`globalStarted, limiter`trace,
               limiter.buckets.Values, limiter.globalBucket, replay
      ensures Valid() && (View(), reply, bytesRead) == Step(env, old(View()), inc)
      ensures fresh(limiter.buckets.Values - old(limiter.buckets.Values))
    {
      var sorted := Sort(inc);
      if sorted.Err? {
        return sorted.error, 0;
      }
      reply, bytesRead := Charge(inc, env.routes[sorted.value.0], sorted.value.1);
    }
  }
}
