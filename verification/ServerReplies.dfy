/**
 The dispatcher's answer to every request, told from the request, the limiter's decision, the signature
 check and the nonce table alone.
 */
module ServerReplies {
  import opened Common
  import opened Text
  import opened Server
  import RateLimit
  import Replay
  import Signing

  predicate HasBody(inc: Incoming) {
    inc.verb in {"POST", "PUT", "PATCH"}
  }

  /** The target fits, and a body's announced length is there, a number and within the ceiling. */
  predicate Readable(env: Env, inc: Incoming) {
    && |inc.target| <= 4096
    && (HasBody(inc) ==> inc.contentLength.Some? && match ParseInt(inc.contentLength.value) {
          case None => false
          case Some(n) => 0 <= n <= env.maxRequestBytes
        })
  }

  function Announced(env: Env, inc: Incoming): nat
    requires Readable(env, inc)
  {
    if HasBody(inc) then ParseInt(inc.contentLength.value).value else 0
  }

  predicate KnowsPath(env: Env, inc: Incoming, i: nat) {
    i < |env.routes| && env.routes[i].matches(env.pathOf(inc.target))
  }

  /** The first route with this verb that knows the path. */
  ghost predicate RoutedTo(env: Env, inc: Incoming, i: nat) {
    && KnowsPath(env, inc, i) && env.routes[i].verb == inc.verb
    && forall k: nat :: k < i ==> !(KnowsPath(env, inc, k) && env.routes[k].verb == inc.verb)
  }

  lemma TriageIs(env: Env, inc: Incoming)
    ensures Readable(env, inc) <==> |inc.target| <= 4096 && DeclaredLength(env, inc).Ok?
    ensures Readable(env, inc) ==> DeclaredLength(env, inc) == Ok(Announced(env, inc))
  {
  }

  lemma RouteIs(env: Env, inc: Incoming, i: nat)
    requires Readable(env, inc) && RoutedTo(env, inc, i)
    ensures Triage(env, inc) == Ok((i, Announced(env, inc)))
  {
    TriageIs(env, inc);
    var path := env.pathOf(inc.target);
    assert Serves(env.routes[i], inc.verb, path);
    assert forall k :: 0 <= k < i ==> !(KnowsPath(env, inc, k) && env.routes[k].verb == inc.verb);
    ResolvesUnique(env.routes, inc.verb, path, Resolution(env.routes, inc.verb, path), Ok(i));
  }

  /** Answers given before the limiter is asked: nothing is charged, recorded or read. */
  lemma RefusedUnasked(env: Env, w: World, inc: Incoming)
    requires Signing.HashIsHex(env.crypto)
    ensures |inc.target| > 4096 ==> Step(env, w, inc) == (w, Refused(414, "uri_too_long"), 0)
    ensures |inc.target| <= 4096 && HasBody(inc) && inc.contentLength == None ==> Step(env, w, inc) == (w, Refused(411, "length_required"), 0)
    ensures |inc.target| <= 4096 && HasBody(inc) && inc.contentLength.Some? && ParseInt(inc.contentLength.value) == None ==>
      Step(env, w, inc) == (w, Refused(400, "bad_content_length"), 0)
    ensures |inc.target| <= 4096 && HasBody(inc) && inc.contentLength.Some? && ParseInt(inc.contentLength.value).Some? ==>
      0 <= ParseInt(inc.contentLength.value).value <= env.maxRequestBytes || Step(env, w, inc) == (w, Refused(413, "too_large"), 0)
  {
  }

  lemma RefusedUnrouted(env: Env, w: World, inc: Incoming)
    requires Signing.HashIsHex(env.crypto) && Readable(env, inc)
    requires forall k: nat :: KnowsPath(env, inc, k) ==> env.routes[k].verb != inc.verb
    ensures (exists k: nat :: KnowsPath(env, inc, k)) ==> Step(env, w, inc) == (w, Refused(405, "method_not_allowed"), 0)
    ensures (forall k: nat :: !KnowsPath(env, inc, k)) ==> Step(env, w, inc) == (w, Refused(404, "not_found"), 0)
  {
    TriageIs(env, inc);
    var path := env.pathOf(inc.target);
    var r := Resolution(env.routes, inc.verb, path);
    if r.Ok? {
      assert KnowsPath(env, inc, r.value);
    } else if k: nat :| KnowsPath(env, inc, k) {
      assert 0 <= k < |env.routes| && env.routes[k].matches(path);
    } else {
      forall k | 0 <= k < |env.routes|
        ensures !env.routes[k].matches(path)
      {
        assert !KnowsPath(env, inc, k);
      }
    }
  }

  /** The limiter has the next word, on every request that is routed. */
  lemma AskedOnce(env: Env, w: World, inc: Incoming, i: nat)
    requires Signing.HashIsHex(env.crypto) && Readable(env, inc) && RoutedTo(env, inc, i)
    ensures var (l, ok) := RateLimit.AllowStep(env.limits, w.limiter, RateLimit.Call(inc.ip, inc.mono)); var after := Step(env, w, inc);
      && after.0.limiter == l
      && (!ok ==> after == (World(l, w.nonces), Refused(429, "rate_limited"), 0))
      && (ok ==> after.2 == if Announced(env, inc) < |inc.waiting| then Announced(env, inc) else if HasBody(inc) then |inc.waiting| else 0)
  {
    RouteIs(env, inc, i);
  }

  /** Routed, let through, and the whole announced body there. */
  ghost predicate Arrived(env: Env, w: World, inc: Incoming, i: nat) {
    && Readable(env, inc) && RoutedTo(env, inc, i)
    && RateLimit.AllowStep(env.limits, w.limiter, RateLimit.Call(inc.ip, inc.mono)).1
    && (HasBody(inc) ==> Announced(env, inc) <= |inc.waiting|)
  }

  /** The request a signature is checked against: the verb and target as received and the announced bytes. */
  function Received(env: Env, inc: Incoming): Signing.Request
    requires Readable(env, inc) && (HasBody(inc) ==> Announced(env, inc) <= |inc.waiting|)
  {
    Signing.Request(Utf8(inc.verb), Utf8(inc.target), inc.headers, if HasBody(inc) then inc.waiting[..Announced(env, inc)] else [])
  }

  lemma ShortBody(env: Env, w: World, inc: Incoming, i: nat)
    requires Signing.HashIsHex(env.crypto) && Readable(env, inc) && RoutedTo(env, inc, i)
    requires RateLimit.AllowStep(env.limits, w.limiter, RateLimit.Call(inc.ip, inc.mono)).1
    requires HasBody(inc) && |inc.waiting| < Announced(env, inc)
    ensures Step(env, w, inc).1 == Refused(400, "short_body") && Step(env, w, inc).0.nonces == w.nonces
  {
    RouteIs(env, inc, i);
  }

  /** An open route's handler runs, and with no identity. */
  lemma OpenIsHandled(env: Env, w: World, inc: Incoming, i: nat)
    requires Signing.HashIsHex(env.crypto) && Arrived(env, w, inc, i) && env.routes[i].access == Open
    ensures Step(env, w, inc).1 == Handled(None) && Step(env, w, inc).0.nonces == w.nonces
  {
    RouteIs(env, inc, i);
  }

  lemma UnsignedIsRefused(env: Env, w: World, inc: Incoming, i: nat)
    requires Signing.HashIsHex(env.crypto) && Arrived(env, w, inc, i) && env.routes[i].access != Open
    requires forall s :: !Signing.Says(inc.headers, s)
    ensures Step(env, w, inc).1 == Refused(400, "malformed_signature") && Step(env, w, inc).0.nonces == w.nonces
  {
    RouteIs(env, inc, i);
    if Signing.ParseSignatureHeaders(inc.headers).Ok? {
      Signing.ParsesIffSays(inc.headers, Signing.ParseSignatureHeaders(inc.headers).value);
    }
  }

  lemma SaidParses(inc: Incoming, s: Signing.Signed)
    requires Signing.Says(inc.headers, s)
    ensures Signing.ParseSignatureHeaders(inc.headers) == Ok(s)
  {
    Signing.ParsesIffSays(inc.headers, s);
  }

  /** With the announced body there, all of it is read and nothing more. */
  lemma ReadsAnnounced(env: Env, inc: Incoming)
    requires Readable(env, inc) && (HasBody(inc) ==> Announced(env, inc) <= |inc.waiting|)
    ensures var body := inc.waiting[..ReadLength(inc, Announced(env, inc))];
      && (HasBody(inc) ==> |body| == Announced(env, inc))
      && RequestOf(inc, body) == Received(env, inc)
  {
  }

  lemma ArrivalIs(env: Env, w: World, inc: Incoming, i: nat, s: Signing.Signed)
    requires Signing.HashIsHex(env.crypto) && Arrived(env, w, inc, i) && env.routes[i].access != Open && Signing.Says(inc.headers, s)
    ensures Signing.ParseSignatureHeaders(inc.headers) == Ok(s)
    ensures ArrivalOf(env, inc, env.routes[i], Announced(env, inc)) == Some(Signing.AttemptOf(env.crypto, Received(env, inc), s, inc.wall))
  {
    SaidParses(inc, s);
    ReadsAnnounced(env, inc);
  }

  lemma SignedVerdict(env: Env, w: World, inc: Incoming, i: nat, s: Signing.Signed)
    requires Signing.HashIsHex(env.crypto) && Arrived(env, w, inc, i) && env.routes[i].access != Open && Signing.Says(inc.headers, s)
    ensures var a := Signing.AttemptOf(env.crypto, Received(env, inc), s, inc.wall);
      Step(env, w, inc).1 == Admitted(env.routes[i].access, Signing.Verdict(env.policy, s, Replay.Arrive(env.policy.window, w.nonces, a).1))
  {
    RouteIs(env, inc, i);
    ArrivalIs(env, w, inc, i, s);
    assert Step(env, w, inc).1 == Served(env, w.nonces, inc, env.routes[i], Announced(env, inc)).1;
  }

  /** A signed route's answer: stale, badly signed, replayed, not the admin, or handled, in that order. */
  lemma SignedIsAnswered(env: Env, w: World, inc: Incoming, i: nat, s: Signing.Signed)
    requires Signing.HashIsHex(env.crypto) && Arrived(env, w, inc, i) && env.routes[i].access != Open && Signing.Says(inc.headers, s)
    ensures Step(env, w, inc).1 ==
      if Abs(inc.wall - s.ts) > env.policy.window then Refused(401, "stale_timestamp")
      else if !env.crypto.verify(s.sig, Signing.MessageOf(env.crypto, Received(env, inc), s), s.key) then Refused(401, "bad_signature")
      else if (s.key, s.nonce) in w.nonces && w.nonces[(s.key, s.nonce)] > inc.wall then Refused(409, "replayed")
      else if env.routes[i].access == ForAdmin && s.key !in env.policy.adminKeys then Refused(403, "not_admin")
      else Handled(Some(Signing.Identity(s.key, s.key in env.policy.adminKeys)))
  {
    SignedVerdict(env, w, inc, i, s);
    Signing.VerdictIs(env.crypto, env.policy, Received(env, inc), s, inc.wall, w.nonces);
  }
}
