/**
 Who reaches a signed handler over whole runs: how often one signed request can, and that what
 is routed and handled is what its key's holder signed.
 */
module ServerHandled {
  import opened Common
  import opened Text
  import opened Server
  import opened ServerRuns
  import Replay
  import Signing

  /**
   A signed handler runs only for a request that passed the limiter, whose headers name the
   identity's key, whose arrival was accepted, and with the admin key where that is required.
   */
  lemma HandlerRunsVerified(env: Env, w: World, inc: Incoming, id: Signing.Identity)
    requires Signing.HashIsHex(env.crypto) && Step(env, w, inc).1 == Handled(Some(id))
    ensures Allowed(env, w, inc) && |AttemptsOf(env, w, inc)| == 1
    ensures var a := AttemptsOf(env, w, inc)[0];
      && a.authentic && a.pair.0 == id.key
      && Replay.Arrive(env.policy.window, w.nonces, a).1 == Replay.Accepted
    ensures id.isAdmin <==> id.key in env.policy.adminKeys
    ensures env.routes[Triage(env, inc).value.0].access == ForAdmin ==> id.isAdmin
    ensures env.routes[Triage(env, inc).value.0].access != Open
  {
  }

  ghost predicate Runs(env: Env, w: World, inc: Incoming)
    requires Signing.HashIsHex(env.crypto)
  {
    Step(env, w, inc).1.Handled? && Step(env, w, inc).1.identity.Some?
  }

  /** Exactly when a signed handler runs: let through, accepted, and on an admin route signed with an admin key. */
  lemma RunsIff(env: Env, w: World, inc: Incoming)
    requires Signing.HashIsHex(env.crypto)
    ensures Runs(env, w, inc) <==>
      && Allowed(env, w, inc) && |AttemptsOf(env, w, inc)| == 1
      && Replay.Arrive(env.policy.window, w.nonces, AttemptsOf(env, w, inc)[0]).1 == Replay.Accepted
      && (env.routes[Triage(env, inc).value.0].access == ForAdmin ==> AttemptsOf(env, w, inc)[0].pair.0 in env.policy.adminKeys)
  {
  }

  /** `inc` reaches a signed handler as the request with this key and nonce, and this timestamp. */
  ghost predicate RunsAs(env: Env, w: World, inc: Incoming, p: Replay.Pair, ts: int)
    requires Signing.HashIsHex(env.crypto)
  {
    Runs(env, w, inc) && exists a :: AttemptsOf(env, w, inc) == [a] && a.pair == p && a.ts == ts
  }

  ghost function TimesRun(env: Env, incs: seq<Incoming>, p: Replay.Pair, ts: int): nat
    requires Signing.HashIsHex(env.crypto)
  {
    if incs == [] then 0
    else
      var before := incs[..|incs| - 1];
      TimesRun(env, before, p, ts) + if RunsAs(env, After(env, before), incs[|incs| - 1], p, ts) then 1 else 0
  }

  /** A run of the handler is an acceptance by the replay window. */
  lemma RunIsAccepted(env: Env, w: World, inc: Incoming, p: Replay.Pair, ts: int)
    requires Signing.HashIsHex(env.crypto) && RunsAs(env, w, inc, p, ts)
    ensures var a := AttemptsOf(env, w, inc)[0];
      a.pair == p && a.ts == ts && a.authentic && Replay.Arrive(env.policy.window, w.nonces, a).1 == Replay.Accepted
  {
    HandlerRunsVerified(env, w, inc, Step(env, w, inc).1.identity.value);
  }

  lemma AcceptedSnoc(window: int, events: seq<Replay.Attempt>, a: Replay.Attempt, p: Replay.Pair, ts: int)
    ensures Replay.TimesAccepted(window, events + [a], p, ts)
         == Replay.TimesAccepted(window, events, p, ts)
            + if a.pair == p && a.ts == ts && Replay.Arrive(window, Replay.Run(window, events), a).1 == Replay.Accepted then 1 else 0
  {
    assert (events + [a])[..|events|] == events;
  }

  lemma {:induction false} RunsAreAccepted(env: Env, incs: seq<Incoming>, p: Replay.Pair, ts: int)
    requires Signing.HashIsHex(env.crypto)
    ensures TimesRun(env, incs, p, ts) <= Replay.TimesAccepted(env.policy.window, Attempts(env, incs), p, ts)
  {
    if incs != [] {
      var before, inc := incs[..|incs| - 1], incs[|incs| - 1];
      var w, events := After(env, before), Attempts(env, before);
      var more := AttemptsOf(env, w, inc);
      RunsAreAccepted(env, before, p, ts);
      DispatchRefines(env, before);
      assert Attempts(env, incs) == events + more;
      if more == [] {
        assert events + more == events;
      } else {
        assert more == [more[0]];
        AcceptedSnoc(env.policy.window, events, more[0], p, ts);
      }
      if RunsAs(env, w, inc, p, ts) {
        RunIsAccepted(env, w, inc, p, ts);
      }
    }
  }

  /** The wall clock never goes back from one request to the next. */
  ghost predicate WallInOrder(incs: seq<Incoming>) {
    forall i, j :: 0 <= i < j < |incs| ==> incs[i].wall <= incs[j].wall
  }

  /** One more arrival, read off the clock no earlier than the ones before. */
  lemma MoreInOrder(events: seq<Replay.Attempt>, more: seq<Replay.Attempt>, now: int)
    requires Replay.ClockOrder(events) && forall k :: 0 <= k < |events| ==> events[k].now <= now
    requires |more| <= 1 && (more != [] ==> more[0].now == now)
    ensures Replay.ClockOrder(events + more) && forall k :: 0 <= k < |events + more| ==> (events + more)[k].now <= now
  {
  }

  lemma {:induction false} AttemptsInOrder(env: Env, incs: seq<Incoming>)
    requires Signing.HashIsHex(env.crypto) && WallInOrder(incs)
    ensures Replay.ClockOrder(Attempts(env, incs))
    ensures forall k :: 0 <= k < |Attempts(env, incs)| ==> incs != [] && Attempts(env, incs)[k].now <= incs[|incs| - 1].wall
  {
    if incs != [] {
      var before, inc := incs[..|incs| - 1], incs[|incs| - 1];
      var w := After(env, before);
      AttemptsInOrder(env, before);
      assert before != [] ==> before[|before| - 1].wall <= inc.wall;
      StepSeenByWindow(env, w, inc, AttemptsOf(env, w, inc));
      MoreInOrder(Attempts(env, before), AttemptsOf(env, w, inc), inc.wall);
    }
  }

  /** Every route names its verb in ASCII, without a newline. */
  predicate PlainVerbs(env: Env) {
    forall i :: 0 <= i < |env.routes| ==> IsAscii(env.routes[i].verb) && '\n' !in env.routes[i].verb
  }

  /** The body taken off the socket for this request. */
  ghost function BodyRead(env: Env, inc: Incoming): Bytes {
    if Asks(env, inc) then inc.waiting[..ReadLength(inc, Triage(env, inc).value.1)] else []
  }

  /** A message signed under the key names the verb and target as received, the timestamp, the nonce, and a body hashing like the one read. */
  ghost predicate SignedFor(env: Env, signed: set<Signing.SignedMessage>, inc: Incoming, p: Replay.Pair, ts: int) {
    exists m :: m in signed && Signing.Covers(env.crypto, m, p.0, Utf8(inc.verb), Utf8(inc.target), ts, p.1, BodyRead(env, inc))
  }

  lemma PlainVerbHasNoNewline(verb: string)
    requires IsAscii(verb) && '\n' !in verb
    ensures Signing.NEWLINE !in Utf8(verb)
  {
    Utf8OfAscii(verb);
    forall i | 0 <= i < |verb|
      ensures Ascii(verb)[i] != Signing.NEWLINE
    {
      assert verb[i] in verb;
    }
  }

  lemma RunIsSigned(env: Env, signed: set<Signing.SignedMessage>, w: World, inc: Incoming, p: Replay.Pair, ts: int)
    requires Signing.HashIsHex(env.crypto) && Signing.Unforgeable(env.crypto, signed) && PlainVerbs(env)
    requires RunsAs(env, w, inc, p, ts)
    ensures SignedFor(env, signed, inc, p, ts)
  {
    RunIsAccepted(env, w, inc, p, ts);
    HandlerRunsVerified(env, w, inc, Step(env, w, inc).1.identity.value);
    var req := RequestOf(inc, BodyRead(env, inc));
    var s := Signing.ParseSignatureHeaders(inc.headers).value;
    assert AttemptsOf(env, w, inc)[0] == Signing.AttemptOf(env.crypto, req, s, inc.wall);
    PlainVerbHasNoNewline(inc.verb);
    Signing.AuthenticIsAsSigned(env.crypto, signed, req, s, inc.wall);
  }

  /**
   Over any run on a wall clock that never goes back, one key, nonce and timestamp reach a signed
   handler at most three times, each time under the verb and target their key's holder signed.
   */
  lemma SignedRequestsRunAtMostThrice(env: Env, signed: set<Signing.SignedMessage>, incs: seq<Incoming>, p: Replay.Pair, ts: int)
    requires Signing.HashIsHex(env.crypto) && Signing.Unforgeable(env.crypto, signed) && PlainVerbs(env)
    requires env.policy.window != 0 && WallInOrder(incs)
    ensures TimesRun(env, incs, p, ts) <= 3
    ensures forall i :: 0 <= i < |incs| && RunsAs(env, After(env, incs[..i]), incs[i], p, ts) ==> SignedFor(env, signed, incs[i], p, ts)
  {
    AttemptsInOrder(env, incs);
    RunsAreAccepted(env, incs, p, ts);
    Replay.AtMostThreeTimes(env.policy.window, Attempts(env, incs), p, ts);
    forall i | 0 <= i < |incs| && RunsAs(env, After(env, incs[..i]), incs[i], p, ts)
      ensures SignedFor(env, signed, incs[i], p, ts)
    {
      RunIsSigned(env, signed, After(env, incs[..i]), incs[i], p, ts);
    }
  }
}
