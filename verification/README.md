# Tessera, modelled and proved in Dafny

Tessera is the server behind a console drawing application: people upload pixel art and models,
browse, vote, report, and a moderator acts on reports. This project models the four parts of the
daemon whose behaviour only shows over whole runs, and proves what they guarantee:

- **The rate limiter** (`RateLimit*.dfy`): token buckets per address in a bounded table with
  least-recently-used eviction, and one global bucket. A class with bucket objects updated in place is
  proved against value functions; those are then compared with a limiter that never forgets, and
  described without tokens at all.
- **Signed requests** (`Text`, `Signing`, `Replay`, `ReplayConcurrency`, `Server`, `ServerRuns`,
  `ServerHandled`, `ServerReplies`): the canonical message and its unique reading, the nonce window for atomic calls and
  for workers whose steps interleave, the dispatcher that runs limiter, body read and verification in
  order, the exact answer to every request, and what therefore reaches a handler, how often, and signed by whom.
- **The gallery** (`Votes`, `Moderation`, `AutoHide`, `BanClosure`, `ModerationRuns`, `Uploads`,
  `UploadQuota`, `UploadLoad`, `UploadDisk`, `UploadBlobs`, `UploadRuns`, `UploadFull`, `UploadFullDisk`,
  `UploadConflict`, `Browse`): votes and their counters, reports and auto-hide, admin actions over HTTP and
  from the command line, bans, upload quotas, the content-addressed blob store. The vote, report,
  admin-action and upload handlers exist twice: as class methods that run alone, and in step machines
  where each statement that later statements depend on, each file operation and each file visited by
  the walk over the store is a step, and steps of other workers, of the command line and crashes may
  fall between any two. `VoteAlone`, `ReportAlone`, `ActionAlone` and `AloneIsHandler` say that a worker
  nobody interleaves with does what its method does.
- **Wire formats** (`ByteOrder`, `Envelope`, `ProxyProtocol`): the upload envelope and the PROXY
  header of section 2.2 of the HAProxy PROXY protocol specification, version 2, as far as the daemon
  supports it.

The connection is opened in autocommit (src/tessera/db.py:114), so `with conn:` opens no transaction;
the step machines follow that. Clocks are parameters: the limiter's is real-valued, the others whole
seconds, and they may jump back unless a lemma says otherwise. Hash, signature check and JSON codec are
arbitrary functions. Where a lemma needs the signature unforgeable or the codec inverse to itself, it says
so in a `requires`; no lemma needs a hash without collisions, only one that tells apart the finitely many
byte strings signed or uploaded in the run.

Where the repository's own text promises something else than its code does, the model follows the
code and the difference is a theorem:

- src/tessera/replay.py:1-18 says a request cannot be accepted twice inside its timestamp window. A record made
  at `n` is gone at `n + window` while the timestamp is good until `ts + window`, so a request from a
  console whose clock runs ahead can be accepted again: how often, and exactly when, is proved
  (`Replay.AtMostThreeTimes`, `Replay.ThreeTimesAttained`, `Replay.AcceptableAgainIff`).
- src/tessera/handlers_social.py:116-121 and src/tessera/moderation.py:68-70 speak of one transaction.
  There is none; `Votes.TalliesExactWhenQuiet` and `AutoHide.EnoughReportsHide` say what holds anyway.
- src/tessera/handlers_admin.py:127-129 says a ban takes down everything its key uploaded. Statement by
  statement that fails in exactly two ways, an upload that inserts after the ban and a ban that dies before
  its last statement: `BanClosure.BansAirtightIff`, with a run for each, `BanClosure.BanRace` and
  `BanClosure.BanDies`.
- src/tessera/handlers_content.py:60-63 says a 409 orphans nothing. It can leave a thumbnail behind:
  `UploadBlobs.ConflictOrphansIffNewThumb` says exactly when, `UploadConflict.ConflictOrphansThumb` shows one.
- src/tessera/envelope.py:65-66 promises an envelope or an `EnvelopeError`. A `kind` that is a list or an
  object, or metadata the JSON reader itself gives up on, is a third outcome:
  `Envelope.UnhandledIffUnexpected`, with `Envelope.ListKindIsUnhandled`.

Cleaning a title is not idempotent either, because src/tessera/envelope.py:59-62 cuts after it trims;
`Envelope.CleanAgainIff` says exactly when it matters, `Envelope.CutAfterSpaceChanges` gives a title.

`dafny verify dfyconfig.toml` checks the whole project.

## Model

| member | source | states |
|---|---|---|
| `RateLimit.TokenBucketLimiter.constructor` | src/tessera/ratelimit.py:36-52 | a new limiter has an empty table, a full global bucket whose clock has not started, and an empty trace |
| `RateLimit.TokenBucketLimiter.Allow` | src/tessera/ratelimit.py:76-104 | one call takes the limiter, bucket objects and recency order included, and its answer to what the value function says, and the limiter is always the run of its own trace |
| `RateLimit.TokenBucketLimiter.Slot` | src/tessera/ratelimit.py:83-89 | the caller keeps its bucket or gets a full new one, moves to the recent end, and at most the least recently used address is dropped; no two addresses share a bucket |
| `RateLimit.TokenBucketLimiter.Spend` | src/tessera/ratelimit.py:91-104 | the address bucket is refilled first, the global one only when that holds a token, and both are charged or neither |
| `RateLimit.TokenBucketLimiter.RefillBucket` | src/tessera/ratelimit.py:67-74 | the bucket object holds the refilled, capped balance dated now; a clock that went back refills nothing |
| `RateLimit.TokenBucketLimiter.Tracked` | src/tessera/ratelimit.py:64-65 | the number of addresses known after the whole trace, never above the capacity |
| `RateLimit.RunConcat` | src/tessera/ratelimit.py:76-104 | two runs one after the other are one run, with the answers of both |
| `RateLimit.RunWellFormed` | src/tessera/ratelimit.py:83-89 | over every run table and recency list agree, without repeats, within max(1, slots) |
| `RateLimit.NoRefillTimeNeverRefuses` | src/tessera/ratelimit.py:69-70 | without a refill time, and with bursts of at least one, no call is ever refused |
| `RateLimitLru.TableIsRecentCallers` | src/tessera/ratelimit.py:83-89 | after any run the table's keys, in order, are the last max(1, slots) distinct callers by last call, refused calls included |
| `RateLimitLru.BehindIsCalledSince` | src/tessera/ratelimit.py:89 | whoever stands behind an address in recency order is exactly who called after its last call |
| `RateLimitLru.TrackedIffFewSince` | src/tessera/ratelimit.py:84-89 | an address keeps its bucket if and only if fewer than max(1, slots) other addresses called since its own last call |
| `RateLimitLru.StrangersUntracked` | src/tessera/ratelimit.py:83-88 | an address that never called is not in the table |
| `RateLimitUnbounded.TableInRange` | src/tessera/ratelimit.py:67-104 | over every run no balance in the table, nor the global one, ever leaves the range from zero to its burst |
| `RateLimitUnbounded.TableDatedAtLastCall` | src/tessera/ratelimit.py:91 | a tracked balance is dated at its owner's last call, refused or not |
| `RateLimitUnbounded.BalancesInRange` | src/tessera/ratelimit.py:67-104 | the same range for the limiter that never forgets |
| `RateLimitUnbounded.BalanceDatedAtLastCall` | src/tessera/ratelimit.py:91 | the same date for the limiter that never forgets, of every address that ever called |
| `RateLimitUnbounded.StepInStepIff` | src/tessera/ratelimit.py:84-88 | from agreeing states, bounded and unbounded limiter answer alike and stay in agreement if and only if a forgotten caller would have had a full bucket |
| `RateLimitUnbounded.InStepIffReturnsFull` | src/tessera/ratelimit.py:76-104 | over a whole run the bound is invisible, in answers and balances, if and only if every forgotten address that comes back would be full |
| `RateLimitUnbounded.LateReturnsHideTheBound` | src/tessera/ratelimit.py:68-104 | on every run in which displaced addresses stay away burst x refill seconds, bounded and unbounded limiter give the same answers and global bucket |
| `RateLimitUnbounded.EarlyReturnShows` | src/tessera/ratelimit.py:84-88 | without that wait the bound shows, on a run of three calls |
| `RateLimitUnbounded.NoBurstNeverGrants` | src/tessera/ratelimit.py:91-100 | with a burst below one, by address or overall, no call of any run is ever let through |
| `RateLimitAdmission.AdmissionBound` | src/tessera/ratelimit.py:68-104 | in any stretch after any history, on any clock, at most one global burst plus the forward clock movement over the refill time is let through |
| `RateLimitAdmission.AdmissionBoundByDuration` | src/tessera/ratelimit.py:95-104 | on a clock that never goes back that movement is the stretch's duration |
| `RateLimitAdmission.AddressAdmissionBound` | src/tessera/ratelimit.py:83-93 | one address is let through at most one burst plus its own refill while it stays tracked |
| `RateLimitAdmission.GlobalWithin` | src/tessera/ratelimit.py:98-103 | what has been granted plus what the global bucket could still grant stays within burst plus refill |
| `RateLimitExact.AddressBucketIsLeft` | src/tessera/ratelimit.py:67-92 | on a clock that never goes back, an address bucket of the limiter that never forgets holds exactly the least that any stretch of its calls leaves of one burst plus refill |
| `RateLimitExact.GlobalBucketIsLeft` | src/tessera/ratelimit.py:98-103 | on such a clock the same for its global bucket, which refused calls by an empty address never touch |
| `RateLimitExact.RefillTwice` | src/tessera/ratelimit.py:67-74 | refilling in two steps is refilling once |
| `RateLimitExact.UnboundedGrantsIffLeft` | src/tessera/ratelimit.py:91-104 | on such a clock the limiter that never forgets lets a call through if and only if a token is left of every earlier stretch, by address and overall |
| `RateLimitExact.GrantedIffFits` | src/tessera/ratelimit.py:76-104 | the bounded limiter is exact admission control: on a clock that never goes back, with displaced addresses returning late, a call is let through if and only if every stretch ending with it stays within one burst plus its refill |
| `Replay.ReplayWindow.Purge` | src/tessera/replay.py:45-48 | exactly the rows due by now are removed, and counted; the others keep their expiry |
| `Replay.ReplayWindow.CheckAndRecord` | src/tessera/replay.py:50-66 | refused if and only if the pair is on record with an expiry still to come; every row due goes first, a refusal keeps the old expiry, an acceptance is recorded until now + window |
| `Replay.RecordedIsKept` | src/tessera/replay.py:57-65 | an accepted pair stays on record with its own expiry until its window has passed |
| `Replay.KeptIsRecorded` | src/tessera/replay.py:57-65 | whatever a purge leaves was accepted less than a window ago |
| `Replay.KeptIffOnRecord` | src/tessera/replay.py:45-66 | the rows alive at a time are exactly the pairs accepted less than a window before |
| `Replay.AcceptedIff` | src/tessera/signing.py:126-144 | an arrival is accepted if and only if its timestamp is in the window, its signature holds and its pair was not accepted less than a window ago |
| `Replay.TableAfterAcceptance` | src/tessera/replay.py:15-17 | right after an acceptance the table holds exactly the pairs recorded less than a window ago |
| `Replay.AcceptedTwice` | src/tessera/replay.py:46-66 | two acceptances of one request at n1 and n2 force n1 + W <= n2 <= ts + W, so ts >= n1 |
| `Replay.AcceptancesSpread` | src/tessera/replay.py:57-65 | the k-th acceptance comes at least k - 1 windows after the earliest time the timestamp allows |
| `Replay.AtMostThreeTimes` | src/tessera/replay.py:10-13 | with a window other than zero and a clock that never goes back no request is ever accepted more than three times |
| `Replay.ThreeTimesAttained` | src/tessera/replay.py:57-65 | three is attained, for every window of at least a second |
| `Replay.LimitIffWindow` | src/tessera/replay.py:46-61 | the limit of three holds for all runs if and only if the window is not zero |
| `Replay.ZeroWindowNeverRefuses` | src/tessera/replay.py:46-61 | with a window of zero a request is accepted as often as it arrives in its second |
| `Replay.AcceptableAgainIff` | src/tessera/signing.py:126 | a request just accepted can be accepted again if and only if its timestamp is not before the clock |
| `ReplayConcurrency.StepKeepsInvariant` | src/tessera/replay.py:57-66 | each step of any worker keeps: acceptances are guarded by their row or over, and acceptances of one pair lie a window less the delay apart |
| `ReplayConcurrency.AcceptedTwiceConcurrently` | src/tessera/replay.py:57-66 | with clock read, purge and insert as separate steps of any number of workers, each done within D of its read, a request accepted twice has ts >= n - D for the earlier read n |
| `ReplayConcurrency.AcceptancesBounded` | src/tessera/http_server.py:107-116 | k acceptances of one request satisfy (k - 1)(W - D) <= 2W in every interleaving |
| `ReplayConcurrency.AloneIsOneCall` | src/tessera/replay.py:50-66 | a worker nothing interleaves with does what the atomic call does |
| `ReplayConcurrency.DelayAttained` | src/tessera/replay.py:57-66 | the bound ts >= n - D is reached: a third worker purges between the second one's purge and insert |
| `Text.UndecimalIffDecimal` | src/tessera/signing.py:65 | a byte string is the printed form of at most one integer |
| `Text.StripIs` | src/tessera/signing.py:93-98 | trimming takes all white space off both ends and nothing else |
| `Text.ParseIntIff` | src/tessera/http_server.py:346 | a number is read if and only if the trimmed text is one sign at most and digits in groups, 4300 at most, and its value is that of the digits |
| `Text.ParseIntOfDecimal` | src/tessera/signing.py:98 | a timestamp printed within int()'s digit limit is read back as itself |
| `Text.Utf8Injective` | src/tessera/signing.py:64 | no two request targets have the same bytes in the signed message |
| `Signing.DecodeOfCanonical` | src/tessera/signing.py:56-69 | a canonical message gives back method, path, timestamp, nonce and hash, even when the path holds newlines |
| `Signing.CanonicalIsJoined` | src/tessera/signing.py:60-69 | the message is six lines joined by newlines: tessera-v1, method, path, decimal timestamp, nonce, body hash |
| `Signing.DecodeIffCanonical` | src/tessera/signing.py:56-69 | whatever the inverse reads as fields is the canonical message of exactly those fields, so no two differ and sign alike |
| `Signing.NewlineMethodAmbiguous` | src/tessera/signing.py:63 | a newline in the method would make two different requests sign alike |
| `Signing.ParsesIffSays` | src/tessera/signing.py:80-102 | headers parse as given fields if and only if all four are there, trim to lower-case hex of the right lengths and an integer, and say those fields; they fail if and only if they say none |
| `Signing.ParseOfPrinted` | src/tessera/signing.py:93-98 | header values printed from such fields are accepted as exactly those fields |
| `Signing.CheckSigned` | src/tessera/signing.py:126-146 | 401 stale_timestamp outside the window; else 401 bad_signature; else 409 replayed while the pair is on record; else the identity, admin if and only if its key is listed; the nonce table changes only for an authentic request in its window |
| `Signing.VerifySignedRequest` | src/tessera/signing.py:105-146 | the same answers, in that order, for whatever fields the headers say; 400 malformed_signature, and the nonce table left alone, when they say none |
| `Signing.VerdictIs` | src/tessera/signing.py:126-146 | the verdict on one arrival is that one of stale, bad, replayed and accepted, in this order, whatever the table |
| `Signing.AuthenticIsAsSigned` | src/tessera/signing.py:133-141 | under an unforgeable signature an authentic request carries exactly the method, target, timestamp, nonce and body hash of a message its key's holder signed |
| `Signing.BodyIsAsSigned` | src/tessera/signing.py:134-136 | and the very body, unless another signed body has the same hash |
| `Signing.UnforgeableIsPossible` | src/tessera/signing.py:136 | for any hash and any set of signed messages there is such a signature check, and it accepts them |
| `Server.Resolve` | src/tessera/http_server.py:356-371 | the first route for verb and path; 405 when only other verbs know the path, 404 when none does |
| `Server.ResolvesUnique` | src/tessera/http_server.py:356-371 | that description leaves one outcome |
| `Server.Dispatcher.CheckLength` | src/tessera/http_server.py:339-354 | 411, 400 or 413 for a missing, unreadable or excessive Content-Length, decided without reading |
| `Server.Dispatcher.Sort` | src/tessera/http_server.py:331-371 | target size, declared length, route, in that order, before the limiter is asked |
| `Server.Dispatcher.Serve` | src/tessera/http_server.py:377-398 | the body is read only now; a signed route verifies the verb and target as received, with that body, before its handler runs; an admin route also checks the key; what is answered when is `ServerReplies.SignedIsAnswered`, `ServerReplies.OpenIsHandled` and `ServerReplies.ShortBody` |
| `Server.Dispatcher.Charge` | src/tessera/http_server.py:373-398 | the limiter is charged before a body byte is read; a refusal is a 429 that reads nothing and leaves the nonce table alone |
| `Server.Dispatcher.Dispatch` | src/tessera/http_server.py:328-398 | one request changes limiter and nonce table, replies and reads body bytes as the step that `ServerReplies` describes outright |
| `ServerReplies.RefusedUnasked` | src/tessera/http_server.py:331-354 | 414, 411, 400 and 413, each when its check is the first to fail, with nothing charged, recorded or read |
| `ServerReplies.RefusedUnrouted` | src/tessera/http_server.py:356-371 | 405 when only other verbs know the path, 404 when none does, with nothing charged, recorded or read |
| `ServerReplies.AskedOnce` | src/tessera/http_server.py:373-380 | every routed request asks the limiter once; a refusal is a 429 that reads nothing, a grant reads the announced bytes or what there is |
| `ServerReplies.ShortBody` | src/tessera/http_server.py:377-382 | a body shorter than announced is a 400 and leaves the nonce table alone |
| `ServerReplies.OpenIsHandled` | src/tessera/http_server.py:384-395 | an open route that is let through always runs its handler, without an identity, and leaves the nonce table alone |
| `ServerReplies.UnsignedIsRefused` | src/tessera/http_server.py:107-118 | on a signed route headers that say no fields are a 400 and leave the nonce table alone |
| `ServerReplies.SignedIsAnswered` | src/tessera/http_server.py:105-131 | on a signed route: 401 stale, 401 bad, 409 replayed, 403 not_admin on an admin route without an admin key, and otherwise the handler runs with the signing key as identity |
| `ServerRuns.DispatchRefines` | src/tessera/http_server.py:373-395 | over any run the limiter's state is that of the calls that reached it, and the nonce table that of the arrivals that passed it |
| `ServerRuns.RowsWereGranted` | src/tessera/replay.py:15-17 | every row alive was written by a request the limiter let through since the first whose window is still open |
| `ServerRuns.GrantedWithin` | src/tessera/http_server.py:373-375 | in any time span at most one global burst plus its refill gets past the limiter |
| `ServerRuns.NonceTableBounded` | src/tessera/replay.py:15-17 | on a single clock, read for the window at most `gap` seconds after it was read for the limiter, the nonce table never exceeds global_burst + (W + gap) / global_refill_secs rows |
| `ServerRuns.BytesWereGranted` | src/tessera/http_server.py:323-326 | body bytes read never exceed the ceiling times the requests let through: none is read for a refused one |
| `ServerHandled.HandlerRunsVerified` | src/tessera/http_server.py:94-97 | a signed handler runs only for a granted request whose arrival was accepted under its own key, an admin handler only for an admin key |
| `ServerHandled.RunsIff` | src/tessera/http_server.py:105-131 | a signed handler runs if and only if the request was granted, its arrival accepted, and its key is an admin key where the route asks for one |
| `ServerHandled.RunsAreAccepted` | src/tessera/http_server.py:105-131 | over any run a request reaches a handler no more often than the replay window accepts it |
| `ServerHandled.RunIsSigned` | src/tessera/http_server.py:107-116 | the verb and target a handler runs for, and the body hash, are those of a message signed under its key |
| `ServerHandled.SignedRequestsRunAtMostThrice` | src/tessera/http_server.py:91-131 | on a wall clock that never goes back, over any run, one key, nonce and timestamp reach a handler at most three times, each time with the verb and target their key's holder signed |
| `Votes.CountIsVoters` | src/tessera/handlers_social.py:136-137 | the counting query counts distinct keys, because of the primary key |
| `Votes.SumIsDifference` | src/tessera/handlers_social.py:135 | the summed score is up votes minus down votes |
| `Votes.ExactIffRecount` | src/tessera/handlers_social.py:133-140 | counters say how many distinct keys stand behind each value if and only if they equal the recount |
| `Votes.WriteChangesOneBallot` | src/tessera/handlers_social.py:122-132 | a vote sets this one key's vote on this one model, removes it for 0, and nothing else |
| `Votes.RowsAfterWrite` | src/tessera/handlers_social.py:122-132 | the rows after a write: this ballot with its new value and time, or gone for 0, and every other row as it was |
| `Votes.OthersRecountSame` | src/tessera/handlers_social.py:122-132 | other models recount as before |
| `Votes.ScoreMovesByTheVote` | src/tessera/handlers_social.py:118-119 | one undisturbed vote moves the recounted score by the change of that key's vote |
| `Votes.VoteStore.HandleVote` | src/tessera/handlers_social.py:96-142 | refusals 400, 403, 404 in order and without effect; otherwise exactly this ballot's row is written or removed, the model is recounted, every other row and counter is as before, and the reply shows the result |
| `Votes.StepKeepsInvariant` | src/tessera/handlers_social.py:121-140 | every write, recount, upload and crash keeps the counters of models without a pending recount exact |
| `Votes.TalliesExactWhenQuiet` | src/tessera/handlers_social.py:116-142 | after any interleaving of the two statements by any number of workers, crashes included, a model without a pending recount shows exactly its distinct voters, score = up - down |
| `Votes.VoteAlone` | src/tessera/handlers_social.py:121-140 | a vote's two statements, left alone, write and recount what the handler method does |
| `Moderation.ModerationStore.UpdateVisibility` | src/tessera/moderation.py:41-53 | moves a model unless it is deleted |
| `Moderation.ModerationStore.Resolve` | src/tessera/moderation.py:56-62 | closes every open report on the model and returns how many keys that was |
| `Moderation.ModerationStore.CountOpen` | src/tessera/moderation.py:26-38 | the number of distinct keys with an open report |
| `Moderation.ModerationStore.ApplyAutohide` | src/tessera/moderation.py:65-76 | unlists exactly when that number has reached the threshold |
| `Moderation.ModerationStore.HandleReport` | src/tessera/handlers_social.py:240-280 | 400, 403 or 404 without effect, each exactly when; otherwise one row for this key with reason, cleaned detail and time as given and its resolution kept, every other row as it was, and the model unlisted once enough are open |
| `Moderation.ModerationStore.HandleAdminAction` | src/tessera/handlers_admin.py:90-153 | 400 or 404 without effect; otherwise approve ends public, unlist unlisted, delete and ban deleted, a deleted model staying deleted, a ban taking the author's other models along; reports, ban and log entry as one action; the reply's visibility, resolved count and banned key |
| `Moderation.ModerationStore.CliApplyAction` | tools/tessera-reports:121-154 | the command line moves the same models to the same places, with its own name in the log and the reason as typed |
| `Moderation.ModerationStore.CliUnban` | tools/tessera-reports:157-165 | lifts this ban, leaves every other, and touches nothing else; the models stay deleted |
| `Moderation.ActionIs` | src/tessera/handlers_admin.py:114-138 | an action table by table: where every model goes, which reports close and when, who is banned since when and why, the log entry, and that nothing else changes |
| `Moderation.ActionMoves` | src/tessera/handlers_admin.py:33-38 | on a model not deleted approve ends public and delete and ban deleted, with no report open; unlist ends unlisted and leaves the open reports open |
| `Moderation.CleanDetailIs` | src/tessera/handlers_social.py:224-237 | a detail is refused exactly for a control character, and otherwise kept trimmed, to its first 512 characters |
| `Moderation.UpsertEffect` | src/tessera/handlers_social.py:261-272 | a first report opens one; a repeated one neither counts twice nor reopens a resolved one |
| `Moderation.ResolveEffect` | src/tessera/moderation.py:56-62 | no open report on this model is left, every other model's are, and no row is removed |
| `Moderation.StatementsAreAction` | src/tessera/handlers_admin.py:116-138 | the action's statements, one after the other, come to the action as a whole |
| `Moderation.ActorsAgree` | tools/tessera-reports:127-146 | the one action both implementations are proved to perform depends on who acts only in the log entry and the reason kept |
| `AutoHide.StepKeepsInvariant` | src/tessera/moderation.py:65-76 | every statement of reports, actions, uploads and unbans, and every crash, keeps: enough open reports mean not public, or a worker that will still settle it, or one that died part-way and has not been made up for |
| `AutoHide.EnoughReportsHide` | src/tessera/moderation.py:65-76 | for a threshold of at least one, in every interleaving of single statements and crashes, once no report or approve on the model is part-way, and a later count, resolve or hiding has made up for any that died there, enough open reports mean it is not public |
| `AutoHide.ThresholdMustBePositive` | src/tessera/moderation.py:73 | that claim holds for all runs if and only if the threshold is positive |
| `AutoHide.DeletedForever` | src/tessera/moderation.py:42-46 | no statement of anyone takes a deleted model out of that state |
| `AutoHide.ActionAlone` | src/tessera/handlers_admin.py:116-138 | an admin action's statements, left alone, are the action as a whole |
| `AutoHide.ApproveAlone` | src/tessera/handlers_admin.py:116-138 | an approve's statements, left alone on a model not deleted, end with it public and no report on it open |
| `AutoHide.ReportAlone` | src/tessera/handlers_social.py:253-273 | a report's statements, the look-up of the model included, left alone are the report as a whole |
| `AutoHide.UploadAlone` | src/tessera/handlers_content.py:51-59 | an upload of a new model, left alone, makes it public under its author, and leaves every other model as it was |
| `BanClosure.StepClosesIff` | src/tessera/handlers_admin.py:120-132 | with every model by a banned key deleted or about to be, one more statement or crash keeps it so if and only if it is not an insert after the ban with nobody left to delete, nor the death of the last ban that would have deleted |
| `BanClosure.BansAirtightIff` | src/tessera/handlers_admin.py:127-132 | bans are airtight throughout a run if and only if neither happens in it; then every model by a banned key nobody is still deleting is deleted |
| `BanClosure.BanRace` | src/tessera/quota.py:70-71 | the first happens: an upload past its ban check leaves a public model by a banned key |
| `BanClosure.BanDies` | src/tessera/handlers_admin.py:120-132 | the second happens: a process that dies between its ban and its delete leaves one too |
| `ModerationRuns.HidingIsPaidFor` | src/tessera/handlers_social.py:261-273 | threshold x (times a model was hidden from public by reports) never exceeds the distinct keys that ever reported it |
| `ModerationRuns.HidingAttained` | src/tessera/moderation.py:72-75 | any threshold's worth of distinct keys does hide a fresh model once |
| `ModerationRuns.PublicBelowThreshold` | src/tessera/moderation.py:72-75 | with handlers as single steps a public model always has fewer open reports than the threshold |
| `ModerationRuns.TableRemembersReporters` | src/tessera/db.py:68-78 | the reports table remembers every key that ever reported, resolved or not |
| `ModerationRuns.StepBansClosed` | src/tessera/handlers_admin.py:120-132 | each handler keeps every banned author's models deleted and every deleted model deleted |
| `ModerationRuns.BannedAuthorsDeleted` | src/tessera/handlers_admin.py:127-132 | over any mix of reports, HTTP and command-line actions, uploads and unbans, every model by a currently banned key is deleted |
| `Uploads.BlobStore.Put` | src/tessera/store.py:71-92 | the bytes are stored under their digest and no temporary file is left; known content changes nothing |
| `Uploads.BlobStore.Get` | src/tessera/store.py:97-102 | the bytes under a valid digest, nothing for an invalid or unknown one |
| `Uploads.BlobStore.Total` | src/tessera/store.py:112-116 | walking the files adds up every file, temporary ones included |
| `Uploads.Gallery.CheckUploadAllowed` | src/tessera/quota.py:56-103 | 403 exactly for a banned author, else 413 exactly for too many bytes, else 429 or 507; let through only with day, hour and disk within their limits |
| `Uploads.Gallery.HandleUpload` | src/tessera/handlers_content.py:35-67 | 403 if and only if the author is banned; a 201 if and only if not banned, small enough, within both quotas and the disk ceiling, and new; then its row and blobs are there; blobs stored for a 409 too; nothing changed by any other refusal |
| `Uploads.StatusIs` | src/tessera/quota.py:70-103 | 403, 413, 429, 507, 409 and 201, each if and only if its own condition holds and no earlier one |
| `Sums.SumRemove` | src/tessera/store.py:116 | the order in which the files are walked does not matter |
| `UploadQuota.StepKeepsQuota` | src/tessera/quota.py:80-96 | every step keeps rows in a window plus uploads on their way into it within the allowance |
| `UploadQuota.QuotaHolds` | src/tessera/quota.py:40-53 | on arbitrary clocks, with at most T uploads between check and insert, every day holds at most Q + T - 1 rows per key and every hour G + T - 1 overall, deleted ones included; Q and G for T = 1 |
| `UploadFull.DailyAllowanceIsReached` | src/tessera/quota.py:80-87 | the daily bound is met exactly by some run, for every Q and T and every hash that tells Q + T lengths apart |
| `UploadFull.HourlyAllowanceIsReached` | src/tessera/quota.py:89-96 | so is the hourly one |
| `UploadFull.HashExists` | src/tessera/store.py:52-62 | among names of k hex digits, 64 for one, there is such a hash for up to 16^k lengths |
| `UploadDisk.StartSees` | src/tessera/store.py:112-116 | a walk of the store is sure to see everything but what other uploads have in the air |
| `UploadDisk.OthersKeepSight` | src/tessera/store.py:112-116 | no write, rename, failure or crash takes more from what a walk will see than from the load |
| `UploadDisk.StepKeepsLoad` | src/tessera/quota.py:98-103 | every step keeps the load within the ceiling, counting with every walk under way all that began before it |
| `UploadDisk.DiskHolds` | src/tessera/quota.py:98-103 | in any interleaving of uploads and of their file-by-file walks, through duplicates, temporary files, failures and crashes, bytes on disk plus bytes still to be written never exceed cap + (T - 1) x M; the cap itself for T = 1 |
| `UploadFullDisk.CeilingIsReached` | src/tessera/quota.py:98-103 | that bound is met to the byte by some run, for every T and every M > 2T with a cap of M |
| `UploadBlobs.StepKeepsIntact` | src/tessera/store.py:79-91 | every file operation keeps each blob hashing to its name, each writer's temporary file its own, and both blobs of every row in place |
| `UploadBlobs.RunIntact` | src/tessera/store.py:79-91 | so it is at every point of every run of concurrent, failing and crashing uploads |
| `UploadBlobs.RunKeepsOffered` | src/tessera/store.py:71-92 | every blob holds bytes some upload of the run offered |
| `UploadBlobs.DownloadsWhatWasUploaded` | src/tessera/handlers_content.py:135-166 | when no two byte strings offered in the run have the same digest, every later download returns exactly the uploaded bytes until the model is deleted |
| `UploadBlobs.DeletedIsGone` | src/tessera/handlers_content.py:154-155 | from then on nothing is served, whatever the hash |
| `UploadBlobs.DownloadHashes` | src/tessera/handlers_content.py:151-158 | with any hash a download of a model not deleted succeeds and hashes to the row's digest |
| `UploadBlobs.AcceptedOrphansNothing` | src/tessera/handlers_content.py:48-59 | a 201 leaves no blob without a row |
| `UploadBlobs.ConflictOrphansIffNewThumb` | src/tessera/handlers_content.py:48-63 | a 409 leaves a blob no row refers to if and only if the thumbnail was not stored before |
| `UploadConflict.ConflictOrphansThumb` | src/tessera/handlers_content.py:48-63 | in a gallery of one model, the same model with another thumbnail is a 409 that leaves the thumbnail |
| `UploadRuns.WalkAlone` | src/tessera/store.py:112-116 | a walk nothing interleaves with comes to the total |
| `UploadRuns.AloneIsHandler` | src/tessera/handlers_content.py:35-67 | an upload nothing interleaves with takes the step machine, from any state and whoever is banned, where the sequential handler goes, refusals and conflicts included |
| `Browse.PageAsked` | src/tessera/handlers_content.py:81-98 | a page number up to a million, as printed, is the page served |
| `Browse.OneOrder` | src/tessera/handlers_content.py:75-78 | there is only one way to order the same rows, because the id breaks every tie |
| `Browse.WholeIsSortedMatches` | src/tessera/handlers_content.py:104-116 | the list browsed is every matching row, once, in order; which rows those are is `Browse.ListedIffPublic`, which order `Browse.ListedInOrder` |
| `Browse.ListedIffPublic` | src/tessera/handlers_content.py:104-109 | a row is listed if and only if it is public, and of the kind asked for when that is pixel or model |
| `Browse.ListedInOrder` | src/tessera/handlers_content.py:75-78 | by score for sort=top and else by date, then by date, then by id, each descending |
| `Browse.ParametersAre` | src/tessera/handlers_content.py:81-101 | page and page size are the first value given when it is a positive number, up to a million or the configured maximum, and the default otherwise; the total is the length of the list |
| `Browse.PageIgnoresStorage` | src/tessera/handlers_content.py:111-116 | a page does not depend on how the table is stored |
| `Browse.PagesPartition` | src/tessera/handlers_content.py:96-126 | pages 1 to ceil(total / per page) put together hold exactly the public rows of the kind asked for, each once, as many as the total says, in the order asked for |
| `Browse.AllReachableIffTheyFit` | src/tessera/handlers_content.py:98 | every matching row can be reached by some page parameter if and only if they fit on a million pages |
| `ByteOrder.LittleOfFrom` | src/tessera/envelope.py:72-74 | four bytes are the little-endian form of exactly the number they are read as |
| `ByteOrder.FromOfLittle` | src/tessera/envelope.py:123-125 | a length that fits is read back as itself |
| `ByteOrder.FromOfBig` | src/tessera/proxyproto.py:93-94 | a port that fits is read back as itself |
| `ByteOrder.BigOfFrom` | src/tessera/proxyproto.py:73-79 | bytes are the big-endian form of exactly the number they are read as |
| `Envelope.FramingUnique` | src/tessera/envelope.py:86-92 | a body can be cut into metadata, model and thumbnail in one way only |
| `Envelope.AcceptedIffFramed` | src/tessera/envelope.py:65-115 | a body is accepted as an envelope if and only if it is magic, three little-endian lengths and the three ranges, within the limits, not empty, with metadata saying that title and kind |
| `Envelope.ParseOfBuilt` | src/tessera/envelope.py:118-129 | parsing what was built gives the cleaned title, kind, model and thumbnail if and only if they are within the limits |
| `Envelope.HeaderRefusals` | src/tessera/envelope.py:67-70 | fewer than 16 bytes, then a magic other than TSU1 |
| `Envelope.LengthRefusals` | src/tessera/envelope.py:72-92 | the three lengths are the little-endian words at bytes 4, 8 and 12; metadata, model, thumbnail and sum are refused in that order; an accepted body hands on the bytes they announce |
| `Envelope.MetadataRefusals` | src/tessera/envelope.py:94-115 | then text that is no JSON, JSON that is no object, a kind that is neither pixel nor model, an empty model, an empty thumbnail, and a title that is no text |
| `Envelope.TitleIs` | src/tessera/envelope.py:51-62 | a title is refused for a control character, then for being blank, and otherwise trimmed and cut to 64 characters |
| `Envelope.UnhandledIffUnexpected` | src/tessera/envelope.py:94-103 | the only other outcome is a well-framed body whose metadata the JSON reader gives up on, or whose kind is a list or an object |
| `Envelope.ListKindIsUnhandled` | src/tessera/envelope.py:101-103 | `{"kind": []}` with a byte of model and of thumbnail is such a body |
| `Envelope.CleanedIsClean` | src/tessera/envelope.py:51-62 | a cleaned title has 1 to 64 characters, no control character and no leading space |
| `Envelope.CleanAgainIff` | src/tessera/envelope.py:59-62 | a cleaned title cleans to itself if and only if it does not end in a space |
| `Envelope.CleanAgainIffUncut` | src/tessera/envelope.py:59-62 | that is so unless the trimmed title was cut right after a space |
| `Envelope.CutAfterSpaceChanges` | src/tessera/envelope.py:59-62 | 63 letters, a space and a letter clean to a title that cleans to another |
| `Envelope.CleanTwiceSettles` | src/tessera/envelope.py:59-62 | a second cleaning settles it |
| `ProxyProtocol.Stream.ReadExactly` | src/tessera/proxyproto.py:40-45 | the next bytes, or an error that has taken what there was |
| `ProxyProtocol.Stream.ReadHeader` | src/tessera/proxyproto.py:48-83 | outcome and stream position are those the value function gives for the bytes still to come |
| `ProxyProtocol.ReadOfBuilt` | src/tessera/proxyproto.py:86-101 | whatever follows, a built header is read back as its source address and port, and exactly it is consumed |
| `ProxyProtocol.AcceptedIffHeader` | src/tessera/proxyproto.py:57-79 | exactly the streams that begin with a header of 12 to 536 address bytes are accepted |
| `ProxyProtocol.OutcomeIs` | src/tessera/proxyproto.py:57-83 | every outcome, byte by byte: which problem is reported in which order, and else the address in bytes 16 to 19 and the port in bytes 24 and 25 |
| `ProxyProtocol.RestMakesNoDifference` | src/tessera/proxyproto.py:77-83 | the outcome depends only on the bytes consumed |

## Left out

- Sockets, threads, the HTTP server class, logging and response rendering: I/O.
- Floating-point rounding in the limiter: balances and times are real numbers.
- The limiter called by two threads at once: it has no lock; each call is one step here.
- Hash and signature arithmetic: arbitrary functions, with the ideal properties as hypotheses.
- JSON text: an arbitrary codec, which may give up on its input; lone surrogates and how other JSON types compare with numbers are not modelled, so vote values and ids are integers.
- `int()` on digits outside ASCII, and percent-decoding of query strings and URL splitting: text arrives as the daemon sees it after them.
- A duplicated Content-Length or signature header: the header map holds one value a name.
- Configuration loading, and report reasons other than the default list.
- SQLite's own failures (busy, disk full, constraint errors other than the ones named): a worker that meets one stops, which the step machines allow at every step as a crash.
- Loss of power: files and rows survive a crash as written; the flush to disk is not a step.
- The order in which a walk visits directories: any order, and it may or may not see files that come or go meanwhile.
- Reads that decide nothing later, such as a reply's tally or final visibility, are not steps of their own; a vote's ban and model checks and an upload's ban check are part of its first step.
- `BlobStore.delete`: nothing in the daemon calls it.
- Title and kind of a stored model in the upload machine: they do not influence quota, disk or blobs.
- Favourites, the admin queue listing and `models.report_count`: the first two have no tie-break to prove anything about, the last is never written.
- Concurrent changes between two page requests, and between a page's count and its rows: pages are taken from one snapshot.
- The dotted text form of addresses in the PROXY header: addresses are their four bytes.
- `tools/tessera-keys`, `tools/ts-update`, installers and service units.
- RateLimitAdmission.AddressAdmissionBound: only while the address stays tracked, because an address that is displaced and returns has a full bucket again; how the bounded table then differs is `RateLimitUnbounded.InStepIffReturnsFull`.
- RateLimitExact.GrantedIffFits: on a clock that never goes back; for arbitrary clocks the bound is `RateLimitAdmission.AdmissionBound`.
- ServerRuns.NonceTableBounded: for the sequential dispatcher, whose two clock reads differ by a bounded gap; the window for concurrent workers is ReplayConcurrency.
