# RCQ island server: verified model of its core algorithms

A Dafny 4.11 model of the small algorithms under `app/core` (and two tools and a model file beside
it) whose correctness does not show from reading one function, with proofs of what they promise.
`dafny verify dfyconfig.toml` checks everything.

What is modelled, in the system's own terms:

- **Deposit tokens** (`NumberTheory`, `Octets`, `BlindRsa`, `Pss`, `DepositAuth`, `Hashcash`, `TokenStore`).
  A sender spends one anonymous RFC 9474 token per sealed deposit. The client encodes with EMSA-PSS,
  blinds, the issuer signs the blinded integer by CRT, the client unblinds; the result must be an
  ordinary RSA-PSS signature. Workers share one issuer key, and a token is spent once.
- **Guest mirror** (`GuestMirror`, `GuestStale`, `MirrorLock`, `SingleFlight`). A Redis set mirrors which accounts
  are guests while requests mint, claim, convert and delete them and workers rebuild the set from the table.
- **Rate limits** (`SlidingWindow`, `LocalWindow`, `CostBudget`, `RateRules`, `IslandCeiling`, `CeilingHour`). The Lua sliding
  window, the in-process fallback, the fixed-window cost counter, the rules built on them, run by several
  workers over one Redis, and the island-wide ceiling.
- **Key migration and leader election** (`KeyMigration`, `MigrationTtl`, `LeaderLease`).
- **State against a plain specification** (`Metrics`, `HoldList`, `HoldRelease`, `Badges`, `GeoIp`).

How it is modelled:

- An object the source updates in place is a class whose methods are proved against a function of the
  old state; a protocol is a transition system over those functions, one step per atomic Redis command,
  MULTI, script or committed transaction, and the theorems range over every run.
- SHA-384 and SHA-256 are arbitrary functions, random choices (salt, blinding draws) and the clock are
  parameters. Paths, accounts, identities and PEM texts are numbers, because they are only compared.
- Clocks are nondecreasing and shared by all workers, and Redis expires keys exactly on time.
- The conditions on an issuer key can be met at every length: `BlindRsa.WellFormedKey` derives a key above any
  bound, and `DepositAuth.LongKey` one that is long enough to encode under.
- `Basics` and `Sets` hold what the modules share. No proof uses Dafny's automatic induction: every lemma
  it would apply to carries `{:induction false}`.

Assumptions that the safety theorem of the guest mirror needs, all visible in `GuestMirror.Enabled`:
no two operations on one number overlap, a mint commits within `mint` seconds of its mark and a rebuild
writes within `rebuild` seconds of its read, and Redis does not lose its data while a mint or a rebuild is in
flight. `SafetyIff` shows that the timing bound is exact. An `is_guest` call that had already found the
mirror answerable when Redis lost its data may still answer native; `Safe` excludes only those calls.

Where the code does less than its documentation says, the model follows the code and states the exact condition:

- The sliding window counts distinct timestamps, so it bounds requests only for limits up to one
  (`RequestsBoundedIff`); requests at distinct times are bounded for every limit (`DistinctTimesBounded`). Every
  bound below counts requests, repeats included, and names this condition where Redis has a share.
- The fallback window's `retry_after` is rounded down, so waiting that long is enough only in the last
  second (`RetryHonestIff`, and `RetryFallsShort` for such a call).
- Dropping the fallback map past 20,000 keys does cost correctness: the dropped map also holds the ceiling's own
  keys. A rule that fails closed, and the ceiling with it, admits one more limit's worth per clear and worker
  (`FailClosedBound`, `CeilingBound`); it keeps to its limit once for Redis and once per worker if and only if the
  keys that fail-closed rules use number at most 20,000 and either its limit is at most one or Redis never runs its
  script twice at one instant (`UnclearedBoundIff`; `MinuteBoundIff` and `HourBoundIff` for the ceiling, whose two
  limits help each other). With one key more, runs exceed every bound (`ClearedRun`, `CeilingClearedRun`), at
  20,001 calls a clear (`ClearsAreSpaced`).
- "Exactly the suspensions this script made" holds for a release if and only if no listed guest was banned by an
  operator and every other held guest is listed (`AtomicReleaseRestoresIff`). `ReleaseLiftsBan` is a run that fails
  the first half, and `TornListStrandsGuest` one that fails the second, on every list that ends inside a number;
  without such a list the first half decides (`CleanReleaseRestoresIff`). A completed hold leaves unsuspended
  exactly the guests an operator has unbanned since the selection (`HoldLeavesIff`), whatever its list holds. A
  hold that is run again after a crash lists what it commits only when the list does not end inside a number
  (`HoldListsIff`, `CommittedAreListed`).
- The boot migration can bring a field back that a live request removed, if and only if a worker has or can still
  take a snapshot that holds it (`RemovalLastsIff`). It can also shorten a TTL that a live request has just
  refreshed, if and only if the refresh falls between a worker's TTL read and its EXPIRE and promised more
  (`TtlKeptIff`; `RefreshIsShortened` cuts ninety days to one).
- A stale entry of the guest mirror does not go away after the marker's 300 seconds plus the pending TTL: every
  mark extends the pending marks of all numbers, so it outlives any number of rebuilds while marks keep coming
  (`StaleStaysIff`, `SteadyMintsKeepStale`). That bound holds from the last mark of any number (`StaleBound`).
- One refresh per event loop fails if and only if another loop asked while a task of the loop was unfinished, and
  the loop asked again before it finished (`OverlapIff`).
- One background rebuild per island needs every rebuild to end before the lock's TTL (`ExclusiveIff`); the lock has
  no owner.
- The proof of work is bound to the text `epoch:blinded:nonce`, which tells two requests apart if and only if neither
  reads a ':' of the other's blinded text or nonce as the separator (`SameWorkIff`); base64 has none
  (`OneSolveOneRequest`).
- The cost budget's retry_after is rounded to the nearest second, so waiting that long is enough if and only if it
  was not rounded down (`CostBudget.RetryHonestIff`, and `CostBudget.RetryFallsShort` for such a call).
- A spent token is refused for `SPENT_TTL` and accepted again afterwards (`TokenAcceptedIff`).
- A call of `issuer_key` crashes if and only if a rotation falls between its lost SETNX and its second GET and no
  other SETNX wins after it (`CrashIff`; `RotationCanCrash` is such a run).

## Model

| member | source | states |
|---|---|---|
| NumberTheory.Inverse | app/core/deposit_auth.py:120-126 | `pow(r, -1, n)` succeeds exactly for units, and its result is below n and inverts r |
| NumberTheory.CoprimeIff | app/core/deposit_auth.py:123-123 | a number is a unit candidate exactly when no divisor above 1 is shared with n |
| NumberTheory.Fermat | app/core/deposit_auth.py:143-148 | Fermat's little theorem, from which the reduced CRT exponents are justified |
| NumberTheory.FermatExponents | app/core/deposit_auth.py:145-146 | exponents equal modulo p - 1 give equal powers modulo p for every base, multiples of p included |
| Octets.I2osp | app/core/deposit_auth.py:53-54 | conversion raises exactly when the integer does not fit, and yields the asked length |
| Octets.I2ospRoundTrip | app/core/deposit_auth.py:53-58 | I2OSP and OS2IP are inverse both ways, on exactly the integers that fit |
| Octets.BitLengthIff | app/core/deposit_auth.py:115-116 | bit_length is at most k exactly below 2^k |
| Octets.FitsByteLength | app/core/deposit_auth.py:115-115 | a modulus fits the octet length computed for it |
| Octets.XorAt | app/core/deposit_auth.py:88-88 | bit k of `a ^ b` is set exactly when bit k of one operand is |
| BlindRsa.Garner | app/core/deposit_auth.py:147-148 | the recombined value agrees with m1 modulo p and with m2 modulo q |
| BlindRsa.CrtIsTextbook | app/core/deposit_auth.py:138-149 | for every x below n the CRT path is exactly x^d mod n, and the sum is below n before the final reduction |
| BlindRsa.RsaInverse | app/core/deposit_auth.py:112-143 | raising to d and to e in either order is the identity modulo n, for every x |
| BlindRsa.SignBlinded | app/core/deposit_auth.py:127-148 | signing m * r^e gives m^d * r |
| BlindRsa.UnblindedIsDirectSignature | app/core/deposit_auth.py:109-161 | for every m and unit r, unblinding gives m^d mod n whatever r was, and its e-th power is m |
| BlindRsa.BlindedUnitIff | app/core/deposit_auth.py:127-127 | a blinded value is a unit exactly when the message was |
| BlindRsa.BlindInjective | app/core/deposit_auth.py:127-127 | two blinding factors never send one unit to the same value |
| BlindRsa.PerfectHiding | app/core/deposit_auth.py:112-136 | every unit the issuer may see is the blinding of every unit message under exactly one factor |
| Pss.Mgf1 | app/core/deposit_auth.py:61-68 | the loop yields the mask of RFC 8017 section B.2.1, and raises exactly past the four-octet counter |
| Pss.MaskAt | app/core/deposit_auth.py:65-67 | octet 48b + j of the mask stream is octet j of the hash of seed and counter b |
| Pss.EmsaPssEncode | app/core/deposit_auth.py:71-94 | the encoder yields the encoding of RFC 8017 section 9.1.1, its last 49 octets being the digest of eight zero octets, the message's digest and the salt, and 0xbc; it raises exactly when the length is too small or too large |
| Pss.EncodedOctet | app/core/deposit_auth.py:84-94 | every octet of an encoding, written out from the message, the salt and the hash |
| Pss.MaskBlock | app/core/deposit_auth.py:88-93 | the block under the mask, spare top bits cleared, exactly when the mask is short enough for its 4-octet counter |
| Pss.EncodedBelow | app/core/deposit_auth.py:90-94 | the integer of an encoding is below 2^em_bits |
| Pss.UnmaskInvolution | app/core/deposit_auth.py:88-93 | masking twice with the spare bits cleared each time gives the block back with those bits clear |
| Pss.VerifiesIff | app/core/deposit_auth.py:71-94 | the verifier of RFC 8017 section 9.1.2 accepts exactly the encodings of the message, one per salt |
| Pss.EncodingBinds | app/core/deposit_auth.py:84-85 | an octet string accepted for two messages yields a hash collision on the messages or on what their encodings hash |
| DepositAuth.RepresentativeBelow | app/core/deposit_auth.py:115-119 | an encoded message is below the modulus, so that check never fires |
| DepositAuth.DrawFactor | app/core/deposit_auth.py:120-126 | the retry loop takes the first draw whose successor is invertible, and that inverse |
| DepositAuth.Blind | app/core/deposit_auth.py:109-128 | the answer is `BlindOn`: the blinded octets and the inverse, or the first error |
| DepositAuth.BlindSends | app/core/deposit_auth.py:120-128 | the octets sent are m * r^e mod n in the modulus length and what is kept inverts r, where r is one more than the first draw for which it is a unit |
| DepositAuth.BlindHides | app/core/deposit_auth.py:112-136 | for every message and salt with a unit representative, each unit is sent on exactly one of the draws below n - 1 |
| DepositAuth.BlindWith | app/core/deposit_auth.py:127-128 | the blinded value always fits the modulus length |
| DepositAuth.BlindSignIsTextbook | app/core/deposit_auth.py:131-149 | the issuer answers x^d mod n, and refuses exactly values not below n |
| DepositAuth.FinalizeIff | app/core/deposit_auth.py:152-161 | a signature is handed out exactly when it unblinds the issuer's answer and verifies for the message |
| DepositAuth.TokenIff | app/core/deposit_auth.py:164-176 | the signatures that verify for a message are exactly the key holder's own, one per salt |
| DepositAuth.SignatureBinds | app/core/deposit_auth.py:164-176 | a signature that verifies for two messages yields a SHA-384 collision |
| DepositAuth.IssuanceYieldsDirectSignature | app/core/deposit_auth.py:109-161 | for every message, salt and unit, blind, sign and finalize succeed and give the direct signature, which verifies |
| Hashcash.LeadingZeroBits | app/core/deposit_auth.py:212-220 | the loop counts the width of the digest less the bit length of its integer |
| Hashcash.VerifyPow | app/core/deposit_auth.py:223-227 | a proof is accepted exactly when the digest is below 2^(width - difficulty), or the difficulty is not positive |
| Hashcash.SolvesIff | app/core/deposit_auth.py:212-227 | accepted exactly when that many bits of the digest of `challenge:nonce` are zero from its first octet on |
| TokenStore.IssuerKey.SetNx | app/core/deposit_auth_store.py:49-49 | SET NX stores exactly when nothing was stored |
| TokenStore.StoreWorker.GetIssuerKey | app/core/deposit_auth_store.py:42-56 | the call returns the stored key, keeps an existing or rival key, and its cache matches |
| TokenStore.OneIssuerKey | app/core/deposit_auth_store.py:42-56 | without rotation, in every interleaving of any number of workers every key in hand or cached is the stored one, and no call crashes |
| TokenStore.CallCompletes | app/core/deposit_auth_store.py:42-56 | in every run without rotation an uninterrupted call ends with the stored key, or the one it brought, stored and cached |
| TokenStore.IssuerKeyStays | app/core/deposit_auth_store.py:28-32 | a stored key never changes without rotation |
| TokenStore.CrashIff | app/core/deposit_auth_store.py:45-53 | in every run of any number of workers, a call crashes if and only if a rotation falls between its lost SETNX and its second GET with no winning SETNX after that rotation |
| TokenStore.RotationCanCrash | app/core/deposit_auth_store.py:49-53 | a run of two workers in which that happens |
| TokenStore.SignBlinded | app/core/deposit_auth_store.py:70-92 | a signature exactly for the current epoch, a decodable value below n and enough leading zeros in the digest of `epoch:blinded:nonce`; otherwise the first failing reason |
| TokenStore.SameWorkIff | app/core/deposit_auth_store.py:76-78 | two requests of one epoch hash the same text if and only if they are equal, or the blinded text of one continues past a ':' that ends the other's |
| TokenStore.OneSolveOneRequest | app/core/deposit_auth_store.py:76-78 | without ':' in the blinded texts and without a SHA-256 collision, equal digests are work for the same request |
| TokenStore.SpentSet.Consume | app/core/deposit_auth_store.py:95-116 | accepted exactly when well formed, of this epoch, signed under the key in force and not spent, and then recorded under epoch and id with its TTL |
| TokenStore.TokenAcceptedIff | app/core/deposit_auth_store.py:95-116 | a token is accepted exactly when it is valid under the key in force and that very token was not accepted within the TTL, whatever others were presented, short of a digest collision among them |
| TokenStore.SpentOnceWithinTtl | app/core/deposit_auth_store.py:114-116 | two acceptances of one token are at least the TTL apart, collisions or not |
| TokenStore.SignatureSpendsOnce | app/core/deposit_auth_store.py:112-116 | short of a SHA-384 collision, two acceptances of one signature under one key are of the same token and at least the TTL apart, whatever messages came with it |
| TokenStore.IdInputInjective | app/core/deposit_auth.py:179-181 | valid tokens under one key never share the octets their ids are hashed from |
| TokenStore.MintedTokenSpendsOnce | app/core/deposit_auth_store.py:70-116 | a token minted through the whole exchange is accepted exactly when it was not accepted within the 14 days before, and refused for 14 days after |
| GuestMirror.GuestCache.MarkGuest | app/core/guest_policy.py:265-282 | one MULTI puts the number in the set and the pending set and refreshes the pending TTL |
| GuestMirror.GuestCache.UnmarkGuest | app/core/guest_policy.py:285-310 | removal from both sets, or the marker dropped, or nothing, by what Redis could take |
| GuestMirror.GuestCache.Rebuild | app/core/guest_policy.py:177-210 | the set becomes the rows read plus the live pending marks, with marker and built keys armed |
| GuestMirror.GuestCache.Ensure | app/core/single_flight.py:258-267 | a live marker or built mirror is left as it is, a built one is kicked exactly when the marker is gone, a missing one is rebuilt inline |
| GuestMirror.GuestCache.IsGuest | app/core/guest_policy.py:241-262 | answers from the set, from a fresh rebuild, or from the row when Redis fails before or after the rebuild |
| GuestMirror.StepSeen | app/core/guest_policy.py:177-310 | what each protocol step means for one number: in the table, in the set, and pending at any later time |
| GuestMirror.StepTimes | app/core/guest_policy.py:177-310 | what each step means for the clock, the marker, the built key, the rebuilds and the readers |
| GuestMirror.BuiltAnswers | app/core/single_flight.py:228-231 | after a rebuild, and until Redis loses its data, a reader is answered at every time without another rebuild, from a set that holds the whole table |
| GuestMirror.StepKeeps | app/core/guest_policy.py:177-310 | every protocol step keeps the invariant on mints, rebuilds, readers and the set |
| GuestMirror.GuestNeverNative | app/core/guest_policy.py:17-29 | in every run a committed guest is in an answerable mirror and is not answered native |
| GuestMirror.SlowRebuildDropsGuest | app/core/guest_policy.py:59-74 | a mint and a rebuild that together outlast the pending TTL lose a committed guest |
| GuestMirror.SafetyIff | app/core/guest_policy.py:59-74 | every run is safe if and only if mark-to-commit plus read-to-write is below 120 seconds |
| GuestMirror.ExtraHasCause | app/core/guest_policy.py:285-296 | a number in the set that is no guest and has no request in flight got there by a refused mark, a lost unmark, or a rebuild that read it or found it pending, and has been there as no guest ever since that step |
| GuestMirror.StaleRowLeft | app/core/guest_policy.py:189-206 | a rebuild holds a row that is no guest only if the row left after the read |
| GuestMirror.Converges | app/core/guest_policy.py:285-296 | once writers stopped and the pending TTL passed, the next rebuild makes the set equal the table for good |
| GuestStale.PendingIff | app/core/guest_policy.py:265-282 | in every run, a number is pending if and only if a step marked it, nothing unmarked it, and the pending TTL never passed since without a mark of some number |
| GuestStale.StaleStaysIff | app/core/guest_policy.py:285-296 | a rebuild that read the table without a number keeps it in the mirror if and only if marks have not paused since it was marked |
| GuestStale.PauseClears | app/core/guest_policy.py:189-206 | once the pending TTL passed without a mark, a rebuild makes the mirror what it read |
| GuestStale.StaleBound | app/core/guest_policy.py:291-294 | 420 seconds after the last mark of any number, a mirror with a live marker holds only rows that a rebuild of the last 300 seconds read |
| GuestStale.SteadyMintsKeepStale | app/core/guest_policy.py:265-296 | with a mint and a rebuild every minute a stale entry stays for any number of minutes, whatever the time limits |
| MirrorLock.LockKey.SetNx | app/core/single_flight.py:292-293 | the lock is taken exactly when none is live |
| MirrorLock.Mirror.Kick | app/core/single_flight.py:279-285 | a task starts unless one runs or the pause is not over |
| MirrorLock.Mirror.TakeLock | app/core/single_flight.py:287-293 | the winner rebuilds, the loser ends its attempt and pauses |
| MirrorLock.Mirror.Finish | app/core/single_flight.py:294-307 | the attempt ends with the lock deleted or left to expire, and the pause counted from the end |
| MirrorLock.ExclusiveIff | app/core/single_flight.py:287-301 | no two workers ever rebuild in the background at once if and only if rebuilds end before the lock's 30 seconds |
| MirrorLock.AttemptsPaced | app/core/single_flight.py:302-307 | nothing starts on a worker before its pause is over |
| MirrorLock.PausedThenStarts | app/core/single_flight.py:279-307 | however an attempt ends, its worker starts nothing for two seconds and starts on the first kick after them |
| MirrorLock.LockPassesOn | app/core/single_flight.py:291-301 | a waiting worker rebuilds at once after a DELETE, and otherwise exactly once the lock has expired |
| SingleFlight.Flight.GetCurrent | app/core/single_flight.py:100-112 | the unfinished task of this loop; a task of another loop is forgotten |
| SingleFlight.Flight.Start | app/core/single_flight.py:114-124 | joins the task in flight or starts one and stamps the attempt |
| SingleFlight.OneRefreshPerLoop | app/core/single_flight.py:67-75 | with loops one after another at most one refresh is in flight per loop |
| SingleFlight.EveryAskIsServed | app/core/single_flight.py:114-124 | after every ask a refresh of that loop runs and is on record, a new one exactly if none was |
| SingleFlight.AlternatingLoopsOverlap | app/core/single_flight.py:109-111 | loops taking turns would run two |
| SingleFlight.OverlapIff | app/core/single_flight.py:100-124 | two refreshes of one loop are in flight at some point of a run if and only if another loop asked while a task of the loop was unfinished and the loop asked again before that task finished |
| SingleFlight.WaitsShareOneBudget | app/core/single_flight.py:156-172 | all waits of a request on one attempt together stay within the attempt's budget |
| SingleFlight.ReturnsFirst | app/core/single_flight.py:156-172 | a wait ends at the first moment at which the attempt is done or its budget over |
| SlidingWindow.Limiter.Hit | app/core/rate_limit.py:139-163 | the script's verdict, retry time and new sorted set and TTL |
| SlidingWindow.SeesRecentHistory | app/core/rate_limit.py:146-161 | neither sweep nor EXPIRE drops an in-window entry: a request sees exactly the accepted times of the window |
| SlidingWindow.AcceptedIff | app/core/rate_limit.py:146-161 | in every run a request is accepted exactly when fewer than `limit` distinct times were accepted in the window, and is then recorded |
| SlidingWindow.WindowBound | app/core/rate_limit.py:139-163 | no half-open window holds more than `limit` distinct accepted times |
| SlidingWindow.RetryIsExact | app/core/rate_limit.py:149-155 | with nothing accepted meanwhile, admission resumes exactly when the oldest entry leaves, and retry_after is the next whole second |
| SlidingWindow.RetryAfterIsAccepted | app/core/rate_limit.py:233-240 | a refused caller who waits retry_after is accepted |
| SlidingWindow.DistinctTimesBounded | app/core/rate_limit.py:158-158 | the requests accepted at distinct times in any interval shorter than the window number at most the limit |
| SlidingWindow.SameInstantUnbounded | app/core/rate_limit.py:158-158 | for limits of two or more, all of any number of requests at one instant are accepted |
| SlidingWindow.RequestsBoundedIff | app/core/rate_limit.py:139-163 | requests are bounded in every run if and only if the limit is at most one |
| LocalWindow.LocalHits.LocalAllow | app/core/rate_limit.py:332-346 | the verdict, including the IndexError of a limit that admits nothing, and the new map |
| LocalWindow.WindowBound | app/core/rate_limit.py:339-346 | between clears every closed window holds at most `limit` accepts, counted with repeats |
| LocalWindow.DequeIsRecentHistory | app/core/rate_limit.py:340-345 | after a call the deque is exactly the accepted times not older than the cutoff, in order |
| LocalWindow.KeysBounded | app/core/rate_limit.py:334-339 | the map never exceeds 20,001 keys |
| LocalWindow.ClearedBound | app/core/rate_limit.py:332-346 | across clears, an interval no longer than the window admits at most the limit once and once more per clear inside it, repeated times counted as often as they occur |
| LocalWindow.ClearsAreSpaced | app/core/rate_limit.py:334-338 | each clear inside an interval takes 20,001 calls there, but for the first |
| LocalWindow.RetryIsExact | app/core/rate_limit.py:339-346 | in every run, a refused caller is admitted, with nothing else allowed under its key meanwhile, exactly from just after its oldest time leaves the window or once the map was cleared |
| LocalWindow.RetryHonestIff | app/core/rate_limit.py:343-344 | in every run, waiting retry_after with no clear meanwhile is enough if and only if less than a second was left |
| LocalWindow.RetryFallsShort | app/core/rate_limit.py:343-344 | a caller refused with 49 seconds to wait is refused again after them |
| CostBudget.Budget.Script | app/core/rate_limit.py:255-271 | the counter, its expiry and the verdict after one charge |
| CostBudget.Budget.Enforce | app/core/rate_limit.py:274-311 | only positive costs with Redis up are charged; everything else passes untouched |
| CostBudget.LifetimeBound | app/core/rate_limit.py:261-270 | a live key always has a TTL, and the cost accepted in its life is at most the limit |
| CostBudget.CrossedStaysRefused | app/core/rate_limit.py:250-254 | a crossed budget refuses until the key expires, and refused charges do not prolong it |
| CostBudget.RetryIsNearest | app/core/rate_limit.py:265-268 | in every run retry_after is the time the key has left, rounded to whole seconds |
| CostBudget.RetryHonestIff | app/core/rate_limit.py:265-268 | waiting retry_after is enough, for a cost within the limit, if and only if the time left was not rounded down |
| CostBudget.RetryFallsShort | app/core/rate_limit.py:265-268 | a caller refused with 9.4 seconds left is told 9 and refused again after them |
| CostBudget.IntervalBound | app/core/rate_limit.py:243-271 | any closed interval as long as the window admits at most twice the limit |
| CostBudget.IntervalBoundIsTight | app/core/rate_limit.py:243-271 | twice the limit is reached |
| RateRules.Limiter.Enforce | app/core/rate_limit.py:192-240 | Redis decides, retry_after included, when its answer arrives; otherwise soft rules admit and closed rules ask the local window, also when Redis counted the request and only its answer was lost |
| RateRules.FailClosedBound | app/core/rate_limit.py:209-213 | over any run of any number of workers and keys, a fail-closed rule admits in an interval shorter than its window at most what Redis lets through, plus its limit once per worker and once per clear of a worker's map; Redis lets through at most the limit if that is at most one or the script ran at distinct times |
| RateRules.OutageBoundIff | app/core/rate_limit.py:314-327 | a rule keeps to the workers' shares beside Redis under every outage pattern if and only if it fails closed |
| RateRules.ClearedRun | app/core/rate_limit.py:334-338 | with 20,001 local keys a fail-closed rule admits any number of requests at one instant while Redis is gone |
| RateRules.UnclearedBoundIff | app/core/rate_limit.py:334-338 | a fail-closed rule admits at most its limit once for Redis and once per worker, in every run, if and only if its island uses at most 20,000 local keys and its limit is at most one or Redis runs its script at distinct times |
| IslandCeiling.CeilingBound | app/core/rate_limit.py:442-484 | the island mints, in an interval shorter than a minute or an hour, at most what Redis lets through plus the limit once per worker and once per clear, under any outage pattern and beside any other rules |
| IslandCeiling.MinuteRefusesFirst | app/core/rate_limit.py:442-484 | an attempt the minute refuses is neither asked nor charged for the hour |
| IslandCeiling.CeilingClearedRun | app/core/rate_limit.py:334-338 | with 20,001 local keys the island mints any number of accounts at one instant while Redis is gone |
| IslandCeiling.MinuteBoundIff | app/core/rate_limit.py:442-484 | the island mints per minute at most the limit once for Redis and once per worker, in every run, if and only if at most 20,000 local keys are in use, and one of the two limits is at most one or Redis counts the minute at distinct times |
| CeilingHour.HourBoundIff | app/core/rate_limit.py:442-484 | the same for the hour: if and only if at most 20,000 local keys are in use, and Redis counts the hour at distinct times, or the hour's limit is at most one, or the minute's is and the hour's is at least 60 |
| CeilingHour.SlowMinuteExceeds | app/core/rate_limit.py:158-158 | with one registration a minute and an hourly limit from 2 to 59, a run that mints one account more than that |
| KeyMigration.HSetNxAll | app/core/redis_keys.py:131-135 | the field loop leaves the legacy fields overridden by what was there |
| KeyMigration.Store.FoldKey | app/core/redis_keys.py:128-155 | one key is folded, no other is touched, and DELETE answers what it removed |
| KeyMigration.Store.Migrate | app/core/redis_keys.py:115-160 | one worker folds every scanned key under the live values and counts the keys removed, repeats included |
| KeyMigration.EveryFieldSurvives | app/core/redis_keys.py:89-96 | in every interleaving with failures, each legacy field is at all times under its legacy or its new key, or a live request has removed it |
| KeyMigration.MigrationConfluent | app/core/redis_keys.py:89-96 | whatever the interleaving, the new keys end as the legacy fields overridden by the live writes; a field removed last is absent or back with its legacy value |
| KeyMigration.RemovalLastsIff | app/core/redis_keys.py:130-135 | a live removal lasts whatever the workers do if and only if no legacy key or pending snapshot still holds the field |
| KeyMigration.CountsAddUp | app/core/redis_keys.py:147-155 | the workers' counts add up to the keys removed, short by exactly the unanswered DELETEs |
| KeyMigration.UninterruptedFold | app/core/redis_keys.py:128-155 | from any state, a worker that is not interrupted moves a key: its fields go where the new key has none, no other key changes, and it is counted exactly if it was there |
| MigrationTtl.TtlKeptIff | app/core/redis_keys.py:130-146 | in every run of any number of workers and live refreshes, no refreshed TTL is ever shortened if and only if no EXPIRE comes after a refresh that fell between the worker's TTL read and that EXPIRE and promised more |
| MigrationTtl.LongerWins | app/core/redis_keys.py:138-146 | from any state, a worker that is not interrupted leaves the later of the two expiries |
| MigrationTtl.RefreshLasts | app/core/redis_keys.py:141-146 | a refresh lasts exactly as long as it promised when nothing else touches the key |
| MigrationTtl.RefreshIsShortened | app/core/redis_keys.py:141-146 | a run in which a refresh to ninety days is cut to the one day left on the legacy key |
| LeaderLease.LeaderKey.AcquireLeadership | app/core/redis.py:112-123 | granted exactly when the key is missing or expired |
| LeaderLease.LeaderKey.RenewLeadership | app/core/redis.py:126-145 | granted and extended exactly for the live holder |
| LeaderLease.LeaderKey.ReleaseLeadership | app/core/redis.py:148-164 | deletes exactly the caller's own live key |
| LeaderLease.ExclusiveLease | app/core/redis.py:90-109 | in every run at most one worker leads, and it is the stored identity |
| LeaderLease.LeaseUndisturbed | app/core/redis.py:130-159 | no step of another worker changes the key or the lease while it lasts |
| LeaderLease.DeadLeaderReplaced | app/core/redis.py:92-96 | in every run, a worker silent for the TTL neither leads nor holds the key, and the next acquire on a free key leads exactly if its request took less than the TTL |
| LeaderLease.ReleaseHandsOver | app/core/redis.py:148-164 | in every run the next acquire after the holder's release gets the key for the whole TTL; a release of anyone else changes nothing |
| LeaderLease.LeaderIsServed | app/core/redis.py:126-164 | in every run a leader's renewal is granted, and a lost release leaves the key to expire |
| LeaderLease.SteadyLeader | app/core/redis.py:90-109 | a worker that renews within the TTL leads for as long as it does |
| Metrics.ApplyBody | app/core/metrics.py:152-155 | the slow-body fields after one request |
| Metrics.ApplyCall | app/core/metrics.py:156-163 | the path and transport fields after one request |
| Metrics.ApplyAccount | app/core/metrics.py:164-170 | the account fields after one request |
| Metrics.ApplyPool | app/core/metrics.py:171-175 | the pool fields after one request |
| Metrics.Panel.OpenBucket | app/core/metrics.py:127-136 | a new bucket drops everything older than the window |
| Metrics.Panel.RecordRequest | app/core/metrics.py:139-175 | the ring after one request |
| Metrics.Panel.RecordSocket | app/core/metrics.py:178-183 | the ring after a socket opened or closed |
| Metrics.Panel.RecordSocketRefused | app/core/metrics.py:186-191 | the ring after a refused dial |
| Metrics.RingAgrees | app/core/metrics.py:120-136 | after any log every minute of the ring is that minute of the whole log, and minutes out of the window are empty |
| Metrics.RingBounded | app/core/metrics.py:132-135 | at most 60 buckets exist |
| Metrics.MinuteCounts | app/core/metrics.py:149-191 | every counter of a minute is the number of its matching events |
| Metrics.MinuteMeasures | app/core/metrics.py:156-161 | seconds and slowest call per path are over exactly the calls of the minute |
| Metrics.RollUp | app/core/metrics.py:226-235 | the per-path totals, listing exactly the paths with calls |
| Metrics.PathTotalsAreTheLogs | app/core/metrics.py:226-235 | for snapshots up to an hour the totals of a path are those of the log |
| Metrics.Series | app/core/metrics.py:199-224 | one row per minute with the sums, sizes and maxima of its bucket |
| Metrics.RowIsTheLogs | app/core/metrics.py:199-224 | every row is what the events of its minute say: counts, pool peak, distinct accounts, busiest account |
| Metrics.TransportTotals | app/core/metrics.py:246-253 | per-transport sums over the snapshot |
| Metrics.SlowTotal | app/core/metrics.py:255-255 | the slow bodies of the snapshot |
| Metrics.SlowWorst | app/core/metrics.py:256-256 | the largest slow body of the snapshot's buckets |
| Metrics.SumsAreTheLogs | app/core/metrics.py:246-255 | any counter summed over the snapshot is the number of matching events of the log |
| Metrics.SlowestIsTheLogs | app/core/metrics.py:152-155 | the slowest body over the snapshot is the slowest slow body of the log in those minutes |
| Metrics.SeriesMatchesRollUp | app/core/metrics.py:209-235 | the series' requests add up to the untruncated path calls |
| Metrics.OmittedNeverOutrank | app/core/metrics.py:236-236 | kept and omitted paths together are the roll-up, and no omitted path outranks a kept one |
| HoldList.ListRoundTrip | tools/guest_rows_hold.py:150-170 | the numbers written are the numbers read back |
| HoldList.ListSafeIff | tools/guest_rows_hold.py:106-108 | appending keeps every target if and only if the file does not end inside a number |
| HoldRelease.HoldLeavesIff | tools/guest_rows_hold.py:108-157 | in every run, reruns on any list included, a completed hold leaves no seat, and unsuspended exactly the guests an operator unbanned since the selection |
| HoldRelease.HoldLeavesNone | tools/guest_rows_hold.py:108-157 | without such an operator it leaves no unsuspended guest, whatever was claimed, converted, deleted or banned meanwhile |
| HoldRelease.StepSeen | tools/guest_rows_hold.py:109-153 | what each step does to one row: who can remove it, change its status or its suspension |
| HoldRelease.HoldSpares | tools/guest_rows_hold.py:112-118 | in every run, crashes and reruns included, the hold keeps every row that is no seat, its status and its suspension, and every native row as it is |
| HoldRelease.CommittedAreListed | tools/guest_rows_hold.py:126-153 | at every point of every run, crashes and reruns included, each committed suspension is on the list as long as no write starts behind an unfinished line |
| HoldList.CrashLeavesTail | tools/guest_rows_hold.py:150-152 | what a crash leaves of a write is complete lines and the first digits of a number |
| HoldRelease.HoldListsIff | tools/guest_rows_hold.py:106-153 | a hold run on a list commits only listed suspensions, on every table and in every run, if and only if the list does not end inside a number |
| HoldRelease.ReleaseRestoresIff | tools/guest_rows_hold.py:160-196 | after every run, on whatever list and whatever happens between its selection and its update, a release restores every surviving guest if and only if it picked none that is banned and every other one that is held |
| HoldRelease.ReleaseLeavesRest | tools/guest_rows_hold.py:161-162 | after every run a release keeps all rows, and changes none that was no guest at its selection, not suspended or not listed |
| HoldRelease.AtomicReleaseRestoresIff | tools/guest_rows_hold.py:23-25 | with nothing in between: if and only if no banned guest is listed and every other held guest is |
| HoldRelease.CleanReleaseRestoresIff | tools/guest_rows_hold.py:23-25 | as long as no write started behind an unfinished line: if and only if no banned guest is listed |
| HoldRelease.TornListStrandsGuest | tools/guest_rows_hold.py:150-170 | on every list that ends inside a number some guest, banned by nobody, is held and not released |
| HoldRelease.ReleaseLiftsBan | tools/guest_rows_hold.py:126-150 | a guest banned between selection and update is listed, and the release lifts the ban |
| HoldList.ReadList | tools/guest_rows_hold.py:169-170 | the numbers of the lines that are all digits once stripped |
| HoldRelease.Island.PurgeSeats | tools/guest_rows_hold.py:109-124 | exactly the rows that are still seats are purged and counted |
| HoldRelease.Island.Hold | tools/guest_rows_hold.py:60-157 | dry run, refusals, and the table, list and report of an applied hold |
| HoldRelease.Island.Release | tools/guest_rows_hold.py:160-196 | exactly the listed, suspended rows that are still guests lose their suspension, and nothing else changes |
| Badges.User.GrantBadge | app/models/user.py:545-558 | the two columns after a grant |
| Badges.User.RevokeBadge | app/models/user.py:561-566 | the two columns after a revoke |
| Badges.ColumnRoundTrip | app/models/user.py:534-536 | kinds joined and read back are the same kinds in order |
| Badges.EarnedIs | app/models/user.py:527-542 | an account holds the kinds of its column in order, and behind them the worn one if the column lacks it |
| Badges.ColumnsRefineList | app/models/user.py:527-566 | over any grants and revokes, from any legacy or new row, the columns read back as the specification list |
| Badges.RevokeRefinesIff | app/models/user.py:561-566 | a revoke follows the list unless it revokes the empty string from an empty badge while marks are held |
| Badges.GrantRefinesIff | app/models/user.py:545-558 | granting a kind works on every sound row if and only if it is not empty, has no comma and no space at its ends |
| Badges.WornIsHeld | app/models/user.py:537-566 | the worn badge is held, a grant never replaces it, and a revoked kind is neither held nor worn |
| Badges.RevokeWearsNext | app/models/user.py:561-566 | revoking the worn mark keeps the others in order and wears the first of them |
| GeoIp.Parse | tools/build_geoip.py:44-64 | the rows say exactly what the usable registry lines delegate |
| GeoIp.DelegatesIff | tools/build_geoip.py:48-63 | what a line delegates, field by field, the country in capitals |
| GeoIp.Merge | tools/build_geoip.py:73-79 | the loop computes the merged table |
| GeoIp.MergeKeepsMeaning | tools/build_geoip.py:73-79 | the merged table denotes the same pairs of address and country |
| GeoIp.MergedShape | tools/build_geoip.py:72-79 | it stays sorted, and no two neighbours could still merge |
| GeoIp.MergeKeepsDisjoint | tools/build_geoip.py:72-79 | it is disjoint when the input is |
| GeoIp.MergeKeepsLookUp | app/services/geoip.py:51-67 | every look-up gives the same answer before and after merging, overlaps included |
| GeoIp.LookUpIff | app/services/geoip.py:51-67 | on disjoint ranges a look-up answers exactly what the table says |
| GeoIp.TableAnswersRegistry | tools/build_geoip.py:44-79 | for disjoint delegations the shipped table answers a country exactly where a registry line delegates the address |

## Left out

- Redis: eviction, replication and clock skew between workers are not modelled; EXPIRE and ZADD formatting of floating-point times is taken as exact.
- SHA-256, SHA-384, base64, PEM parsing, the `cryptography` verifier (replaced by RFC 8017 sections 8.1.2 and 9.1.2) and randomness quality.
- `solve_pow`: a search that stops at the first nonce `VerifyPow` accepts; nothing guarantees that one exists.
- `public_jwk`, `epoch_id`, `current_params`: serialization only.
- `admission_open`, route markers, `touch_poll`, `bump_stat`: single-branch policy around the mirror.
- The epoch and suspended mirrors: the guest mirror without pending marks, so coherent only when no write straddles a rebuild.
- asyncio scheduling, cancellation and logging inside `SingleFlight` and `RedisMirror`.
- KeyMigration.Store.FoldKey: the TTL copied to the new key is in `MigrationTtl`, per key and apart from the fields.
- KeyMigration.Store.Migrate: one family, and a pass in which no key fails; failures and the set family's single SADD are steps of the protocol.
- IslandCeiling.CeilingBound: the two evaluations of an attempt run without another evaluation in between, and the limits do not change during a run.
- MirrorLock.ExclusiveIff: inline and priming rebuilds take no lock and are not steps.
- TokenStore.TokenAcceptedIff: assumes that neither `token_id` nor `epoch_id` collides on the presentations at hand.
- `allow_ws_connect`: the cost budget with cost 1, limit 12 and a 60 second window.
- Metrics.Series: rounding of the displayed means is not modelled.
- HoldList.ReadList: only ASCII digits and white space count.
- HoldRelease.Island.Hold: purges always succeed, and room announcements and the suspended mirror are not modelled.
- Badges.ColumnsRefineList: white space is ASCII white space.
- GeoIp.Parse: starts from split fields with the address and count already parsed; downloading, gzip and the CSV text are not modelled.
- Routers, the admin console, database migrations and JWT handling.
