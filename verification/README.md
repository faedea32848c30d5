# Vallet server: verified model

A Dafny model of the parts of the Vallet key server whose correctness depends on
many steps at once: refresh-credential rotation and reuse detection, revocation of
access tokens through the denylist, device enrollment, the counter stores they share,
the identifier blocklist, and the DNS-01 record handling. `dafny verify dfyconfig.toml`
checks the whole project.

## What is modelled

**Rotation.** `Rotation` is a machine whose steps are the single SQL statements of
Issue and Exchange, run at PostgreSQL's READ COMMITTED level: any interleaving, any
rollback, row locks, and a revoking UPDATE whose row set is fixed when it starts.
`RotationSafety` and `ReuseDetection` state what holds over all runs. `TokenService` is
the same service as one process with serialized transactions, as an object with
faults; `Presentation` says over runs that no exchange happens without the secret.
`ReuseDetection.ConsecutiveExchange` and `ConsecutiveRevocation` connect the
two: the statements run back to back are the serialized call.

**Revocation.** `Revocation` runs that machine together with the access tokens it
mints, the denylist listings in progress, a counter store with unrelated writers, and
three clocks (minting, revoking, verifying) that may disagree. A call reads its clock
once and may use the reading much later. `ReplayRevocation` composes the two: detected
reuse, revocation, listing, refusal.

**Enrollment.** `Enrollment` is a machine over the statements of mint, approve, redeem
and revoke, with calls in flight and lost acknowledgements. `EnrollmentService` is the
object, with the row another call may have written in between as a parameter.
`EnrollmentProvenance` traces every result of a run back to the call that caused it.

**Counters.** `CounterStore` is the in-memory store with its purges; `ApprovalLimit`
and `Denylist` use it; `Failover` is the request path, the one-slot signal and the
reprobe loop as an interleaved machine.

**Blocklist.** `Skeletons`, `Candidates` and `Matcher` follow the pipeline from an
identifier to a verdict. `Spelling` and `Disguises` define the ways of spelling a word
that read as the word, apart from the fold, and conclude that all of them are refused.

**DNS-01.** `Propagation` is the gate; `RecordSets` the read-and-replace discipline
Gandi and Namecheap share; `ZoneWalk` the search for the account domain.

Hashes, message authentication, JSON and random draws are parameters: the hash is
injective and never empty, decoding undoes encoding, a MAC verifies only what was
signed, a fresh identifier is unused. Clocks are parameters. Instants are nanosecond
counts.

## Where code and documentation differ

The model follows the code. Each difference is a proved result.

- The comment on the PostgreSQL RevokeLineage says a reused lineage cannot keep a live
  successor. A successor committed while the UPDATE runs is outside its snapshot and
  survives (`SurvivorUnderReadCommitted`); `RevocationOutcome` gives the exact
  condition on the exchanges of that lineage, whatever other lineages do. Under SQLite's serialized transactions the window is empty.
- Both SQL adapters withdraw only pending and approved pairings, so revoking a redeemed
  pairing is refused before its lineage is reached (`RedeemedOutlivesRevoke`);
  `SqlRevokeReachesIff` gives the exact reach.
- The memory store's comment bounds its expired residents by the sweep interval. They
  are unbounded (`ExpiredResidentsUnbounded`). `Residency` gives the bound that holds,
  which is the documented one while nothing the last purge left has expired, and
  `ExpiredBoundIff` says of which stores the documented one holds at every instant.
- Token parsing is documented as strict. It accepts further spellings of every token
  (`SecondSpelling`); `FormatParseIff` says on which it is the inverse of printing.
- The one-hour ceiling of the reprobe interval holds for the first wait only when the
  configured base meets it (`CeilingIff`).
- The Gandi and Namecheap cleanups are documented as never removing a record this
  process did not publish. An equal record that was there before is removed
  (`RemovesAnEqualForeignValue`); `RestoresExactlyIff` and `RestoresHostsIff` give the
  exact conditions.

## Model

| member | source | states |
|---|---|---|
| Rotation.StepKeepsInv | internal/auth/tokenservice.go:230-368 | Every statement of every interleaved Issue and Exchange keeps: each lineage is one chain, only its last link may be active, all links share grant and deadline, open transactions hold what they read |
| Rotation.ExecKeepsInv | internal/auth/tokenservice.go:163-368 | The same over every run, whichever transactions roll back |
| RotationSafety.LineageIsOneChain | internal/auth/tokenservice.go:333-357 | In every reachable state a lineage's rows form one linear chain of predecessors from the root |
| RotationSafety.AtMostOneActive | internal/auth/tokenservice.go:319-331 | No two credentials of a lineage are ever active together |
| RotationSafety.PredecessorInLineage | internal/auth/tokenservice.go:333-348 | A successor's predecessor is a stored row of the same lineage |
| RotationSafety.TokenIsSingleUse | internal/auth/tokenservice.go:208-387 | Over a whole run each refresh token yields a pair from at most one Exchange, and no two credentials have one predecessor |
| Presentation.ReadOpensIff | internal/auth/tokenservice.go:230-311 | The exchange proceeds iff the stored digest is the presented one, the row is whole, the owner active, and the row either spent or unexpired with grantable scopes |
| Presentation.ExchangeNeedsSecret | internal/auth/tokenservice.go:230-368 | Over every run, a credential that was exchanged had its own secret presented |
| Presentation.RevocationNeedsSecret | internal/auth/tokenservice.go:296-331 | Over every run, a revoked credential had a secret of its lineage presented or its revocation asked for |
| RotationSafety.RotationKeepsAuthority | internal/auth/tokenservice.go:333-357 | Any two credentials of a lineage speak for one owner and permit exactly the same accesses |
| RotationSafety.LineageDeadline | internal/auth/tokenservice.go:305-357 | Every credential expires exactly ninety days after its root was issued and was issued before that |
| RotationSafety.DeadForever | internal/auth/tokenservice.go:208-387 | A lineage all of whose credentials are revoked stays so in every continuation, and no Exchange of any of them returns a pair |
| RotationSafety.ExecAppendOnly | internal/auth/tokenservice.go:208-387 | Successful exchanges are only ever added to the record |
| ReuseDetection.RevocationOutcome | internal/storage/postgres/refreshcred.go:188-215 | A committed lineage revocation leaves the lineage dead if and only if every exchange of that lineage that committed while the statement ran had its successor revoked by another revocation |
| ReuseDetection.JoinersAreSuccessors | internal/auth/tokenservice.go:333-357 | Over any run, the credentials that join a lineage are exactly the successors its committed exchanges store |
| ReuseDetection.RevokedIff | internal/storage/postgres/refreshcred.go:197-215 | Over any run, a row ends revoked iff it was or a committed revocation changed it |
| ReuseDetection.JoiningNeedsCommit | internal/auth/tokenservice.go:333-357 | Nobody joins an existing lineage iff no exchange of that lineage commits |
| ReuseDetection.ReplayIsDetected | internal/auth/tokenservice.go:296-303 | Presenting a spent credential with its secret and an active owner targets its whole lineage for revocation |
| ReuseDetection.LostRaceIsDetected | internal/auth/tokenservice.go:319-331 | So does an exchange whose row was spent between its read and its update |
| ReuseDetection.ReuseKillsForGood | internal/auth/tokenservice.go:296-331 | After detected reuse whose revocation commits, the lineage is dead iff every exchange of that lineage that committed meanwhile had its successor revoked, always when none did; a dead lineage never returns a pair again |
| ReuseDetection.ConsecutiveExchange | internal/auth/tokenservice.go:230-368 | The statements of one exchange back to back are one atomic step: predecessor rotated, successor stored, nothing else touched |
| ReuseDetection.ConsecutiveRevocation | internal/storage/sqlite/refreshcred.go:189-205 | The statements of a revocation back to back revoke the whole lineage |
| ReuseDetection.SurvivorUnderReadCommitted | internal/storage/postgres/store.go:70-112 | A run from the empty database in which reuse is detected, the revocation commits, and a successor stays active and is exchanged |
| TokenService.ListByLineage | internal/storage/sqlite/refreshcred.go:109-125 | Exactly the owner's rows of the lineage, each once; the whole lineage when it has one owner |
| TokenService.RevokeLineageKills | internal/auth/tokenservice.go:445-462 | A serialized revocation leaves the lineage dead and the table sound |
| TokenService.Service.Issue | internal/auth/tokenservice.go:163-196 | A refused or failed issue (owner, scopes, label, storage) stores nothing; otherwise the root is stored with its ninety-day deadline, a failing mint notwithstanding; a returned pair names the stored row, its secret and a fifteen-minute access token of that row; the table stays sound |
| Credentials.ValidateClientLabel | internal/auth/token.go:275-288 | Accepts exactly the labels of at most 64 bytes without control characters |
| Credentials.LabelIsPrintable | internal/auth/token.go:275-288 | An accepted label holds no line break, tab, escape or other terminal control |
| TokenService.Service.Exchange | internal/auth/tokenservice.go:208-387 | Any effect needs the stored digest of the presented secret and an active, undeleted owner; denied, replayed and rotating presentations each have exactly their effect under every fault; a replay kills the lineage and returns it for listing; a returned pair is a fifteen-minute access token and the secret of the row stored; no fault leaves a half-done rotation |
| TokenService.ExchangeMeans | internal/auth/tokenservice.go:208-387 | What an exchange did, field by field: any effect comes from the right secret and an active owner; a pair means one row rotated, one stored with the inherited grant and deadline, no other touched; a revocation means a spent credential was presented, and exactly its lineage revoked |
| TokenService.ExchangeActs | internal/auth/tokenservice.go:230-368 | The converse without faults: the right secret of an active, unexpired credential gets a pair, of a spent one revokes every row of the lineage |
| TokenService.PairIsAccepted | internal/auth/tokenservice.go:467-489 | The refresh token of a returned pair parses back to its identifier and secret and would be rotated; the pair round trip |
| TokenService.Service.ExchangeToken | internal/auth/tokenservice.go:208-407 | From the presented string: no refresh token, no effect; otherwise the exchange's effect, with the revoked rows listed on the denylist up to the first that cannot be |
| TokenService.Service.RevokeSpent | internal/auth/tokenservice.go:445-462 | Revokes the whole lineage or, on a fault, changes nothing; lists it unless the listing fails |
| TokenService.VerifyAccess | internal/auth/tokenservice.go:422-434 | A presented string is accepted iff prefix, shape, MAC and claims verify and the denylist positively answers "not listed" |
| AccessTokens.IssuedTokenVerifies | internal/auth/accesstoken.go:150-181 | An issued token verifies exactly inside its window truncated to seconds |
| AccessTokens.AcceptedWasIssued | internal/auth/accesstoken.go:191-266 | Every accepted string speaks for an issued token inside that token's window |
| AccessTokens.AcceptedIsAuthentic | internal/auth/accesstoken.go:191-266 | Every accepted string carries the MAC of its payload and version 1 claims, whole, grantable and within their window, and yields exactly those claims |
| Denylist.CredentialKeyInjective | internal/auth/denylist.go:238-241 | Different credentials have different denylist keys |
| Denylist.ApprovalKeyInjective | internal/auth/enrollment.go:380-390 | Different owners have different approval keys |
| Denylist.KeyspacesDisjoint | internal/auth/denylist.go:238-241 | No denylist key is an approval key |
| Denylist.RevokeLineage | internal/auth/denylist.go:204-222 | The store afterwards is the listing of exactly the rows before the first that cannot be listed, cutoff applied; success iff there is none |
| Denylist.ListedHoldsKeys | internal/auth/denylist.go:204-222 | Every row listed that was issued after the cutoff has its key in the store |
| Denylist.OldRowsAddNothing | internal/auth/denylist.go:204-222 | Rows issued before it add nothing |
| Denylist.Check | internal/auth/denylist.go:123-152 | Permits only on a positive "not listed" answer |
| Revocation.NextKeepsWorld | internal/auth/tokenservice.go:391-407 | Every act of minters, revokers, verifiers and unrelated writers keeps the shield: each listed credential's entry outlives its tokens by the clock margin |
| Revocation.PlayKeepsWorld | internal/auth/denylist.go:204-228 | The same over every run |
| Revocation.RevocationIsComplete | internal/auth/denylist.go:204-228 | Once a lineage is dead and fully listed, every access token ever minted from it is refused at every later moment by every instance whose clocks differ by at most the skew |
| Revocation.AccessEndsWithLineage | internal/auth/accesstoken.go:249-256 | No access token of a lineage is accepted ninety days and fifteen minutes after its root |
| Revocation.SkewIsTight | internal/auth/denylist.go:27 | For all clocks that disagree by more, some run with current readings only accepts a token of a dead, fully listed lineage |
| ReplayRevocation.ReplayResponseIsComplete | internal/auth/tokenservice.go:296-407 | From any reachable detected reuse: revocation, read-back and listing, interleaved with anything but an exchange of that lineage during the statement, leave every token of the lineage refused for ever |
| ReplayRevocation.ListingLoopIsListed | internal/auth/denylist.go:204-222 | The listing acts of the interleaved world leave exactly the store the denylist's own listing leaves |
| Enrollment.StepKeepsInv | internal/auth/enrollment.go:299-526 | Every statement of interleaved enrollment calls keeps: owners bound by consent, calls carry what they hold, lineages belong to one pairing, at most one recorded redemption |
| Enrollment.ExecKeepsInv | internal/auth/enrollment.go:299-526 | The same over every run |
| EnrollmentSafety.PairingIsSingleUse | internal/auth/enrollment.go:407-461 | Over every run at most one Redeem of a pairing returns tokens; they belong to the recorded lineage and to the only owner who consented |
| EnrollmentProvenance.ReceiptNeedsCode | internal/auth/apitoken.go:93-148 | Over every run, tokens are returned only for a pairing whose device code was presented within the ten minutes after its creation, with grantable scopes and an owner found active |
| EnrollmentProvenance.OwnerNeedsConsent | internal/auth/enrollment.go:299-367 | Over every run, a pairing has an owner only through that owner's own mint or in-time approval |
| EnrollmentSafety.OnlyRecordedLineageLives | internal/auth/enrollment.go:431-457 | With no redemption in flight, a live lineage born of a pairing is the recorded one |
| EnrollmentSafety.OwnerIsWriteOnce | internal/auth/enrollment.go:299-367 | A set owner never changes, and the device-code link always names that owner |
| EnrollmentSafety.LateRedeemIsCompensated | internal/auth/enrollment.go:431-457 | From a withdrawal on, over every continuation, no redemption of the pairing returns tokens, and once none is in flight only a lineage recorded before the withdrawal can live |
| EnrollmentSafety.LiveIffRecorded | internal/auth/enrollment.go:512-526 | A settled pairing has a live credential iff its recorded lineage is live |
| EnrollmentSafety.WithdrawalOutcome | internal/storage/sqlite/pairing.go:182-197 | The withdrawing write applies exactly to the statuses the adapter admits and touches no lineage |
| EnrollmentSafety.WithdrawnHasNoCredential | internal/auth/enrollment.go:476-501 | A withdrawn, settled pairing has no live credential |
| EnrollmentSafety.SqlRevokeReachesIff | internal/storage/sqlite/pairing.go:182-197 | With the SQL adapters a revocation leaves nothing live if and only if the pairing was not redeemed into a live lineage |
| EnrollmentSafety.AdapterRevokeReachesIff | internal/auth/enrollment.go:476-501 | With an adapter that withdraws redeemed pairings and revokes lineages in one step, the revocation is complete iff no redemption was recorded between its read and its write |
| EnrollmentSafety.RedeemedOutlivesRevoke | internal/auth/enrollment.go:476-501 | A reachable state in which the owner's revocation is refused and the device's lineage stays live |
| EnrollmentService.Service.Redeem | internal/auth/enrollment.go:407-461 | Any effect needs the stored digest of the device code, before its expiry, on an approved pairing whose link names its active owner; tokens iff moreover the row met at the write is redeemable by that owner; otherwise the minted lineage is compensated |
| EnrollmentService.Service.RedeemCode | internal/auth/enrollment.go:407-461 | A string that is no device code, or the wrong secret, has no effect; tokens iff the code, the link and the row met at the write agree |
| EnrollmentService.Service.Revoke | internal/auth/enrollment.go:476-501 | Succeeds iff the caller owns the pairing at the read and at the write, and the status met there is one the adapter withdraws; then kills the lineage seen at the read |
| EnrollmentService.RedeemRefines | internal/auth/enrollment.go:407-461 | The object's Redeem is the interleaved machine's statements with one interference, to the same rows, lineages and receipts |
| EnrollmentService.RevokeRefines | internal/auth/enrollment.go:476-501 | The object's Revoke is the interleaved machine's statements with one interference |
| ApprovalLimit.CheckApprovalLimit | internal/auth/enrollment.go:380-390 | One attempt is counted; passes iff the store answers and the budget is not spent |
| ApprovalLimit.IntervalBudget | internal/auth/enrollment.go:380-390 | Over any run of the shared store an owner passes at most 39 times in any interval one window long |
| ApprovalLimit.WindowBudget | internal/auth/enrollment.go:380-390 | At most twenty attempts pass per window |
| ApprovalLimit.IntervalBudgetIsTight | internal/counter/memory.go:102-117 | A run in which 39 attempts pass inside one window's length |
| ApprovalLimit.ApprovalIsForeignToDenylist | internal/auth/enrollment.go:380-390 | Approval counting is among the unrelated writes the revocation theorem allows |
| ApprovalLimit.DenylistIsForeignToApproval | internal/auth/denylist.go:204-222 | A denylist write leaves every owner's count alone |
| CounterStore.MemoryStore.constructor | internal/counter/memory.go:68-80 | A new store is valid and empty |
| CounterStore.MemoryStore.Increment | internal/counter/memory.go:83-118 | Answers and behaves as a plain map without sweeping; each refusal leaves the store alone; the map kept is the swept one |
| CounterStore.MemoryStore.Get | internal/counter/memory.go:121-140 | The plain map's answer |
| CounterStore.MemoryStore.Delete | internal/counter/memory.go:143-157 | The plain map without the key |
| CounterStore.MemoryStore.Sweep | internal/counter/memory.go:175-182 | Removes exactly the expired entries, invisibly |
| CounterStore.MemoryStore.SweepAfterWrite | internal/counter/memory.go:187-194 | Purges on every 256th write, and entries not written since are those the last purge left |
| CounterStore.MemoryStore.Residency | internal/counter/memory.go:12-21 | Residents are at most those the last purge left plus writes since; expired ones at most the writes since plus those it left that expired, so fewer than 256 while none of those has |
| CounterStore.MemoryStore.Purge | internal/counter/memory.go:197-203 | Keeps exactly the unexpired entries |
| CounterStore.LiveExpiryIsFixed | internal/counter/memory.go:102-117 | Over any history with purges, a live key keeps its expiry and its value is what it was plus the deltas since |
| CounterStore.OpenedWindow | internal/counter/memory.go:102-117 | A window lasts exactly its time to live and counts exactly the deltas since it opened |
| CounterStore.WindowReads | internal/counter/memory.go:121-140 | Read at any instant, a window shows the deltas since it opened and the time it still has, and zero once it is over |
| CounterStore.PurgeKeepsTheLive | internal/counter/memory.go:197-203 | A purge leaves no expired entry and every live one as it was |
| CounterStore.PurgeInvisibleIff | internal/counter/memory.go:197-203 | A purge at one instant is invisible to every store and key at another iff the reading is not earlier |
| CounterStore.PurgesNeverShow | internal/counter/memory.go:187-203 | Over any timely run, purges inserted anywhere change no later answer |
| CounterStore.ExpiredBoundIff | internal/counter/memory.go:12-21 | Fewer than n expired residents at every instant iff fewer than n residents |
| CounterStore.Fill | internal/counter/memory.go:83-118 | n increments of a new store reach the store with n such entries |
| CounterStore.ExpiredResidentsUnbounded | internal/counter/memory.go:12-21 | For every n that store holds n entries, all expired one tick later |
| Failover.BackoffClosedForm | internal/counter/failover.go:291-297 | After n failures the delay is the base times 2 to the n capped at one hour, for every 64-bit base |
| Failover.CeilingIff | internal/counter/failover.go:116-125 | For every configured 64-bit interval, every wait is within an hour iff the configured one is; without one the base is five minutes |
| Failover.SettlesAtOneHour | internal/counter/failover.go:291-297 | A long outage settles at exactly one hour |
| Failover.StepKeepsInv | internal/counter/failover.go:239-280 | Every atomic step of requests and reprobe loop keeps the outage in exactly one pair of hands, with failovers, wakeups and recoveries balanced |
| Failover.ExecKeepsInv | internal/counter/failover.go:239-280 | The same over every run |
| Failover.NoLostWakeup | internal/counter/failover.go:239-280 | Degraded iff exactly one of sender, slot, loop holds the outage; no signal is dropped; an open degraded store is never left with nothing to wake the loop |
| Failover.Routing | internal/counter/failover.go:165-210 | A request reaches the primary only when it met the flag down, the fallback only when it met it up or flipped it, and is answered only by the store it reached |
| Failover.WaitsFollowBackoff | internal/counter/failover.go:260-277 | Every wait is the backoff of the failures of its own outage |
| Failover.RecoveryIsReachable | internal/counter/failover.go:251-280 | From every reachable degraded state of an open store at most six steps, none a new request, end the outage |
| Failover.Store.MarkDegraded | internal/counter/failover.go:239-246 | Only the flip signals, and it never blocks |
| Failover.Store.Increment | internal/counter/failover.go:165-180 | The primary's outage never reaches the caller; a healthy primary's answer is passed through with the fallback untouched |
| Candidates.ExpandCandidates | internal/blocklist/match.go:608-659 | Refuses iff more than 12 positions or 4096 readings; otherwise exactly all pointwise re-readings, the skeleton first |
| Candidates.ExpansionMembers | internal/blocklist/match.go:640-658 | The expansion's members are exactly the re-readings and its length the product of the choices, for every table |
| Candidates.ExpansionDistinct | internal/blocklist/match.go:640-658 | No candidate is produced twice |
| Candidates.TwelveStrokes | internal/blocklist/tables.go:194-217 | With the table in force the refusal is exactly "more than twelve" |
| Candidates.StrokeReadings | internal/blocklist/tables.go:194-196 | The re-readings are exactly the strings with any of the letters i read as l |
| Candidates.FindPositions | internal/blocklist/match.go:612-621 | The ambiguous positions, or nothing past the twelfth |
| Candidates.FitsCeiling | internal/blocklist/match.go:632-638 | The early-exit product decides the ceiling exactly |
| Skeletons.SanitizeInput | internal/blocklist/skeleton.go:212-226 | The loop is the rune-wise first stage |
| Skeletons.ComputeSkeleton | internal/blocklist/skeleton.go:119-161 | The fast path and the pipeline agree on every input; what they compute is pinned by the laws below |
| Skeletons.FoldRunes | internal/blocklist/skeleton.go:139-160 | The loop is the rune-wise last stage |
| Skeletons.RuneBecomes | internal/blocklist/skeleton.go:119-161 | What each rune that is not a look-alike folds to: its lowercase, the letter a digit or symbol is read as, nothing for separators and ignorables |
| Skeletons.LookalikeDraws | internal/blocklist/skeleton.go:212-226 | A look-alike, in either case, folds to the letters it draws |
| Skeletons.ErrorVanishes | internal/blocklist/skeleton.go:212-226 | An undecodable rune folds to nothing |
| Skeletons.RuneRemains | internal/blocklist/tables.go:230-243 | Nothing else vanishes |
| Skeletons.CaseBlind | internal/blocklist/skeleton.go:139-160 | Recasing any of the letters leaves the skeleton alone |
| Skeletons.FormFoldsAsItsPieces | internal/blocklist/skeleton.go:119-161 | A compatibility form folds as the runes it decomposes into |
| Skeletons.FoldIsSkeleton | internal/blocklist/skeleton.go:139-160 | On strings without look-alikes and forms the last stage is the whole skeleton |
| Skeletons.SkeletonIsAdditive | internal/blocklist/skeleton.go:119-161 | The skeleton function has the additivity the fragment theorem needs |
| Skeletons.SkeletonIsIdempotent | internal/blocklist/skeleton.go:166-192 | A skeleton is its own skeleton |
| Skeletons.SkeletonIsClean | internal/blocklist/tables.go:28-114 | No skeleton holds a table key, separator, uppercase letter or ignorable |
| Skeletons.SkeletonAppend | internal/blocklist/skeleton.go:119-161 | A skeleton is the concatenation of its pieces' skeletons |
| Skeletons.PaddingIsInvisible | internal/blocklist/tables.go:230-243 | Padding that folds to nothing changes no skeleton wherever it is inserted |
| Skeletons.BasicIsClosed | internal/blocklist/tables.go:28-114 | ASCII, the confusables with every capital whose lowercase is one, fullwidth forms, marks and more meet the assumption on Unicode data |
| Matcher.CompileTerms | internal/blocklist/match.go:414-432 | Accepts iff every skeleton is non-empty and new; the index and the order hold exactly the terms |
| Matcher.CompileLists | internal/blocklist/match.go:390-452 | Accepts iff names, modes and terms are all sound; whole-skeleton lists first, stable within a mode |
| Matcher.FindHit | internal/blocklist/match.go:534-563 | The first hit in list, candidate and term order, or none at all |
| Matcher.FirstHitIsUnique | internal/blocklist/match.go:303-322 | The reported term is determined by the lists and the input |
| Matcher.CatchesIffRefuses | internal/blocklist/match.go:547-563 | Compilation preserves what a list refuses |
| Matcher.Matcher.constructor | internal/blocklist/match.go:390-452 | Ready iff the lists are acceptable; nothing exempt, nothing added |
| Matcher.Matcher.SetAllowlist | internal/blocklist/allowlist.go:62-81 | All or nothing, iff the entries are acceptable |
| Matcher.Matcher.SetExtraTerms | internal/blocklist/allowlist.go:130-155 | All or nothing, iff the terms are acceptable |
| Matcher.Matcher.Check | internal/blocklist/match.go:476-566 | Allowed iff built, short, comparable, and exempt or no reading of it is a reserved word, an added term or holds a fragment; the reason; and when blocked the first hit, an administrator's term before any curated one, a whole word before any fragment |
| Common.Utf8Bounds | internal/blocklist/match.go:480-482 | The byte length is between one and four per rune, and one exactly on ASCII |
| Matcher.OrderDoesNotDecide | internal/blocklist/match.go:316-322 | Permuting the lists never changes what is allowed |
| Matcher.TermIsRefused | internal/blocklist/match.go:476-566 | Every listed term is itself refused unless exempt |
| Matcher.SameSkeletonIsRefused | internal/blocklist/match.go:534-563 | So is every input with a listed term's skeleton |
| Matcher.VerdictInFull | internal/blocklist/match.go:476-566 | The verdict written out: at most 256 bytes, something left after folding, and exempt, or at most twelve strokes and no re-reading equal to a reserved word or an added term or holding a fragment |
| Matcher.Matcher.ReportedInOrder | internal/blocklist/match.go:303-322 | When several terms could be reported, an administrator's is reported before any curated one and a whole word before any fragment |
| Matcher.PickedKeepOrder | internal/blocklist/match.go:303-322 | Lists of one mode are consulted in the order given |
| Spelling.SpellingFolds | internal/blocklist/skeleton.go:119-161 | A fold that drops padding and turns each drawing into what it draws turns every spelling into what it spells |
| Disguises.DrawnIsDrawn | internal/blocklist/tables.go:28-114 | Every capital, leet digit and look-alike of the tables folds to the letters it draws |
| Disguises.DisguiseFolds | internal/blocklist/tables.go:28-243 | Every disguise of a word, letters redrawn and padding inserted at will, has the word as its skeleton |
| Disguises.RedrawnIsDisguise | internal/blocklist/tables.go:28-114 | Redrawing each letter of a word, and padding it anywhere, is such a disguise |
| Disguises.DisguiseIsRefused | internal/blocklist/match.go:476-566 | Every disguise of a listed word is refused, unless the word is exempt |
| Disguises.DisguisedFragmentIsRefused | internal/blocklist/match.go:556-562 | Every identifier holding a disguise of a forbidden fragment is refused, unless exempt |
| Disguises.CapitalFolds | internal/blocklist/skeleton.go:139-160 | Every ASCII capital folds to its small letter |
| Disguises.FullwidthFoldsAsAscii | internal/blocklist/skeleton.go:119-161 | Every fullwidth form folds as its ASCII counterpart |
| Matcher.ExtraTermIsRefused | internal/blocklist/allowlist.go:130-155 | Every added term is itself refused unless exempt |
| Matcher.FragmentIsRefusedAnywhere | internal/blocklist/match.go:556-562 | Any identifier with a piece that reads as a forbidden fragment is refused unless exempt |
| Matcher.ExemptionIsExact | internal/blocklist/allowlist.go:199-206 | One more exemption opens exactly the examinable identifiers of its own skeleton |
| Scopes.ValidateScopes | internal/auth/token.go:220-248 | Accepts exactly the grantable sets |
| Scopes.GrantableIff | internal/auth/token.go:220-248 | The grantable sets are five: full owner, read-only, one binding, and one binding with read-only in either order |
| Scopes.PermitsAccess | internal/auth/authorization.go:401-482 | The two-pass loop decides the declared authority |
| Scopes.GrantableAuthority | internal/auth/authorization.go:401-482 | On grantable sets: read-only forbids mutation, and full-owner, read-only alone, or the one binding names the resource |
| Scopes.AuthorityTable | internal/auth/authorization.go:401-482 | What each of them permits, case by case; the empty set nothing |
| Scopes.UnknownGrantsNothing | internal/auth/authorization.go:447-482 | A kind this server does not know is not grantable and permits nothing |
| Scopes.OrderIndependent | internal/auth/authorization.go:401-482 | Authority ignores order |
| Scopes.ReadOnlyNarrows | internal/auth/authorization.go:401-482 | Read-only removes exactly the mutations of a binding |
| Scopes.OneResource | internal/auth/token.go:220-248 | A set with a binding reaches at most one resource |
| Base64Url.RoundTrip | internal/auth/token.go:153-184 | Decoding undoes unpadded base64url (section 5 of RFC 4648), whose output is canonical, dot-free and of known length |
| Base64Url.AlphabetIsRFC4648 | internal/auth/token.go:153-184 | The 64 symbols are those of the table in section 5 of RFC 4648 |
| Base64Url.DecodesIff | internal/auth/token.go:164-184 | Decodes iff every character is a symbol or a line break and the symbols do not leave a lone one |
| Base64Url.CanonicalIff | internal/auth/token.go:164-184 | Encoding undoes decoding exactly on canonical spellings |
| TokenFormat.ParseFormat | internal/auth/token.go:153-184 | Parsing undoes printing for every prefix, id and secret |
| TokenFormat.ParseIff | internal/auth/token.go:164-184 | A string parses to an identifier and secret iff it is the prefix, 22 decodable characters, a dot and a dot-free spelling of the 32 bytes |
| TokenFormat.FreshIdPrints | internal/auth/token.go:107-109 | Every drawn identifier has the shape the parser wants |
| TokenFormat.FormatParseIff | internal/auth/token.go:164-184 | Printing undoes parsing iff the secret part is canonical |
| TokenFormat.SecondSpelling | internal/auth/token.go:164-184 | Every accepted token has another accepted spelling |
| TokenFormat.KindsAreDisjoint | internal/auth/pairingcode.go:284-314 | No string carries the prefix of two token kinds |
| UserCode.NormalizeUserCode | internal/auth/pairingcode.go:250-276 | The loop computes the normal form or refuses |
| UserCode.NewUserCode | internal/auth/pairingcode.go:215-230 | A well-formed code and its grouped display |
| UserCode.EverySymbolEightTimes | internal/auth/pairingcode.go:215-230 | Each of the 32 symbols is drawn by exactly eight of the 256 byte values, so a uniform byte draws a uniform symbol |
| UserCode.TranscriptionNormalizes | internal/auth/pairingcode.go:250-276 | Every transcription of a code (case, spaces, dashes, 1 and I for L) normalizes to it |
| UserCode.NormalizesIff | internal/auth/pairingcode.go:250-276 | And nothing else does: an ASCII string normalizes to a code iff it transcribes it |
| UserCode.DisplayedNormalizes | internal/auth/pairingcode.go:215-276 | Canonical codes are fixed and displayed codes map back |
| Propagation.CommonTXT | internal/dns01/propagation.go:74-126 | Exactly the values every answering address of every nameserver serves; nothing if a nameserver is unobserved or there is none |
| Propagation.Answered | internal/dns01/propagation.go:93-100 | Unobserved is kept apart from serving nothing |
| Propagation.Intersect | internal/dns01/propagation.go:130-144 | No running set seeds, a running set narrows |
| Propagation.Keys | internal/dns01/propagation.go:148-154 | Each member once |
| Propagation.MoreAnswersNeverAdd | internal/dns01/propagation.go:48-56 | One more nameserver never adds a value, and must be observed |
| RecordSets.IndexOf | internal/dns01/gandi.go:327-334 | The first recognized record, or none |
| RecordSets.PlaceOfOurs | internal/dns01/gandi.go:189-196 | A missing value is added at the end, a held one is left; a cleanup takes out the first record that matches and no other |
| RecordSets.RunKeepsForeign | internal/dns01/gandi.go:174-267 | Over any run of publishes and cleanups, applied or lost, foreign records stay in order, up to filling |
| RecordSets.HeldIffUnsettled | internal/dns01/gandi.go:233-267 | A value is held at the end iff its last applied call was a publish |
| RecordSets.CleanupsRestore | internal/dns01/gandi.go:174-267 | Once every value is settled the original set is back, up to filling |
| RecordSets.RestoresIff | internal/dns01/gandi.go:227-252 | Publish and cleanup restore the set iff it did not hold the value |
| Gandi.Zone.Publish | internal/dns01/gandi.go:174-225 | The next rrset under every outcome; a cleanup comes back whenever anything changed |
| Gandi.Zone.Withdraw | internal/dns01/gandi.go:233-267 | The next rrset under every outcome; absent is success without a write |
| Gandi.ForeignValuesStay | internal/dns01/gandi.go:189-196 | Foreign values stay byte for byte and in order over any run |
| DnsText.SameContentIff | internal/dns01/gandi.go:336-344 | A stored value is the challenge iff it is its text, quoted once or not at all |
| Gandi.TtlStays | internal/dns01/gandi.go:197-203 | Beside a foreign value the TTL moves at most up to the floor |
| Gandi.CleanupsRestoreRRSet | internal/dns01/gandi.go:174-267 | After all cleanups the rrset is back, absent if it was, its TTL at most raised to the floor |
| Gandi.RestoresExactlyIff | internal/dns01/gandi.go:227-267 | Publish and cleanup restore the rrset exactly iff it held no equal value and was absent or met the TTL floor |
| Gandi.RemovesAnEqualForeignValue | internal/dns01/gandi.go:227-252 | A concrete rrset whose own value the cleanup removes |
| Namecheap.Domain.SetHosts | internal/dns01/namecheap.go:460-493 | The stored set is the given one with empty fields filled |
| Namecheap.FillingKeepsTheRest | internal/dns01/namecheap.go:468-483 | Filling gives an empty priority 10 and an empty TTL 60 and touches nothing else |
| DnsText.FoldsCaseOnly | internal/dns01/namecheap.go:502-509 | Two names match iff they differ at most in ASCII case |
| Namecheap.Domain.Publish | internal/dns01/namecheap.go:264-323 | The next host set under every outcome, a new challenge last as a TXT record of priority 10 and TTL 60; a domain served elsewhere is never written |
| Namecheap.Domain.Withdraw | internal/dns01/namecheap.go:331-359 | The next host set under every outcome |
| Namecheap.ForeignHostsStay | internal/dns01/namecheap.go:264-359 | Every other record keeps its place and content up to filled defaults, over any run |
| Namecheap.ChallengeIff | internal/dns01/namecheap.go:502-509 | A record is taken for the challenge iff it is a TXT record at its host in any case, its value quoted once or not at all |
| Namecheap.UnrelatedRecordSurvives | internal/dns01/namecheap.go:264-359 | A record of another type, host or value is there after any run, at most with defaults filled |
| Namecheap.CleanupsRestoreHosts | internal/dns01/namecheap.go:264-359 | After all cleanups the host set is back, exactly when no field was empty |
| Namecheap.RestoresHostsIff | internal/dns01/namecheap.go:325-359 | Publish and cleanup restore the set iff it held no such record |
| ZoneWalk.CheckDomainName | internal/dns01/digitalocean.go:370-383 | The scan accepts exactly the plain domain names |
| ZoneWalk.DomainFor | internal/dns01/digitalocean.go:298-338 | Walks the parents within 32 labels, longest first: a domain iff the account answers for it by that name and every longer parent is a well-formed name it does not hold; each error iff such a walk meets a malformed name, a failed lookup or another domain's answer; gives up iff every parent is well-formed and not held |
| ZoneWalk.RebuildsIff | internal/dns01/digitalocean.go:350-365 | Relative name and parent rebuild the name iff the prefix is non-empty and the parent does not end in a dot |
| ZoneWalk.RelativeIsInside | internal/dns01/digitalocean.go:350-365 | A returned relative name is non-empty and splits the name at a spelling of the domain |
| ZoneWalk.RelativeIff | internal/dns01/digitalocean.go:350-365 | There is a relative name iff the record is the domain, then "@", or inside it at a label boundary |
| ZoneWalk.PlainNameStaysInPath | internal/dns01/digitalocean.go:370-383 | An accepted name holds no character that would leave its path segment |

## Left out

- TokenService.ListByLineage: the order by identifier is not modelled; nothing downstream depends on it.
- EnrollmentService.Service.Redeem: interference is the one row met at the write; arbitrary interleaving is the subject of Enrollment, which RedeemRefines connects to.
- EnrollmentService.Service.Revoke: the same, through RevokeRefines.
- EnrollmentSafety.AdapterRevokeReachesIff: the lineage revocation is one step; what it misses under PostgreSQL is the subject of ReuseDetection.RevocationOutcome.
- Skeletons.SkeletonAppend: without reordering of combining marks across the join.
- Credentials.ValidateClientLabel: a label is a sequence of runes, so the refusal of undecodable bytes has no counterpart.
- Client labels of pairings: StartDeviceGrant and Mint also validate a label, which the modelled pairing row does not carry.
- SHA-256, HMAC, JSON, random draws and constant-time comparison: abstract functions with the assumptions above; nothing is said about timing.
- Unicode: decomposition is rune by rune, without reordering of combining marks across runes, and `Skeletons.Closed` is an assumption on the data, met by the instance `Skeletons.BASIC`; input is a sequence of runes, so an undecodable byte is one U+FFFD.
- Matcher.Matcher.Check: the byte-length bound counts the UTF-8 length of the runes, so an undecodable byte counts three; the atomic swap of concurrent edits is one assignment.
- Candidates.ExpandCandidates: works on runes where the source scans bytes; the two agree because keys and readings are ASCII.
- Revocation.RevocationIsComplete: assumes fewer than 2^63 counter writes, since the stored count is a 64-bit integer.
- ApprovalLimit.IntervalBudget: assumes fewer than 2^63 attempts, for the same reason.
- ZoneWalk.DomainFor: case folding is ASCII, and lookups are a fixed function of the name during one walk.
- Namecheap.ForeignHostsStay: case folding of labels is ASCII; paging of account domains and the SLD/TLD split are not modelled.
- The denylist over a failover store: excluded by the store's own documentation.
- Poll, Guard.decide and the single-credential revocation: short compositions of members above.
- Deletion of expired credentials: no caller reaches it.
- Failover Get and Delete: the same branches as Failover.Store.Increment.
- Timers, probe timeouts and the termination of Close: they depend on scheduling.
- Redis store, rate-limit middleware, other DNS vendors and their request signing, HTTP plumbing, configuration and commands: wiring that would add easy members.
- Redaction methods, error wording, logging and audit detail: one-branch facts.
