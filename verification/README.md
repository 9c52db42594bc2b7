# A model of the gateway's hard parts

This project models, in Dafny, the parts of the gateway whose correctness is a matter of
interleavings, indexes, encodings and arithmetic, and proves what they promise for every input
and every run.

| module | what it models |
|---|---|
| `SessionBinding`, `Revocation` | the fingerprint a session is bound to, the per-node cache in front of the users table, and session revocation over any number of nodes |
| `SignIn` | the two steps of a sign-in: challenge tokens, session tokens, key changes and binding changes, over whole runs |
| `SecondFactor` | second factors encrypted at rest, key rotation and reconciliation, and their interleaving with code checks |
| `Lockout` | the stored failure count that bounds guesses at passwords and codes |
| `AuditChain`, `AuditOrder`, `AuditWindow`, `AuditTies` | the signed audit chain, the arrangement of entries stamped alike, and verification a window at a time, with and without entries stamped alike |
| `AuditWriter`, `AuditRetention` | the two writers of the audit log with failures and rollback, and retirement of old entries in archived chunks |
| `Paths`, `RouteOrder`, `PathTrie`, `Rules`, `RouteRegistry` | the flattened path trie and the host and wildcard indexes over the route list |
| `Migration` | the re-keying of IPv6 blocks to their /64 |
| `Limiter`, `BodyDeadline` | the adaptive limiter's score arithmetic and the progress-based body deadline |
| `GlobalRegistry` | the global configuration registry: secret references, rollback, certificate index |
| `Text`, `Wrappers` | decimal text, lexicographic order, joined fields; `Option` and `Result` |

How things are modelled:

- Cryptography is symbolic. The session digest is any injective function; the audit signature is
  any function with a non-empty result, and is taken to be collision-free only where a lemma says
  so; a sealed secret opens under its own key only; a token opens under the key and implicit
  assertion it was made with, and only the nodes of the deployment make tokens under a session key.
- Tables are maps, sequences or sets of rows. A statement or a transaction is one step that
  happens or does not.
- Concurrent code is a step relation: a run is a sequence of states and events, and every property
  "over whole runs" quantifies over all of them. A cache load is two steps, read and store; a
  password step is four (compare, take the time, read the binding, mint); a batch insert is
  separate from its signing and its rollback.
- Code that changes state is a class or a method with loops, proved against a specification
  function; the lemmas are about that function.
- Times are integers (nanoseconds unless said otherwise). int64 arithmetic in the body deadline is
  written out with its wrap-around. The limiter's floats are reals.
- Outside answers (clocks, failures, resolvers, address parsing) are parameters.

Several properties one would expect do not hold of the code as it stands. For each, a lemma gives
the case and another says exactly when the property does hold, for all inputs:

- A sign-out is refused "at once" on its own node only if no load that read the old binding is
  pending there (`Revocation.RevokedUnlessLoadPending`, `Revocation.SignOutOvertakenByALoad`).
- The stored audit rows verify if and only if every row was signed on top of an entry that is
  stored and comes before it in timestamp order (`AuditWriter.RowsVerifyExactlyWhen`). A lost insert,
  a late rollback and a clock behind the newest row after a restart each break this
  (`AuditWriter.LostEntryBreaksTheChain`, `AuditWriter.LateRollBackBreaksTheChain`,
  `AuditWriter.ClockBehindBreaksTheChain`).
- Retention leaves a suffix of the log if and only if nothing is inserted before an entry already
  deleted (`AuditRetention.RunRetainsExactlyWhen`, `AuditRetention.LateInsertIsLeftBehind`).
- A missing tail means tampering if and only if retention deletes by the audit setting
  (`AuditRetention.NoFalseAlarmExactlyWhen`).
- The text an audit signature covers determines the fields of an entry if and only if no field of
  it holds the separator (`AuditChain.PayloadCoversFieldsExactlyWhen`,
  `AuditChain.SeparatorMovesBetweenFields`).
- An intact audit log with entries in one instant verifies window by window if and only if no window
  cuts through an instant other than cleanly (`AuditTies.WindowsComposeWithTies`,
  `AuditTies.TieCutBreaksAnIntactLog`); a window that starts at a time has its own condition
  (`AuditTies.FromTimeVerifiesExactlyWhen`, `AuditTies.TiedFromTime`).
- A log from which entries were retired does not verify from its beginning
  (`AuditRetention.RetiredLogVerifiesExactlyWhenWhole`).
- Wrong codes that meet a busy hash gate are not counted, and the bound on guesses grows by
  those (`Lockout.GuessRate`, `Lockout.GuessRateIsTight`, `Lockout.WithinBoundExactlyWhenGateFree`).
- A code check may write back a second factor that another request replaced meanwhile
  (`SecondFactor.WriteBackChangesExactlyWhenOverwriting`, `SecondFactor.EnrolmentDuringCheckIsLost`).
- A session is issued within ChallengeLifetime of the password if and only if neither the challenge
  nor the code is delayed (`SignIn.WithinLifetimeExactlyWhenNoDelay`, `SignIn.SlowRun`).
- The kernel limits exactly the addresses whose state asks for it as long as no limited state is
  evicted to make room, and not otherwise (`Limiter.FindingInStep`).
- A block that ends within a second loses that part of a second in the migration
  (`Migration.RewritingKeepsAnswers`).
- The time a body has earned is exact only while N * 10^9 is below 2^63
  (`BodyDeadline.AllowanceIsExactExactlyWhen`, `BodyDeadline.LongBodyLosesItsTime`).
- Writing back resolved secrets keeps their references exactly when no resolved value is empty or
  itself a reference; after a load, writing back what is shown is no change exactly when the file
  loads clean; a refused update handed the live object can change it
  (`GlobalRegistry.ResolvedRoundTripExactlyWhen`, `GlobalRegistry.LoadIsConsistentExactlyWhen`,
  `GlobalRegistry.RefusedUpdateChangesLiveExactlyWhen`).

## Model

| member | source | states |
|---|---|---|
| `SessionBinding.FieldUniquelyReadable` | internal/auth/revocation.go:84-92 | a length-prefixed field can be read back off the front of whatever follows it |
| `SessionBinding.PreimageInjective` | internal/auth/revocation.go:66-92 | the hashed bytes are equal exactly when password hash, role, disabled flag and epoch all are |
| `SessionBinding.EpochZeroIsTheThreeFieldForm` | internal/auth/revocation.go:66-82 | the bytes equal the three-field form of an account exactly at epoch 0, so no later epoch can be mistaken for it |
| `SessionBinding.PreimageIs` | internal/auth/revocation.go:66-82 | the bytes in full: hash, role, the flag as "1" or "0", each after its length in eight bytes, and the epoch in decimal once above zero |
| `SessionBinding.LittleEndianAt` | internal/auth/revocation.go:85-89 | byte i of a length is the low byte of the length shifted right by i bytes |
| `Text.DecimalReads` | internal/auth/revocation.go:77-79 | the decimal form of an epoch reads back as it, with no leading zero |
| `SessionBinding.WriteField` | internal/auth/revocation.go:84-92 | the length loop and the two writes append exactly the length-prefixed field |
| `SessionBinding.ComputeBinding` | internal/auth/revocation.go:66-82 | the binding is the digest of exactly the preimage |
| `Revocation.BindingCache.constructor` | internal/auth/revocation.go:145-154 | an empty cache whose period is positive whatever was configured |
| `Revocation.BindingCache.Get` | internal/auth/revocation.go:171-180 | a hit exactly while the entry has not expired |
| `Revocation.BindingCache.Put` | internal/auth/revocation.go:182-189 | stores the binding for one period from now, and nothing else changes |
| `Revocation.BindingCache.Invalidate` | internal/auth/revocation.go:191-195 | drops that account's entry and no other |
| `Revocation.CurrentBinding` | internal/auth/revocation.go:199-229 | answers from the cache or with what the table holds for a live, enabled account; each error exactly in its case; only successes are cached |
| `Revocation.CheckSessionBinding` | internal/auth/revocation.go:269-287 | accepts exactly the binding the cache vouches for or, failing that, the table's; never tells that an account is disabled; and leaves in the cache what the table holds after a miss, whatever was presented |
| `Revocation.LoadOrigin` | internal/auth/revocation.go:199-229 | in any run every pending load read its binding from the table at an earlier step |
| `Revocation.EntryOrigin` | internal/auth/revocation.go:182-229 | in any run every cached binding was read by one load and expires one period after that load stored it |
| `Revocation.StalenessBound` | internal/auth/revocation.go:171-229 | with any number of nodes and any interleaving, an accepted token's binding was the table's for that live account no earlier than the TTL and the load's own delay ago |
| `Revocation.RevokedUnlessLoadPending` | internal/auth/manager.go:495-505 | after a mutation and its local drop, some continuation accepts the old binding on that node if and only if a load of it is pending |
| `Revocation.SignOutOvertakenByALoad` | internal/auth/revocation.go:199-229 | a run from a fresh start in which a load overtaken by a sign-out stores the old binding on that node, and a token carrying it is accepted |
| `Revocation.MutationEndsSessions` | internal/auth/revocation.go:41-82 | a statement ends an account's sessions exactly when it writes another password hash, another role (none being viewer), disables it, signs it out, resets its second factor or deletes it |
| `Revocation.StatementsAnswer` | internal/auth/queries.go:18-61 | what the table answers after each statement, in the columns: disabled is Disabled, enabled the binding of the row with the columns the statement wrote, deleted no row |
| `Revocation.StatementsElsewhere` | internal/auth/queries.go:18-61 | where there is no row only a create does anything, giving an enabled account at epoch 0; no statement touches another account |
| `Revocation.SignOutIsPermanent` | internal/auth/revocation.go:252-262 | while the row is not deleted, no later mutations by any node bring back a binding from before a sign-out |
| `Revocation.SignOutReaches` | internal/auth/revocation.go:318-334 | once a sign-out, made on any node, has reached a node as its own or as a peer's message, that node never again accepts the old binding, given no load of it was pending |
| `Revocation.RevocationsAreDeliverable` | internal/auth/manager.go:495-505 | a revocation a node has announced can be delivered to every node, then and ever after |
| `Revocation.SignOutOnItsOwnNode` | internal/auth/revocation.go:247-262 | the node that signed out never again accepts the old binding, given no load of it was pending |
| `Revocation.RefusedEverywhere` | internal/auth/revocation.go:171-229 | on every node, with every peer message lost, a binding the table no longer holds is accepted no later than the TTL and the largest load delay after it ceased to |
| `Revocation.SignOutEverywhere` | internal/auth/revocation.go:247-262 | on every node, with every peer message lost, a signed-out token is accepted no later than the TTL and the largest load delay after the sign-out |
| `Revocation.DisabledStays` | internal/auth/queries.go:18 | a disabled account answers Disabled until a statement enables or deletes it |
| `Revocation.DisabledEverywhere` | internal/auth/revocation.go:41-65 | so every token of a disabled account is refused on every node within the same time |
| `SignIn.ChallengeIsGoodExactlyWhen` | internal/auth/claims.go:122-162 | a challenge is accepted exactly for its account, under its key, within its lifetime, while its binding is in force |
| `SignIn.SessionIsGoodExactlyWhen` | internal/auth/manager.go:439-490 | a session is accepted, as its account, exactly under its key, from its making to the end of its lifetime, while its binding is in force |
| `SignIn.NeverBothSessionAndChallenge` | internal/auth/manager.go:439-490 | no token is accepted both as a session and as a challenge; the implicit assertion and the purpose claim each suffice |
| `SignIn.PasswordBehind` | internal/auth/manager.go:380-387 | every request about to mint a challenge showed the right password earlier, took its time no earlier and read the binding in force after that |
| `SignIn.MintBehind` | internal/auth/claims.go:122-135 | every token there is was made by an event of the run |
| `SignIn.MintedSessionsAreGoodExactlyWhen` | internal/auth/manager.go:439-490 | in any run a node accepts a token exactly when it was minted as a session, under the key the node has now, no longer ago than a session lives, with the binding in force there, and then as the account it was minted for |
| `SignIn.CheckBehind` | internal/auth/claims.go:140-162 | every request past its challenge opened it, and past its check found its binding in force |
| `SignIn.ChallengeBehind` | internal/auth/claims.go:122-162 | a challenge that opens was made by a password step for the same account, with the binding read then |
| `SignIn.SessionsNeedThePassword` | internal/auth/manager.go:1056-1115 | every session Verify2FA issues in any run was preceded by the same account's correct password, under the same session key, with the binding in force at the check; and it is issued within the challenge's lifetime of the password and of the two delays on the way |
| `SignIn.OpenedInTime` | internal/auth/claims.go:153-155 | however a session came about, its challenge was opened within its lifetime |
| `SignIn.WithinLifetimeExactlyWhenNoDelay` | internal/auth/manager.go:901-914 | every session with given delays, from password to challenge and from challenge to session, is issued within the lifetime of its password if and only if both delays are zero |
| `SignIn.SlowRun` | internal/auth/manager.go:1151-1164 | for any two delays a run from the start whose session is issued a lifetime and both delays after its password, less a nanosecond |
| `SecondFactor.OpensExactlyWhen` | internal/auth/crypto.go:51-108 | what is stored opens exactly if it is nothing, was never sealed, or is sealed under the key, and to what was sealed; what is no ciphertext opens under no key |
| `SecondFactor.MoveConserves` | internal/auth/manager.go:795-840 | a secret that opens under the new key or the old one opens to the same text afterwards, sealed under the new key; one that opens under neither is unchanged |
| `SecondFactor.Manager.MoveSecondFactors` | internal/auth/manager.go:795-830 | the loop in a transaction: all secrets moved with the exact counts of moved and unreadable, or, on any failure, no change |
| `SecondFactor.Manager.UpdateSymmetricKey` | internal/auth/manager.go:737-754 | a short key or a failed re-encryption leaves key and secrets; success moves every secret and then the key; the same key changes nothing |
| `SecondFactor.Manager.Reconcile` | internal/auth/manager.go:778-790 | moves under the key in force what the first 32 bytes of the previous secret open, nothing sealed when none is named, and reports exactly how many |
| `SecondFactor.RowStep` | internal/auth/manager.go:807-828 | one row is exactly one of left alone, unreadable or moved, and counted so |
| `SecondFactor.SecondPassMovesNone` | internal/auth/manager.go:773-790 | a second pass changes no row, moves none and calls the same accounts unreadable |
| `SecondFactor.RunKeepsLock` | internal/auth/manager.go:1060-1062 | in any run, what a check holds under the read lock still opens under the key in force to what the check read |
| `SecondFactor.RowStaysWhileHeld` | internal/auth/manager.go:1060-1062 | while a check holds the lock, row and key change by writes of that row only: no rotation gets in |
| `SecondFactor.FactorsSurvive` | internal/auth/manager.go:737-840 | over any interleaving of checks with write-backs, rotations and reconciles, a factor nobody replaces opens to the same text under whatever key is in force |
| `SecondFactor.ReplacementsTake` | internal/auth/manager.go:1011-1016 | an enrolment leaves the secret enrolled, sealed under the key in force; a reset and a new account leave none; no other account changes |
| `SecondFactor.EnrolmentLasts` | internal/auth/manager.go:737-840 | an enrolment made while no check of that account is under way opens to what was enrolled through everything that does not replace it |
| `SecondFactor.UnreadableStays` | internal/auth/manager.go:807-819 | an unreadable factor stays as stored until it is replaced or its key returns |
| `SecondFactor.WriteBackChangesExactlyWhenOverwriting` | internal/auth/manager.go:1151-1189 | in any run a check's write-back restores what the check read, and changes what the factor opens to exactly when the last request to write that row since then left it opening to something else |
| `SecondFactor.EnrolmentDuringCheckIsLost` | internal/auth/manager.go:1011-1016 | a run in which an enrolment made during a check is overwritten by the check's write-back |
| `Lockout.Account.HandleFailedLogin` | internal/auth/manager.go:1246-1267 | one more failure whatever count the caller had read, and a lock of fifteen minutes from now exactly when that count was at least four |
| `Lockout.Account.ResetFailedAttempts` | internal/auth/manager.go:1269-1274 | no failures and no lock |
| `Lockout.Account.ConfirmPassword` | internal/auth/manager.go:938-972 | success exactly for an unlocked, enabled account whose right password got a hash slot; then the counter is cleared, a wrong one counts and locks from the fifth on, anything else leaves it |
| `Lockout.Account.CheckCode` | internal/auth/manager.go:1083-1115 | success exactly for an unlocked, enabled account with a readable factor whose code is the authenticator's or a recovery code, written back, with its session issued; the counter cleared, raised or left in exactly which case |
| `Lockout.EarlyBound` | internal/auth/manager.go:1246-1256 | the guesses that do not lock number at most four between resets |
| `Lockout.LockingBound` | internal/auth/manager.go:1246-1256 | every locking guess of a period moves the lock a whole lockout further from its start |
| `Lockout.GuessRate` | internal/auth/manager.go:1083-1115 | in every sequential run between two resets, the wrong passwords and codes compared in any period number at most MaxFailedAttempts, one per whole lockout, and the codes of that period that met a busy hash gate |
| `Lockout.GuessRateWhileGateFree` | internal/auth/manager.go:938-972 | so the bound without the last term holds of every period in which no wrong code meets a busy gate |
| `Lockout.GuessRateIsTight` | internal/auth/manager.go:1246-1256 | for any period and any number of codes that met a busy gate in it, a run that makes as many guesses as the bound allows |
| `Lockout.WithinBoundExactlyWhenGateFree` | internal/auth/manager.go:1151-1164 | all periods of a length in which u codes met a busy gate are within MaxFailedAttempts and one per whole lockout if and only if u is zero |
| `Lockout.UncountedExactlyWhenGateBusy` | internal/auth/manager.go:1151-1164 | a compared wrong guess leaves the counter alone exactly when recovery codes exist and the hash gate is busy |
| `Lockout.BusyGateLiftsTheBound` | internal/auth/manager.go:1100-1115 | with the gate busy, any number of codes is compared at one instant |
| `AuditChain.VerifyChain` | internal/audit/manager.go:387-415 | the loop gives the verdict of the specification: no key is refused as that, and with one exactly the intact chains are accepted |
| `AuditChain.VerdictMeaning` | internal/audit/manager.go:387-415 | accepted exactly when every entry is signed over its contents and its predecessor; otherwise the first faulty entry and its fault are named |
| `AuditChain.FaultsInOrder` | internal/audit/manager.go:393-412 | an entry without a signature is reported as that, else one with a wrong predecessor, else one whose signature is not its own |
| `AuditChain.FirstFaultIsReported` | internal/audit/manager.go:387-415 | the first fault determines index, id and reason |
| `AuditChain.OnlyPrefixesSurvive` | internal/audit/manager.go:387-415 | of an accepted chain's entries in any order and number, exactly the prefixes are accepted; otherwise the first departing position is reported |
| `AuditChain.EditDetected` | internal/audit/manager.go:335-340 | an edit in place is detected, at that entry, exactly when it changes the signed text |
| `AuditChain.EditOfPlainEntryDetected` | internal/audit/manager.go:387-415 | any edit of an entry without separators that keeps its signature is accepted exactly when no field and no second changes, and otherwise reported at that entry |
| `AuditChain.PayloadCoversFields` | internal/audit/manager.go:335-340 | the signed text of an entry without separators is shared by no entry that differs in a field or the second, whatever that one holds |
| `AuditChain.PayloadCoversFieldsExactlyWhen` | internal/audit/manager.go:335-340 | the signed text determines the fields and the second of an entry if and only if no field of it holds the separator |
| `AuditChain.SeparatorMovesBetweenFields` | internal/audit/manager.go:335-340 | for every entry with a separator in a field, another entry with the same signed text |
| `AuditChain.DistinctIdsSignDistinctly` | internal/audit/manager.go:335-340 | entries with distinct ids have distinct signatures |
| `AuditOrder.SearchTie` | internal/audit/verify.go:267-274 | the inner loop finds the first later entry of the same instant that follows `prev` |
| `AuditOrder.OrderTies` | internal/audit/verify.go:263-276 | the in-place loops compute the specified arrangement |
| `AuditOrder.OrderTiesPermutes` | internal/audit/verify.go:263-276 | a permutation that moves entries only among equal timestamps |
| `AuditOrder.OrderTiesFindsTheChain` | internal/audit/verify.go:263-276 | if the window can be arranged into a chain consistent with timestamp order, the result is that chain |
| `AuditOrder.OrderTiesKeepsDistinctTimes` | internal/audit/verify.go:263-276 | with distinct timestamps nothing moves |
| `AuditWindow.EffectiveLimit` | internal/audit/verify.go:78-82 | a limit from 1 to 5000 is kept, none is 1000 and a larger one 5000 |
| `AuditWindow.VerifyRange` | internal/audit/verify.go:69-99 | limit, window, tie order, chain check, cursor and tail check give the specified answer, errors included |
| `AuditWindow.CheckTail` | internal/audit/verify.go:113-130 | looks for the anchor unless there is none or it is older than the cutoff given, fails exactly when it looks and cannot read, and reports it missing exactly when no row has its id |
| `AuditWindow.FindRowExactlyWhen` | internal/audit/verify.go:188-200 | a cursor is unknown exactly when no row has its id |
| `AuditWindow.TruncationShowsInTheTail` | internal/audit/verify.go:101-130 | over an initial part of a log, a complete range without an end reports the newest entry, still within the retention period, missing exactly when entries were removed from the end |
| `AuditWindow.WindowAfter` | internal/audit/verify.go:166-204 | continuing after a row reads exactly the rows that follow it, from its signature |
| `AuditWindow.WindowIsAStretch` | internal/audit/verify.go:166-237 | every window, by cursor or by time and with or without an end, holds the rows past its start stamped no later than its end, all of them up to the limit and no others, from the signature of the row before |
| `AuditWindow.RangeRefusedExactlyWhen` | internal/audit/verify.go:69-99 | a range is refused exactly without a signing key or for an unknown cursor |
| `AuditWindow.RangeIsAStretch` | internal/audit/verify.go:69-149 | and is otherwise answered with the chain check of that stretch up to the limit, as unfinished exactly when the stretch is longer |
| `AuditWindow.RangeVerifiesExactlyWhen` | internal/audit/verify.go:69-149 | with distinct timestamps a range is unbroken exactly when each of those rows is intact in the log, counts them, and is complete exactly when they are the whole stretch |
| `AuditWindow.WindowAnswer` | internal/audit/verify.go:69-149 | a window's answer is the chain check of the next rows, those of one instant in chain order, from their own predecessor |
| `AuditWindow.DistinctWindowAnswer` | internal/audit/verify.go:69-149 | with distinct timestamps it is the chain check of the next rows as they are |
| `AuditWindow.WindowBreak` | internal/audit/verify.go:132-149 | a break a window finds is the first break of the whole log |
| `AuditWindow.WindowContinues` | internal/audit/verify.go:132-149 | a window that gives a cursor moves the client forward over intact rows |
| `AuditWindow.WindowEnds` | internal/audit/verify.go:132-149 | a window that gives none has found the log's first break or its end |
| `AuditWindow.FollowingPosition` | internal/audit/verify.go:69-149 | after any number of windows the rows checked are the first ones and intact |
| `AuditWindow.WindowsCompose` | internal/audit/verify.go:69-212 | over a log with distinct timestamps, following the cursor with any limits ends complete exactly when VerifyChain accepts the whole log, else at the same entry with counts adding up to it, in at most one window more than there are entries |
| `AuditTies.WindowFrom` | internal/audit/verify.go:69-149 | over any log, a window is unbroken exactly when what was read so far and the window, in chain order, are one chain |
| `AuditTies.RereadBreaks` | internal/audit/verify.go:188-204 | a window that starts before rows already checked reports a break |
| `AuditTies.WindowsComposeWithTies` | internal/audit/verify.go:69-212 | over any log, following the cursor ends complete and unbroken if and only if the rows can be arranged within their instants into a chain such that every window holds the chain's next entries and ends with the row its own last entry is |
| `AuditTies.TieCutBreaksAnIntactLog` | internal/audit/verify.go:143-145 | an intact log, two of whose entries share an instant, that is reported broken in windows of two |
| `AuditTies.FromTimeIsFromRow` | internal/audit/verify.go:206-237 | starting at a time answers what continuing after the last row before it answers |
| `AuditTies.FromTimeVerifiesExactlyWhen` | internal/audit/verify.go:223-237 | an intact log read from a time on, by a window that ends between instants or with the log, is unbroken if and only if the row before it is also the chain's entry before it; otherwise its first row is reported |
| `AuditTies.TiedFromTime` | internal/audit/verify.go:227-229 | an intact log with two entries in one instant that is reported broken when read from the next instant on |
| `AuditRetention.EffectiveRetentionDays` | internal/audit/manager.go:813-822 | the shorter of the settings that are set, none when none is |
| `AuditRetention.AuditStore.RetireChunk` | internal/audit/manager.go:521-548 | read, archive, delete, with a failure at any point |
| `AuditRetention.AuditStore.CheckRetention` | internal/audit/manager.go:467-507 | a bounded number of chunks; no chunk but the last fails or comes up short, and the last does unless the bound is reached |
| `AuditRetention.ChunkDeletesPrefix` | internal/audit/manager.go:521-574 | a chunk that works deletes the oldest expired rows, all of them up to its size, after archiving exactly those; one that fails deletes none; and exactly which troubles make it fail |
| `AuditRetention.PassRetiresWhatExpired` | internal/audit/manager.go:467-507 | a pass none of whose chunks fails deletes only expired rows and leaves none, unless it took every chunk it may, each full |
| `AuditRetention.RunRetainsExactlyWhen` | internal/audit/manager.go:467-574 | for every run of passes with any failures and inserts in any order: at every moment the rows are a suffix of what was written in (timestamp, id) order, the rest archived and expired, if and only if every entry inserted comes after all that had been deleted by then |
| `AuditRetention.RunRetains` | internal/audit/manager.go:467-574 | in such a run the log stays in order, and the entries gone are its first ones, archived and expired |
| `AuditRetention.InTimeIsAfterDeleted` | internal/audit/manager.go:467-507 | entries inserted before they expire for any pass so far meet that condition |
| `AuditRetention.RetentionIsSafe` | internal/audit/manager.go:467-574 | moreover VerifyChain accepts what is left with the last deleted entry's signature as genesis |
| `AuditRetention.LateInsertIsLeftBehind` | internal/audit/manager.go:550-574 | a run that does not: an entry inserted after a pass has deleted a later one, and what remains is no suffix |
| `AuditRetention.RetiredLogFromTheBeginning` | internal/audit/verify.go:206-237 | once entries are retired, the first window from the beginning, of any size, reports the first remaining entry |
| `AuditRetention.RetiredLogVerifiesExactlyWhenWhole` | internal/audit/verify.go:206-237 | following the cursor from the beginning over what is left of a log that verified ends complete exactly while nothing was retired |
| `AuditRetention.NoFalseAlarmExactlyWhen` | internal/audit/verify.go:113-130 | a missing tail is never retention's doing if and only if retention deletes by the audit setting, which is all the tail check goes by, and not by a shorter log setting |
| `AuditWriter.NextStamp` | internal/audit/writer.go:203-210 | the first microsecond after the previous entry that is not before the clock |
| `AuditWriter.AuditManager.SignEntryLocked` | internal/audit/manager.go:259-302 | the entry has the caller's user, action, resource, details and address under its own id, the chain's last hash as predecessor, the next stamp and its own signature, and the chain then ends with it; nothing when auditing is off |
| `AuditWriter.AuditManager.SignSystem` | internal/audit/writer.go:169-196 | the batch in order, each entry so on top of the one before, and the hash the chain had before it |
| `AuditWriter.RowsSayWhatWasDrafted` | internal/audit/manager.go:274-301 | in any run every row that was not there at the start holds, field by field, what the draft it was signed from says, on top of the entry signed before it, in the step that signed it |
| `AuditWriter.AuditManager.RollBack` | internal/audit/writer.go:148-158 | the chain goes back to before the batch only if it still ends with the batch |
| `AuditWriter.AuditManager.NoteStored` | internal/audit/manager.go:218-224 | the tail anchor moves forward only |
| `AuditWriter.RollBackTakesBackTheBatch` | internal/audit/writer.go:148-158 | a rollback takes the chain back to before the batch if the batch's last entry is its end, and leaves it if any other entry is |
| `AuditWriter.StepInv` | internal/audit/writer.go:140-196 | every step of the interleaved writers keeps the invariant: signed in order, no two live entries with one parent |
| `AuditWriter.RowsVerifyExactlyWhen` | internal/audit/manager.go:259-325 | at any moment of any run, whatever the clocks read, the rows in timestamp order verify if and only if every row stands on an entry that is stored and comes before it in the rows |
| `AuditWriter.RowsVerifyExactlyWhenParentsStored` | internal/audit/manager.go:259-325 | in a run whose first stamp is past the newest starting row, that is if and only if no row stands on an entry that is not stored |
| `AuditWriter.OrderlyRowsVerifyExactlyWhen` | internal/audit/writer.go:140-210 | when log's inserts succeed and nothing is signed between a failed batch and its rollback, the rows verify, whenever nothing is in flight, exactly when stored parents come first in them |
| `AuditWriter.ClockPutsParentsFirst` | internal/audit/writer.go:198-210 | in a run whose first stamp is past the newest starting row, a stored parent comes first in every timestamp order |
| `AuditWriter.WriterMeetsVerifier` | internal/audit/writer.go:140-210 | so in such a run whose first stamp is past the newest starting row, the rows verify whenever nothing is in flight |
| `AuditWriter.FreshIdsMakeAGoodRun` | internal/audit/manager.go:259-302 | with a collision-free signature, every run from a consistent start in which no id is used twice is one the two theorems speak of |
| `AuditWriter.LostEntryBreaksTheChain` | internal/audit/manager.go:303-325 | a run in which one lost entry makes the table fail to verify |
| `AuditWriter.LateRollBackBreaksTheChain` | internal/audit/writer.go:140-158 | a run in which an entry signed between a failed batch and its rollback makes the table fail to verify |
| `AuditWriter.ClockBehindBreaksTheChain` | internal/audit/manager.go:204-213 | after a restart whose clock reads before the newest row, a run that loses nothing and whose table verifies in no timestamp order |
| `AuditWriter.AnchorIsTheNewestRow` | internal/audit/verify.go:101-130 | whenever nothing is in flight the tail anchor is the newest row |
| `Paths.TrimKeepsSegments` | internal/config/trie.go:43-57 | trimming slashes loses no segment of a path |
| `Paths.SegmentsCut` | internal/config/trie.go:121-137 | cutting one part off a path reads its first segment, or none if the part is empty |
| `Paths.SegmentsOfPath` | internal/config/trie.go:43-57 | the segments of a path made of segments are those segments |
| `Paths.SegmentsAreSegments` | internal/config/trie.go:121-137 | no segment is empty or holds a slash, whatever the path |
| `RouteOrder.PrecedesIsStrictWeakOrder` | internal/config/trie.go:100-108 | the comparison is a strict weak order that ties only equal ids |
| `RouteOrder.SortRoutesSorts` | internal/config/trie.go:94-109 | sorting keeps every route and puts them by falling priority, then falling length of rule, then id |
| `RouteOrder.SortedExactlyWhenRanked` | internal/config/trie.go:100-108 | being sorted by the comparison is exactly that order of priorities, lengths and ids |
| `Text.LexMeans` | internal/config/trie.go:107 | a string comes before another exactly when it has the smaller character at the first place they differ or is a proper prefix of it |
| `RouteOrder.SortedIsUnique` | internal/config/trie.go:94-109 | when ids identify routes there is one sorted arrangement |
| `RouteOrder.SortKeepsSorted` | internal/config/trie.go:94-109 | what is sorted stays as it is |
| `PathTrie.PathTrie.constructor` | internal/config/trie.go:33-39 | an empty tree |
| `PathTrie.PathTrie.Insert` | internal/config/trie.go:42-65 | the tree holds one insertion more, at the node its segments name, and stays a tree |
| `PathTrie.PathTrie.Flatten` | internal/config/trie.go:70-72 | every node's lists are the candidates of its place, and nothing else changes |
| `PathTrie.PathTrie.FlattenNode` | internal/config/trie.go:74-92 | the lists of a node and of everything below it, and of no other node |
| `PathTrie.PathTrie.Lookup` | internal/config/trie.go:113-141 | the candidates of the place the path's segments name, whether or not there is a node there, by falling priority, then length of rule, then id |
| `PathTrie.OffTree` | internal/config/trie.go:126-132 | past a missing node the candidates of any path are the prefix routes of the last node reached |
| `PathTrie.LookupIsAScan` | internal/config/trie.go:42-141 | the answer is the scan of all insertions by segment equality or prefix, each as often, by falling priority, length of rule and id |
| `Rules.SpellingsShareAKey` | internal/config/host_util.go:29-44 | a host's fully-qualified and case variants have one key |
| `Rules.KeysAgreeExactlyWhen` | internal/config/host_util.go:36-44 | and no two hosts share a key unless they are the same letters |
| `Rules.IndexOfExactly` | internal/config/routes.go:268-281 | the search the parsers rest on gives the first place a text is found, and none exactly when it is nowhere |
| `Rules.PathOfRule` | internal/config/routes.go:283-324 | a rule with one path matcher, in either quotes, after a host or nothing, means that path, as a prefix, a regular expression or exactly; an empty one means every path |
| `Rules.RuleWithoutPath` | internal/config/routes.go:323 | a rule that names no path is a prefix rule of every path |
| `Rules.ComplexRule` | internal/config/routes.go:284-298 | a rule with an alternative, a negation or a second path matcher is tried on every request |
| `Rules.HostOfRule` | internal/config/routes.go:268-281 | a rule that begins with a host, in either quotes, means that host in lower case |
| `Rules.HostlessRule` | internal/config/host_util.go:12-14 | a rule that names no host has none, and a host is exact unless it begins with "*." |
| `RouteRegistry.SortedValues` | internal/config/routes.go:98-108 | the values of the table, each once, in order |
| `RouteRegistry.IndexRoute` | internal/config/routes.go:117-145 | one pass of the loop keeps every index that of the routes so far |
| `RouteRegistry.FlattenAll` | internal/config/routes.go:146-165 | every trie is flattened and holds what it held |
| `RouteRegistry.BuildIndexes` | internal/config/routes.go:98-165 | the indexes of the sorted list, every trie flattened |
| `RouteRegistry.Registry.Rebuild` | internal/config/routes.go:98-165 | the indexes match the routes |
| `RouteRegistry.Registry.Update` | internal/config/routes.go:405-412 | the route is in, the indexes match, whether or not the file can be written |
| `RouteRegistry.Registry.Delete` | internal/config/routes.go:414-421 | the route is out, the indexes match |
| `RouteRegistry.Registry.GetByHost` | internal/config/routes.go:197-201 | the sorted list filtered by normalised host, by falling priority, length of rule and id |
| `RouteRegistry.Registry.CandidatesFor` | internal/config/routes.go:209-220 | after any updates and deletes, each of the four candidate lists is a filter of the sorted list by normalised host and rule path, by falling priority, length of rule and id |
| `RouteRegistry.TrieIsFilter` | internal/config/routes.go:117-165 | a slot's trie answers what filtering the list answers |
| `RouteRegistry.EveryRouteIsIndexedOnce` | internal/config/routes.go:117-145 | a route with a rule is in exactly one of the four kinds of index |
| `RouteRegistry.MatchingMembers` | internal/config/routes.go:117-145 | a lookup gives exactly the slot's routes whose rule path the request's segments match |
| `RouteRegistry.SlotOfRule` | internal/config/routes.go:117-145 | where a route with a host and a path is indexed: its host's trie or regular expressions, everyone's if the host is a wildcard |
| `RouteRegistry.HostRouteIsFoundExactlyWhen` | internal/config/routes.go:117-220 | such a route is a candidate for exactly the requests to its host, however spelt, whose path has the rule's segments or begins with them |
| `RouteRegistry.AnyHostRouteIsFoundExactlyWhen` | internal/config/routes.go:117-220 | one without a host, for exactly those of any host |
| `RouteRegistry.MatchingSorted` | internal/config/routes.go:98-108 | candidates come in the order of the index |
| `Migration.KeyIsStable` | internal/db/migration_ipv6_keys.go:38-53 | a key's key is itself |
| `Migration.KeyIsTheSource` | internal/db/migration_ipv6_keys.go:38-53 | an IPv6 address is keyed by the network address of its /64, an IPv4 one, mapped or not, by itself |
| `Migration.OneKeyExactlyWhenOneSource` | internal/db/migration_ipv6_keys.go:38-53 | two addresses have one key if and only if they are IPv6 addresses of one /64, whatever low half and zone, or the same IPv4 address in either form |
| `Migration.StrongerIsStrictWeakOrder` | internal/db/migration_ipv6_keys.go:174-187 | irreflexive, asymmetric, transitive and negatively transitive |
| `Migration.StrongestRow` | internal/db/migration_ipv6_keys.go:129-137 | a row of the group that no other is stronger than |
| `Migration.StrongestOutlasts` | internal/db/migration_ipv6_keys.go:174-191 | the strongest row refuses for as long as any of the group does |
| `Migration.StrongestIsTheLastRelease` | internal/db/migration_ipv6_keys.go:174-187 | where nothing is in force it is a release if there is one, and the last written of its kind |
| `Migration.RewritingKeepsAnswers` | internal/db/migration_ipv6_keys.go:193-200 | writing times to the second keeps every answer exactly when the row is no block that ends within a second |
| `Migration.MergePreservesBlocking` | internal/db/migration_ipv6_keys.go:142-168 | a merge changes no answer from now on for any key, and leaves one row, at its key |
| `Migration.MergeKeepsTheStrongest` | internal/db/migration_ipv6_keys.go:142-168 | the row left at the key is one of those that collapsed, column by column, its times to the second, none of them stronger; every other row stays |
| `Migration.HistoryPreservesBlocking` | internal/db/migration_ipv6_keys.go:55-80 | nor does any sequence of merges, at any times |
| `Migration.FinishedAnswersAtKey` | internal/db/migration_ipv6_keys.go:14-21 | once every row is at its key, the row at a key answers for all that collapse to it |
| `Migration.MigrationPreservesBlocking` | internal/db/migration_ipv6_keys.go:55-191 | however often the migration is cut short and begun again, an address is refused afterwards, at its IPv4 address or its /64, exactly when some row of the same IPv4 address or /64 refused before |
| `Migration.MitigationTable.ReadColonKeyed` | internal/db/migration_ipv6_keys.go:86-101 | exactly the rows whose key has a colon |
| `Migration.MitigationTable.WithRowAtKey` | internal/db/migration_ipv6_keys.go:110-126 | the group and the row stored under the key, once |
| `Migration.MitigationTable.Merge` | internal/db/migration_ipv6_keys.go:142-168 | one merge step, or no change when the transaction does not commit |
| `Migration.GroupRows` | internal/db/migration_ipv6_keys.go:60-69 | the rows by the key they move to, and the keys something moves to |
| `Migration.MitigationTable.Rekey` | internal/db/migration_ipv6_keys.go:55-80 | a history of merges ending with the first that fails; complete, every row is at its key and every address is refused exactly when a row of its IPv4 address or /64 refused before |
| `Limiter.DecayQValue` | internal/ai/reinforcement.go:197-214 | the halving loop with its cutoff computes the closed form |
| `Limiter.DecayStaysBelow` | internal/ai/reinforcement.go:197-214 | decay stays between 0 and the score |
| `Limiter.DecayIsMonotone` | internal/ai/reinforcement.go:197-214 | decay is non-increasing in elapsed time |
| `Limiter.DecayIsAtLeastExponential` | internal/ai/reinforcement.go:201-213 | it is at least q * 2^-halfLives for any function that is 2^-x, exact at whole half-lives, unless the cutoff makes it 0, and says exactly when |
| `Limiter.DecayInterpolates` | internal/ai/reinforcement.go:210-212 | within a half-life it is the straight line between the exponential's values at the two ends, unless it is 0 |
| `Limiter.ForgottenExactlyWhen` | internal/ai/reinforcement.go:204-208 | a score becomes 0 exactly when its whole half-lives have brought it below 0.0001 |
| `Limiter.IntervalIsMonotone` | internal/ai/reinforcement.go:223-234 | a higher score never gets a looser limit; there is one exactly above 0.4, a tighter one exactly above 0.7 and the tightest exactly above 0.9 |
| `Limiter.ScoreWithinReach` | internal/ai/reinforcement.go:116-148 | after n findings at any times the score lies in [0, 1 - 0.8^n] |
| `Limiter.LimitsNeedRepetition` | internal/ai/reinforcement.go:53-63 | no limit before the 3rd finding, none of 50 ms before the 6th, none of 200 ms before the 11th |
| `Limiter.RepetitionIsExact` | internal/ai/reinforcement.go:223-234 | and findings that reach each limit at exactly that count |
| `Limiter.LimitHasFindingsBehind` | internal/ai/reinforcement.go:116-148 | every limit the kernel holds has that many findings on one state behind it, when their confidence is from 0 to 1 |
| `Limiter.ReinforcementLearningLimiter.Apply` | internal/ai/reinforcement.go:243-262 | a call that works leaves the limit asked for, or none where one was set and none is asked for; only earned limits are set, and no other address's changes |
| `Limiter.ReinforcementLearningLimiter.Forget` | internal/ai/reinforcement.go:181-194 | drops the state, and the kernel no longer limits the address if its state did and the call works |
| `Limiter.ReinforcementLearningLimiter.Create` | internal/ai/reinforcement.go:165-174 | a zero state, within the capacity |
| `Limiter.ReinforcementLearningLimiter.Observe` | internal/ai/reinforcement.go:128-147 | the state is that of one finding more, and the kernel follows its score |
| `Limiter.ReinforcementLearningLimiter.ProcessFinding` | internal/ai/reinforcement.go:116-148 | an allowlisted address is released; otherwise state and limit follow the finding, a decayed score lifts the limit, other addresses are untouched but for an evicted one; kernel and states stay in step exactly when no limited state is evicted |
| `Limiter.ReinforcementLearningLimiter.Sweep` | internal/ai/reinforcement.go:268-296 | exactly the states idle for an hour go, with the limits they hold; kernel and states stay in step |
| `Limiter.FindingInStep` | internal/ai/reinforcement.go:74-87 | from a kernel that limits exactly the addresses whose state asks for it, and as it asks, a finding keeps it so if and only if it evicts no limited state |
| `BodyDeadline.AllowanceIsExactExactlyWhen` | internal/deadline/request.go:79-83 | the int64 time earned is the true one exactly while N * 10^9 is below 2^63, and less otherwise |
| `BodyDeadline.LongBodyLosesItsTime` | internal/deadline/request.go:79-83 | a count of bytes at which the earned time is negative |
| `BodyDeadline.RateBody.constructor` | internal/deadline/request.go:40-42 | the first deadlines, from the start |
| `BodyDeadline.RateBody.Extend` | internal/deadline/request.go:79-90 | both deadlines from the bytes so far, clamped to now |
| `BodyDeadline.RateBody.Read` | internal/deadline/request.go:61-75 | the end of the body starts the handler's time once; bytes extend the deadline |
| `BodyDeadline.DeadlineIsTheLater` | internal/deadline/request.go:79-90 | extending gives what the bytes so far have earned or now, whichever is later, and a whole Write past it |
| `BodyDeadline.DeadlineFollowsProgress` | internal/deadline/request.go:61-90 | for any split into on-time reads the deadline is exactly what the bytes have earned, never the clamp, and the write deadline a whole Write past it |
| `BodyDeadline.LateReadsCostTheirLag` | internal/deadline/request.go:84-89 | for any split into reads noted at most a lag after the deadline in force, the deadline is never less than the bytes have earned and more only by the lags so far; the write deadline is a whole Write past it |
| `BodyDeadline.BytesArriveInTime` | internal/deadline/request.go:16-20 | the first N bytes have arrived by start + Read + N / MinBodyRate seconds, and the lags with which reads were noted |
| `BodyDeadline.EndStartsTheHandlersTime` | internal/deadline/request.go:65-70 | after the end both deadlines are a whole Write from then, and empty reads leave them |
| `GlobalRegistry.UpdateStaysConsistent` | internal/config/global.go:618-640 | after any update the references kept are the ones the secrets were resolved from |
| `GlobalRegistry.AdoptionIsPointwise` | internal/config/global.go:618-640 | an update's effect on secrets and references is its effect on each field |
| `GlobalRegistry.ShownRoundTrip` | internal/config/global.go:642-653 | writing back what WithSecretReferences shows changes neither secrets nor references, and the file names the references |
| `GlobalRegistry.ReferenceForms` | internal/config/storedsecret/storedsecret.go:57 | a reference names the environment, Vault or AWS Secrets Manager, and nothing else is one |
| `GlobalRegistry.FileHolds` | internal/config/global.go:247-348 | each secret in the file is its reference if it has one, and otherwise encrypted, but for the AI key and the audit signature key, which are written as they are |
| `GlobalRegistry.ResolvedRoundTripExactlyWhen` | internal/config/global.go:618-640 | writing back the resolved values changes nothing exactly when none that came from a reference is empty or a reference |
| `GlobalRegistry.RunKeepsReferences` | internal/config/global.go:376-408 | from a consistent registry, after any run of updates with objects of their own, failed ones among them, the shown configuration written back is no change |
| `GlobalRegistry.LoadIsConsistentExactlyWhen` | internal/config/global.go:137-190 | a loaded registry is consistent, and writing back what is shown is no change, if and only if in the file no AI key is a reference, no proof-of-work reference resolves to a placeholder, and nothing else stands for a reference |
| `GlobalRegistry.LoadedRunKeepsReferences` | internal/config/global.go:137-190 | from such a file, through any run of updates, the shown configuration written back is no change |
| `GlobalRegistry.ReloadsExactlyWhen` | internal/config/global.go:234-318 | exactly which fields come back from a save and a load as they were |
| `GlobalRegistry.AiKeyReferenceChangesOnWriteBack` | internal/config/global.go:272-318 | a file with an AI key kept as a reference: it loads unresolved, and writing it back as shown changes the live value |
| `GlobalRegistry.PlaceholderReferenceReturnsOnWriteBack` | internal/config/global.go:299-315 | a file with a reference to a placeholder proof-of-work secret: a generated value is loaded, and writing back what is shown puts the placeholder in force |
| `GlobalRegistry.RefusedUpdateChangesLiveExactlyWhen` | internal/config/global.go:376-396 | a refused update handed the live object leaves its secrets changed exactly when it was not refused for a placeholder and a field holds a reference that resolves |
| `GlobalRegistry.RefusedUpdateResolvesTheAiKey` | internal/config/global.go:376-396 | a loaded AI key kept as a reference is such a field |
| `GlobalRegistry.IndexFindsTheLast` | internal/config/global.go:210-219 | the index answers with the last certificate of an id |
| `GlobalRegistry.IndexKnowsOnlyItsIds` | internal/config/global.go:210-219 | and with nothing the configuration does not hold |
| `GlobalRegistry.ApplySecretReferences` | internal/config/global.go:597-605 | the loop writes every kept reference over its field and touches no other |
| `GlobalRegistry.SecretReferences` | internal/config/global.go:586-594 | the loop collects exactly the fields that hold a reference |
| `GlobalRegistry.Registry.RebuildCertIndex` | internal/config/global.go:210-219 | the index matches the configuration in force |
| `GlobalRegistry.Registry.GetCertificate` | internal/config/global.go:354-361 | finds a certificate exactly when the configuration has one of that id, and then the last of them |
| `GlobalRegistry.Registry.Load` | internal/config/global.go:137-190 | a file that reads and resolves is put in force with its references and index; one that does not leaves the registry as it is and marked |
| `GlobalRegistry.Registry.AdoptSecrets` | internal/config/global.go:618-640 | the loop over the secret fields, also when the update is the live object: values, references and error exactly as specified field by field |
| `GlobalRegistry.Registry.Save` | internal/config/global.go:234-265 | writes the references and the encrypted rest, and nothing over a file that failed to load |
| `GlobalRegistry.Registry.Update` | internal/config/global.go:376-408 | succeeds exactly when nothing is refused, and says for which of the four reasons it was; then configuration, references, index and file are the new ones; otherwise all are as before, and so are the contents of a configuration other than the one handed in |
| `GlobalRegistry.Registry.WithSecretReferences` | internal/config/global.go:645-653 | a clone showing references, or the configuration itself when there are none |

## Left out

- Concurrent writes of the stored failure counter and two uses of one recovery code at once: the lockout model is sequential.
- Matching and spending recovery codes, TOTP, bcrypt and the sign-in form's in-memory lockout and admission gate: they enter only as outcomes of an attempt.
- A session key changed by a restart rather than a rotation: a run of `SecondFactor` keeps one process's key history; what a reconcile then restores is `SecondFactor.MoveConserves`.
- Precision of PASETO time claims: claims hold the exact time; a library that rounds an expiry down only ends a challenge earlier.
- The broadcaster, the system-entry queue and its draining, and archive files and their compression.
- Following the cursor through windows bounded by To: one such window is `AuditWindow.RangeIsAStretch`; the theorems about a whole following are about windows without an end.
- Days of other than 24 hours: retention and tail cutoffs subtract whole days of 24 hours.
- Trie nodes are addressed by their place in one map instead of by pointers, so aliasing between nodes is not modelled; the walk, the growth of the tree and the in-place lists are.
- Making the text of an audit entry storable (NUL bytes and invalid UTF-8): entries hold the text as it is stored.
- Host names are lower-cased as ASCII only, and a rule means what the two rule parsers extract from it, not its full boolean meaning.
- A route registry with nothing in it yet: the model's constructor builds its indexes, where the source has no wildcard trie until the first rebuild.
- Parsing and printing of IP addresses: the migration takes them as a parameter with the laws it relies on (a printed address parses to itself, an IPv6 one has a colon, an IPv4 one has none).
- The choice of the state a full limiter cache evicts, the lease of kernel limits, addresses without a limit key, float rounding.
- Listeners of the global registry, generated list-item ids, the shipped defaults a file is merged with, and the section a secret field sits in beyond whether it is present.
- GlobalRegistry.RunKeepsReferences: updates come with configuration objects of their own; what one handed the live object leaves is GlobalRegistry.RefusedUpdateChangesLiveExactlyWhen.
- AuditWindow.WindowsCompose: is about distinct timestamps; AuditTies.WindowsComposeWithTies is about all logs, and says when a following ends complete, not at which entry it breaks otherwise.
- Detectors, API handlers, the WASM and eBPF runtimes, GitOps, probes and the rest of the gateway: plumbing, foreign calls or tuned thresholds.
