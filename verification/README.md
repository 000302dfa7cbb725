# Verified model of the CLEO supervisor, CANT and skill-closure logic

This project models the parts of the CleoCode monorepo in which several agents share something: the
persisted writer leases, the LLM admission queue, the registry of managed children and its watchdog, the
scanner for CANT messages, the pipeline runner and its placeholder resolution, and the skill dependency
closure. Each object whose methods update fields is a class proved against a function on values; the
protocols are state machines whose steps are those same functions, and the theorems quantify over every
run of them.

| module | what it holds |
|---|---|
| `LeaseTable` | rows of `_writer_leases` and `_writer_queue`, every SQL statement as a function, class `LeaseDb` |
| `LeaseProtocol` | any number of arbiters and clients in any order; the invariant; fencing |
| `LeaseRefinement` | the split kill sweep against an atomic reclaim; who can lose a lease; what a claim decides |
| `LeaseTenure` | exactly which steps end a grant; whose pid guards it; what a renewal's reply is worth |
| `LlmQueue`, `LlmFairness`, `LlmRate` | the scheduler and rate governor, its waiters, its budgets over whole runs |
| `ChildBook`, `RegistryProtocol` | one child's bookkeeping; restarts, monitors and kills interleaved at lock boundaries |
| `Watchdog` | the heartbeat ledger, tiered deadlines and two-phase sweeps |
| `SweepKill` | the watchdog and the registry in one run: which incarnation a sweep's kill is after |
| `Backoff` | the restart schedule and the exit handling that uses it |
| `CantTokens`, `CantMessage` | token parsers, the two scan loops, the merge of header and body, the printer |
| `StepEnv`, `TemplateLaws`, `Pipeline` | placeholder resolution, step preparation, the sequential runner |
| `SkillGraph` | the dependency work list and the `extends` walk |

Clocks, process ids, process liveness, process outcomes and the queue's in-flight answers to the watchdog
are inputs. Each SQL statement, and the claim transaction as a whole, is one atomic step; a claim may abort
and then changes nothing. Machine widths are written out where a counter or a product can meet them.

Where the code differs from what its comments say, the model follows the code:

- A granted row records the arbiter's own process id, not the client's
  (`crates/cleo-supervisor/src/lease_handler.rs:469`), so "a live holder" means a live arbiter
  (`PidIsTheArbiters`, `DeadClientKeepsLease`).
- Re-entry keeps the stored time to live while the reply carries the requested one; `ReplyHonoured` says
  exactly when the two agree.
- Release frees the row whatever its re-entrancy depth. A stale release or renew changes nothing although it
  is answered like a grant; a renewal's reply is true exactly as `RenewReplyTrueIff` says. No grant, release or sweep reads or deletes `_writer_queue` rows.
- The LLM queue blocks only on strictly higher classes (`AdmittedIff`): ticket order inside a class is reported,
  not enforced (`SameClassMayOvertake`). It protects rows, and a deferral need not leave one where it asks
  (`DeferralGuardsIff`, `DeferredLeadMayBePassed`). Its ticket counter saturates; `WaitersKeptIff` says exactly when that
  breaks the waiter structure.
- The generation counter of a child saturates too; `ReplacedMonitorSilentIff` says exactly when the
  incarnation guard works. Statements about runs therefore ask for no more commits than a `u64` can count.
- A failed respawn leaves the book Restarting with the old pid until another restart commits.
- A kill superseded by a restart is promised to come to nothing. It does so only if its grace had run out and
  its re-check was still to come; `SupersededKillReportedIff` has the condition, `RestartInGraceStillReported` a run.
- The re-check before SIGKILL reads generation and pid only, so a kill whose grace is over still forces a child
  that a restart has marked, until the restart commits (`MarkedChildStillForcedIff`, `MarkedChildForced`).
- The watchdog acts on its snapshot: a beat that arrives after it does not save the child
  (`AttemptedIffStaleAtSnapshot`).
- A freshly restarted child is promised never to be clobbered by a stale deadline. Neither a restart nor a spawn
  touches the heartbeat ledger and the candidate carries no generation, so this holds exactly while no restart
  committed since the beat that was judged (`KillsTheJudgedIncarnationIff`, with the run of `FreshChildTerminated`).
- The placeholder `{}` is documented as literal text but loses its closing brace; `LiteralIffNoEmpty` says
  exactly which templates are kept as written, and `NoVariableResolvesToItselfIff` what that means for the output.
- Task references need a right boundary only: `FOOT12` yields `T12`.
- The comment at `crates/cant-runtime/src/pipeline.rs:57-59` says that prior results come back with an error, in
  its `StepFailed` variant. They are lost exactly when a step after the first comes to an error (`AbortsIff`,
  `ErrorDiscardsResults`, with the run of `EarlierResultIsLost`), and `StepFailed` is never returned.

## Model

| member | source | states |
|---|---|---|
| `LeaseTable.ReadActive` | crates/cleo-supervisor/src/lease_handler.rs:541-563 | finds a row iff the slot has an active one |
| `LeaseTable.MaxEpoch` | crates/cleo-supervisor/src/lease_handler.rs:451-454 | an upper bound on the slot's epochs that one of its rows attains, or zero |
| `LeaseTable.KillCandidates` | crates/cleo-supervisor/src/lease_handler.rs:750-782 | the snapshot lists each lapsed active row of the scope exactly once, in table order, as it stands |
| `LeaseTable.LeaseDb.Claim` | crates/cleo-supervisor/src/lease_handler.rs:436-538 | the four-way claim done in place is the claim transaction on values: new table and outcome |
| `LeaseTable.LeaseDb.Enqueue` | crates/cleo-supervisor/src/lease_handler.rs:566-618 | one queue row per waiter, with its ticket and the number ahead of it |
| `LeaseTable.LeaseDb.HandleAcquire` | crates/cleo-supervisor/src/lease_handler.rs:403-431 | the reply to a grant carries the claim's epoch, the requested time to live and an expiry counted from the clock at the reply, which is not the claim's |
| `LeaseTable.LeaseDb.Release` | crates/cleo-supervisor/src/lease_handler.rs:623-638 | row by row: freed iff it was the active grant of that slot, holder and epoch, else untouched; the queue stays |
| `LeaseTable.LeaseDb.Renew` | crates/cleo-supervisor/src/lease_handler.rs:676-683 | row by row: refreshed iff it was the active grant of that slot, holder and epoch, else untouched; the queue stays |
| `LeaseTable.LeaseDb.HandleRenew` | crates/cleo-supervisor/src/lease_handler.rs:657-695 | the reply's time to live is that of the first row that is the token's active grant as the table stood, or zero if there is none, and the expiry follows from it |
| `LeaseTable.LeaseDb.ReclaimOrKill` | crates/cleo-supervisor/src/lease_handler.rs:709-746 | an undisturbed sweep frees, one epoch up, exactly the active rows of the scope past their time to live whose pid is dead, and reports each of them once, in table order, with its holder, pid, epoch and lane |
| `LeaseTable.SweepOne` | crates/cleo-supervisor/src/lease_handler.rs:719-744 | with nothing interleaved every candidate still passes the UPDATE guard, and one turn extends the swept part of the table to the next candidate |
| `LeaseProtocol.RunKeepsInv` | crates/cleo-supervisor/src/lease_handler.rs:436-746 | every interleaving keeps: the active row dominates its slot, grants never outrun the table, the log is a fencing order, sweeps hold candidates that describe their rows |
| `LeaseProtocol.ClaimKeepsInv` | crates/cleo-supervisor/src/lease_handler.rs:446-525 | any claim, fresh, re-entrant, reclaiming or queued, keeps table and grant log sound |
| `LeaseProtocol.OneWriterPerSlot` | crates/cleo-supervisor/src/lease_handler.rs:436-538 | in every reachable state a slot has at most one active row and its epoch exceeds every other |
| `LeaseProtocol.TokensFence` | crates/cleo-supervisor/src/lease_handler.rs:446-525 | a fresh or reclaimed grant exceeds every earlier grant of its slot; equal epochs went to one holder |
| `LeaseProtocol.SupersededTokenIsInert` | crates/cleo-supervisor/src/lease_handler.rs:623-698 | release and renew with a superseded epoch change no row |
| `LeaseRefinement.SplitSweepRefinesAtomicReclaim` | crates/cleo-supervisor/src/lease_handler.rs:709-782 | snapshot, probe and UPDATE under arbitrary interference give the same tables, grants and kill reports as a run that takes each reclaim decision atomically |
| `LeaseRefinement.LosingALease` | crates/cleo-supervisor/src/lease_handler.rs:489-517 | a step ends a lease only as its holder's own release, or with the heartbeat lapsed and the pid dead as the row changes |
| `LeaseRefinement.LiveHolderKeepsLease` | crates/cleo-supervisor/src/lease_handler.rs:700-746 | over any run a holder whose pid stays alive and who does not release keeps row and epoch |
| `LeaseRefinement.TimelyHolderKeepsLease` | crates/cleo-supervisor/src/lease_handler.rs:489-517 | over any run a holder whose heartbeat is within its time to live at every step and who does not release keeps row and epoch, even with a dead pid |
| `LeaseRefinement.TokenTouchesOneRow` | crates/cleo-supervisor/src/lease_handler.rs:630-683 | release and renew change exactly the one row of the token's grant, or nothing if the token is not a current grant's |
| `LeaseTenure.HeldIffNeverEnded` | crates/cleo-supervisor/src/lease_handler.rs:489-517 | over any run a grant is still held iff no step ended it: its holder's release, or a claim or sweep that found the heartbeat lapsed and the pid dead; once lost it never comes back |
| `LeaseTenure.PidIsTheArbiters` | crates/cleo-supervisor/src/lease_handler.rs:462-474 | in every reachable table the pid of a row is that of the arbiter that claimed the slot for its holder |
| `LeaseTenure.DeadClientKeepsLease` | crates/cleo-supervisor/src/lease_handler.rs:489-517 | whatever clients die or stop beating, a lease nobody releases is neither swept nor reclaimed while the arbiter that granted it lives |
| `LeaseTenure.RenewReplyTrueIff` | crates/cleo-supervisor/src/lease_handler.rs:657-695 | a positive time to live in the reply means that the heartbeat was refreshed iff no step between the two statements ended the grant |
| `LeaseTenure.RenewReplyCanBeHollow` | crates/cleo-supervisor/src/lease_handler.rs:657-695 | a release between the two statements leaves such a reply without any row refreshed |
| `LeaseTenure.RenewReplyIsTheRows` | crates/cleo-supervisor/src/lease_handler.rs:664-674 | where the active row dominates its slot, the renewing holder is told its own row's time to live, and zero iff it has no current grant or that time is zero |
| `LeaseTenure.FreshGrantSkipsKilledEpoch` | crates/cleo-supervisor/src/lease_handler.rs:725-735 | over any run in which nobody claims the slot, the next grant after a reported kill is fresh and two epochs above the killed one |
| `LeaseTenure.AskingAgainTellsPlace` | crates/cleo-supervisor/src/lease_handler.rs:566-617 | a waiter that asks again from anywhere in the queue is told its ticket and exactly the number of rows of its slot in front of it |
| `LeaseTenure.GrantsAreLogged` | crates/cleo-supervisor/src/lease_handler.rs:446-525 | every grant of a claim is in the log as made, and nothing else |
| `LeaseRefinement.ClaimAgainstHolder` | crates/cleo-supervisor/src/lease_handler.rs:478-524 | against a holder a claim re-enters, reclaims or queues, exactly by holder name, lapse and pid, and changes that row alone |
| `LeaseRefinement.ClaimOfIdleSlot` | crates/cleo-supervisor/src/lease_handler.rs:449-477 | in any reachable state an idle slot is granted at once with an epoch above every grant ever made there |
| `LeaseRefinement.ReleaseFreesSlot` | crates/cleo-supervisor/src/lease_handler.rs:630-636 | a release at any depth lets the next claimant in, one epoch up |
| `LeaseRefinement.ReplyHonoured` | crates/cleo-supervisor/src/lease_handler.rs:409-416 | the granted row keeps the replied time to live iff any own row re-entered already had it |
| `LeaseRefinement.ReplyCanOutlastRow` | crates/cleo-supervisor/src/lease_handler.rs:478-487 | a concrete re-entry promised more than its row keeps |
| `LeaseRefinement.RequeueKeepsTicket` | crates/cleo-supervisor/src/lease_handler.rs:566-618 | a waiter that asks again keeps ticket and queue unchanged |
| `LeaseRefinement.NewcomerStandsBehind` | crates/cleo-supervisor/src/lease_handler.rs:584-617 | a newcomer's ticket exceeds all others, its row says what it asked for, and it is behind exactly the rows of its slot that are no less urgent |
| `LeaseRefinement.WaitersStay` | crates/cleo-supervisor/src/lease_handler.rs:446-525 | no step of any run removes a waiter row, grants included |
| `LlmQueue.LlmQueue.Admit` | crates/cleo-supervisor/src/llm_queue.rs:314-379 | the critical section in place is the admit on values: refill, fairness and budget test, debit or enqueue |
| `LlmQueue.LlmQueue.EnqueueWaiter` | crates/cleo-supervisor/src/llm_queue.rs:473-514 | the child's row is kept or created, and the rows ahead in grant order are counted |
| `LlmFairness.RemovesOwnRowOnly` | crates/cleo-supervisor/src/llm_queue.rs:517-525 | taking out a child's waiter leaves exactly the rows of all other children |
| `LlmFairness.InFlightIffSweepKeeps` | crates/cleo-supervisor/src/llm_queue.rs:391-433 | a call reads as in flight iff a sweep at that moment would keep it, and no earlier sweep changes the answer |
| `LlmQueue.LlmQueue.SweepExpired` | crates/cleo-supervisor/src/llm_queue.rs:420-433 | exactly the expired calls go, each reported with its provider |
| `LlmFairness.CallIsFiledUnderItsProvider` | crates/cleo-supervisor/src/llm_queue.rs:355-433 | over any run that neither releases nor re-admits its child, an admitted call keeps its provider, time and time to live, and the sweep that drops it reports the child with that provider |
| `LlmFairness.AdmittedIff` | crates/cleo-supervisor/src/llm_queue.rs:322-347 | admitted iff the refilled bucket covers tokens and one request and no strictly higher class waits on the provider |
| `LlmFairness.AdmissionChanges` | crates/cleo-supervisor/src/llm_queue.rs:345-367 | an admission charges the provider, removes the child's row and files its call; all other rows, calls and buckets and the counter stay |
| `LlmFairness.DeferralQueues` | crates/cleo-supervisor/src/llm_queue.rs:473-514 | a deferral leaves a queued child its row and gives a newcomer one with the next ticket, its class, provider and estimate; the position counts the rows of a higher class, or of the same class with an earlier ticket |
| `LlmFairness.OutranksIsByRank` | crates/cleo-supervisor/src/llm_queue.rs:54-76 | the ranks order the classes as Lead before Worker before Background |
| `LlmFairness.DeferredClassHoldsUp` | crates/cleo-supervisor/src/llm_queue.rs:335-347 | a deferred newcomer of a class holds up every class it outranks on its provider, in any run, until its row is lost |
| `LlmFairness.OutrankedWaitersDoNotHoldUp` | crates/cleo-supervisor/src/llm_queue.rs:458-468 | with only outranked or equal classes waiting the budget alone decides |
| `LlmFairness.ReplyTellsBudget` | crates/cleo-supervisor/src/llm_queue.rs:350-378 | admitted or deferred, the reply reports the tokens left after it |
| `LlmFairness.ReleaseClears` | crates/cleo-supervisor/src/llm_queue.rs:385-389 | after a release the child has neither call nor row, all others keep theirs, and nothing is refunded |
| `LlmFairness.RunKeepsWaiters` | crates/cleo-supervisor/src/llm_queue.rs:473-525 | over any run within the counter's range a child owns at most one row and tickets are distinct and below the counter |
| `LlmFairness.WaitersKeptIff` | crates/cleo-supervisor/src/llm_queue.rs:488-503 | a step keeps that structure iff it does not queue a newcomer at the saturated counter |
| `LlmFairness.SaturatedCounterLosesARow` | crates/cleo-supervisor/src/llm_queue.rs:491-500 | at the saturated counter a newcomer overwrites another child's row |
| `LlmFairness.RowKeptIff` | crates/cleo-supervisor/src/llm_queue.rs:473-525 | a step loses or changes a row iff it admits or releases its own child, or queues a newcomer at the saturated counter under that very key |
| `LlmFairness.RowStays` | crates/cleo-supervisor/src/llm_queue.rs:335-389 | in any run of any length a row stays as it is while its child is neither admitted nor released and no newcomer takes its key at the saturated counter |
| `LlmFairness.NoOvertaking` | crates/cleo-supervisor/src/llm_queue.rs:335-347 | in any run of any length a lower class is admitted on the provider only after the row was lost to an admit or release of its own child, or to a newcomer at the saturated counter |
| `LlmFairness.DeferralGuardsIff` | crates/cleo-supervisor/src/llm_queue.rs:481-503 | after a deferral the child has a row on that provider at its class or higher iff it had no row before, or its row already was one |
| `LlmFairness.DeferredLeadMayBePassed` | crates/cleo-supervisor/src/llm_queue.rs:366-373 | a concrete Lead that waits on another provider is deferred without a row, and a Worker is admitted before it |
| `LlmFairness.SameClassMayOvertake` | crates/cleo-supervisor/src/llm_queue.rs:458-468 | a concrete smaller request of the same class passes a queued one |
| `LlmFairness.AheadIsIndex` | crates/cleo-supervisor/src/llm_queue.rs:504-513 | the rows counted ahead of a provider's i-th row are exactly i |
| `LlmFairness.PositionIsPlace` | crates/cleo-supervisor/src/llm_queue.rs:369-378 | a deferred child asking at its stored class and provider is told its exact index |
| `LlmFairness.PlaceNeverWorsens` | crates/cleo-supervisor/src/llm_queue.rs:481-514 | over any run the counter can count, the rows ahead of a place only shrink unless a newcomer of a strictly higher class joins the provider; queued waiters of any class may ask again |
| `LlmFairness.AskingAgainMovesNothing` | crates/cleo-supervisor/src/llm_queue.rs:481-489 | a deferred waiter that already has a row moves no row and takes no ticket |
| `LlmFairness.RepeatedPositionNeverWorsens` | crates/cleo-supervisor/src/llm_queue.rs:369-378 | of two deferrals of one request in a run the later reply is at no worse position, unless its child left the queue or a newcomer of a strictly higher class joined in between |
| `LlmFairness.BackoffSuffices` | crates/cleo-supervisor/src/llm_queue.rs:156-175 | the back-off lies in 1..max(W,1), and after it the same request is admitted iff it fits a whole window and no strictly higher class waits |
| `LlmFairness.BackoffIsTight` | crates/cleo-supervisor/src/llm_queue.rs:164-170 | a request deferred for want of budget and repeated any sooner is deferred again |
| `LlmFairness.RefillsAfterBackoffIff` | crates/cleo-supervisor/src/llm_queue.rs:156-170 | whatever a deferral was for, the bucket is found refilled at its full quota from the back-off on and unchanged any sooner |
| `LlmFairness.InFlightUntilTtl` | crates/cleo-supervisor/src/llm_queue.rs:391-433 | an admitted call reads as in flight exactly until its time to live ends, through any sweeps and other traffic |
| `LlmRate.DebitIsExact` | crates/cleo-supervisor/src/llm_queue.rs:177-182 | an admitted debit never reaches the floor of the saturating subtraction |
| `LlmRate.Conservation` | crates/cleo-supervisor/src/llm_queue.rs:131-182 | in every state of every run what is left plus what was debited since the bucket was last full is the budget, for tokens and requests, under any clock, window and reconfiguration |
| `LlmRate.DebitedIsSent` | crates/cleo-supervisor/src/llm_queue.rs:156-182 | under a forward clock and one budget what was debited since is what was sent since the window opened |
| `LlmRate.IntervalBound` | crates/cleo-supervisor/src/llm_queue.rs:156-182 | over every run under a forward clock, any L ms carry at most B * (ceil(L/W) + 1) |
| `LlmRate.BoundIsMet` | crates/cleo-supervisor/src/llm_queue.rs:156-162 | a concrete run reaches that bound |
| `LlmRate.ConfiguredQuota` | crates/cleo-supervisor/src/llm_queue.rs:265-278 | a configured provider has a full bucket of exactly the given tokens, requests and window, and the others keep theirs |
| `LlmRate.ConfiguredBound` | crates/cleo-supervisor/src/llm_queue.rs:265-278 | over every forward run from there any interval carries at most the given tokens and requests times ceil(L/W) + 1 |
| `LlmRate.DefaultBound` | crates/cleo-supervisor/src/llm_queue.rs:83-90 | an unconfigured provider is held to two million tokens and five thousand requests a minute in the same way |
| `LlmRate.FirstRequestIff` | crates/cleo-supervisor/src/llm_queue.rs:325-347 | the first request of an unconfigured provider is admitted iff it fits those numbers and no strictly higher class waits, and what is left is exactly the rest |
| `RegistryProtocol.MarkedUntilCommit` | crates/cleo-supervisor/src/supervisor.rs:709-721 | a marked book is unchanged at the end of a run iff no restart committed in it, whatever monitors, kills and other restarts do |
| `RegistryProtocol.MarkedChildStillForcedIff` | crates/cleo-supervisor/src/supervisor.rs:864-874 | a kill whose grace is over condemns a child that a restart has marked, however late it looks, iff no restart has committed: the re-check reads generation and pid, not the state |
| `RegistryProtocol.MarkedChildForced` | crates/cleo-supervisor/src/supervisor.rs:864-874 | a concrete run: SIGKILL under the mark of a restart |
| `RegistryProtocol.CommitSupersedesKills` | crates/cleo-supervisor/src/supervisor.rs:729-739 | a commit supersedes every kill under way whatever its phase: no poll or re-check of it passes any more, and only the new incarnation can be captured |
| `RegistryProtocol.ExitEndsEveryPoll` | crates/cleo-supervisor/src/supervisor.rs:981-992 | once the latest incarnation's exit is recorded every poll on any kill ends at its next look |
| `RegistryProtocol.ExitAndCommitCommute` | crates/cleo-supervisor/src/supervisor.rs:960-966 | a restart's commit and a monitor's exit come to the same state in either order, but for whether the exit is reported |
| `RegistryProtocol.UnresponsiveChildIsForced` | crates/cleo-supervisor/src/supervisor.rs:837-888 | a child that nothing else touches is terminated, forced and reported at the one captured pid |
| `ChildBook.ChildRecord.PollExit` | crates/cleo-supervisor/src/supervisor.rs:902-912 | the poll ends iff a kill that started now would not capture this incarnation |
| `ChildBook.ChildRecord.Recheck` | crates/cleo-supervisor/src/supervisor.rs:867-870 | the re-check of a running child passes iff a kill that started now would capture the same pid and generation |
| `RegistryProtocol.ReplacedMonitorSilentIff` | crates/cleo-supervisor/src/supervisor.rs:734-737 | the monitor that a commit replaces leaves the fresh incarnation alone iff the generation counter had room |
| `RegistryProtocol.RunKeepsInv` | crates/cleo-supervisor/src/supervisor.rs:694-1014 | every interleaving whose commits the counter can count keeps books, incarnations, monitors and kills sound |
| `RegistryProtocol.BookTellsTheTruth` | crates/cleo-supervisor/src/supervisor.rs:479-492 | Running names the pid of the current generation, Stopped names none and that process is dead, restarts equal generations up to the width |
| `RegistryProtocol.BookStateIff` | crates/cleo-supervisor/src/supervisor.rs:709-739 | in every interleaving the book is Restarting iff a restart marked it since the latest commit, Stopped iff none did and the latest incarnation's exit was seen and reported, and Running otherwise |
| `RegistryProtocol.MonitorStopsBook` | crates/cleo-supervisor/src/supervisor.rs:981-992 | a monitor whose process died takes a Running book of its generation to Stopped with no pid and the same counts, and reports it |
| `RegistryProtocol.KillBeginsIffRunning` | crates/cleo-supervisor/src/supervisor.rs:837-848 | a kill begins iff the child is Running, after its latest pid and generation |
| `RegistryProtocol.ExitReportedOnce` | crates/cleo-supervisor/src/supervisor.rs:974-1004 | each generation is reported exited at most once, and only when its process is dead |
| `RegistryProtocol.StaleMonitorIsSilent` | crates/cleo-supervisor/src/supervisor.rs:978-993 | once a later incarnation has committed a monitor neither writes nor reports |
| `RegistryProtocol.LiveChildStaysRunning` | crates/cleo-supervisor/src/supervisor.rs:709-721 | while the current process lives only a restart's mark takes the book out of Running |
| `RegistryProtocol.KillSignalsOneIncarnation` | crates/cleo-supervisor/src/supervisor.rs:826-889 | every signal of a kill goes to the pid of the one incarnation captured at its start |
| `RegistryProtocol.CondemnedOnlyIfCurrent` | crates/cleo-supervisor/src/supervisor.rs:864-881 | SIGKILL is decided only by a re-check at which generation and pid still match |
| `RegistryProtocol.PollEndsIff` | crates/cleo-supervisor/src/supervisor.rs:895-918 | the grace poll goes on exactly while the captured incarnation is the latest and Running; otherwise the call ends and still yields its kill event |
| `RegistryProtocol.SupersededKillReportedIff` | crates/cleo-supervisor/src/supervisor.rs:862-888 | over any run a call whose incarnation was replaced yields its one kill event iff its grace had not run out at the replacement, or its re-check was already past; otherwise it ends in silence |
| `RegistryProtocol.RestartInGraceStillReported` | crates/cleo-supervisor/src/supervisor.rs:820-825 | a concrete run: a restart in the grace poll, a kill event, and the fresh incarnation Running |
| `SweepKill.LastBeatWasJudged` | crates/cleo-supervisor/src/watchdog.rs:227-253 | if a sweep call comes to a child, its snapshot judged the child's last beat before it and found that beat too old |
| `SweepKill.KillsTheJudgedIncarnationIff` | crates/cleo-supervisor/src/watchdog.rs:43-46 | in every interleaving of beats, restarts, sweeps and kills, a kill is after the incarnation that was current at the beat its snapshot judged iff no restart committed between that beat and the start of the kill |
| `SweepKill.FreshChildTerminated` | crates/cleo-supervisor/src/watchdog.rs:43-46 | a concrete run: beat, restart, snapshot, kill; the fresh process is terminated although no restart lies between snapshot and kill |
| `RegistryProtocol.CapturesGenerationOfIff` | crates/cleo-supervisor/src/supervisor.rs:832-849 | a kill captures the generation that was current at an earlier state iff no restart committed from there until it began |
| `RegistryProtocol.FreshIncarnationTerminated` | crates/cleo-supervisor/src/supervisor.rs:832-860 | a concrete run: after a restart between snapshot and kill the fresh incarnation is terminated |
| `RegistryProtocol.ForceOnlyIfCondemned` | crates/cleo-supervisor/src/supervisor.rs:859-874 | a signal is sent only from the phase that allows it, SIGKILL from the re-checked one, to the captured pid |
| `RegistryProtocol.FailedRespawnStaysMarked` | crates/cleo-supervisor/src/supervisor.rs:713-726 | after a failed respawn, whatever other restarts are under way, the book is unchanged at the end of a run iff no restart committed in it |
| `Watchdog.StaleOf` | crates/cleo-supervisor/src/watchdog.rs:227-253 | contains exactly the known children that beat once and blew the deadline of their tier |
| `Watchdog.StaleInOrder` | crates/cleo-supervisor/src/watchdog.rs:227-253 | the candidates stand in the order of the known children, each with how long it was silent and the deadline of its tier |
| `Watchdog.JudgedStaleIff` | crates/cleo-supervisor/src/watchdog.rs:236-250 | a child is stale iff it has beaten, longer ago than the extended deadline if the queue or its beat says in a call, else the normal one |
| `Watchdog.Watchdog.StaleCandidates` | crates/cleo-supervisor/src/watchdog.rs:227-253 | the loop finds exactly those, in the order of the known children |
| `Watchdog.Watchdog.RunOneSweep` | crates/cleo-supervisor/src/watchdog.rs:271-301 | kills and forgets exactly the stale known children whose kill was not void, in the order of the candidates |
| `Watchdog.PunctualChildSpared` | crates/cleo-supervisor/src/watchdog.rs:195-253 | no sweep of any run goes after a child that meets the deadline it is judged by |
| `Watchdog.SteadyChildNeverKilled` | crates/cleo-supervisor/src/watchdog.rs:199-216 | a child whose every beat is followed by another, or by no snapshot beyond, within the normal deadline is attempted by no sweep of any run, if normal does not exceed extended |
| `Watchdog.BusyChildGetsExtendedDeadline` | crates/cleo-supervisor/src/watchdog.rs:207-216 | a child every snapshot finds in a call, by the queue or its own last beat, only has to keep its beats within the extended deadline |
| `Watchdog.AdmittedCallExtendsDeadline` | crates/cleo-supervisor/src/watchdog.rs:236-242 | while an admitted call is within its time to live, whatever the queue does otherwise, a sweep goes after its child iff the extended deadline is missed |
| `Watchdog.StaleChildIsQueued` | crates/cleo-supervisor/src/watchdog.rs:231-250 | a snapshot queues a child for the kill iff it is known, has beaten, and is past its deadline |
| `Watchdog.SnapshotDecides` | crates/cleo-supervisor/src/watchdog.rs:277-298 | whatever beats, forgets and other calls interleave, a sweep call that has finished has attempted exactly the children its snapshot found stale, in order |
| `Watchdog.AttemptedIffStaleAtSnapshot` | crates/cleo-supervisor/src/watchdog.rs:231-250 | over any run a call attempts a child iff the child was known and past its deadline at the snapshot |
| `Watchdog.LateBeatDoesNotSave` | crates/cleo-supervisor/src/watchdog.rs:277-298 | a concrete beat after the snapshot does not stop the kill attempt |
| `Backoff.Backoff.NextDelay` | crates/cleo-supervisor/src/backoff.rs:77-81 | the k-th delay since construction or reset is min(initial * 2^k, max), for every k |
| `Backoff.Backoff.PeekDelay` | crates/cleo-supervisor/src/backoff.rs:86-88 | the delay the next call will return, without advancing |
| `Backoff.Backoff.Reset` | crates/cleo-supervisor/src/backoff.rs:91-93 | the schedule starts over |
| `Backoff.SteppedIsCapped` | crates/cleo-supervisor/src/backoff.rs:70-81 | doubling with saturation at the machine width and at the maximum equals the unbounded power, capped |
| `Backoff.ScheduleClimbs` | crates/cleo-supervisor/src/backoff.rs:27-39 | delays never shrink, stay between initial and maximum, double while they fit, and end at the maximum |
| `Backoff.DelayIndexCounts` | crates/cleo-supervisor/src/supervisor.rs:340-345 | which delay an exit gets is the number of exits since the last healthy run |
| `Backoff.Supervisor.OnExit` | crates/cleo-supervisor/src/supervisor.rs:327-357 | an unrequested exit is counted and takes that delay, the initial one after a healthy run; a requested one changes nothing |
| `CantTokens.ScanSplit` | crates/cant-core/src/parser.rs:154-158 | a scan splits before any character that continues no identifier, boundary test included |
| `CantTokens.ScanJoin` | crates/cant-core/src/parser.rs:223-257 | texts joined by a blank are scanned apart |
| `CantTokens.ScanFindsMentions` | crates/cant-core/src/parser.rs:91-137 | addresses and tags are exactly, in order, the maximal identifiers after each sigil followed by a letter |
| `CantTokens.ScanFindsTaskRefs` | crates/cant-core/src/parser.rs:113-115 | task references are exactly, in order, `T` and a maximal digit run at each place that passes the boundary test and lies in no mention |
| `CantTokens.TaskRefAtIff` | crates/cant-core/src/parser.rs:152-158 | a place passes iff `T` and digits stand there, followed by the end or a character no identifier goes on with |
| `CantTokens.MentionIff` | crates/cant-core/src/parser.rs:91-137 | an address or tag is its sigil and a maximal name of ASCII letters, digits, hyphens and underscores that begins with a letter |
| `CantTokens.DirectiveAtIff` | crates/cant-core/src/parser.rs:69-75 | a directive is a slash and a maximal verb of lower-case letters, digits and hyphens that begins with a letter |
| `CantTokens.BlankIff` | crates/cant-core/src/parser.rs:170-188 | the blanks that are skipped are the 25 White_Space characters |
| `CantTokens.NoLeftBoundary` | crates/cant-core/src/parser.rs:152-158 | `FOOT12` yields `T12` |
| `CantTokens.TokenAt` | crates/cant-core/src/parser.rs:193-211 | every token consumes at least two characters and stays inside the text |
| `CantMessage.Find` | crates/cant-core/src/parser.rs:264-273 | the first newline, or none |
| `CantMessage.SplitIsExact` | crates/cant-core/src/parser.rs:264-273 | header, newline and body are the content, and the header is one line |
| `CantMessage.ParseHeader` | crates/cant-core/src/parser.rs:170-215 | the trimming header loop finds a leading directive and then exactly the scan's tokens |
| `CantMessage.ParseBody` | crates/cant-core/src/parser.rs:223-257 | the body loop's three lists are those of the scan |
| `CantMessage.Parse` | crates/cant-core/src/lib.rs:154-203 | the merging loop gives the message of header and body |
| `CantMessage.ParseAgreesWithOneScan` | crates/cant-core/src/lib.rs:154-203 | for every content the merged lists are those of one scan over the whole text, directive or not |
| `CantMessage.HasDirectiveIff` | crates/cant-core/src/parser.rs:69-75 | a message has a directive iff its first line opens, after blanks, with a slash and a lower-case letter |
| `CantMessage.DirectiveIsTheVerb` | crates/cant-core/src/parser.rs:170-178 | the directive is the maximal verb after the opening slash of the first line |
| `CantMessage.MessageKeepsItsParts` | crates/cant-core/src/lib.rs:112-203 | the message keeps first line and rest apart, and its type is that of its directive by the two lists of verbs |
| `CantMessage.HeaderRoundTrip` | crates/cant-core/src/parser.rs:170-215 | an optional directive and any well-formed tokens, printed with single spaces, parse back to themselves |
| `CantMessage.MessageRoundTrip` | crates/cant-core/src/lib.rs:154-203 | a printed header and body parse back to their directive and tokens |
| `StepEnv.StepEnv.Resolve` | crates/cant-runtime/src/env.rs:59-97 | the character loop gives the rendering of the template's segments |
| `StepEnv.StepEnv.CollectName` | crates/cant-runtime/src/env.rs:66-74 | the inner loop stops at the first closing brace, or at the end |
| `StepEnv.StepEnv.ResolveArgs` | crates/cant-runtime/src/env.rs:104-106 | all arguments resolved, or the first failure among them |
| `StepEnv.ShownIntReadsBack` | crates/cant-runtime/src/env.rs:112-116 | an exit code is written in decimal, with a minus sign iff negative, and reads back |
| `TemplateLaws.FirstUnboundIsNamed` | crates/cant-runtime/src/env.rs:83-89 | resolution fails with a name iff that is the first unbound placeholder in template order |
| `TemplateLaws.NewBindingsChangeNothing` | crates/cant-runtime/src/env.rs:59-97 | bindings for new names never change a successful result |
| `TemplateLaws.ValueIsNotRescanned` | crates/cant-runtime/src/env.rs:49-54 | a value is inserted raw whatever braces it holds |
| `TemplateLaws.ResolveJoin` | crates/cant-runtime/src/env.rs:59-97 | a template after a closed one is resolved as it would be alone |
| `TemplateLaws.SegmentsKeepText` | crates/cant-runtime/src/env.rs:75-82 | segmentation keeps the template's text with the closing brace of each empty placeholder left out, and that alone |
| `TemplateLaws.LiteralIffNoEmpty` | crates/cant-runtime/src/env.rs:75-82 | segments keep the template's text iff it has no empty placeholder |
| `TemplateLaws.NoVariableResolvesToItselfIff` | crates/cant-runtime/src/env.rs:59-97 | a template with no variable resolves to itself, under any bindings, iff it has no empty placeholder |
| `TemplateLaws.EmptyPlaceholderLosesBrace` | crates/cant-runtime/src/env.rs:75-78 | `{}` resolves to a lone opening brace |
| `Pipeline.ExecuteStep` | crates/cant-runtime/src/step.rs:146-191 | the checks in their order, then the process, give the step's result or its first error |
| `Pipeline.OutcomeIsTheResult` | crates/cant-runtime/src/step.rs:246-279 | for every process outcome: the very code and output, -1 for a signal, an I/O error for a failed spawn or wait, a timeout with the step's own seconds |
| `Pipeline.SucceedsIffAllExitZero` | crates/cant-runtime/src/pipeline.rs:77-126 | a pipeline succeeds iff every step passes its checks in the bindings the processes before it left and every process exits zero |
| `Pipeline.NonZeroExitEndsRun` | crates/cant-runtime/src/pipeline.rs:96-115 | a non-zero exit ends the run with that code in its last result, and no later step runs |
| `Pipeline.FirstFailedCheckIsNamed` | crates/cant-runtime/src/step.rs:153-186 | of several failing checks the first is reported: command variables, characters, allowlist, argument variables, input step |
| `Pipeline.FirstFailingArgument` | crates/cant-runtime/src/env.rs:104-106 | of several failing arguments the first is named |
| `Pipeline.MetacharactersAre` | crates/cant-runtime/src/step.rs:35-37 | the characters no command may have |
| `Pipeline.FirstPropertyIsTaken` | crates/cant-runtime/src/step.rs:67-79 | the first property of the key whose value has the wanted kind is taken |
| `Pipeline.NoPropertyIsTaken` | crates/cant-runtime/src/step.rs:67-79 | and none if there is none |
| `Pipeline.KindsOfValues` | crates/cant-runtime/src/step.rs:106-127 | strings and identifiers are text, arrays lists, durations and numbers seconds; minutes, hours and days are what they are |
| `Pipeline.TextsAreTaken` | crates/cant-runtime/src/step.rs:82-103 | of an array exactly the strings and identifiers are taken, in order |
| `Pipeline.ExecutePipeline` | crates/cant-runtime/src/pipeline.rs:60-126 | the loop is the run up to the first non-zero exit, and leaves its bindings |
| `Pipeline.RunComposes` | crates/cant-runtime/src/pipeline.rs:77-126 | xs then ys is ys in the bindings xs left if all of xs exit zero, and xs alone otherwise, for any way of carrying out a step |
| `Pipeline.RunShape` | crates/cant-runtime/src/pipeline.rs:96-126 | only the last result can be non-zero; success iff every step ran with code zero |
| `Pipeline.ResultsNameTheirSteps` | crates/cant-runtime/src/pipeline.rs:77-97 | the results belong to a prefix of the steps, in order |
| `Pipeline.RunRecordsAll` | crates/cant-runtime/src/pipeline.rs:84-94 | the bindings left are the initial ones with every result recorded in order |
| `Pipeline.RecordBinds` | crates/cant-runtime/src/env.rs:112-116 | recording binds the three keys of the step each to its own field and leaves every other key as it was |
| `Pipeline.RecordedOutputs` | crates/cant-runtime/src/env.rs:112-116 | after any results a name's keys hold its latest output, and are untouched if it has none |
| `Pipeline.AbortsIff` | crates/cant-runtime/src/pipeline.rs:77-82 | a run ends in an error iff some step, reached after k that exited zero, ends in that error |
| `Pipeline.ErrorDiscardsResults` | crates/cant-runtime/src/pipeline.rs:54-59 | such an error costs the results of exactly those k steps |
| `Pipeline.EarlierResultIsLost` | crates/cant-runtime/src/pipeline.rs:54-59 | a concrete run: the first step succeeds, the second cannot be spawned, and only the error comes back |
| `Pipeline.StepFailedIsNeverReturned` | crates/cant-runtime/src/pipeline.rs:57-59 | the documented StepFailed error is returned by no run |
| `Pipeline.LaterStepSeesLatest` | crates/cant-runtime/src/pipeline.rs:84-94 | a step reached after k others sees the latest output of every earlier name, with exit code "0" |
| `Pipeline.StdinIsLatestOutput` | crates/cant-runtime/src/step.rs:169-191 | a step reading another's output is given that step's latest one |
| `Pipeline.SpawnsIff` | crates/cant-runtime/src/step.rs:153-191 | something is spawned iff the substituted command is free of metacharacters and allowed, every argument resolves and the input step has an output; and it is that command with those arguments |
| `Pipeline.ArgsResolveOneByOne` | crates/cant-runtime/src/env.rs:104-106 | arguments resolve iff each does, position by position |
| `Pipeline.BinaryIsLastComponent` | crates/cant-runtime/src/step.rs:55-57 | the name compared with the allowlist is what follows the last slash |
| `Pipeline.SignalledStepEndsRun` | crates/cant-runtime/src/step.rs:246-248 | a process without an exit code counts as failed and ends the run |
| `SkillGraph.GetSkill` | packages/skills/index.js:55-57 | an entry of that name, or none iff there is none |
| `SkillGraph.GetSkillIsFirst` | packages/skills/index.js:55-57 | of several entries of one name it is the first |
| `SkillGraph.DepsAreTheFirstEntrys` | packages/skills/index.js:118-122 | the dependencies of a name are all those of its first entry, in order, and none if it has no entry |
| `SkillGraph.ResolveDependencyTree` | packages/skills/index.js:130-148 | terminates on any finite graph and returns without duplicates exactly the names reachable over the first entries' dependencies, in non-decreasing shortest distance, each where listing the roots and then every listed name's dependencies first comes to it |
| `SkillGraph.DependantComesFirst` | packages/skills/index.js:139-144 | each resolved name beyond the roots follows some name that depends on it |
| `SkillGraph.CollectProfile` | packages/skills/index.js:188-206 | the `extends` walk ends on any chain, circular or broken, with exactly the skills the chain lists, each where it is first listed |
| `SkillGraph.ResolveProfile` | packages/skills/index.js:188-210 | exactly what is reachable from the skills the chain lists, each once, in non-decreasing shortest distance from them |
| `SkillGraph.CycleSharesSkills` | packages/skills/index.js:193-206 | two profiles extending each other list the union of their skills |

## Left out

- LeaseTable.LeaseDb.Claim: the database may abort the transaction; that is a step of `LeaseProtocol` which changes nothing, not a result of this method.
- LeaseTable.LeaseDb.Release: the echoed reply, which always has a zero time to live, is not modelled.
- LlmFairness.PlaceNeverWorsens: stated for runs the ticket counter can count; at the saturated counter tickets are no longer distinct.
- LlmFairness.RunKeepsWaiters: stated for runs the ticket counter can count; `WaitersKeptIff` says what happens beyond.
- RegistryProtocol.RunKeepsInv: stated for runs whose commits the generation counter can count; `ReplacedMonitorSilentIff` says what happens beyond.
- Watchdog.Watchdog.RunOneSweep: the queue's answers and the outcome of each kill are inputs; beats between snapshot and kill are covered by the runs, not by this method.
- Pipeline.ExecuteStep: the process is any function of the spawn number and the invocation; durations and the always-false `skipped` flag are dropped.
- Update in place: buckets, rows, waiters and bindings are values held in maps and sequences, as the source holds them in a table or a map behind one lock; aliasing does not arise.
- The inner part of the header loop and the inner loops of `resolve` and the dependency work list are methods of their own.
- SQLite itself: 64-bit column limits, busy timeouts, opening a database, lost rows on read errors.
- The LLM queue's `queued_token_demand` and counts, and recovery of a poisoned lock.
- The map of children: concurrent spawns of one id can both pass the duplicate check, so only per-book statements are made.
- Session environment stamping, monitor snapshots, lifecycle events other than exits and kills.
- Real processes: a spawned process always has a fresh, non-zero pid; signals are recorded, their delivery is not modelled; Job Objects and reaping are absent.
- A failed clean exit of `wait` and the sleeping part of the supervision loop.
- Overflow of a timeout given in minutes, hours or days, and NaN timeouts.
- Profile files and their cache: a profile map is given.
- Sockets, message envelopes, the pidfile, the resource arbiter, and the deferred `rate_check` and `tool_grant` handlers.
- The CANT document language.
- Grant order, liveness and freedom from starvation: the code does not establish them.
