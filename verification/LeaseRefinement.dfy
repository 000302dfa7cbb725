/**
 What the split sweep and the claim promise a lease holder.

 The sweep's three statements refine one atomic step that frees a row only if, at that moment,
 the row is active, its heartbeat is older than its time to live and its recorded pid is dead.
*/
module LeaseRefinement {
  import opened Common
  import opened LeaseTable
  import opened LeaseProtocol

  /** The atomic machine: client steps, and a reclaim that looks at the row as it stands. */
  datatype AtomicStep = Visible(step: ClientStep) | Reclaim(id: nat, now: nat) | Skip

  function AtomicNext(w: Shared, step: AtomicStep): Shared {
    match step
    case Visible(c) => ClientNext(w, c)
    case Skip => w
    case Reclaim(id, now) =>
      if id < |w.db.rows| && w.db.rows[id].active && Expired(w.db.rows[id], now) && w.db.rows[id].pid in w.dead then
        w.(db := w.db.(rows := KillRow(w.db.rows, id)), kills := w.kills + [CandidateOf(w.db.rows, id)])
      else w
  }

  function AtomicExec(w: Shared, steps: seq<AtomicStep>): Shared
    decreases steps
  {
    if steps == [] then w else AtomicExec(AtomicNext(w, steps[0]), steps[1..])
  }

  /** The atomic step a statement stands for. */
  function Atomically(s: State, step: Step): AtomicStep {
    match step
    case Client(c) => Visible(c)
    case SweepStart(_, _, _) => Skip
    case SweepProbe(_) => Skip
    case SweepUpdate(call) =>
      if call in s.sweeps && s.sweeps[call].probed.Some?
         && StillKillable(s.shared.db.rows, s.sweeps[call].probed.value, s.sweeps[call].now)
      then Reclaim(s.sweeps[call].probed.value.id, s.sweeps[call].now)
      else Skip
  }

  function AtomicRun(s: State, steps: seq<Step>): (r: seq<AtomicStep>)
    ensures |r| == |steps|
    decreases steps
  {
    if steps == [] then [] else [Atomically(s, steps[0])] + AtomicRun(Next(s, steps[0]), steps[1..])
  }

  /** Holder and lane of a candidate also stay those of its row while the epoch stands. */
  ghost predicate Described(rows: seq<Row>, c: Candidate) {
    c.id < |rows| && c.lane == rows[c.id].slot.lane && c.epoch <= rows[c.id].epoch
    && (rows[c.id].epoch == c.epoch ==> rows[c.id].holder == c.holder)
  }

  ghost predicate SweepDescribed(rows: seq<Row>, sweep: Sweep) {
    && (forall k :: 0 <= k < |sweep.todo| ==> Described(rows, sweep.todo[k]))
    && (sweep.probed.Some? ==> Described(rows, sweep.probed.value))
  }

  ghost predicate AllDescribed(s: State) {
    forall call :: call in s.sweeps ==> SweepDescribed(s.shared.db.rows, s.sweeps[call])
  }

  lemma EvolvedStaysDescribed(old_: seq<Row>, new_: seq<Row>, sweep: Sweep)
    requires Evolves(old_, new_) && SweepDescribed(old_, sweep)
    ensures SweepDescribed(new_, sweep)
  {
  }

  lemma StepKeepsDescribed(s: State, step: Step)
    requires AllDescribed(s)
    ensures AllDescribed(Next(s, step))
  {
    StepEvolves(s, step);
    var s' := Next(s, step);
    forall call | call in s'.sweeps
      ensures SweepDescribed(s'.shared.db.rows, s'.sweeps[call])
    {
      if call in s.sweeps {
        EvolvedStaysDescribed(s.shared.db.rows, s'.shared.db.rows, s.sweeps[call]);
      }
    }
  }

  lemma StepRefines(s: State, step: Step)
    requires Inv(s) && AllDescribed(s)
    ensures Next(s, step).shared == AtomicNext(s.shared, Atomically(s, step))
  {
    if step.SweepUpdate? && step.call in s.sweeps && s.sweeps[step.call].probed.Some? {
      var c := s.sweeps[step.call].probed.value;
      if StillKillable(s.shared.db.rows, c, s.sweeps[step.call].now) {
        assert CandidateOf(s.shared.db.rows, c.id) == c;
      }
    }
  }

  lemma {:induction false} RunRefines(s: State, steps: seq<Step>)
    requires Inv(s) && AllDescribed(s)
    ensures Exec(s, steps).shared == AtomicExec(s.shared, AtomicRun(s, steps))
    decreases steps
  {
    if steps != [] {
      StepRefines(s, steps[0]);
      StepKeepsInv(s, steps[0]);
      StepKeepsDescribed(s, steps[0]);
      RunRefines(Next(s, steps[0]), steps[1..]);
      assert AtomicRun(s, steps)[1..] == AtomicRun(Next(s, steps[0]), steps[1..]);
    }
  }

  /** Table, grants, deaths and reported kills of every interleaving of split sweeps are those of
      a run in which each sweep decision is taken atomically. */
  lemma SplitSweepRefinesAtomicReclaim(steps: seq<Step>)
    ensures Exec(Init(), steps).shared == AtomicExec(Init().shared, AtomicRun(Init(), steps))
    ensures forall k :: 0 <= k < |steps| && steps[k].Client? ==> AtomicRun(Init(), steps)[k] == Visible(steps[k].step)
  {
    RunRefines(Init(), steps);
    ClientStepsStay(Init(), steps);
  }

  lemma {:induction false} ClientStepsStay(s: State, steps: seq<Step>)
    ensures forall k :: 0 <= k < |steps| ==>
      (steps[k].Client? ==> AtomicRun(s, steps)[k] == Visible(steps[k].step))
      && (!steps[k].Client? ==> !AtomicRun(s, steps)[k].Visible?)
    decreases steps
  {
    if steps != [] {
      ClientStepsStay(Next(s, steps[0]), steps[1..]);
      forall k | 1 <= k < |steps|
        ensures steps[k] == steps[1..][k - 1] &&
          AtomicRun(s, steps)[k] == AtomicRun(Next(s, steps[0]), steps[1..])[k - 1]
      {
      }
    }
  }

  // ---------- who can lose a lease ----------

  /** The clock a step judges heartbeats by. */
  function StepClock(s: State, step: Step): nat {
    match step
    case Client(Acquire(_, now, _)) => now
    case SweepUpdate(call) => if call in s.sweeps then s.sweeps[call].now else 0
    case _ => 0
  }

  predicate StillHeld(row: Row, later: Row) {
    && later.active && later.slot == row.slot
    && later.holder == row.holder && later.pid == row.pid && later.epoch == row.epoch
  }

  /** One step takes a lease away only as its holder's own release, or from a holder whose
      heartbeat has lapsed and whose recorded pid is dead as the row changes. */
  lemma LosingALease(s: State, step: Step, i: nat)
    requires Inv(s) && i < |s.shared.db.rows| && s.shared.db.rows[i].active
    ensures var row := s.shared.db.rows[i];
      && i < |Next(s, step).shared.db.rows|
      && (|| StillHeld(row, Next(s, step).shared.db.rows[i])
          || step == Client(Release(row.slot, row.holder, row.epoch))
          || (StepClock(s, step) > row.heartbeatAt + row.ttlMs && row.pid in s.shared.dead))
  {
  }

  lemma {:induction false} DeathsStay(s: State, steps: seq<Step>)
    ensures s.shared.dead <= Exec(s, steps).shared.dead
    decreases steps
  {
    if steps != [] {
      DeathsStay(Next(s, steps[0]), steps[1..]);
    }
  }

  /** Over any run, a holder whose recorded pid is alive at the end, and who does not release
      this grant, still holds it: same row, same epoch. */
  lemma {:induction false} LiveHolderKeepsLease(s: State, steps: seq<Step>, i: nat)
    requires Inv(s) && i < |s.shared.db.rows| && s.shared.db.rows[i].active
    requires s.shared.db.rows[i].pid !in Exec(s, steps).shared.dead
    requires var row := s.shared.db.rows[i];
      forall k :: 0 <= k < |steps| ==> steps[k] != Client(Release(row.slot, row.holder, row.epoch))
    ensures i < |Exec(s, steps).shared.db.rows| && StillHeld(s.shared.db.rows[i], Exec(s, steps).shared.db.rows[i])
    decreases steps
  {
    if steps != [] {
      var s' := Next(s, steps[0]);
      var row := s.shared.db.rows[i];
      assert steps[0] != Client(Release(row.slot, row.holder, row.epoch));
      DeathsStay(s, steps);
      LosingALease(s, steps[0], i);
      StepKeepsInv(s, steps[0]);
      LiveHolderKeepsLease(s', steps[1..], i);
    }
  }

  /** The holder's heartbeat is within its time to live by the clock of every step of the run. */
  ghost predicate Timely(s: State, steps: seq<Step>, i: nat)
    decreases steps
  {
    steps == []
    || (i < |s.shared.db.rows|
        && StepClock(s, steps[0]) <= s.shared.db.rows[i].heartbeatAt + s.shared.db.rows[i].ttlMs
        && Timely(Next(s, steps[0]), steps[1..], i))
  }

  /** Over any run, a holder whose heartbeat is in time, and who does not release this grant, still holds it,
      even if its recorded pid is dead. */
  lemma {:induction false} TimelyHolderKeepsLease(s: State, steps: seq<Step>, i: nat)
    requires Inv(s) && i < |s.shared.db.rows| && s.shared.db.rows[i].active && Timely(s, steps, i)
    requires var row := s.shared.db.rows[i];
      forall k :: 0 <= k < |steps| ==> steps[k] != Client(Release(row.slot, row.holder, row.epoch))
    ensures i < |Exec(s, steps).shared.db.rows| && StillHeld(s.shared.db.rows[i], Exec(s, steps).shared.db.rows[i])
    decreases steps
  {
    if steps != [] {
      var row := s.shared.db.rows[i];
      assert steps[0] != Client(Release(row.slot, row.holder, row.epoch));
      LosingALease(s, steps[0], i);
      StepKeepsInv(s, steps[0]);
      TimelyHolderKeepsLease(Next(s, steps[0]), steps[1..], i);
    }
  }

  /** Release and renew touch the one row of the holder's current grant if the token is that grant's, and
      nothing at all otherwise. */
  lemma TokenTouchesOneRow(rows: seq<Row>, slot: Slot, holder: string, epoch: nat, now: nat, i: nat)
    requires Dominant(rows)
    ensures i < |rows| && OwnGrant(rows[i], slot, holder, epoch) ==>
      && ReleaseRows(rows, slot, holder, epoch) == rows[i := rows[i].(active := false, depth := 0)]
      && RenewRows(rows, slot, holder, epoch, now) == rows[i := rows[i].(heartbeatAt := now)]
    ensures (forall k :: 0 <= k < |rows| ==> !OwnGrant(rows[k], slot, holder, epoch)) ==>
      ReleaseRows(rows, slot, holder, epoch) == rows == RenewRows(rows, slot, holder, epoch, now)
  {
  }

  // ---------- what a claim decides ----------

  /** With a holder in place a claim re-enters, takes over, or waits: exactly one of the three,
      decided by the holder's name, its heartbeat and its pid, and touching that row alone. */
  lemma ClaimAgainstHolder(w: Shared, req: AcquireReq, now: nat, self: int, i: nat)
    requires Dominant(w.db.rows) && i < |w.db.rows| && w.db.rows[i].active && w.db.rows[i].slot == req.slot
    ensures var row := w.db.rows[i]; var (db, outcome) := ClaimDb(w.db, req, now, self, w.dead);
      && |db.rows| == |w.db.rows|
      && (forall j :: 0 <= j < |db.rows| && j != i ==> db.rows[j] == w.db.rows[j])
      && (outcome == Granted(row.epoch, Reentry) <==> row.holder == req.holder)
      && (outcome == Granted(row.epoch + 1, Reclaimed) <==>
          row.holder != req.holder && now > row.heartbeatAt + row.ttlMs && row.pid in w.dead)
      && (outcome.Queued? <==> row.holder != req.holder && !(now > row.heartbeatAt + row.ttlMs && row.pid in w.dead))
      && (outcome.Queued? ==> db.rows[i] == row)
      && (outcome.Granted? ==> db.rows[i].active && db.rows[i].slot == req.slot && db.rows[i].holder == req.holder
                               && db.rows[i].epoch == outcome.epoch && db.rows[i].heartbeatAt == now)
      && (outcome.Granted? && outcome.kind == Reentry ==>
            && StillHeld(row, db.rows[i]) && db.rows[i].depth == row.depth + 1
            && db.rows[i].ttlMs == row.ttlMs && db.rows[i].acquiredAt == row.acquiredAt)
      && (outcome.Granted? && outcome.kind == Reclaimed ==>
            && db.rows[i].pid == self && db.rows[i].depth == 1
            && db.rows[i].ttlMs == req.ttlMs && db.rows[i].acquiredAt == now)
  {
    assert ActiveAt(w.db.rows, req.slot, i);
    assert ReadActive(w.db.rows, req.slot) == Some(i);
  }

  /** An idle slot is granted at once, above everything ever granted there. */
  lemma ClaimOfIdleSlot(steps: seq<Step>, req: AcquireReq, now: nat, self: int)
    requires forall i: nat :: !ActiveAt(Exec(Init(), steps).shared.db.rows, req.slot, i)
    ensures var w := Exec(Init(), steps).shared; var w' := ClientNext(w, Acquire(req, now, self));
      && |w'.log| == |w.log| + 1
      && (forall k :: 0 <= k < |w.log| && w.log[k].slot == req.slot ==> w.log[k].epoch < w'.log[|w.log|].epoch)
      && w'.db.rows == w.db.rows +
        [Row(req.slot, req.holder, self, w'.log[|w.log|].epoch, now, now, req.ttlMs, 1, true)]
      && w'.db.queue == w.db.queue
  {
    RunKeepsInv(Init(), steps);
    var w := Exec(Init(), steps).shared;
    assert ReadActive(w.db.rows, req.slot).None?;
    GrantsBelow(w.db.rows, w.log, req.slot, MaxEpoch(w.db.rows, req.slot));
  }

  /** Releasing a held grant frees the slot whatever its re-entrancy depth: the next claimant is granted. */
  lemma ReleaseFreesSlot(s: State, i: nat, req: AcquireReq, now: nat, self: int)
    requires Inv(s) && i < |s.shared.db.rows| && s.shared.db.rows[i].active && s.shared.db.rows[i].slot == req.slot
    ensures var row := s.shared.db.rows[i];
      var w := ClientNext(s.shared, Release(row.slot, row.holder, row.epoch));
      var (db, outcome) := ClaimDb(w.db, req, now, self, w.dead);
      outcome == Granted(row.epoch + 1, Fresh)
  {
    var row := s.shared.db.rows[i];
    var w := ClientNext(s.shared, Release(row.slot, row.holder, row.epoch));
    assert w.db.rows[i].epoch == row.epoch;
    assert ReadActive(w.db.rows, req.slot).None?;
    assert MaxEpoch(w.db.rows, req.slot) >= row.epoch;
    var m := MaxEpoch(w.db.rows, req.slot);
    if m != 0 {
      var k :| 0 <= k < |w.db.rows| && w.db.rows[k].slot == req.slot && w.db.rows[k].epoch == m;
    }
  }

  /** The client is told its requested time to live. The row honours it exactly when the grant is
      not a re-entry, or the re-entry asks for the stored one. */
  lemma ReplyHonoured(w: Shared, req: AcquireReq, now: nat, self: int, i: nat)
    requires Dominant(w.db.rows)
    requires var (db, outcome) := ClaimDb(w.db, req, now, self, w.dead);
      outcome.Granted? && ActiveAt(db.rows, req.slot, i)
    ensures var (db, outcome) := ClaimDb(w.db, req, now, self, w.dead);
      db.rows[i].ttlMs == req.ttlMs <==>
        (forall j: nat :: ActiveAt(w.db.rows, req.slot, j) && w.db.rows[j].holder == req.holder ==>
          w.db.rows[j].ttlMs == req.ttlMs)
  {
    var (db, outcome) := ClaimDb(w.db, req, now, self, w.dead);
    var found := ReadActive(w.db.rows, req.slot);
    if found.Some? {
      assert ActiveAt(w.db.rows, req.slot, found.value);
      assert db.rows[found.value].active;
      assert i == found.value;
    }
  }

  /** A re-entry that asks for a longer time to live is promised more than its row keeps. */
  lemma ReplyCanOutlastRow()
    ensures var slot := Slot(Project, Tasks);
      var w := ClientNext(Init().shared, Acquire(AcquireReq(slot, "h", 0, 10), 0, 1));
      var (db, outcome) := ClaimDb(w.db, AcquireReq(slot, "h", 0, 50), 0, 1, {});
      outcome == Granted(1, Reentry) && |db.rows| == 1 && db.rows[0].ttlMs == 10
  {
    var slot := Slot(Project, Tasks);
    var w := ClientNext(Init().shared, Acquire(AcquireReq(slot, "h", 0, 10), 0, 1));
    assert ActiveAt(w.db.rows, slot, 0);
    assert ReadActive(w.db.rows, slot) == Some(0);
  }

  // ---------- the waiter queue ----------

  /** Asking again does not move a waiter: same ticket, same queue, and its place as the newer
      request's priority ranks it. */
  lemma RequeueKeepsTicket(db: Db, req: AcquireReq, now: nat, again: AcquireReq, later: nat)
    requires again.slot == req.slot && again.holder == req.holder
    ensures var (db', first) := EnqueueWaiter(db, req, now);
      var (db'', second) := EnqueueWaiter(db', again, later);
      && db'' == db' && second.ticket == first.ticket
      && (again.priority == req.priority ==> second == first)
  {
    var (db', first) := EnqueueWaiter(db, req, now);
    if FindWaiter(db.queue, req.slot, req.holder).None? {
      assert db'.queue[|db.queue|].slot == req.slot && db'.queue[|db.queue|].holder == req.holder;
      var at := FindWaiter(db'.queue, req.slot, req.holder);
      assert at.Some?;
    }
  }

  /** Rows of a slot that a newcomer of some priority finds in front of it. */
  function Before(queue: seq<QueueRow>, slot: Slot, priority: nat): set<nat> {
    set i: nat | i < |queue| && queue[i].slot == slot && queue[i].priority <= priority
  }

  /** A newcomer gets a ticket above every other, one row that says what it asked for, and stands behind
      exactly the rows of its slot that are no less urgent. */
  lemma NewcomerStandsBehind(w: Shared, req: AcquireReq, now: nat, self: int)
    requires QueueSound(w.db) && FindWaiter(w.db.queue, req.slot, req.holder).None?
    requires ClaimDb(w.db, req, now, self, w.dead).1.Queued?
    ensures var (db, outcome) := ClaimDb(w.db, req, now, self, w.dead);
      && db.rows == w.db.rows
      && db.queue == w.db.queue + [QueueRow(outcome.ticket, req.slot, req.holder, req.priority, now, now + req.ttlMs)]
      && (forall i :: 0 <= i < |w.db.queue| ==> w.db.queue[i].ticket < outcome.ticket)
      && outcome.ahead == Min(|Before(w.db.queue, req.slot, req.priority)|, U32_MAX)
  {
    var (db, outcome) := ClaimDb(w.db, req, now, self, w.dead);
    assert Ahead(db.queue, req.slot, req.priority, outcome.ticket) == Before(w.db.queue, req.slot, req.priority);
  }

  /** Nothing the supervisor does takes a waiter out of the queue, a grant included. */
  lemma {:induction false} WaitersStay(s: State, steps: seq<Step>)
    ensures s.shared.db.queue <= Exec(s, steps).shared.db.queue
    decreases steps
  {
    if steps != [] {
      WaitersStay(Next(s, steps[0]), steps[1..]);
    }
  }
}
