/**
 How long a grant lasts, whose pid guards it, and what the reply to a renewal is worth.
*/
module LeaseTenure {
  import opened Common
  import opened LeaseTable
  import opened LeaseProtocol
  import opened LeaseRefinement

  // ---------- exactly which steps end a grant ----------

  /** The step takes the grant of the active i-th row away. */
  predicate Ends(s: State, step: Step, i: nat)
    requires i < |s.shared.db.rows|
  {
    var row := s.shared.db.rows[i];
    match step
    case Client(Release(slot, holder, epoch)) => slot == row.slot && holder == row.holder && epoch == row.epoch
    case Client(Acquire(req, now, _)) =>
      req.slot == row.slot && req.holder != row.holder && now > row.heartbeatAt + row.ttlMs && row.pid in s.shared.dead
    case SweepUpdate(call) =>
      call in s.sweeps && s.sweeps[call].probed.Some? && s.sweeps[call].probed.value.id == i
      && s.sweeps[call].probed.value.epoch == row.epoch && s.sweeps[call].now > row.heartbeatAt + row.ttlMs
    case _ => false
  }

  lemma StepKeepsIff(s: State, step: Step, i: nat)
    requires Inv(s) && i < |s.shared.db.rows| && s.shared.db.rows[i].active
    ensures i < |Next(s, step).shared.db.rows|
    ensures StillHeld(s.shared.db.rows[i], Next(s, step).shared.db.rows[i]) <==> !Ends(s, step, i)
  {
    if step.Client? && step.step.Acquire? && step.step.req.slot == s.shared.db.rows[i].slot {
      assert ActiveAt(s.shared.db.rows, step.step.req.slot, i);
      assert ReadActive(s.shared.db.rows, step.step.req.slot) == Some(i);
    }
  }

  /** No step of the run ends the grant of the i-th row. */
  ghost predicate NeverEnds(s: State, steps: seq<Step>, i: nat)
    decreases steps
  {
    steps == [] || (i < |s.shared.db.rows| && !Ends(s, steps[0], i) && NeverEnds(Next(s, steps[0]), steps[1..], i))
  }

  /** The row has left a grant behind: it is free, or its epoch has moved past. */
  predicate Left(rows: seq<Row>, i: nat, epoch: nat) {
    i < |rows| && (!rows[i].active || rows[i].epoch > epoch)
  }

  lemma StepKeepsLeft(s: State, step: Step, i: nat, epoch: nat)
    requires Left(s.shared.db.rows, i, epoch)
    ensures Left(Next(s, step).shared.db.rows, i, epoch)
  {
    StepEvolves(s, step);
  }

  lemma {:induction false} LeftStays(s: State, steps: seq<Step>, i: nat, epoch: nat)
    requires Left(s.shared.db.rows, i, epoch)
    ensures Left(Exec(s, steps).shared.db.rows, i, epoch)
    decreases steps
  {
    if steps != [] {
      StepKeepsLeft(s, steps[0], i, epoch);
      LeftStays(Next(s, steps[0]), steps[1..], i, epoch);
    }
  }

  /** Over any run a grant is still held at the end exactly if no step ended it: its holder's own release, or a
      claim or sweep that found its heartbeat lapsed and its pid dead. A grant once lost never comes back. */
  lemma {:induction false} HeldIffNeverEnded(s: State, steps: seq<Step>, i: nat)
    requires Inv(s) && i < |s.shared.db.rows| && s.shared.db.rows[i].active
    ensures i < |Exec(s, steps).shared.db.rows|
    ensures StillHeld(s.shared.db.rows[i], Exec(s, steps).shared.db.rows[i]) <==> NeverEnds(s, steps, i)
    decreases steps
  {
    if steps != [] {
      var s' := Next(s, steps[0]);
      StepKeepsIff(s, steps[0], i);
      StepEvolves(s, steps[0]);
      StepKeepsInv(s, steps[0]);
      if Ends(s, steps[0], i) {
        LeftStays(s', steps[1..], i, s.shared.db.rows[i].epoch);
      } else {
        HeldIffNeverEnded(s', steps[1..], i);
      }
    }
  }

  // ---------- whose pid guards a grant ----------

  /** The claim of some arbiter for this holder and slot. */
  predicate IsClaimFor(step: Step, row: Row) {
    && step.Client? && step.step.Acquire?
    && step.step.self == row.pid && step.step.req.slot == row.slot && step.step.req.holder == row.holder
  }

  ghost predicate ClaimedIn(steps: seq<Step>, row: Row) {
    exists k :: 0 <= k < |steps| && IsClaimFor(steps[k], row)
  }

  predicate SameOwner(row: Row, later: Row) {
    row.slot == later.slot && row.holder == later.holder && row.pid == later.pid
  }

  lemma StepSetsOwner(s: State, step: Step, i: nat)
    requires i < |Next(s, step).shared.db.rows|
    ensures var row := Next(s, step).shared.db.rows[i];
      IsClaimFor(step, row) || (i < |s.shared.db.rows| && SameOwner(s.shared.db.rows[i], row))
  {
  }

  lemma {:induction false} RunSetsOwner(s: State, steps: seq<Step>, i: nat)
    requires i < |Exec(s, steps).shared.db.rows|
    ensures var row := Exec(s, steps).shared.db.rows[i];
      ClaimedIn(steps, row) || (i < |s.shared.db.rows| && SameOwner(s.shared.db.rows[i], row))
    decreases steps
  {
    if steps != [] {
      var row := Exec(s, steps).shared.db.rows[i];
      RunSetsOwner(Next(s, steps[0]), steps[1..], i);
      if k :| 0 <= k < |steps[1..]| && IsClaimFor(steps[1..][k], row) {
        assert IsClaimFor(steps[k + 1], row);
      } else {
        StepSetsOwner(s, steps[0], i);
      }
    }
  }

  /** In every reachable table the pid of a row is that of the arbiter that claimed the slot for its holder. */
  lemma PidIsTheArbiters(steps: seq<Step>, i: nat)
    requires i < |Exec(Init(), steps).shared.db.rows|
    ensures ClaimedIn(steps, Exec(Init(), steps).shared.db.rows[i])
  {
    RunSetsOwner(Init(), steps, i);
  }

  /** A client may die and its heartbeat lapse: as long as the arbiter that made the grant lives, and nobody
      releases it, no claim and no sweep of any run takes the lease from the dead client. */
  lemma DeadClientKeepsLease(steps: seq<Step>, more: seq<Step>, i: nat)
    requires i < |Exec(Init(), steps).shared.db.rows| && Exec(Init(), steps).shared.db.rows[i].active
    requires var row := Exec(Init(), steps).shared.db.rows[i];
      forall k :: 0 <= k < |more| ==> more[k] != Client(Release(row.slot, row.holder, row.epoch))
    ensures var s := Exec(Init(), steps); var row := s.shared.db.rows[i];
      exists k :: 0 <= k < |steps| && IsClaimFor(steps[k], row)
        && (steps[k].step.self !in Exec(s, more).shared.dead ==>
              i < |Exec(s, more).shared.db.rows| && StillHeld(row, Exec(s, more).shared.db.rows[i]))
  {
    var s := Exec(Init(), steps);
    var row := s.shared.db.rows[i];
    PidIsTheArbiters(steps, i);
    var k :| 0 <= k < |steps| && IsClaimFor(steps[k], row);
    RunKeepsInv(Init(), steps);
    if steps[k].step.self !in Exec(s, more).shared.dead {
      LiveHolderKeepsLease(s, more, i);
    }
  }

  // ---------- the reply to a renewal ----------

  /** In a table in which the active row dominates its slot, a renewal of the current grant is told that row's own
      time to live; it is told zero exactly if there is no such grant, or its time to live is zero. */
  lemma RenewReplyIsTheRows(rows: seq<Row>, slot: Slot, holder: string, epoch: nat, i: nat)
    requires Dominant(rows)
    ensures i < |rows| && OwnGrant(rows[i], slot, holder, epoch) ==>
      RenewTtl(rows, slot, holder, epoch) == rows[i].ttlMs
    ensures RenewTtl(rows, slot, holder, epoch) == 0 <==>
      forall k :: 0 <= k < |rows| && OwnGrant(rows[k], slot, holder, epoch) ==> rows[k].ttlMs == 0
  {
    RenewTtlIsFirst(rows, slot, holder, epoch);
    if i < |rows| && OwnGrant(rows[i], slot, holder, epoch) {
      assert FirstOwnGrant(rows, i, slot, holder, epoch);
    }
    if k :| 0 <= k < |rows| && OwnGrant(rows[k], slot, holder, epoch) {
      assert FirstOwnGrant(rows, k, slot, holder, epoch);
    }
  }

  /** The renewing UPDATE finds a row to refresh. */
  ghost predicate Refreshes(rows: seq<Row>, slot: Slot, holder: string, epoch: nat) {
    exists j :: 0 <= j < |rows| && OwnGrant(rows[j], slot, holder, epoch)
  }

  lemma OnlyItsOwnRow(old_: seq<Row>, new_: seq<Row>, slot: Slot, holder: string, epoch: nat, i: nat, j: nat)
    requires Evolves(old_, new_) && Dominant(new_) && i < |old_| && OwnGrant(old_[i], slot, holder, epoch)
    requires j < |new_| && OwnGrant(new_[j], slot, holder, epoch)
    ensures j == i
  {
  }

  lemma {:induction false} RunEvolves(s: State, steps: seq<Step>)
    ensures Evolves(s.shared.db.rows, Exec(s, steps).shared.db.rows)
    decreases steps
  {
    if steps != [] {
      StepEvolves(s, steps[0]);
      RunEvolves(Next(s, steps[0]), steps[1..]);
    }
  }

  /** A renewal reads the time to live in one statement and updates in a second, and anything may run between.
      A positive time to live in the reply comes from the holder's current grant as it was read; the heartbeat
      was refreshed exactly if no step in between ended that grant. */
  lemma RenewReplyTrueIff(s: State, slot: Slot, holder: string, epoch: nat, between: seq<Step>) returns (i: nat)
    requires Inv(s) && RenewTtl(s.shared.db.rows, slot, holder, epoch) > 0
    ensures i < |s.shared.db.rows| && OwnGrant(s.shared.db.rows[i], slot, holder, epoch)
    ensures s.shared.db.rows[i].ttlMs == RenewTtl(s.shared.db.rows, slot, holder, epoch)
    ensures Refreshes(Exec(s, between).shared.db.rows, slot, holder, epoch) <==> NeverEnds(s, between, i)
  {
    i := RenewedRow(s.shared.db.rows, slot, holder, epoch);
    GrantRefreshedIff(s, slot, holder, epoch, between, i);
  }

  lemma GrantRefreshedIff(s: State, slot: Slot, holder: string, epoch: nat, between: seq<Step>, i: nat)
    requires Inv(s) && i < |s.shared.db.rows| && OwnGrant(s.shared.db.rows[i], slot, holder, epoch)
    ensures Refreshes(Exec(s, between).shared.db.rows, slot, holder, epoch) <==> NeverEnds(s, between, i)
  {
    var rows := Exec(s, between).shared.db.rows;
    HeldIffNeverEnded(s, between, i);
    RunEvolves(s, between);
    RunKeepsInv(s, between);
    if NeverEnds(s, between, i) {
      assert OwnGrant(rows[i], slot, holder, epoch);
    }
    if j :| 0 <= j < |rows| && OwnGrant(rows[j], slot, holder, epoch) {
      OnlyItsOwnRow(s.shared.db.rows, rows, slot, holder, epoch, i, j);
    }
  }

  lemma {:induction false} RenewedRow(rows: seq<Row>, slot: Slot, holder: string, epoch: nat) returns (i: nat)
    requires RenewTtl(rows, slot, holder, epoch) > 0
    ensures i < |rows| && OwnGrant(rows[i], slot, holder, epoch) && rows[i].ttlMs == RenewTtl(rows, slot, holder, epoch)
    decreases rows
  {
    if OwnGrant(rows[0], slot, holder, epoch) {
      i := 0;
    } else {
      var rest := RenewedRow(rows[1..], slot, holder, epoch);
      i := rest + 1;
    }
  }

  /** The holder's own release between the two statements: the reply promises a time to live, and no row is
      refreshed. */
  lemma RenewReplyCanBeHollow(s: State, slot: Slot, holder: string, epoch: nat)
    requires Inv(s) && RenewTtl(s.shared.db.rows, slot, holder, epoch) > 0
    ensures !Refreshes(Exec(s, [Client(Release(slot, holder, epoch))]).shared.db.rows, slot, holder, epoch)
  {
    var i := RenewedRow(s.shared.db.rows, slot, holder, epoch);
    GrantRefreshedIff(s, slot, holder, epoch, [Client(Release(slot, holder, epoch))], i);
    assert Ends(s, Client(Release(slot, holder, epoch)), i);
  }

  // ---------- the grant after a kill ----------

  /** The slot is idle, and `top` is the highest epoch it has seen. */
  ghost predicate IdleAt(rows: seq<Row>, slot: Slot, top: nat) {
    && (forall i :: 0 <= i < |rows| && rows[i].slot == slot ==> !rows[i].active && rows[i].epoch <= top)
    && (exists i :: 0 <= i < |rows| && rows[i].slot == slot && rows[i].epoch == top)
  }

  predicate Claims(step: Step, slot: Slot) {
    step.Client? && step.step.Acquire? && step.step.req.slot == slot
  }

  lemma IdleStep(s: State, step: Step, slot: Slot, top: nat)
    requires IdleAt(s.shared.db.rows, slot, top) && !Claims(step, slot)
    ensures IdleAt(Next(s, step).shared.db.rows, slot, top)
  {
    var (rows, rows') := (s.shared.db.rows, Next(s, step).shared.db.rows);
    assert forall i :: 0 <= i < |rows| && rows[i].slot == slot ==> rows'[i] == rows[i];
    assert forall i :: 0 <= i < |rows'| && rows'[i].slot == slot ==> i < |rows| && rows[i].slot == slot;
    var i :| 0 <= i < |rows| && rows[i].slot == slot && rows[i].epoch == top;
    assert rows'[i].slot == slot && rows'[i].epoch == top;
  }

  lemma {:induction false} IdleRun(s: State, steps: seq<Step>, slot: Slot, top: nat)
    requires IdleAt(s.shared.db.rows, slot, top) && forall k :: 0 <= k < |steps| ==> !Claims(steps[k], slot)
    ensures IdleAt(Exec(s, steps).shared.db.rows, slot, top)
    decreases steps
  {
    if steps != [] {
      assert !Claims(steps[0], slot);
      IdleStep(s, steps[0], slot, top);
      IdleRun(Next(s, steps[0]), steps[1..], slot, top);
    }
  }

  lemma IdleClaim(w: Shared, req: AcquireReq, now: nat, self: int, top: nat)
    requires IdleAt(w.db.rows, req.slot, top)
    ensures ClaimDb(w.db, req, now, self, w.dead).1 == Granted(top + 1, Fresh)
  {
    assert ReadActive(w.db.rows, req.slot).None?;
    var m := MaxEpoch(w.db.rows, req.slot);
    var i :| 0 <= i < |w.db.rows| && w.db.rows[i].slot == req.slot && w.db.rows[i].epoch == top;
    assert m >= top;
  }

  lemma KillIdlesSlot(s: State, call: nat)
    requires Inv(s) && Next(s, SweepUpdate(call)).shared.kills != s.shared.kills
    ensures var c := s.sweeps[call].probed.value;
      IdleAt(Next(s, SweepUpdate(call)).shared.db.rows, s.shared.db.rows[c.id].slot, c.epoch + 1)
  {
    var c := s.sweeps[call].probed.value;
    assert Next(s, SweepUpdate(call)).shared.db.rows[c.id].epoch == c.epoch + 1;
  }

  /** A reported kill burns an epoch: over any run in which nobody claims the slot meanwhile, the next claim is a
      fresh grant two above the killed one: the epoch in between is skipped. */
  lemma FreshGrantSkipsKilledEpoch(s: State, call: nat, steps: seq<Step>, req: AcquireReq, now: nat, self: int)
    requires Inv(s) && Next(s, SweepUpdate(call)).shared.kills != s.shared.kills
    requires var c := s.sweeps[call].probed.value; req.slot == s.shared.db.rows[c.id].slot
    requires forall k :: 0 <= k < |steps| ==> !Claims(steps[k], req.slot)
    ensures var w := Exec(Next(s, SweepUpdate(call)), steps).shared;
      ClaimDb(w.db, req, now, self, w.dead).1 == Granted(s.sweeps[call].probed.value.epoch + 2, Fresh)
  {
    var s' := Next(s, SweepUpdate(call));
    var c := s.sweeps[call].probed.value;
    KillIdlesSlot(s, call);
    IdleRun(s', steps, req.slot, c.epoch + 1);
    IdleClaim(Exec(s', steps).shared, req, now, self, c.epoch + 1);
  }

  // ---------- a waiter's place ----------

  /** Rows of the slot that are more urgent than `priority`, or as urgent and queued before the i-th. */
  function InFrontOf(queue: seq<QueueRow>, slot: Slot, priority: nat, i: nat): set<nat> {
    set j: nat | j < |queue| && queue[j].slot == slot
                 && (queue[j].priority < priority || (queue[j].priority == priority && j < i))
  }

  /** A waiter that asks again, wherever it stands in the queue, is told its own ticket and the number of rows of
      its slot in front of it at the urgency it now asks with. */
  lemma AskingAgainTellsPlace(w: Shared, req: AcquireReq, now: nat, self: int, i: nat)
    requires QueueSound(w.db) && i < |w.db.queue|
    requires w.db.queue[i].slot == req.slot && w.db.queue[i].holder == req.holder
    requires ClaimDb(w.db, req, now, self, w.dead).1.Queued?
    ensures ClaimDb(w.db, req, now, self, w.dead)
         == (w.db, Queued(w.db.queue[i].ticket, Min(|InFrontOf(w.db.queue, req.slot, req.priority, i)|, U32_MAX)))
  {
    var queue := w.db.queue;
    assert FindWaiter(queue, req.slot, req.holder) == Some(i);
    forall j: nat | j < |queue|
      ensures queue[j].ticket < queue[i].ticket <==> j < i
    {
      if j > i {
        assert queue[i].ticket < queue[j].ticket;
      }
    }
    assert Ahead(queue, req.slot, req.priority, queue[i].ticket) == InFrontOf(queue, req.slot, req.priority, i);
  }

  /** Every grant a claim makes is entered in the log as it was made, and nothing else is. */
  lemma GrantsAreLogged(w: Shared, req: AcquireReq, now: nat, self: int)
    ensures var (w', outcome) := (ClientNext(w, Acquire(req, now, self)), ClaimDb(w.db, req, now, self, w.dead).1);
      w'.log == w.log + if outcome.Granted? then [Grant(req.slot, req.holder, outcome.epoch, outcome.kind)] else []
  {
    assert w.log + [] == w.log;
  }
}
