/**
 The writer-lease protocol: any number of arbiters and clients running the statements of
 LeaseTable in any order, with the kill sweep split into snapshot, pid probe and UPDATE.

 Clocks are inputs of the steps, so no two steps need agree on the time. A pid that has died
 stays dead. The log records every grant; it is what clients hold as fencing tokens.
*/
module LeaseProtocol {
  import opened Common
  import opened LeaseTable

  datatype Grant = Grant(slot: Slot, holder: string, epoch: nat, kind: GrantKind)

  /** One `reclaim_or_kill` call between its statements. */
  datatype Sweep = Sweep(now: nat, todo: seq<Candidate>, probed: Option<Candidate>)

  /** What clients and the operating system can see. */
  datatype Shared = Shared(db: Db, log: seq<Grant>, dead: set<int>, kills: seq<Candidate>)

  datatype State = State(shared: Shared, sweeps: map<nat, Sweep>)

  datatype ClientStep =
    | Acquire(req: AcquireReq, now: nat, self: int)
    | AbortedAcquire(req: AcquireReq)
    | Release(slot: Slot, holder: string, epoch: nat)
    | Renew(slot: Slot, holder: string, epoch: nat, renewedAt: nat)
    | Die(pid: int)

  datatype Step =
    | Client(step: ClientStep)
    | SweepStart(call: nat, scope: Scope, now: nat)
    | SweepProbe(call: nat)
    | SweepUpdate(call: nat)

  function Init(): State {
    State(Shared(Db([], [], 0), [], {}, []), map[])
  }

  function ClientNext(w: Shared, step: ClientStep): Shared {
    match step
    case Acquire(req, now, self) =>
      var (db, outcome) := ClaimDb(w.db, req, now, self, w.dead);
      w.(db := db,
         log := if outcome.Granted? then w.log + [Grant(req.slot, req.holder, outcome.epoch, outcome.kind)] else w.log)
    case AbortedAcquire(_) => w
    case Release(slot, holder, epoch) => w.(db := w.db.(rows := ReleaseRows(w.db.rows, slot, holder, epoch)))
    case Renew(slot, holder, epoch, now) => w.(db := w.db.(rows := RenewRows(w.db.rows, slot, holder, epoch, now)))
    case Die(pid) => w.(dead := w.dead + {pid})
  }

  function Next(s: State, step: Step): State {
    match step
    case Client(c) => s.(shared := ClientNext(s.shared, c))
    case SweepStart(call, scope, now) =>
      s.(sweeps := s.sweeps[call := Sweep(now, KillCandidates(s.shared.db.rows, scope, now), None)])
    case SweepProbe(call) =>
      if call in s.sweeps && s.sweeps[call].todo != [] && s.sweeps[call].probed.None? then
        var sweep := s.sweeps[call];
        var c := sweep.todo[0];
        s.(sweeps := s.sweeps[call := sweep.(todo := sweep.todo[1..],
                                             probed := if c.pid in s.shared.dead then Some(c) else None)])
      else s
    case SweepUpdate(call) =>
      if call in s.sweeps && s.sweeps[call].probed.Some? then
        var sweep := s.sweeps[call];
        var c := sweep.probed.value;
        var rows := s.shared.db.rows;
        State(s.shared.(db := s.shared.db.(rows := GuardedKill(rows, c, sweep.now)),
                        kills := if StillKillable(rows, c, sweep.now) then s.shared.kills + [c] else s.shared.kills),
              s.sweeps[call := sweep.(probed := None)])
      else s
  }

  function Exec(s: State, steps: seq<Step>): State
    decreases steps
  {
    if steps == [] then s else Exec(Next(s, steps[0]), steps[1..])
  }

  // ---------- the invariant ----------

  /** The active row of a slot strictly exceeds every other row's epoch. */
  ghost predicate Dominant(rows: seq<Row>) {
    forall i, j :: 0 <= i < |rows| && 0 <= j < |rows| && i != j && rows[i].active && rows[j].slot == rows[i].slot ==>
      rows[j].epoch < rows[i].epoch
  }

  ghost predicate Reached(rows: seq<Row>, slot: Slot, epoch: nat) {
    exists i :: 0 <= i < |rows| && rows[i].slot == slot && epoch <= rows[i].epoch
  }

  /** Grants never outrun the table, and a grant of the active epoch is the active holder's. */
  ghost predicate LogFits(rows: seq<Row>, log: seq<Grant>) {
    && (forall k :: 0 <= k < |log| ==> Reached(rows, log[k].slot, log[k].epoch))
    && (forall k, i ::
          (0 <= k < |log| && 0 <= i < |rows| && rows[i].active
           && rows[i].slot == log[k].slot && rows[i].epoch == log[k].epoch) ==> rows[i].holder == log[k].holder)
  }

  /** Epochs handed out in one slot never fall; they repeat only on the same holder's re-entry. */
  ghost predicate LogFenced(log: seq<Grant>) {
    forall j, k :: 0 <= j < k < |log| && log[j].slot == log[k].slot ==>
      && log[j].epoch <= log[k].epoch
      && (log[j].epoch == log[k].epoch ==> log[j].holder == log[k].holder && log[k].kind == Reentry)
  }

  /** A candidate still describes its row as long as the row's epoch has not moved. */
  ghost predicate Pinned(rows: seq<Row>, c: Candidate) {
    c.id < |rows| && c.epoch <= rows[c.id].epoch
    && (rows[c.id].epoch == c.epoch ==> rows[c.id].pid == c.pid)
  }

  ghost predicate SweepSound(rows: seq<Row>, dead: set<int>, sweep: Sweep) {
    && (forall k :: 0 <= k < |sweep.todo| ==> Pinned(rows, sweep.todo[k]))
    && (sweep.probed.Some? ==> Pinned(rows, sweep.probed.value) && sweep.probed.value.pid in dead)
  }

  /** One queue row per slot and holder; tickets rise in arrival order. */
  ghost predicate QueueSound(db: Db) {
    && (forall i :: 0 <= i < |db.queue| ==> db.queue[i].ticket <= db.lastTicket)
    && (forall i, j :: 0 <= i < j < |db.queue| ==>
          && db.queue[i].ticket < db.queue[j].ticket
          && !(db.queue[i].slot == db.queue[j].slot && db.queue[i].holder == db.queue[j].holder))
  }

  ghost predicate Inv(s: State) {
    && Dominant(s.shared.db.rows)
    && LogFits(s.shared.db.rows, s.shared.log)
    && LogFenced(s.shared.log)
    && QueueSound(s.shared.db)
    && forall call :: call in s.sweeps ==> SweepSound(s.shared.db.rows, s.shared.dead, s.sweeps[call])
  }

  // ---------- how rows evolve ----------

  /** Rows stay, epochs never fall, and a row's identity changes only with its epoch. */
  ghost predicate Evolves(old_: seq<Row>, new_: seq<Row>) {
    && |old_| <= |new_|
    && forall i :: 0 <= i < |old_| ==>
         && new_[i].slot == old_[i].slot
         && old_[i].epoch <= new_[i].epoch
         && (new_[i].epoch == old_[i].epoch ==> new_[i].pid == old_[i].pid && new_[i].holder == old_[i].holder)
  }

  lemma StepEvolves(s: State, step: Step)
    ensures Evolves(s.shared.db.rows, Next(s, step).shared.db.rows)
  {
  }

  lemma EvolvedSweep(old_: seq<Row>, new_: seq<Row>, dead: set<int>, dead': set<int>, sweep: Sweep)
    requires Evolves(old_, new_) && dead <= dead' && SweepSound(old_, dead, sweep)
    ensures SweepSound(new_, dead', sweep)
  {
  }

  lemma EvolvedReach(old_: seq<Row>, new_: seq<Row>, slot: Slot, epoch: nat)
    requires Evolves(old_, new_) && Reached(old_, slot, epoch)
    ensures Reached(new_, slot, epoch)
  {
    var i :| 0 <= i < |old_| && old_[i].slot == slot && epoch <= old_[i].epoch;
    assert new_[i].slot == slot && epoch <= new_[i].epoch;
  }

  // ---------- every step keeps the invariant ----------

  /** No row becomes active, and only a row that was active may step its epoch. */
  ghost predicate Quiets(old_: seq<Row>, new_: seq<Row>) {
    && |new_| == |old_|
    && forall i :: 0 <= i < |old_| ==>
         && new_[i].slot == old_[i].slot
         && (new_[i].active ==> old_[i].active && new_[i].epoch == old_[i].epoch && new_[i].holder == old_[i].holder)
         && (new_[i].epoch == old_[i].epoch || (old_[i].active && !new_[i].active))
  }

  lemma QuietStep(old_: seq<Row>, new_: seq<Row>, log: seq<Grant>)
    requires Dominant(old_) && LogFits(old_, log) && Quiets(old_, new_) && Evolves(old_, new_)
    ensures Dominant(new_) && LogFits(new_, log)
  {
    forall k | 0 <= k < |log|
      ensures Reached(new_, log[k].slot, log[k].epoch)
    {
      EvolvedReach(old_, new_, log[k].slot, log[k].epoch);
    }
  }

  /** Everything granted in a slot lies at or below its active epoch, or its highest epoch. */
  lemma GrantsBelow(rows: seq<Row>, log: seq<Grant>, slot: Slot, top: nat)
    requires LogFits(rows, log)
    requires forall i :: 0 <= i < |rows| && rows[i].slot == slot ==> rows[i].epoch <= top
    ensures forall k :: 0 <= k < |log| && log[k].slot == slot ==> log[k].epoch <= top
  {
    forall k | 0 <= k < |log| && log[k].slot == slot
      ensures log[k].epoch <= top
    {
      var i :| 0 <= i < |rows| && rows[i].slot == log[k].slot && log[k].epoch <= rows[i].epoch;
    }
  }

  lemma LogStaysFenced(log: seq<Grant>, g: Grant)
    requires LogFenced(log)
    requires forall k :: 0 <= k < |log| && log[k].slot == g.slot ==>
      log[k].epoch <= g.epoch && (log[k].epoch == g.epoch ==> log[k].holder == g.holder && g.kind == Reentry)
    ensures LogFenced(log + [g])
  {
  }

  lemma LogStaysFit(old_: seq<Row>, new_: seq<Row>, log: seq<Grant>, id: nat, g: Grant)
    requires LogFits(old_, log) && Evolves(old_, new_) && id < |new_|
    requires forall i :: 0 <= i < |new_| && i != id ==> i < |old_| && new_[i] == old_[i]
    requires new_[id].slot == g.slot && new_[id].epoch == g.epoch && new_[id].holder == g.holder
    requires forall i :: 0 <= i < |old_| && i != id && old_[i].slot == g.slot ==> !old_[i].active
    requires forall k :: 0 <= k < |log| && log[k].slot == g.slot && log[k].epoch == g.epoch ==>
      log[k].holder == g.holder
    ensures LogFits(new_, log + [g])
  {
    var log' := log + [g];
    forall k | 0 <= k < |log'|
      ensures Reached(new_, log'[k].slot, log'[k].epoch)
    {
      if k < |log| {
        EvolvedReach(old_, new_, log[k].slot, log[k].epoch);
      }
    }
  }

  /** A grant whose row now carries its epoch, above all others, extends the log soundly. */
  lemma GrantExtends(old_: seq<Row>, new_: seq<Row>, log: seq<Grant>, id: nat, g: Grant)
    requires Dominant(old_) && LogFits(old_, log) && LogFenced(log) && Evolves(old_, new_)
    requires id < |new_| <= |old_| + 1 && (|new_| > |old_| ==> id == |old_|)
    requires forall i :: 0 <= i < |old_| && i != id ==> new_[i] == old_[i]
    requires new_[id].slot == g.slot && new_[id].epoch == g.epoch && new_[id].holder == g.holder && new_[id].active
    requires id < |old_| ==> old_[id].active
    requires forall i :: 0 <= i < |old_| && i != id && old_[i].slot == g.slot ==>
      !old_[i].active && old_[i].epoch < g.epoch
    requires if g.kind == Reentry then id < |old_| && old_[id].epoch == g.epoch && old_[id].holder == g.holder
             else forall i :: 0 <= i < |old_| && old_[i].slot == g.slot ==> old_[i].epoch < g.epoch
    ensures Dominant(new_) && LogFits(new_, log + [g]) && LogFenced(log + [g])
  {
    GrantsUpTo(old_, log, id, g);
    LogStaysFenced(log, g);
    LogStaysFit(old_, new_, log, id, g);
  }

  /** What was granted in the slot before: nothing above the new grant, and its epoch only to its holder. */
  lemma GrantsUpTo(rows: seq<Row>, log: seq<Grant>, id: nat, g: Grant)
    requires LogFits(rows, log)
    requires id < |rows| ==> rows[id].active
    requires forall i :: 0 <= i < |rows| && i != id && rows[i].slot == g.slot ==> rows[i].epoch < g.epoch
    requires if g.kind == Reentry
             then id < |rows| && rows[id].slot == g.slot && rows[id].epoch == g.epoch && rows[id].holder == g.holder
             else forall i :: 0 <= i < |rows| && rows[i].slot == g.slot ==> rows[i].epoch < g.epoch
    ensures forall k :: 0 <= k < |log| && log[k].slot == g.slot ==>
      log[k].epoch <= g.epoch && (log[k].epoch == g.epoch ==> log[k].holder == g.holder && g.kind == Reentry)
  {
    forall k | 0 <= k < |log| && log[k].slot == g.slot
      ensures log[k].epoch <= g.epoch && (g.kind != Reentry ==> log[k].epoch < g.epoch)
    {
      var i :| 0 <= i < |rows| && rows[i].slot == log[k].slot && log[k].epoch <= rows[i].epoch;
    }
  }

  lemma ClaimKeepsInv(w: Shared, req: AcquireReq, now: nat, self: int)
    requires Dominant(w.db.rows) && LogFits(w.db.rows, w.log) && LogFenced(w.log) && QueueSound(w.db)
    ensures var w' := ClientNext(w, Acquire(req, now, self));
      Dominant(w'.db.rows) && LogFits(w'.db.rows, w'.log) && LogFenced(w'.log) && QueueSound(w'.db)
  {
    var rows := w.db.rows;
    var (db, outcome) := ClaimDb(w.db, req, now, self, w.dead);
    var active := ReadActive(rows, req.slot);
    if outcome.Granted? {
      var g := Grant(req.slot, req.holder, outcome.epoch, outcome.kind);
      var id := if active.None? then |rows| else active.value;
      forall i | 0 <= i < |rows| && i != id && rows[i].slot == req.slot
        ensures !rows[i].active && rows[i].epoch < outcome.epoch
      {
        assert active.None? ==> !ActiveAt(rows, req.slot, i);
      }
      GrantExtends(rows, db.rows, w.log, id, g);
    }
  }

  /** Every step but a claim only frees rows or renews them, and grants nothing. */
  lemma OtherStepsQuiet(s: State, step: Step)
    requires !(step.Client? && step.step.Acquire?)
    ensures var s' := Next(s, step);
      && Quiets(s.shared.db.rows, s'.shared.db.rows) && s'.shared.log == s.shared.log
      && s'.shared.db.queue == s.shared.db.queue && s'.shared.db.lastTicket == s.shared.db.lastTicket
  {
  }

  lemma StepKeepsSweeps(s: State, step: Step)
    requires Inv(s)
    ensures var s' := Next(s, step);
      forall call :: call in s'.sweeps ==> SweepSound(s'.shared.db.rows, s'.shared.dead, s'.sweeps[call])
  {
    var s' := Next(s, step);
    StepEvolves(s, step);
    forall call | call in s'.sweeps
      ensures SweepSound(s'.shared.db.rows, s'.shared.dead, s'.sweeps[call])
    {
      if call in s.sweeps {
        EvolvedSweep(s.shared.db.rows, s'.shared.db.rows, s.shared.dead, s'.shared.dead, s.sweeps[call]);
      }
    }
  }

  lemma StepKeepsInv(s: State, step: Step)
    requires Inv(s)
    ensures Inv(Next(s, step))
  {
    StepEvolves(s, step);
    StepKeepsSweeps(s, step);
    if step.Client? && step.step.Acquire? {
      ClaimKeepsInv(s.shared, step.step.req, step.step.now, step.step.self);
    } else {
      OtherStepsQuiet(s, step);
      QuietStep(s.shared.db.rows, Next(s, step).shared.db.rows, s.shared.log);
    }
  }

  lemma {:induction false} RunKeepsInv(s: State, steps: seq<Step>)
    requires Inv(s)
    ensures Inv(Exec(s, steps))
    decreases steps
  {
    if steps != [] {
      StepKeepsInv(s, steps[0]);
      RunKeepsInv(Next(s, steps[0]), steps[1..]);
    }
  }

  // ---------- safety of every run ----------

  /** In every interleaving each slot has at most one active row, above every other row. */
  lemma OneWriterPerSlot(steps: seq<Step>, i: nat, j: nat)
    ensures var rows := Exec(Init(), steps).shared.db.rows;
      i < |rows| && j < |rows| && i != j && rows[i].active && rows[i].slot == rows[j].slot ==>
        !rows[j].active && rows[j].epoch < rows[i].epoch
  {
    RunKeepsInv(Init(), steps);
  }

  /** In every interleaving the log is a fencing order: a fresh or reclaimed grant exceeds every
      earlier grant of its slot, and two grants of one epoch went to one holder. */
  lemma TokensFence(steps: seq<Step>, j: nat, k: nat)
    ensures var log := Exec(Init(), steps).shared.log;
      j < k < |log| && log[j].slot == log[k].slot ==>
        && (log[k].kind != Reentry ==> log[j].epoch < log[k].epoch)
        && (log[j].epoch == log[k].epoch ==> log[j].holder == log[k].holder)
        && log[j].epoch <= log[k].epoch
  {
    RunKeepsInv(Init(), steps);
  }

  /** Release and renew with a superseded token change nothing at all. */
  lemma SupersededTokenIsInert(steps: seq<Step>, j: nat, k: nat, now: nat)
    ensures var w := Exec(Init(), steps).shared;
      j < |w.log| && k < |w.log| && w.log[j].slot == w.log[k].slot && w.log[j].epoch < w.log[k].epoch ==>
        && ClientNext(w, Release(w.log[j].slot, w.log[j].holder, w.log[j].epoch)) == w
        && ClientNext(w, Renew(w.log[j].slot, w.log[j].holder, w.log[j].epoch, now)) == w
  {
    RunKeepsInv(Init(), steps);
    var w := Exec(Init(), steps).shared;
    if j < |w.log| && k < |w.log| && w.log[j].slot == w.log[k].slot && w.log[j].epoch < w.log[k].epoch {
      var g := w.log[j];
      forall i | 0 <= i < |w.db.rows|
        ensures !OwnGrant(w.db.rows[i], g.slot, g.holder, g.epoch)
      {
        var top :| 0 <= top < |w.db.rows| && w.db.rows[top].slot == w.log[k].slot &&
          w.log[k].epoch <= w.db.rows[top].epoch;
      }
      assert ReleaseRows(w.db.rows, g.slot, g.holder, g.epoch) == w.db.rows;
      assert RenewRows(w.db.rows, g.slot, g.holder, g.epoch, now) == w.db.rows;
    }
  }
}
