/**
 The persisted writer-lease table and the statements the arbiter runs on it.

 A database value holds the rows of `_writer_leases` (never deleted, so a row's id is its
 position) and of `_writer_queue`. Every SQL statement, and the claim transaction as a whole,
 is one function from database to database; class LeaseDb runs them in place.
*/
module LeaseTable {
  import opened Common

  datatype Scope = Project | Global
  datatype Lane = Tasks | Brain | Bulk
  datatype Slot = Slot(scope: Scope, lane: Lane)

  datatype Row = Row(slot: Slot, holder: string, pid: int, epoch: nat, acquiredAt: nat,
                     heartbeatAt: nat, ttlMs: nat, depth: nat, active: bool)

  datatype QueueRow = QueueRow(ticket: nat, slot: Slot, holder: string, priority: nat,
                               enqueuedAt: nat, deadlineAt: nat)

  datatype Db = Db(rows: seq<Row>, queue: seq<QueueRow>, lastTicket: nat)

  datatype AcquireReq = AcquireReq(slot: Slot, holder: string, priority: nat, ttlMs: nat)

  datatype GrantKind = Fresh | Reentry | Reclaimed

  datatype ClaimOutcome = Granted(epoch: nat, kind: GrantKind) | Queued(ticket: nat, ahead: nat)

  /** What a client of `lease_acquire` is told about a grant. */
  datatype GrantReply = GrantReply(epoch: nat, ttlMs: nat, expiresAtMs: nat)

  datatype Candidate = Candidate(id: nat, holder: string, pid: int, epoch: nat, lane: Lane)

  // ---------- reading ----------

  predicate ActiveAt(rows: seq<Row>, slot: Slot, i: nat) {
    i < |rows| && rows[i].slot == slot && rows[i].active
  }

  /** The row `SELECT ... WHERE scope AND lane AND active = 1` yields first. */
  function ReadActive(rows: seq<Row>, slot: Slot): (r: Option<nat>)
    ensures r.Some? ==> ActiveAt(rows, slot, r.value)
    ensures r.None? ==> forall i: nat :: !ActiveAt(rows, slot, i)
  {
    if rows == [] then None
    else
      var last := |rows| - 1;
      var rest := ReadActive(rows[..last], slot);
      assert forall i: nat :: ActiveAt(rows, slot, i) ==> i == last || ActiveAt(rows[..last], slot, i);
      if rest.Some? then rest
      else if rows[last].slot == slot && rows[last].active then Some(last)
      else None
  }

  /** `COALESCE(MAX(epoch), 0)` over the rows of a slot. */
  function MaxEpoch(rows: seq<Row>, slot: Slot): (m: nat)
    ensures forall i :: 0 <= i < |rows| && rows[i].slot == slot ==> rows[i].epoch <= m
    ensures m == 0 || exists i :: 0 <= i < |rows| && rows[i].slot == slot && rows[i].epoch == m
  {
    if rows == [] then 0
    else
      var last := |rows| - 1;
      var rest := MaxEpoch(rows[..last], slot);
      if rows[last].slot == slot && rows[last].epoch > rest then rows[last].epoch else
      assert forall i :: 0 <= i < last ==> rows[..last][i] == rows[i];
      rest
  }

  /** The heartbeat is older than the row's time to live. */
  predicate Expired(row: Row, now: nat) {
    SatSub(now, row.heartbeatAt) > row.ttlMs
  }

  // ---------- writing ----------

  /** `UPDATE ... WHERE cond` applied to every row. */
  function UpdateWhere(rows: seq<Row>, cond: Row -> bool, change: Row -> Row): (r: seq<Row>)
    ensures |r| == |rows|
    ensures forall i :: 0 <= i < |rows| ==> r[i] == if cond(rows[i]) then change(rows[i]) else rows[i]
  {
    seq(|rows|, i requires 0 <= i < |rows| => if cond(rows[i]) then change(rows[i]) else rows[i])
  }

  /** The epoch guard of release and renew: only the holder's own current grant matches. */
  predicate OwnGrant(row: Row, slot: Slot, holder: string, epoch: nat) {
    row.slot == slot && row.holder == holder && row.epoch == epoch && row.active
  }

  function ReleaseRows(rows: seq<Row>, slot: Slot, holder: string, epoch: nat): seq<Row> {
    UpdateWhere(rows, (row: Row) => OwnGrant(row, slot, holder, epoch),
                (row: Row) => row.(active := false, depth := 0))
  }

  function RenewRows(rows: seq<Row>, slot: Slot, holder: string, epoch: nat, now: nat): seq<Row> {
    UpdateWhere(rows, (row: Row) => OwnGrant(row, slot, holder, epoch), (row: Row) => row.(heartbeatAt := now))
  }

  /** The time to live a renewal reads for its reply: that of the first row it matches, or zero. */
  function RenewTtl(rows: seq<Row>, slot: Slot, holder: string, epoch: nat): nat {
    if rows == [] then 0
    else if OwnGrant(rows[0], slot, holder, epoch) then rows[0].ttlMs
    else RenewTtl(rows[1..], slot, holder, epoch)
  }

  /** The i-th row is the first that the token's grant is found in. */
  ghost predicate FirstOwnGrant(rows: seq<Row>, i: nat, slot: Slot, holder: string, epoch: nat) {
    && i < |rows| && OwnGrant(rows[i], slot, holder, epoch)
    && forall j :: 0 <= j < i ==> !OwnGrant(rows[j], slot, holder, epoch)
  }

  lemma {:induction false} RenewTtlAt(rows: seq<Row>, slot: Slot, holder: string, epoch: nat, i: nat)
    requires FirstOwnGrant(rows, i, slot, holder, epoch)
    ensures RenewTtl(rows, slot, holder, epoch) == rows[i].ttlMs
    decreases i
  {
    if i > 0 {
      assert forall j :: 0 <= j < |rows[1..]| ==> rows[1..][j] == rows[j + 1];
      RenewTtlAt(rows[1..], slot, holder, epoch, i - 1);
    }
  }

  lemma {:induction false} RenewTtlOfNone(rows: seq<Row>, slot: Slot, holder: string, epoch: nat)
    requires forall i :: 0 <= i < |rows| ==> !OwnGrant(rows[i], slot, holder, epoch)
    ensures RenewTtl(rows, slot, holder, epoch) == 0
    decreases rows
  {
    if rows != [] {
      RenewTtlOfNone(rows[1..], slot, holder, epoch);
    }
  }

  lemma RenewTtlIsFirst(rows: seq<Row>, slot: Slot, holder: string, epoch: nat)
    ensures forall i: nat :: FirstOwnGrant(rows, i, slot, holder, epoch) ==>
      RenewTtl(rows, slot, holder, epoch) == rows[i].ttlMs
    ensures (forall i :: 0 <= i < |rows| ==> !OwnGrant(rows[i], slot, holder, epoch)) ==>
      RenewTtl(rows, slot, holder, epoch) == 0
  {
    forall i: nat | FirstOwnGrant(rows, i, slot, holder, epoch)
      ensures RenewTtl(rows, slot, holder, epoch) == rows[i].ttlMs
    {
      RenewTtlAt(rows, slot, holder, epoch, i);
    }
    if forall i :: 0 <= i < |rows| ==> !OwnGrant(rows[i], slot, holder, epoch) {
      RenewTtlOfNone(rows, slot, holder, epoch);
    }
  }

  /** Rows of the slot's queue ahead of (priority, ticket) in grant order. */
  function Ahead(queue: seq<QueueRow>, slot: Slot, priority: nat, ticket: nat): set<nat> {
    set i: nat | i < |queue| && queue[i].slot == slot
                 && (queue[i].priority < priority || (queue[i].priority == priority && queue[i].ticket < ticket))
  }

  function FindWaiter(queue: seq<QueueRow>, slot: Slot, holder: string): (r: Option<nat>)
    ensures r.Some? ==> r.value < |queue| && queue[r.value].slot == slot && queue[r.value].holder == holder
    ensures r.None? ==> forall i :: 0 <= i < |queue| ==> !(queue[i].slot == slot && queue[i].holder == holder)
  {
    if queue == [] then None
    else
      var last := |queue| - 1;
      var rest := FindWaiter(queue[..last], slot, holder);
      if rest.Some? then rest
      else if queue[last].slot == slot && queue[last].holder == holder then Some(last)
      else None
  }

  /** Queue the caller once per holder and report how many rows its request is behind. */
  function EnqueueWaiter(db: Db, req: AcquireReq, now: nat): (Db, ClaimOutcome) {
    var existing := FindWaiter(db.queue, req.slot, req.holder);
    var ticket := if existing.Some? then db.queue[existing.value].ticket else db.lastTicket + 1;
    var queue := if existing.Some? then db.queue
                 else db.queue + [QueueRow(ticket, req.slot, req.holder, req.priority, now, now + req.ttlMs)];
    var lastTicket := if existing.Some? then db.lastTicket else ticket;
    (Db(db.rows, queue, lastTicket),
     Queued(ticket, Min(|Ahead(queue, req.slot, req.priority, ticket)|, U32_MAX)))
  }

  /** The `BEGIN IMMEDIATE` claim: take a fresh row, re-enter, reclaim, or queue.
      `self` is the arbiter's own pid, which is what a granted row records. */
  function ClaimDb(db: Db, req: AcquireReq, now: nat, self: int, dead: set<int>): (Db, ClaimOutcome) {
    match ReadActive(db.rows, req.slot)
    case None =>
      var epoch := MaxEpoch(db.rows, req.slot) + 1;
      (db.(rows := db.rows + [Row(req.slot, req.holder, self, epoch, now, now, req.ttlMs, 1, true)]),
       Granted(epoch, Fresh))
    case Some(id) =>
      var row := db.rows[id];
      if row.holder == req.holder then
        (db.(rows := db.rows[id := row.(depth := row.depth + 1, heartbeatAt := now)]), Granted(row.epoch, Reentry))
      else if Expired(row, now) && row.pid in dead then
        var taken := Row(row.slot, req.holder, self, row.epoch + 1, now, now, req.ttlMs, 1, row.active);
        (db.(rows := db.rows[id := taken]), Granted(row.epoch + 1, Reclaimed))
      else
        EnqueueWaiter(db, req, now)
  }

  // ---------- the kill sweep, statement by statement ----------

  predicate Lapsed(row: Row, scope: Scope, now: nat) {
    row.slot.scope == scope && row.active && Expired(row, now)
  }

  function CandidateOf(rows: seq<Row>, id: nat): Candidate
    requires id < |rows|
  {
    Candidate(id, rows[id].holder, rows[id].pid, rows[id].epoch, rows[id].slot.lane)
  }

  ghost predicate Names(cs: seq<Candidate>, id: nat) {
    exists k :: 0 <= k < |cs| && cs[k].id == id
  }

  /** The list names each lapsed row of the scope among the first `n` once, in table order, as it stands. */
  ghost predicate IsSnapshotUpTo(rows: seq<Row>, n: nat, scope: Scope, now: nat, cs: seq<Candidate>) {
    && n <= |rows|
    && (forall k :: 0 <= k < |cs| ==>
        cs[k].id < n && Lapsed(rows[cs[k].id], scope, now) && cs[k] == CandidateOf(rows, cs[k].id))
    && (forall i {:trigger Names(cs, i)} :: 0 <= i < n && Lapsed(rows[i], scope, now) ==> Names(cs, i))
    && (forall j, k :: 0 <= j < k < |cs| ==> cs[j].id < cs[k].id)
  }

  ghost predicate IsSnapshot(rows: seq<Row>, scope: Scope, now: nat, cs: seq<Candidate>) {
    IsSnapshotUpTo(rows, |rows|, scope, now, cs)
  }

  /** The snapshot: every active row of the scope whose time to live has run out. */
  function KillCandidates(rows: seq<Row>, scope: Scope, now: nat): (cs: seq<Candidate>)
    ensures IsSnapshot(rows, scope, now, cs)
  {
    CandidatesUpTo(rows, |rows|, scope, now)
  }

  function CandidatesUpTo(rows: seq<Row>, n: nat, scope: Scope, now: nat): (cs: seq<Candidate>)
    requires n <= |rows|
    ensures IsSnapshotUpTo(rows, n, scope, now, cs)
  {
    if n == 0 then []
    else
      var rest := CandidatesUpTo(rows, n - 1, scope, now);
      if Lapsed(rows[n - 1], scope, now) then
        NamesGrow(rest, CandidateOf(rows, n - 1));
        rest + [CandidateOf(rows, n - 1)]
      else rest
  }

  lemma NamesGrow(cs: seq<Candidate>, c: Candidate)
    ensures forall id: nat :: Names(cs, id) ==> Names(cs + [c], id)
    ensures Names(cs + [c], c.id)
  {
    var all := cs + [c];
    assert all[|cs|].id == c.id;
    forall id: nat | Names(cs, id)
      ensures Names(all, id)
    {
      var k :| 0 <= k < |cs| && cs[k].id == id;
      assert all[k].id == id;
    }
  }

  /** The guard of the reclaiming UPDATE. */
  predicate StillKillable(rows: seq<Row>, c: Candidate, now: nat) {
    c.id < |rows| && rows[c.id].epoch == c.epoch && rows[c.id].active && Expired(rows[c.id], now)
  }

  /** The reclaiming UPDATE: free the row and step its epoch past the dead holder's. */
  function KillRow(rows: seq<Row>, id: nat): (r: seq<Row>)
    requires id < |rows|
  {
    rows[id := rows[id].(active := false, depth := 0, epoch := rows[id].epoch + 1)]
  }

  function GuardedKill(rows: seq<Row>, c: Candidate, now: nat): seq<Row> {
    if StillKillable(rows, c, now) then KillRow(rows, c.id) else rows
  }

  /** What an undisturbed sweep does to one row. */
  function SweptRow(row: Row, scope: Scope, now: nat, dead: set<int>): Row {
    if Lapsed(row, scope, now) && row.pid in dead
    then row.(active := false, depth := 0, epoch := row.epoch + 1)
    else row
  }

  /** The candidates whose probed pid turned out dead. */
  function DeadOf(candidates: seq<Candidate>, dead: set<int>): seq<Candidate> {
    if candidates == [] then []
    else
      var last := |candidates| - 1;
      DeadOf(candidates[..last], dead) + if candidates[last].pid in dead then [candidates[last]] else []
  }

  // ---------- the arbiter's handlers, in place ----------

  class LeaseDb {
    var rows: seq<Row>
    var queue: seq<QueueRow>
    var lastTicket: nat

    function Value(): Db
      reads this
    {
      Db(rows, queue, lastTicket)
    }

    constructor ()
      ensures Value() == Db([], [], 0)
    {
      rows, queue, lastTicket := [], [], 0;
    }

    method Claim(req: AcquireReq, now: nat, self: int, dead: set<int>) returns (outcome: ClaimOutcome)
      modifies this
      ensures (Value(), outcome) == ClaimDb(old(Value()), req, now, self, dead)
    {
      var active := ReadActive(rows, req.slot);
      if active.None? {
        var nextEpoch := MaxEpoch(rows, req.slot) + 1;
        rows := rows + [Row(req.slot, req.holder, self, nextEpoch, now, now, req.ttlMs, 1, true)];
        return Granted(nextEpoch, Fresh);
      }
      var id := active.value;
      var row := rows[id];
      if row.holder == req.holder {
        rows := rows[id := row.(depth := row.depth + 1, heartbeatAt := now)];
        return Granted(row.epoch, Reentry);
      }
      if Expired(row, now) && row.pid in dead {
        rows := rows[id := row.(holder := req.holder, pid := self, epoch := row.epoch + 1, acquiredAt := now,
                                heartbeatAt := now, ttlMs := req.ttlMs, depth := 1)];
        return Granted(row.epoch + 1, Reclaimed);
      }
      outcome := Enqueue(req, now);
    }

    method Enqueue(req: AcquireReq, now: nat) returns (outcome: ClaimOutcome)
      modifies this
      ensures (Value(), outcome) == EnqueueWaiter(old(Value()), req, now)
    {
      var existing := FindWaiter(queue, req.slot, req.holder);
      var ticket;
      if existing.Some? {
        ticket := queue[existing.value].ticket;
      } else {
        ticket := lastTicket + 1;
        queue := queue + [QueueRow(ticket, req.slot, req.holder, req.priority, now, now + req.ttlMs)];
        lastTicket := ticket;
      }
      outcome := Queued(ticket, Min(|Ahead(queue, req.slot, req.priority, ticket)|, U32_MAX));
    }

    /** `lease_acquire` as the client sees it: a grant carries the requested time to live, counted from
        the moment of the reply. */
    method HandleAcquire(req: AcquireReq, now: nat, self: int, dead: set<int>, repliedAt: nat)
      returns (outcome: ClaimOutcome, reply: Option<GrantReply>)
      modifies this
      ensures (Value(), outcome) == ClaimDb(old(Value()), req, now, self, dead)
      ensures reply ==
        if outcome.Granted? then Some(GrantReply(outcome.epoch, req.ttlMs, Min(repliedAt + req.ttlMs, U64_MAX)))
        else None
    {
      outcome := Claim(req, now, self, dead);
      reply := if outcome.Granted? then Some(GrantReply(outcome.epoch, req.ttlMs, Min(repliedAt + req.ttlMs, U64_MAX)))
               else None;
    }

    method Release(slot: Slot, holder: string, epoch: nat)
      modifies this
      ensures Value() == old(Value()).(rows := ReleaseRows(old(rows), slot, holder, epoch))
      ensures |rows| == |old(rows)|
      ensures forall i :: 0 <= i < |rows| ==>
        var was := old(rows)[i];
        rows[i] == if OwnGrant(was, slot, holder, epoch) then was.(active := false, depth := 0) else was
    {
      rows := UpdateWhere(rows, (row: Row) => OwnGrant(row, slot, holder, epoch),
                          (row: Row) => row.(active := false, depth := 0));
    }

    method Renew(slot: Slot, holder: string, epoch: nat, now: nat)
      modifies this
      ensures Value() == old(Value()).(rows := RenewRows(old(rows), slot, holder, epoch, now))
      ensures |rows| == |old(rows)|
      ensures forall i :: 0 <= i < |rows| ==>
        var was := old(rows)[i];
        rows[i] == if OwnGrant(was, slot, holder, epoch) then was.(heartbeatAt := now) else was
    {
      rows := UpdateWhere(rows, (row: Row) => OwnGrant(row, slot, holder, epoch),
                          (row: Row) => row.(heartbeatAt := now));
    }

    /** `lease_renew` with nothing between its two statements. */
    method HandleRenew(slot: Slot, holder: string, epoch: nat, now: nat) returns (reply: GrantReply)
      modifies this
      ensures Value() == old(Value()).(rows := RenewRows(old(rows), slot, holder, epoch, now))
      ensures reply.epoch == epoch && reply.ttlMs == RenewTtl(old(rows), slot, holder, epoch)
      ensures forall i: nat :: FirstOwnGrant(old(rows), i, slot, holder, epoch) ==> reply.ttlMs == old(rows)[i].ttlMs
      ensures (forall i :: 0 <= i < |old(rows)| ==> !OwnGrant(old(rows)[i], slot, holder, epoch)) ==> reply.ttlMs == 0
      ensures reply.expiresAtMs == Min(now + reply.ttlMs, U64_MAX)
    {
      var ttlMs := RenewTtl(rows, slot, holder, epoch);
      RenewTtlIsFirst(rows, slot, holder, epoch);
      Renew(slot, holder, epoch, now);
      reply := GrantReply(epoch, ttlMs, Min(now + ttlMs, U64_MAX));
    }

    /** `reclaim_or_kill` with nothing interleaved: it frees exactly the expired rows of the scope
        whose recorded pid is dead, and reports the candidates it found dead, in table order. */
    method ReclaimOrKill(scope: Scope, now: nat, dead: set<int>) returns (killed: seq<Candidate>)
      modifies this
      ensures queue == old(queue) && lastTicket == old(lastTicket)
      ensures |rows| == |old(rows)|
      ensures forall i :: 0 <= i < |rows| ==>
        var was := old(rows)[i];
        rows[i] == if was.slot.scope == scope && was.active && now > was.heartbeatAt + was.ttlMs && was.pid in dead
                   then was.(active := false, depth := 0, epoch := was.epoch + 1) else was
      ensures ReportsExactly(old(rows), scope, now, dead, killed)
      ensures killed == DeadOf(KillCandidates(old(rows), scope, now), dead)
    {
      var candidates := KillCandidates(rows, scope, now);
      killed := [];
      SweepStarts(rows, scope, now, dead, candidates);
      for n := 0 to |candidates|
        invariant queue == old(queue) && lastTicket == old(lastTicket)
        invariant SweptSoFar(old(rows), rows, scope, now, dead, candidates, n, killed)
      {
        var c := candidates[n];
        SweepTurn(old(rows), rows, scope, now, dead, candidates, n, killed);
        if c.pid in dead {
          var affected := StillKillable(rows, c, now);
          rows := GuardedKill(rows, c, now);
          if affected {
            killed := killed + [c];
          }
        }
      }
      SweepEnds(old(rows), rows, scope, now, dead, candidates, killed);
      KillsAreExact(old(rows), scope, now, dead);
    }
  }

  /** The list has one entry for each row of the scope that is active, past its time to live and of a dead pid,
      in table order, with what the row says; and no other entry. */
  ghost predicate ReportsExactly(rows: seq<Row>, scope: Scope, now: nat, dead: set<int>, killed: seq<Candidate>) {
    && (forall k :: 0 <= k < |killed| ==> ReportsRow(rows, scope, now, dead, killed[k]))
    && (forall i {:trigger Names(killed, i)} ::
          (0 <= i < |rows| && rows[i].slot.scope == scope && rows[i].active
           && now > rows[i].heartbeatAt + rows[i].ttlMs && rows[i].pid in dead) ==> Names(killed, i))
    && (forall j, k :: 0 <= j < k < |killed| ==> killed[j].id < killed[k].id)
  }

  predicate ReportsRow(rows: seq<Row>, scope: Scope, now: nat, dead: set<int>, c: Candidate) {
    && c.id < |rows|
    && (var row := rows[c.id];
        && row.slot.scope == scope && row.active && now > row.heartbeatAt + row.ttlMs && row.pid in dead
        && c.holder == row.holder && c.pid == row.pid && c.epoch == row.epoch && c.lane == row.slot.lane)
  }

  lemma KeptAppends(kept: seq<Candidate>, c: Candidate)
    requires forall j, k :: 0 <= j < k < |kept| ==> kept[j].id < kept[k].id
    requires forall k :: 0 <= k < |kept| ==> kept[k].id < c.id
    ensures var longer := kept + [c]; forall j, k :: 0 <= j < k < |longer| ==> longer[j].id < longer[k].id
  {
  }

  lemma {:induction false} DeadOfKeeps(cs: seq<Candidate>, dead: set<int>, bound: nat)
    requires forall j, k :: 0 <= j < k < |cs| ==> cs[j].id < cs[k].id
    requires forall k :: 0 <= k < |cs| ==> cs[k].id < bound
    ensures var kept := DeadOf(cs, dead);
      && (forall c :: c in kept <==> c in cs && c.pid in dead)
      && (forall k :: 0 <= k < |kept| ==> kept[k].id < bound)
      && (forall j, k :: 0 <= j < k < |kept| ==> kept[j].id < kept[k].id)
    decreases cs
  {
    if cs != [] {
      var (front, c) := (cs[..|cs| - 1], cs[|cs| - 1]);
      DeadOfKeeps(front, dead, c.id);
      assert cs == front + [c];
      KeptAppends(DeadOf(front, dead), c);
    }
  }

  lemma KillsAreExact(rows: seq<Row>, scope: Scope, now: nat, dead: set<int>)
    ensures ReportsExactly(rows, scope, now, dead, DeadOf(KillCandidates(rows, scope, now), dead))
  {
    var cs := KillCandidates(rows, scope, now);
    var killed := DeadOf(cs, dead);
    DeadOfKeeps(cs, dead, |rows|);
    forall i: nat | i < |rows| && rows[i].slot.scope == scope && rows[i].active
                    && now > rows[i].heartbeatAt + rows[i].ttlMs && rows[i].pid in dead
      ensures Names(killed, i)
    {
      assert Lapsed(rows[i], scope, now) && Names(cs, i);
      var k :| 0 <= k < |cs| && cs[k].id == i;
      assert cs[k] in killed;
      var at :| 0 <= at < |killed| && killed[at] == cs[k];
    }
    forall k | 0 <= k < |killed|
      ensures ReportsRow(rows, scope, now, dead, killed[k])
    {
      assert killed[k] in killed;
      var at :| 0 <= at < |cs| && cs[at] == killed[k];
    }
  }

  /** Where the rows a sweep has not reached yet begin. */
  ghost function Bound(candidates: seq<Candidate>, n: nat, size: nat): nat {
    if n < |candidates| then candidates[n].id else size
  }

  /** A row that is no candidate, or whose candidate is not dead, is left alone by a sweep. */
  lemma QuietRow(rows: seq<Row>, scope: Scope, now: nat, dead: set<int>, cs: seq<Candidate>, n: nat, i: nat)
    requires IsSnapshot(rows, scope, now, cs)
    requires n <= |cs| && i < Bound(cs, n, |rows|) && i < |rows|
    requires n > 0 ==> cs[n - 1].id < i
    ensures SweptRow(rows[i], scope, now, dead) == rows[i]
  {
    assert !Names(cs, i);
  }

  ghost predicate SweptUpTo(before: seq<Row>, rows: seq<Row>, scope: Scope, now: nat, dead: set<int>, bound: nat) {
    && |rows| == |before|
    && forall i :: 0 <= i < |rows| ==> rows[i] == if i < bound then SweptRow(before[i], scope, now, dead) else before[i]
  }

  /** The state of the sweep loop before its n-th candidate. */
  ghost predicate SweptSoFar(before: seq<Row>, rows: seq<Row>, scope: Scope, now: nat, dead: set<int>,
                             cs: seq<Candidate>, n: nat, killed: seq<Candidate>) {
    n <= |cs| && SweptUpTo(before, rows, scope, now, dead, Bound(cs, n, |before|)) && killed == DeadOf(cs[..n], dead)
  }

  lemma SweepStarts(before: seq<Row>, scope: Scope, now: nat, dead: set<int>, cs: seq<Candidate>)
    requires IsSnapshot(before, scope, now, cs)
    ensures SweptSoFar(before, before, scope, now, dead, cs, 0, [])
  {
    forall i: nat | i < |before| && i < Bound(cs, 0, |before|)
      ensures SweptRow(before[i], scope, now, dead) == before[i]
    {
      QuietRow(before, scope, now, dead, cs, 0, i);
    }
  }

  /** One turn of the sweep loop carries the swept prefix to the next candidate. */
  lemma SweepOne(before: seq<Row>, rows: seq<Row>, scope: Scope, now: nat, dead: set<int>, cs: seq<Candidate>, n: nat)
    requires IsSnapshot(before, scope, now, cs) && n < |cs|
    requires SweptUpTo(before, rows, scope, now, dead, Bound(cs, n, |before|))
    ensures StillKillable(rows, cs[n], now)
    ensures SweptUpTo(before, if cs[n].pid in dead then GuardedKill(rows, cs[n], now) else rows, scope, now, dead,
                      Bound(cs, n + 1, |before|))
  {
    assert rows[cs[n].id] == before[cs[n].id];
    forall i: nat | cs[n].id < i < |before| && i < Bound(cs, n + 1, |before|)
      ensures SweptRow(before[i], scope, now, dead) == before[i]
    {
      QuietRow(before, scope, now, dead, cs, n + 1, i);
    }
  }

  lemma SweepTurn(before: seq<Row>, rows: seq<Row>, scope: Scope, now: nat, dead: set<int>, cs: seq<Candidate>, n: nat,
                  killed: seq<Candidate>)
    requires IsSnapshot(before, scope, now, cs) && n < |cs|
    requires SweptSoFar(before, rows, scope, now, dead, cs, n, killed)
    ensures StillKillable(rows, cs[n], now)
    ensures cs[n].pid in dead ==>
      SweptSoFar(before, GuardedKill(rows, cs[n], now), scope, now, dead, cs, n + 1, killed + [cs[n]])
    ensures cs[n].pid !in dead ==> SweptSoFar(before, rows, scope, now, dead, cs, n + 1, killed)
  {
    SweepOne(before, rows, scope, now, dead, cs, n);
    assert cs[..n + 1][..n] == cs[..n];
  }

  lemma SweepEnds(before: seq<Row>, rows: seq<Row>, scope: Scope, now: nat, dead: set<int>, cs: seq<Candidate>,
                  killed: seq<Candidate>)
    requires SweptSoFar(before, rows, scope, now, dead, cs, |cs|, killed)
    ensures |rows| == |before| && forall i :: 0 <= i < |rows| ==> rows[i] == SweptRow(before[i], scope, now, dead)
    ensures killed == DeadOf(cs, dead)
  {
    assert cs[..|cs|] == cs;
  }
}
