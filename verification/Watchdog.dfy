/**
 The heartbeat watchdog: a ledger of last beats, deadlines tiered by what is in flight, and sweeps
 that snapshot the stale children and only then act on them.
*/
module Watchdog {
  import opened Common
  import LlmQueue
  import LlmFairness

  datatype Beat = Beat(lastBeat: nat, inFlight: bool)
  datatype Stale = Stale(child: string, since: nat, deadline: nat)
  datatype Deadlines = Deadlines(normal: nat, extended: nat)

  type Ledger = map<string, Beat>

  /** The extended deadline applies iff the queue or the child's own last beat says it is in a call. */
  function Deadline(d: Deadlines, beat: Beat, queued: bool): nat {
    if queued || beat.inFlight then d.extended else d.normal
  }

  /** What a sweep finds about one child; a child that never beat is not stale. */
  function Judge(ledger: Ledger, d: Deadlines, queued: set<string>, child: string, now: nat): Option<Stale> {
    if child in ledger && SatSub(now, ledger[child].lastBeat) > Deadline(d, ledger[child], child in queued) then
      Some(Stale(child, SatSub(now, ledger[child].lastBeat), Deadline(d, ledger[child], child in queued)))
    else None
  }

  /** The stale ones among the known children, in their order. */
  function StaleOf(ledger: Ledger, d: Deadlines, queued: set<string>, known: seq<string>, now: nat): (r: seq<Stale>)
    ensures forall c :: c in r <==> exists i :: 0 <= i < |known| && Judge(ledger, d, queued, known[i], now) == Some(c)
  {
    if known == [] then []
    else
      var last := |known| - 1;
      var verdict := Judge(ledger, d, queued, known[last], now);
      assert known == known[..last] + [known[last]];
      StaleOf(ledger, d, queued, known[..last], now) + if verdict.Some? then [verdict.value] else []
  }

  /** The candidates whose kill was not void, in their order. */
  function KilledOf(stale: seq<Stale>, gone: set<string>): seq<string> {
    if stale == [] then []
    else
      var last := stale[|stale| - 1];
      KilledOf(stale[..|stale| - 1], gone) + if last.child in gone then [] else [last.child]
  }

  /** The list names the stale among the known children in their order, each with how long it was silent and the
      deadline it missed: `at` says where among the known each stands. */
  ghost predicate ListsStale(ledger: Ledger, d: Deadlines, queued: set<string>, known: seq<string>, now: nat,
                             stale: seq<Stale>, at: seq<nat>) {
    && |at| == |stale|
    && (forall k :: 0 <= k < |at| ==>
          && at[k] < |known| && stale[k].child == known[at[k]] && known[at[k]] in ledger
          && stale[k].since == now - ledger[known[at[k]]].lastBeat
          && stale[k].deadline
               == (if known[at[k]] in queued || ledger[known[at[k]]].inFlight then d.extended else d.normal)
          && stale[k].since > stale[k].deadline)
    && (forall j, k :: 0 <= j < k < |at| ==> at[j] < at[k])
    && (forall i :: 0 <= i < |known| && Judge(ledger, d, queued, known[i], now).Some? ==> i in at)
  }

  lemma {:induction false} StaleInOrder(ledger: Ledger, d: Deadlines, queued: set<string>, known: seq<string>, now: nat)
    returns (at: seq<nat>)
    ensures ListsStale(ledger, d, queued, known, now, StaleOf(ledger, d, queued, known, now), at)
    decreases known
  {
    if known == [] {
      at := [];
    } else {
      var last := |known| - 1;
      var before := StaleInOrder(ledger, d, queued, known[..last], now);
      at := StaleNext(ledger, d, queued, known, now, before);
    }
  }

  lemma StaleNext(ledger: Ledger, d: Deadlines, queued: set<string>, known: seq<string>, now: nat, before: seq<nat>)
    returns (at: seq<nat>)
    requires known != []
    requires var front := known[..|known| - 1];
      ListsStale(ledger, d, queued, front, now, StaleOf(ledger, d, queued, front, now), before)
    ensures ListsStale(ledger, d, queued, known, now, StaleOf(ledger, d, queued, known, now), at)
  {
    var last := |known| - 1;
    var front := StaleOf(ledger, d, queued, known[..last], now);
    if Judge(ledger, d, queued, known[last], now).Some? {
      at := before + [last];
      assert at[|before|] == last;
    } else {
      at := before;
      assert front + [] == front;
    }
    forall i | 0 <= i < |known| && Judge(ledger, d, queued, known[i], now).Some?
      ensures i in at
    {
      if i < last {
        assert known[..last][i] == known[i] && i in before;
      }
    }
  }

  /** A child is stale exactly if it has beaten, longer ago than the deadline of its tier. */
  lemma JudgedStaleIff(ledger: Ledger, d: Deadlines, queued: set<string>, child: string, now: nat)
    ensures Judge(ledger, d, queued, child, now).Some? <==>
      child in ledger
      && now > ledger[child].lastBeat + if child in queued || ledger[child].inFlight then d.extended else d.normal
  {
  }

  class Watchdog {
    var ledger: Ledger
    const deadlines: Deadlines

    constructor (normal: nat, extended: nat)
      ensures ledger == map[] && deadlines == Deadlines(normal, extended)
    {
      ledger := map[];
      deadlines := Deadlines(normal, extended);
    }

    method Record(child: string, inFlight: bool, now: nat)
      modifies this`ledger
      ensures ledger == old(ledger)[child := Beat(now, inFlight)]
    {
      ledger := ledger[child := Beat(now, inFlight)];
    }

    method Forget(child: string)
      modifies this`ledger
      ensures ledger == old(ledger) - {child}
    {
      ledger := ledger - {child};
    }

    method StaleCandidates(known: seq<string>, queued: set<string>, now: nat) returns (stale: seq<Stale>)
      ensures stale == StaleOf(ledger, deadlines, queued, known, now)
    {
      stale := [];
      for i := 0 to |known|
        invariant stale == StaleOf(ledger, deadlines, queued, known[..i], now)
      {
        assert known[..i + 1][..i] == known[..i];
        if known[i] !in ledger {
          continue;
        }
        var rec := ledger[known[i]];
        var deadline := if known[i] in queued || rec.inFlight then deadlines.extended else deadlines.normal;
        var since := SatSub(now, rec.lastBeat);
        if since > deadline {
          stale := stale + [Stale(known[i], since, deadline)];
        }
      }
      assert known[..|known|] == known;
    }

    /** One sweep with nothing interleaved. `gone` are the children whose kill came back empty. */
    method RunOneSweep(known: seq<string>, queued: set<string>, gone: set<string>, now: nat)
      returns (killed: seq<string>)
      modifies this`ledger
      ensures ledger == old(ledger)
        - (set c | c in StaleOf(old(ledger), deadlines, queued, known, now) && c.child !in gone :: c.child)
      ensures forall id :: id in killed <==>
        id !in gone && id in known && Judge(old(ledger), deadlines, queued, id, now).Some?
      ensures killed == KilledOf(StaleOf(old(ledger), deadlines, queued, known, now), gone)
    {
      var candidates := StaleCandidates(known, queued, now);
      ghost var before := ledger;
      killed := [];
      for i := 0 to |candidates|
        invariant ledger == Forgetting(before, candidates[..i], gone)
        invariant killed == KilledOf(candidates[..i], gone)
      {
        var cand := candidates[i];
        assert candidates[..i + 1][..i] == candidates[..i];
        if cand.child !in gone {
          Forget(cand.child);
          killed := killed + [cand.child];
        }
      }
      assert candidates[..|candidates|] == candidates;
      ForgettingIs(before, candidates, gone);
      forall id
        ensures id in killed <==> id !in gone && id in known && Judge(before, deadlines, queued, id, now).Some?
      {
        KilledIff(candidates, gone, id);
        StaleIff(before, deadlines, queued, known, now, id);
      }
    }
  }

  /** The ledger after the candidates were gone through. */
  function Forgetting(ledger: Ledger, stale: seq<Stale>, gone: set<string>): Ledger {
    if stale == [] then ledger
    else
      var (rest, last) := (Forgetting(ledger, stale[..|stale| - 1], gone), stale[|stale| - 1]);
      if last.child in gone then rest else rest - {last.child}
  }

  lemma {:induction false} ForgettingIs(ledger: Ledger, stale: seq<Stale>, gone: set<string>)
    ensures Forgetting(ledger, stale, gone) == ledger - (set c | c in stale && c.child !in gone :: c.child)
    decreases stale
  {
    if stale != [] {
      var (front, last) := (stale[..|stale| - 1], stale[|stale| - 1]);
      assert stale == front + [last];
      ForgettingIs(ledger, front, gone);
      assert (set c | c in stale && c.child !in gone :: c.child)
        == (set c | c in front && c.child !in gone :: c.child) + if last.child in gone then {} else {last.child};
    }
  }

  lemma {:induction false} KilledIff(stale: seq<Stale>, gone: set<string>, id: string)
    ensures id in KilledOf(stale, gone) <==> id !in gone && exists c :: c in stale && c.child == id
    decreases stale
  {
    if stale != [] {
      var (front, last) := (stale[..|stale| - 1], stale[|stale| - 1]);
      assert stale == front + [last];
      KilledIff(front, gone, id);
      if last.child == id {
        assert last in stale;
      }
    }
  }

  // ---------- runs with beats and sweeps interleaved ----------

  /** A kill attempted, and the sweep call that attempted it. */
  datatype Attempt = Attempt(call: nat, child: string)

  /** Sweep calls between their snapshot and their last kill, and every kill attempted. */
  datatype State = State(ledger: Ledger, sweeps: map<nat, seq<Stale>>, attempts: seq<Attempt>)

  datatype Step =
    | Beats(child: string, inFlight: bool, now: nat)
    | Forgets(child: string)
    | Snapshot(call: nat, known: seq<string>, queued: set<string>, now: nat)
    | Acts(call: nat, gone: bool)

  function Next(s: State, d: Deadlines, step: Step): State {
    match step
    case Beats(child, inFlight, now) => s.(ledger := s.ledger[child := Beat(now, inFlight)])
    case Forgets(child) => s.(ledger := s.ledger - {child})
    case Snapshot(call, known, queued, now) => s.(sweeps := s.sweeps[call := StaleOf(s.ledger, d, queued, known, now)])
    case Acts(call, gone) =>
      if call in s.sweeps && s.sweeps[call] != [] then
        var child := s.sweeps[call][0].child;
        State(if gone then s.ledger else s.ledger - {child}, s.sweeps[call := s.sweeps[call][1..]],
              s.attempts + [Attempt(call, child)])
      else s
  }

  function Exec(s: State, d: Deadlines, steps: seq<Step>): State
    decreases steps
  {
    if steps == [] then s else Next(Exec(s, d, steps[..|steps| - 1]), d, steps[|steps| - 1])
  }

  const IDLE: State := State(map[], map[], [])

  predicate IsBeat(step: Step, child: string) {
    step.Beats? && step.child == child
  }

  /** The child's last beat in a run. */
  function LastBeat(steps: seq<Step>, child: string): (r: Option<Step>)
    ensures r.Some? ==> r.value in steps && IsBeat(r.value, child)
    ensures r.None? ==> forall i :: 0 <= i < |steps| ==> !IsBeat(steps[i], child)
    decreases steps
  {
    if steps == [] then None
    else if IsBeat(steps[|steps| - 1], child) then Some(steps[|steps| - 1])
    else LastBeat(steps[..|steps| - 1], child)
  }

  /** A beat the ledger still holds is the child's last one. */
  lemma {:induction false} LedgerHoldsLastBeat(d: Deadlines, steps: seq<Step>, child: string)
    ensures var ledger := Exec(IDLE, d, steps).ledger;
      child in ledger ==>
        LastBeat(steps, child).Some? && var b := LastBeat(steps, child).value; ledger[child] == Beat(b.now, b.inFlight)
    decreases steps
  {
    if steps != [] {
      LedgerHoldsLastBeat(d, steps[..|steps| - 1], child);
    }
  }

  ghost predicate Spared(s: State, child: string) {
    && (forall a :: a in s.attempts ==> a.child != child)
    && (forall call, c :: call in s.sweeps && c in s.sweeps[call] ==> c.child != child)
  }

  lemma StepSpares(s: State, d: Deadlines, step: Step, child: string)
    requires Spared(s, child)
    requires step.Snapshot? && child in step.known ==> Judge(s.ledger, d, step.queued, child, step.now).None?
    ensures Spared(Next(s, d, step), child)
  {
    if step.Acts? && step.call in s.sweeps && s.sweeps[step.call] != [] {
      assert s.sweeps[step.call][0] in s.sweeps[step.call];
      forall c | c in s.sweeps[step.call][1..]
        ensures c in s.sweeps[step.call]
      {
      }
    }
  }

  /** At every snapshot a child that has beaten did so no longer ago than its last beat's limit. */
  ghost predicate Punctual(steps: seq<Step>, child: string, d: Deadlines) {
    forall i :: 0 <= i < |steps| && steps[i].Snapshot? && LastBeat(steps[..i], child).Some? ==>
      var b := LastBeat(steps[..i], child).value;
      SatSub(steps[i].now, b.now) <= Deadline(d, Beat(b.now, b.inFlight), child in steps[i].queued)
  }

  /** No sweep of any run ever goes after a child that meets the deadline it is judged by. */
  lemma {:induction false} PunctualChildSpared(d: Deadlines, steps: seq<Step>, child: string)
    requires Punctual(steps, child, d)
    ensures Spared(Exec(IDLE, d, steps), child)
    decreases steps
  {
    if steps != [] {
      var n := |steps| - 1;
      forall i | 0 <= i < n && steps[..n][i].Snapshot? && LastBeat(steps[..n][..i], child).Some?
        ensures var b := LastBeat(steps[..n][..i], child).value;
          SatSub(steps[..n][i].now, b.now) <= Deadline(d, Beat(b.now, b.inFlight), child in steps[..n][i].queued)
      {
        assert steps[..n][..i] == steps[..i] && steps[i] == steps[..n][i];
      }
      PunctualChildSpared(d, steps[..n], child);
      LedgerHoldsLastBeat(d, steps[..n], child);
      StepSpares(Exec(IDLE, d, steps[..n]), d, steps[n], child);
    }
  }

  predicate Looks(step: Step, child: string) {
    IsBeat(step, child) || step.Snapshot?
  }

  /** The clock never runs backwards over the child's beats and the sweeps' snapshots. */
  ghost predicate ClockForward(steps: seq<Step>, child: string) {
    forall i, j :: 0 <= i < j < |steps| && Looks(steps[i], child) && Looks(steps[j], child) ==>
      steps[i].now <= steps[j].now
  }

  /** The beat is followed by another at most `limit` later, or by no snapshot more than `limit` later. */
  ghost predicate GapWithin(steps: seq<Step>, child: string, i: nat, limit: nat)
    requires i < |steps| && IsBeat(steps[i], child)
  {
    || (exists j :: i < j < |steps| && IsBeat(steps[j], child) && steps[j].now <= steps[i].now + limit)
    || (forall k :: i < k < |steps| && steps[k].Snapshot? ==> steps[k].now <= steps[i].now + limit)
  }

  /** No gap between a child's beats exceeds `limit`, nor does the wait after its last one. */
  ghost predicate GapsWithin(steps: seq<Step>, child: string, limit: nat) {
    forall i :: 0 <= i < |steps| && IsBeat(steps[i], child) ==> GapWithin(steps, child, i, limit)
  }

  /** Where the last beat of a prefix stands. */
  lemma {:induction false} LastBeatAt(steps: seq<Step>, child: string, n: nat) returns (at: nat)
    requires n <= |steps| && LastBeat(steps[..n], child).Some?
    ensures at < n && IsBeat(steps[at], child) && steps[at] == LastBeat(steps[..n], child).value
    ensures forall k :: at < k < n ==> !IsBeat(steps[k], child)
  {
    assert n > 0;
    if IsBeat(steps[n - 1], child) {
      at := n - 1;
    } else {
      assert steps[..n][..n - 1] == steps[..n - 1];
      at := LastBeatAt(steps, child, n - 1);
    }
  }

  /** Bounded gaps leave the last beat fresh at every snapshot. */
  lemma FreshAtSnapshot(steps: seq<Step>, child: string, limit: nat, i: nat)
    requires ClockForward(steps, child) && GapsWithin(steps, child, limit)
    requires i < |steps| && steps[i].Snapshot? && LastBeat(steps[..i], child).Some?
    ensures steps[i].now <= LastBeat(steps[..i], child).value.now + limit
  {
    var at := LastBeatAt(steps, child, i);
    assert GapWithin(steps, child, at, limit);
    if j :| at < j < |steps| && IsBeat(steps[j], child) && steps[j].now <= steps[at].now + limit {
      NextBeatIsLater(steps, child, i, j);
    }
  }

  lemma NextBeatIsLater(steps: seq<Step>, child: string, i: nat, j: nat)
    requires ClockForward(steps, child) && i <= j < |steps| && steps[i].Snapshot? && IsBeat(steps[j], child)
    ensures steps[i].now <= steps[j].now
  {
    assert Looks(steps[i], child) && Looks(steps[j], child);
  }

  lemma PunctualFromGaps(d: Deadlines, steps: seq<Step>, child: string, limit: nat)
    requires ClockForward(steps, child) && GapsWithin(steps, child, limit)
    requires forall i :: 0 <= i < |steps| && steps[i].Snapshot? && LastBeat(steps[..i], child).Some? ==>
      var b := LastBeat(steps[..i], child).value;
      limit <= Deadline(d, Beat(b.now, b.inFlight), child in steps[i].queued)
    ensures Punctual(steps, child, d)
  {
    forall i | 0 <= i < |steps| && steps[i].Snapshot? && LastBeat(steps[..i], child).Some?
      ensures var b := LastBeat(steps[..i], child).value;
        SatSub(steps[i].now, b.now) <= Deadline(d, Beat(b.now, b.inFlight), child in steps[i].queued)
    {
      FreshAtSnapshot(steps, child, limit, i);
    }
  }

  /** With the normal deadline no longer than the extended one, a child whose beats are never further apart
      than the normal deadline is never killed by any sweep of any run. */
  lemma SteadyChildNeverKilled(d: Deadlines, steps: seq<Step>, child: string)
    requires d.normal <= d.extended && ClockForward(steps, child) && GapsWithin(steps, child, d.normal)
    ensures forall a :: a in Exec(IDLE, d, steps).attempts ==> a.child != child
  {
    PunctualFromGaps(d, steps, child, d.normal);
    PunctualChildSpared(d, steps, child);
  }

  /** A child that every snapshot finds in a call, by the queue or by its own last beat, only has to keep its
      beats within the extended deadline. */
  lemma BusyChildGetsExtendedDeadline(d: Deadlines, steps: seq<Step>, child: string)
    requires ClockForward(steps, child) && GapsWithin(steps, child, d.extended)
    requires forall i :: 0 <= i < |steps| && steps[i].Snapshot? && LastBeat(steps[..i], child).Some? ==>
      child in steps[i].queued || LastBeat(steps[..i], child).value.inFlight
    ensures forall a :: a in Exec(IDLE, d, steps).attempts ==> a.child != child
  {
    PunctualFromGaps(d, steps, child, d.extended);
    PunctualChildSpared(d, steps, child);
  }

  // ---------- the snapshot decides ----------

  function ChildrenOf(stale: seq<Stale>): seq<string> {
    seq(|stale|, i requires 0 <= i < |stale| => stale[i].child)
  }

  /** The children one sweep call has attempted, in order. */
  function AttemptedBy(attempts: seq<Attempt>, call: nat): seq<string> {
    if attempts == [] then []
    else
      var last := attempts[|attempts| - 1];
      AttemptedBy(attempts[..|attempts| - 1], call) + if last.call == call then [last.child] else []
  }

  /** What a call has attempted and what it still has on its list. */
  function Planned(s: State, call: nat): seq<string> {
    AttemptedBy(s.attempts, call) + if call in s.sweeps then ChildrenOf(s.sweeps[call]) else []
  }

  /** No step but a new snapshot of the call itself changes its plan: beats and other calls do not touch its
      list, and acting moves the first child from the list to the attempts. */
  lemma PlanStays(s: State, d: Deadlines, step: Step, call: nat)
    requires !(step.Snapshot? && step.call == call)
    ensures Planned(Next(s, d, step), call) == Planned(s, call)
    ensures call in Next(s, d, step).sweeps <==> call in s.sweeps
  {
    if step.Acts? && step.call in s.sweeps && s.sweeps[step.call] != [] {
      var (list, a) := (s.sweeps[step.call], Attempt(step.call, s.sweeps[step.call][0].child));
      assert (s.attempts + [a])[..|s.attempts|] == s.attempts;
      if step.call == call {
        assert ChildrenOf(list) == [a.child] + ChildrenOf(list[1..]);
        Associative(AttemptedBy(s.attempts, call), [a.child], ChildrenOf(list[1..]));
      } else {
        assert AttemptedBy(s.attempts, call) + [] == AttemptedBy(s.attempts, call);
      }
    }
  }

  lemma {:induction false} PlanStaysOverRun(s: State, d: Deadlines, steps: seq<Step>, call: nat)
    requires forall i :: 0 <= i < |steps| ==> !(steps[i].Snapshot? && steps[i].call == call)
    ensures Planned(Exec(s, d, steps), call) == Planned(s, call)
    ensures call in Exec(s, d, steps).sweeps <==> call in s.sweeps
    decreases steps
  {
    if steps != [] {
      var n := |steps| - 1;
      PlanStaysOverRun(s, d, steps[..n], call);
      PlanStays(Exec(s, d, steps[..n]), d, steps[n], call);
    }
  }

  /** Once a sweep call has worked off its list, it has attempted exactly the children its snapshot found
      stale, in order, whatever beats, forgets and other calls came in between. */
  lemma SnapshotDecides(s: State, d: Deadlines, look: Step, steps: seq<Step>)
    requires look.Snapshot?
    requires forall i :: 0 <= i < |steps| ==> !(steps[i].Snapshot? && steps[i].call == look.call)
    requires var end := Exec(Next(s, d, look), d, steps); look.call in end.sweeps ==> end.sweeps[look.call] == []
    ensures AttemptedBy(Exec(Next(s, d, look), d, steps).attempts, look.call)
         == AttemptedBy(s.attempts, look.call) + ChildrenOf(StaleOf(s.ledger, d, look.queued, look.known, look.now))
  {
    PlanStaysOverRun(Next(s, d, look), d, steps, look.call);
    var end := Exec(Next(s, d, look), d, steps);
    assert AttemptedBy(end.attempts, look.call) + [] == AttemptedBy(end.attempts, look.call);
  }

  /** So a fresh call attempts a child exactly if it was stale at the snapshot: later beats do not save it,
      and later silence does not add it. */
  lemma AttemptedIffStaleAtSnapshot(s: State, d: Deadlines, look: Step, steps: seq<Step>, child: string)
    requires look.Snapshot? && AttemptedBy(s.attempts, look.call) == []
    requires forall i :: 0 <= i < |steps| ==> !(steps[i].Snapshot? && steps[i].call == look.call)
    requires var end := Exec(Next(s, d, look), d, steps); look.call in end.sweeps ==> end.sweeps[look.call] == []
    ensures child in AttemptedBy(Exec(Next(s, d, look), d, steps).attempts, look.call) <==>
      child in look.known && child in s.ledger
      && look.now > s.ledger[child].lastBeat
           + if child in look.queued || s.ledger[child].inFlight then d.extended else d.normal
  {
    SnapshotDecides(s, d, look, steps);
    var stale := StaleOf(s.ledger, d, look.queued, look.known, look.now);
    StaleIff(s.ledger, d, look.queued, look.known, look.now, child);
    assert [] + ChildrenOf(stale) == ChildrenOf(stale);
    ChildrenAre(stale, child);
  }

  lemma ChildrenAre(stale: seq<Stale>, child: string)
    ensures child in ChildrenOf(stale) <==> exists c :: c in stale && c.child == child
  {
    if c :| c in stale && c.child == child {
      var k :| 0 <= k < |stale| && stale[k] == c;
      assert ChildrenOf(stale)[k] == child;
    }
    if child in ChildrenOf(stale) {
      var k :| 0 <= k < |stale| && ChildrenOf(stale)[k] == child;
      assert stale[k] in stale;
    }
  }

  /** The children the LLM queue reports in a call. */
  function QueueView(q: LlmQueue.Queue, known: seq<string>, now: nat): set<string> {
    set c | c in known && LlmQueue.HasInFlight(q, c, now)
  }

  /** An admitted call buys its child the extended deadline: whatever the queue does afterwards, short of
      releasing or admitting that child again, a sweep that looks within the call's time to live goes after
      the child only if it missed the extended deadline. The queue and the ledger keep separate clocks. */
  lemma AdmittedCallExtendsDeadline(q: LlmQueue.Queue, r: LlmQueue.Request, admittedAt: nat,
                                    steps: seq<LlmFairness.Step>, later: nat,
                                    ledger: Ledger, d: Deadlines, known: seq<string>, now: nat)
    requires LlmQueue.AdmitQ(q, r, admittedAt).1.Admitted? && later <= admittedAt + r.ttlMs
    requires var q' := LlmQueue.AdmitQ(q, r, admittedAt).0;
      forall i :: 0 <= i < |steps| ==> !LlmFairness.Removes(LlmFairness.At(q', steps, i), steps[i], r.child)
    requires forall i :: 0 <= i < |steps| && steps[i].Sweeping? ==> steps[i].now <= later
    ensures var view := QueueView(LlmFairness.Exec(LlmQueue.AdmitQ(q, r, admittedAt).0, steps), known, later);
      (exists c :: c in StaleOf(ledger, d, view, known, now) && c.child == r.child) <==>
        r.child in known && r.child in ledger && SatSub(now, ledger[r.child].lastBeat) > d.extended
  {
    LlmFairness.InFlightUntilTtl(q, r, admittedAt, steps, later);
    var view := QueueView(LlmFairness.Exec(LlmQueue.AdmitQ(q, r, admittedAt).0, steps), known, later);
    StaleIff(ledger, d, view, known, now, r.child);
  }

  lemma StaleIff(ledger: Ledger, d: Deadlines, queued: set<string>, known: seq<string>, now: nat, child: string)
    ensures (exists c :: c in StaleOf(ledger, d, queued, known, now) && c.child == child) <==>
      child in known && Judge(ledger, d, queued, child, now).Some?
  {
    if child in known && Judge(ledger, d, queued, child, now).Some? {
      var i :| 0 <= i < |known| && known[i] == child;
      assert Judge(ledger, d, queued, child, now).value in StaleOf(ledger, d, queued, known, now);
    }
  }

  /** A stale child is acted on: a snapshot that knows it queues it for the kill. */
  lemma StaleChildIsQueued(s: State, d: Deadlines, step: Step, child: string)
    requires step.Snapshot?
    ensures var s' := Next(s, d, step);
      (exists c :: c in s'.sweeps[step.call] && c.child == child) <==>
        child in step.known && child in s.ledger
        && step.now > s.ledger[child].lastBeat
             + if child in step.queued || s.ledger[child].inFlight then d.extended else d.normal
  {
    StaleIff(s.ledger, d, step.queued, step.known, step.now, child);
  }

  /** The snapshot does not know about a beat that arrives before the kill: the child is attempted all
      the same. */
  lemma LateBeatDoesNotSave()
    ensures var steps := [Beats("c", false, 0), Snapshot(0, ["c"], {}, 50), Beats("c", false, 51), Acts(0, false)];
      Exec(IDLE, Deadlines(30, 600), steps).attempts == [Attempt(0, "c")]
  {
    var d := Deadlines(30, 600);
    var steps := [Beats("c", false, 0), Snapshot(0, ["c"], {}, 50), Beats("c", false, 51), Acts(0, false)];
    assert steps[..3][..2] == steps[..2] && steps[..2][..1] == steps[..1] && steps[..1][..0] == [];
    assert steps[..3][2] == steps[2] && steps[..2][1] == steps[1] && steps[..1][0] == steps[0];
    var s1 := Exec(IDLE, d, steps[..1]);
    assert Exec(IDLE, d, steps[..1][..0]) == IDLE;
    assert s1 == Next(IDLE, d, steps[0]);
    assert s1.ledger == map["c" := Beat(0, false)];
    var s2 := Exec(IDLE, d, steps[..2]);
    assert s2 == Next(s1, d, steps[1]);
    assert ["c"][..0] == [];
    assert StaleOf(s1.ledger, d, {}, ["c"], 50) == [Stale("c", 50, 30)];
    assert s2.sweeps == map[0 := [Stale("c", 50, 30)]];
    var s3 := Exec(IDLE, d, steps[..3]);
    assert s3 == Next(s2, d, steps[2]);
    assert s3.sweeps == s2.sweeps;
    assert Next(s3, d, Acts(0, false)).attempts == [] + [Attempt(0, "c")];
  }
}
