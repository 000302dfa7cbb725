/**
 One managed child under any interleaving of restarts, monitor exits and watchdog kills.

 Every lock section of `restart`, of a monitor task and of `kill_unresponsive` is a step, and so
 is every signal sent and every process spawned between them. Process ids are never reused.
*/
module RegistryProtocol {
  import opened Common
  import opened ChildBook

  /** A `restart` call between its sections; the initial `spawn` enters as Committed. */
  datatype Restart = Marked(oldPid: nat) | Signalled | Launched(pid: nat) | Committed(pid: nat, generation: nat)

  /** A `kill_unresponsive` call between its sections. */
  datatype KillPhase = Captured | Polling | GraceOver | Condemned
  datatype Kill = Kill(phase: KillPhase, pid: nat, generation: nat)

  /** A signal, or the report of one: the call it came from and the incarnation that call was after. */
  datatype Signal = Signal(call: nat, pid: nat, generation: nat, force: bool)

  datatype World = World(
    book: Book,
    commits: seq<nat>,            // pid of each incarnation, in order
    used: set<nat>,               // pids ever given out
    dead: set<nat>,               // pids whose process has exited
    restarts: map<nat, Restart>,
    monitors: map<nat, nat>,      // attached monitors: pid to the generation they were given
    kills: map<nat, Kill>,
    exits: seq<nat>,              // generations reported by child_exited events
    killSignals: seq<Signal>,
    killReports: seq<Signal>)     // child_killed events, with what they captured

  datatype Step =
    | BeginRestart(call: nat)
    | SignalOld(call: nat)
    | Launch(call: nat, pid: nat)
    | LaunchFails(call: nat)
    | CommitRestart(call: nat)
    | AttachMonitor(call: nat)
    | ProcessExits(pid: nat)
    | MonitorSees(pid: nat)
    | BeginKill(call: nat)
    | Terminate(call: nat)
    | PollMoved(call: nat)
    | PollTimesOut(call: nat)
    | RecheckBook(call: nat)
    | ForceKill(call: nat)

  /** The state right after `spawn` has registered its process. */
  function Init(pid: nat): World {
    World(Spawned(pid), [pid], {pid}, {}, map[0 := Committed(pid, 0)], map[], map[], [], [], [])
  }

  predicate KillAt(w: World, call: nat, phase: KillPhase) {
    call in w.kills && w.kills[call].phase == phase
  }

  function Next(w: World, step: Step): World {
    match step
    case BeginRestart(call) =>
      if call in w.restarts then w
      else w.(book := Mark(w.book), restarts := w.restarts[call := Marked(w.book.pid)])
    case SignalOld(call) =>
      if call in w.restarts && w.restarts[call].Marked? then w.(restarts := w.restarts[call := Signalled]) else w
    case Launch(call, pid) =>
      if call in w.restarts && w.restarts[call].Signalled? && pid != 0 && pid !in w.used then
        w.(used := w.used + {pid}, restarts := w.restarts[call := Launched(pid)])
      else w
    case LaunchFails(call) =>
      if call in w.restarts && w.restarts[call].Signalled? then w.(restarts := w.restarts - {call}) else w
    case CommitRestart(call) =>
      if call in w.restarts && w.restarts[call].Launched? then
        var pid := w.restarts[call].pid;
        var book := Commit(w.book, pid);
        w.(book := book, commits := w.commits + [pid], restarts := w.restarts[call := Committed(pid, book.generation)])
      else w
    case AttachMonitor(call) =>
      if call in w.restarts && w.restarts[call].Committed? then
        w.(monitors := w.monitors[w.restarts[call].pid := w.restarts[call].generation], restarts := w.restarts - {call})
      else w
    case ProcessExits(pid) => if pid in w.used then w.(dead := w.dead + {pid}) else w
    case MonitorSees(pid) =>
      if pid in w.monitors && pid in w.dead then
        var generation := w.monitors[pid];
        w.(book := RecordExit(w.book, generation), monitors := w.monitors - {pid},
           exits := if w.book.generation == generation then w.exits + [generation] else w.exits)
      else w
    case BeginKill(call) =>
      var target := Capture(w.book);
      if call !in w.kills && target.Some? then
        w.(kills := w.kills[call := Kill(Captured, target.value.0, target.value.1)])
      else w
    case Terminate(call) =>
      if KillAt(w, call, Captured) then
        var k := w.kills[call];
        w.(kills := w.kills[call := k.(phase := Polling)],
           killSignals := w.killSignals + [Signal(call, k.pid, k.generation, false)])
      else w
    case PollMoved(call) =>
      if KillAt(w, call, Polling) && MovedOn(w.book, w.kills[call].generation) then
        var k := w.kills[call];
        w.(kills := w.kills - {call}, killReports := w.killReports + [Signal(call, k.pid, k.generation, false)])
      else w
    case PollTimesOut(call) =>
      if KillAt(w, call, Polling) && !MovedOn(w.book, w.kills[call].generation) then
        w.(kills := w.kills[call := w.kills[call].(phase := GraceOver)])
      else w
    case RecheckBook(call) =>
      if KillAt(w, call, GraceOver) then
        var k := w.kills[call];
        if StillCurrent(w.book, k.pid, k.generation) then w.(kills := w.kills[call := k.(phase := Condemned)])
        else w.(kills := w.kills - {call})
      else w
    case ForceKill(call) =>
      if KillAt(w, call, Condemned) then
        var k := w.kills[call];
        w.(kills := w.kills - {call}, killSignals := w.killSignals + [Signal(call, k.pid, k.generation, true)],
           killReports := w.killReports + [Signal(call, k.pid, k.generation, true)])
      else w
  }

  function Exec(w: World, steps: seq<Step>): World
    decreases steps
  {
    if steps == [] then w else Exec(Next(w, steps[0]), steps[1..])
  }

  // ---------- the invariant ----------

  function Latest(w: World): nat
    requires w.commits != []
  {
    w.commits[|w.commits| - 1]
  }

  /** Incarnations have distinct live-once pids, and the counters count them up to their widths. */
  ghost predicate CommitsSound(w: World) {
    && w.commits != []
    && w.book.generation == Min(|w.commits| - 1, U64_MAX)
    && w.book.restartCount == Min(|w.commits| - 1, U32_MAX)
    && (forall i :: 0 <= i < |w.commits| ==> w.commits[i] in w.used && w.commits[i] != 0)
    && (forall i, j :: 0 <= i < j < |w.commits| ==> w.commits[i] != w.commits[j])
  }

  /** A process launched and not yet committed is no incarnation, and no two restarts launched one. */
  ghost predicate LaunchesSound(w: World) {
    && (forall c :: c in w.restarts && w.restarts[c].Launched? ==>
          w.restarts[c].pid in w.used && w.restarts[c].pid !in w.commits && w.restarts[c].pid != 0)
    && (forall c, d ::
          c in w.restarts && d in w.restarts && c != d && w.restarts[c].Launched? && w.restarts[d].Launched? ==>
          w.restarts[c].pid != w.restarts[d].pid)
  }

  /** What the book's state says about its pid and about the process. */
  ghost predicate BookSound(w: World)
    requires w.commits != []
  {
    match w.book.state
    case Running => w.book.pid == Latest(w)
    case Restarting => w.book.pid == 0 || w.book.pid == Latest(w)
    case Stopped => w.book.pid == 0 && Latest(w) in w.dead
  }

  ghost predicate Incarnation(w: World, pid: nat, generation: nat) {
    generation < |w.commits| && w.commits[generation] == pid
  }

  /** Each generation has one monitor to come, one attached, or none any more; only the last kind
      can have been reported, and once. */
  ghost predicate MonitorsSound(w: World) {
    && (forall c :: c in w.restarts && w.restarts[c].Committed? ==>
          && Incarnation(w, w.restarts[c].pid, w.restarts[c].generation)
          && w.restarts[c].pid !in w.monitors && w.restarts[c].generation !in w.exits)
    && (forall c, d ::
          c in w.restarts && d in w.restarts && c != d && w.restarts[c].Committed? && w.restarts[d].Committed? ==>
          w.restarts[c].pid != w.restarts[d].pid)
    && (forall pid :: pid in w.monitors ==> Incarnation(w, pid, w.monitors[pid]) && w.monitors[pid] !in w.exits)
    && (forall i :: 0 <= i < |w.exits| ==> w.exits[i] < |w.commits| && w.commits[w.exits[i]] in w.dead)
    && (forall i, j :: 0 <= i < j < |w.exits| ==> w.exits[i] != w.exits[j])
  }

  /** A kill is after one incarnation, and its signals went to that incarnation's pid. */
  ghost predicate KillsSound(w: World) {
    && (forall c :: c in w.kills ==> Incarnation(w, w.kills[c].pid, w.kills[c].generation))
    && (forall i :: 0 <= i < |w.killSignals| ==> Incarnation(w, w.killSignals[i].pid, w.killSignals[i].generation))
    && (forall i :: 0 <= i < |w.killReports| ==> Incarnation(w, w.killReports[i].pid, w.killReports[i].generation))
  }

  ghost predicate Inv(w: World) {
    CommitsSound(w) && LaunchesSound(w) && BookSound(w) && MonitorsSound(w) && KillsSound(w)
  }

  /** The generation counter still tells all incarnations apart. */
  predicate Unsaturated(w: World) {
    |w.commits| <= U64_MAX
  }

  lemma StepKeepsCommits(w: World, step: Step)
    requires Inv(w)
    ensures CommitsSound(Next(w, step)) && w.commits <= Next(w, step).commits &&
      |Next(w, step).commits| <= |w.commits| + 1
  {
    if !step.CommitRestart? {
      OtherStepCommitsNothing(w, step);
      CommitsCarryOver(w, Next(w, step));
    }
  }

  lemma OtherStepCommitsNothing(w: World, step: Step)
    requires !step.CommitRestart?
    ensures var w' := Next(w, step);
      && w'.commits == w.commits && w.used <= w'.used
      && w'.book.generation == w.book.generation && w'.book.restartCount == w.book.restartCount
  {
  }

  lemma CommitsCarryOver(w: World, w': World)
    requires CommitsSound(w) && w'.commits == w.commits && w.used <= w'.used
    requires w'.book.generation == w.book.generation && w'.book.restartCount == w.book.restartCount
    ensures CommitsSound(w')
  {
  }

  lemma StepKeepsLaunches(w: World, step: Step)
    requires Inv(w)
    ensures LaunchesSound(Next(w, step))
  {
  }

  predicate MovesBook(step: Step) {
    step.BeginRestart? || step.CommitRestart? || step.MonitorSees?
  }

  /** Three kinds of step move the book, and only a commit adds an incarnation. */
  lemma OtherStepKeepsBook(w: World, step: Step)
    requires !MovesBook(step)
    ensures var w' := Next(w, step); w'.book == w.book && w'.commits == w.commits && w.dead <= w'.dead
  {
  }

  lemma BookCarriesOver(w: World, w': World)
    requires w.commits != [] && BookSound(w)
    requires w'.book == w.book && w'.commits == w.commits && w.dead <= w'.dead
    ensures BookSound(w')
  {
  }

  lemma BookStepKeepsBook(w: World, step: Step)
    requires Inv(w) && Unsaturated(w) && MovesBook(step)
    ensures Next(w, step).commits != [] && BookSound(Next(w, step))
  {
    if step.MonitorSees? && step.pid in w.monitors {
      assert Incarnation(w, step.pid, w.monitors[step.pid]);
    }
  }

  lemma StepKeepsBook(w: World, step: Step)
    requires Inv(w) && Unsaturated(w)
    ensures Next(w, step).commits != [] && BookSound(Next(w, step))
  {
    if MovesBook(step) {
      BookStepKeepsBook(w, step);
    } else {
      OtherStepKeepsBook(w, step);
      BookCarriesOver(w, Next(w, step));
    }
  }

  lemma CommitKeepsMonitors(w: World, call: nat)
    requires Inv(w) && Unsaturated(w) && call in w.restarts && w.restarts[call].Launched?
    ensures MonitorsSound(Next(w, CommitRestart(call)))
  {
    var w' := Next(w, CommitRestart(call));
    var pid := w.restarts[call].pid;
    assert Incarnation(w', pid, w'.book.generation);
    assert forall p, g :: Incarnation(w, p, g) ==> Incarnation(w', p, g) && p in w.commits;
    assert pid !in w.monitors;
  }

  lemma AttachKeepsMonitors(w: World, call: nat)
    requires Inv(w) && call in w.restarts && w.restarts[call].Committed?
    ensures MonitorsSound(Next(w, AttachMonitor(call)))
  {
    var w' := Next(w, AttachMonitor(call));
    assert forall p, g :: Incarnation(w, p, g) ==> Incarnation(w', p, g);
  }

  lemma ExitKeepsMonitors(w: World, pid: nat)
    requires Inv(w) && pid in w.monitors && pid in w.dead
    ensures MonitorsSound(Next(w, MonitorSees(pid)))
  {
    var w' := Next(w, MonitorSees(pid));
    assert forall p, g :: Incarnation(w, p, g) ==> Incarnation(w', p, g);
    assert Incarnation(w, pid, w.monitors[pid]);
    assert forall p :: p in w.monitors && w.monitors[p] == w.monitors[pid] ==> p == pid;
  }

  lemma OtherStepKeepsCommitted(w: World, step: Step)
    requires !step.CommitRestart? && !step.AttachMonitor? && !step.MonitorSees?
    ensures var w' := Next(w, step);
      forall c :: c in w'.restarts && w'.restarts[c].Committed? ==> c in w.restarts && w'.restarts[c] == w.restarts[c]
  {
  }

  lemma OtherStepKeepsMonitors(w: World, step: Step)
    requires Inv(w) && !step.CommitRestart? && !step.AttachMonitor? && !step.MonitorSees?
    ensures MonitorsSound(Next(w, step))
  {
    OtherStepKeepsCommitted(w, step);
    MonitorsCarryOver(w, Next(w, step));
  }

  lemma MonitorsCarryOver(w: World, w': World)
    requires MonitorsSound(w)
    requires w'.commits == w.commits && w'.monitors == w.monitors && w'.exits == w.exits && w.dead <= w'.dead
    requires forall c :: c in w'.restarts && w'.restarts[c].Committed? ==>
      c in w.restarts && w'.restarts[c] == w.restarts[c]
    ensures MonitorsSound(w')
  {
    assert forall p, g :: Incarnation(w, p, g) ==> Incarnation(w', p, g);
  }

  lemma StepKeepsMonitors(w: World, step: Step)
    requires Inv(w) && Unsaturated(w)
    ensures MonitorsSound(Next(w, step))
  {
    match step
    case CommitRestart(call) =>
      if call in w.restarts && w.restarts[call].Launched? { CommitKeepsMonitors(w, call); }
    case AttachMonitor(call) =>
      if call in w.restarts && w.restarts[call].Committed? { AttachKeepsMonitors(w, call); }
    case MonitorSees(pid) =>
      if pid in w.monitors && pid in w.dead { ExitKeepsMonitors(w, pid); }
    case _ => OtherStepKeepsMonitors(w, step);
  }

  lemma BeginKillKeepsKills(w: World, call: nat)
    requires Inv(w) && Unsaturated(w)
    ensures KillsSound(Next(w, BeginKill(call)))
  {
    assert Capture(w.book).Some? ==> Incarnation(w, w.book.pid, w.book.generation);
  }

  /** A call that sends or reports does so for the incarnation it captured. */
  lemma SendingKeepsKills(w: World, step: Step)
    requires Inv(w) && (step.Terminate? || step.PollMoved? || step.ForceKill?)
    ensures KillsSound(Next(w, step))
  {
    assert step.call in w.kills ==> Incarnation(w, w.kills[step.call].pid, w.kills[step.call].generation);
  }

  lemma OtherStepKeepsKills(w: World, step: Step)
    requires Inv(w) && !step.BeginKill? && !step.Terminate? && !step.PollMoved? && !step.ForceKill?
    ensures KillsSound(Next(w, step))
  {
    OtherStepSendsNothing(w, step);
    StepCommits(w, step);
    StepKeepsCommits(w, step);
    KillsCarryOver(w, Next(w, step));
  }

  lemma OtherStepSendsNothing(w: World, step: Step)
    requires !step.BeginKill? && !step.Terminate? && !step.PollMoved? && !step.ForceKill?
    ensures var w' := Next(w, step);
      && w'.killSignals == w.killSignals && w'.killReports == w.killReports
      && (forall c :: c in w'.kills ==> c in w.kills && w'.kills[c].pid == w.kills[c].pid
                                        && w'.kills[c].generation == w.kills[c].generation)
  {
  }

  lemma KillsCarryOver(w: World, w': World)
    requires KillsSound(w) && w.commits <= w'.commits
    requires w'.killSignals == w.killSignals && w'.killReports == w.killReports
    requires forall c :: c in w'.kills ==> c in w.kills && w'.kills[c].pid == w.kills[c].pid
                                           && w'.kills[c].generation == w.kills[c].generation
    ensures KillsSound(w')
  {
    assert forall p, g :: Incarnation(w, p, g) ==> Incarnation(w', p, g);
  }

  lemma StepKeepsKills(w: World, step: Step)
    requires Inv(w) && Unsaturated(w)
    ensures KillsSound(Next(w, step))
  {
    if step.BeginKill? {
      BeginKillKeepsKills(w, step.call);
    } else if step.Terminate? || step.PollMoved? || step.ForceKill? {
      SendingKeepsKills(w, step);
    } else {
      OtherStepKeepsKills(w, step);
    }
  }

  // ---------- counting incarnations ----------

  /** The step gives the book a new incarnation. */
  predicate CommitsNow(w: World, step: Step) {
    step.CommitRestart? && step.call in w.restarts && w.restarts[step.call].Launched?
  }

  /** No step of the run does. */
  ghost predicate CommitFree(w: World, steps: seq<Step>)
    decreases steps
  {
    steps == [] || (!CommitsNow(w, steps[0]) && CommitFree(Next(w, steps[0]), steps[1..]))
  }

  lemma StepCommits(w: World, step: Step)
    ensures |Next(w, step).commits| == |w.commits| + if CommitsNow(w, step) then 1 else 0
    ensures !CommitsNow(w, step) ==> Next(w, step).commits == w.commits
  {
  }

  lemma {:induction false} CommitFreeIff(w: World, steps: seq<Step>)
    ensures |Exec(w, steps).commits| >= |w.commits|
    ensures |Exec(w, steps).commits| == |w.commits| <==> CommitFree(w, steps)
    ensures CommitFree(w, steps) ==> Exec(w, steps).commits == w.commits
    decreases steps
  {
    if steps != [] {
      StepCommits(w, steps[0]);
      CommitFreeIff(Next(w, steps[0]), steps[1..]);
    }
  }

  // ---------- the invariant over runs ----------

  /** A run keeps the invariant as long as the generation counter can count its commits; no other step is
      limited. */
  lemma {:induction false} RunKeepsInv(w: World, steps: seq<Step>)
    requires Inv(w) && Unsaturated(Exec(w, steps))
    ensures Inv(Exec(w, steps)) && w.commits <= Exec(w, steps).commits
    ensures |Exec(w, steps).commits| <= |w.commits| + |steps|
    decreases steps
  {
    if steps != [] {
      CommitFreeIff(w, steps);
      CommitFreeIff(Next(w, steps[0]), steps[1..]);
      StepKeepsInv(w, steps[0]);
      RunKeepsInv(Next(w, steps[0]), steps[1..]);
    }
  }

  lemma StepKeepsInv(w: World, step: Step)
    requires Inv(w) && Unsaturated(w)
    ensures Inv(Next(w, step)) && w.commits <= Next(w, step).commits && |Next(w, step).commits| <= |w.commits| + 1
  {
    StepKeepsCommits(w, step);
    StepKeepsLaunches(w, step);
    StepKeepsBook(w, step);
    StepKeepsMonitors(w, step);
    StepKeepsKills(w, step);
  }

  lemma InitHoldsInv(pid: nat)
    requires pid != 0
    ensures Inv(Init(pid))
  {
  }

  // ---------- what holds in every run from spawn ----------

  /** In every interleaving a Running book names the pid spawned for its current generation, a Stopped
      one names none and its process has exited, and restarts are counted up to the width. */
  lemma BookTellsTheTruth(pid: nat, steps: seq<Step>)
    requires pid != 0 && Unsaturated(Exec(Init(pid), steps))
    ensures var w := Exec(Init(pid), steps);
      && |w.commits| == w.book.generation + 1
      && (w.book.state == Running ==> w.book.pid == w.commits[w.book.generation])
      && (w.book.state == Stopped ==> w.book.pid == 0 && w.commits[w.book.generation] in w.dead)
      && (w.book.pid != 0 ==> w.book.pid == w.commits[w.book.generation])
      && w.book.restartCount == Min(w.book.generation, U32_MAX)
  {
    InitHoldsInv(pid);
    RunKeepsInv(Init(pid), steps);
  }

  // ---------- the book, from the history of its latest incarnation ----------

  /** A restart marks the book. */
  predicate Marks(w: World, step: Step) {
    step.BeginRestart? && step.call !in w.restarts
  }

  /** The monitor of the latest incarnation sees its process exited. */
  predicate SeesLatestExit(w: World, step: Step) {
    step.MonitorSees? && step.pid in w.monitors && step.pid in w.dead && w.commits != [] && step.pid == Latest(w)
  }

  /** What happened since the latest commit: a restart marked the book; the exit was seen; it was seen unmarked. */
  datatype History = History(marked: bool, exited: bool, vacated: bool)

  function Recount(h: History, w: World, step: Step): History {
    if CommitsNow(w, step) then History(false, false, false)
    else if Marks(w, step) then h.(marked := true)
    else if SeesLatestExit(w, step) then History(h.marked, true, h.vacated || !h.marked)
    else h
  }

  function HistoryOf(h: History, w: World, steps: seq<Step>): History
    decreases steps
  {
    if steps == [] then h else HistoryOf(Recount(h, w, steps[0]), Next(w, steps[0]), steps[1..])
  }

  /** The book is what the history says: Restarting once marked, else Stopped once the exit was seen, else Running;
      its pid is given up only to an exit seen before any mark; and exactly the seen exit is in the reports. */
  ghost predicate BookTells(w: World, h: History)
    requires w.commits != []
  {
    && w.book.state == (if h.marked then Restarting else if h.exited then Stopped else Running)
    && w.book.pid == (if h.vacated then 0 else Latest(w))
    && (h.vacated ==> h.exited) && (!h.marked ==> (h.vacated <==> h.exited))
    && (|w.commits| - 1 in w.exits <==> h.exited)
  }

  lemma CommitTells(w: World, h: History, step: Step)
    requires Inv(w) && |w.commits| < U64_MAX && BookTells(w, h) && CommitsNow(w, step)
    ensures Next(w, step).commits != [] && BookTells(Next(w, step), History(false, false, false))
  {
    var w' := Next(w, step);
    assert |w'.commits| == |w.commits| + 1;
    assert forall i :: 0 <= i < |w.exits| ==> w.exits[i] < |w.commits|;
  }

  lemma ExitTells(w: World, h: History, step: Step)
    requires Inv(w) && Unsaturated(w) && BookTells(w, h) && step.MonitorSees?
    ensures Next(w, step).commits != [] && BookTells(Next(w, step), Recount(h, w, step))
  {
    if SeesLatestExit(w, step) {
      assert Incarnation(w, step.pid, w.monitors[step.pid]);
      assert w.exits + [|w.commits| - 1] == Next(w, step).exits;
    } else if step.pid != Latest(w) {
      OnlyLatestMonitorCounts(w, step.pid);
    }
  }

  lemma OtherStepReportsNoExit(w: World, step: Step)
    requires !step.MonitorSees?
    ensures Next(w, step).exits == w.exits
  {
  }

  lemma StepTells(w: World, h: History, step: Step)
    requires Inv(w) && Unsaturated(w) && Unsaturated(Next(w, step)) && BookTells(w, h)
    ensures Next(w, step).commits != [] && BookTells(Next(w, step), Recount(h, w, step))
  {
    StepCommits(w, step);
    if CommitsNow(w, step) {
      CommitTells(w, h, step);
    } else if step.MonitorSees? {
      ExitTells(w, h, step);
    } else {
      OtherStepReportsNoExit(w, step);
      if !MovesBook(step) {
        OtherStepKeepsBook(w, step);
      }
    }
  }

  lemma {:induction false} RunTells(w: World, h: History, steps: seq<Step>)
    requires Inv(w) && Unsaturated(Exec(w, steps)) && BookTells(w, h)
    ensures Exec(w, steps).commits != [] && BookTells(Exec(w, steps), HistoryOf(h, w, steps))
    decreases steps
  {
    if steps != [] {
      CommitFreeIff(w, steps);
      CommitFreeIff(Next(w, steps[0]), steps[1..]);
      StepCommits(w, steps[0]);
      StepKeepsInv(w, steps[0]);
      StepTells(w, h, steps[0]);
      RunTells(Next(w, steps[0]), Recount(h, w, steps[0]), steps[1..]);
    }
  }

  /** In every interleaving the book is Restarting exactly if a restart marked it since the latest commit. It is
      Stopped exactly if none did and the monitor of the latest incarnation has seen its exit, which is exactly if
      that exit was reported; otherwise it is Running. */
  lemma BookStateIff(pid: nat, steps: seq<Step>)
    requires pid != 0 && Unsaturated(Exec(Init(pid), steps))
    ensures var w := Exec(Init(pid), steps);
      var h := HistoryOf(History(false, false, false), Init(pid), steps);
      && (w.book.state == Restarting <==> h.marked)
      && (w.book.state == Stopped <==> !h.marked && h.exited)
      && (w.book.state == Running <==> !h.marked && !h.exited)
      && (w.book.pid == 0 <==> h.vacated)
      && (|w.commits| - 1 in w.exits <==> h.exited)
  {
    InitHoldsInv(pid);
    RunTells(Init(pid), History(false, false, false), steps);
    RunKeepsInv(Init(pid), steps);
  }

  /** A monitor whose process has died takes a Running book of its generation to Stopped, with no pid and the same
      counts, and reports the exit. */
  lemma MonitorStopsBook(w: World, seen: nat)
    requires seen in w.monitors && seen in w.dead && w.monitors[seen] == w.book.generation && w.book.state == Running
    ensures var w' := Next(w, MonitorSees(seen));
      && w'.book == Book(0, Stopped, w.book.restartCount, w.book.generation)
      && w'.exits == w.exits + [w.book.generation] && seen !in w'.monitors
  {
  }

  /** In every interleaving each incarnation is reported exited at most once, and only after its
      process has exited. */
  lemma ExitReportedOnce(pid: nat, steps: seq<Step>, i: nat, j: nat)
    requires pid != 0 && Unsaturated(Exec(Init(pid), steps))
    ensures var w := Exec(Init(pid), steps);
      && (i < j < |w.exits| ==> w.exits[i] != w.exits[j])
      && (i < |w.exits| ==> w.exits[i] < |w.commits| && w.commits[w.exits[i]] in w.dead)
  {
    InitHoldsInv(pid);
    RunKeepsInv(Init(pid), steps);
  }

  lemma OnlyLatestMonitorCounts(w: World, seen: nat)
    requires Inv(w) && Unsaturated(w) && seen != Latest(w)
    ensures var w' := Next(w, MonitorSees(seen)); w'.book == w.book && w'.exits == w.exits
  {
    if seen in w.monitors {
      assert Incarnation(w, seen, w.monitors[seen]);
    }
  }

  /** A monitor changes the book, or reports its exit, only for the latest incarnation: once a later
      one has committed it does neither. */
  lemma StaleMonitorIsSilent(pid: nat, steps: seq<Step>, seen: nat)
    requires pid != 0 && Unsaturated(Exec(Init(pid), steps))
    ensures var w := Exec(Init(pid), steps); var w' := Next(w, MonitorSees(seen));
      w.commits != [] && (seen != Latest(w) ==> w'.book == w.book && w'.exits == w.exits)
  {
    InitHoldsInv(pid);
    RunKeepsInv(Init(pid), steps);
    var w := Exec(Init(pid), steps);
    if seen != Latest(w) {
      OnlyLatestMonitorCounts(w, seen);
    }
  }

  lemma LiveBookStaysRunning(w: World, step: Step)
    requires Inv(w) && Unsaturated(w)
    requires w.book.state == Running && Latest(w) !in w.dead && !step.BeginRestart?
    ensures Next(w, step).book.state == Running
  {
    if step.MonitorSees? && step.pid in w.monitors {
      assert Incarnation(w, step.pid, w.monitors[step.pid]);
    }
  }

  /** A live current incarnation is never written off: only the mark of a restart takes the book out
      of Running while the process lives. */
  lemma LiveChildStaysRunning(pid: nat, steps: seq<Step>, step: Step)
    requires pid != 0 && Unsaturated(Exec(Init(pid), steps))
    ensures var w := Exec(Init(pid), steps);
      w.commits != [] && (w.book.state == Running && Latest(w) !in w.dead && !step.BeginRestart? ==>
        Next(w, step).book.state == Running)
  {
    InitHoldsInv(pid);
    RunKeepsInv(Init(pid), steps);
    var w := Exec(Init(pid), steps);
    if w.book.state == Running && Latest(w) !in w.dead && !step.BeginRestart? {
      LiveBookStaysRunning(w, step);
    }
  }

  /** Every signal a kill sends goes to the pid of the one incarnation it captured; no other
      incarnation, before or after, ever has that pid. */
  lemma KillSignalsOneIncarnation(pid: nat, steps: seq<Step>, i: nat, g: nat)
    requires pid != 0 && Unsaturated(Exec(Init(pid), steps))
    ensures var w := Exec(Init(pid), steps);
      i < |w.killSignals| ==>
        && w.killSignals[i].generation < |w.commits|
        && (g < |w.commits| ==> (w.commits[g] == w.killSignals[i].pid <==> g == w.killSignals[i].generation))
  {
    InitHoldsInv(pid);
    RunKeepsInv(Init(pid), steps);
    var w := Exec(Init(pid), steps);
    if i < |w.killSignals| {
      assert Incarnation(w, w.killSignals[i].pid, w.killSignals[i].generation);
    }
  }

  lemma RecheckCondemnsCurrent(w: World, step: Step, call: nat)
    requires Inv(w) && Unsaturated(w)
    requires !KillAt(w, call, Condemned) && KillAt(Next(w, step), call, Condemned)
    ensures step == RecheckBook(call)
    ensures w.kills[call].pid == Latest(w) == w.book.pid && w.kills[call].generation == |w.commits| - 1
  {
    assert step == RecheckBook(call);
    assert call in w.kills && Incarnation(w, w.kills[call].pid, w.kills[call].generation);
  }

  /** A kill is condemned to SIGKILL only by a step at which its captured incarnation is still the
      latest and the book still names its pid. */
  lemma CondemnedOnlyIfCurrent(pid: nat, steps: seq<Step>, step: Step, call: nat)
    requires pid != 0 && Unsaturated(Exec(Init(pid), steps))
    requires var w := Exec(Init(pid), steps); !KillAt(w, call, Condemned) && KillAt(Next(w, step), call, Condemned)
    ensures var w := Exec(Init(pid), steps);
      && step == RecheckBook(call) && w.commits != []
      && w.kills[call].pid == Latest(w) == w.book.pid && w.kills[call].generation == |w.commits| - 1
  {
    InitHoldsInv(pid);
    RunKeepsInv(Init(pid), steps);
    RecheckCondemnsCurrent(Exec(Init(pid), steps), step, call);
  }

  /** A kill polls on exactly while its own incarnation is the latest and Running. Once that has exited, or
      a restart has marked or replaced it, the poll ends the call and reports it killed, a replacement by a
      restart included. */
  lemma PollEndsIff(w: World, call: nat)
    requires Inv(w) && Unsaturated(w) && KillAt(w, call, Polling)
    ensures var k := w.kills[call]; var current := w.book.state == Running && k.generation == |w.commits| - 1;
      && (KillAt(Next(w, PollTimesOut(call)), call, GraceOver) <==> current)
      && (call !in Next(w, PollMoved(call)).kills <==> !current)
      && Next(w, PollMoved(call)).killReports ==
        w.killReports + if current then [] else [Signal(call, k.pid, k.generation, false)]
  {
    assert w.killReports + [] == w.killReports;
    assert Incarnation(w, w.kills[call].pid, w.kills[call].generation);
  }

  /** A SIGKILL is sent only for a condemned call, and to the pid it captured. */
  lemma ForceOnlyIfCondemned(w: World, step: Step)
    ensures var w' := Next(w, step);
      w'.killSignals != w.killSignals ==>
        && |w'.killSignals| == |w.killSignals| + 1
        && (var s := w'.killSignals[|w.killSignals|];
            exists call :: call in w.kills && s.pid == w.kills[call].pid && s.generation == w.kills[call].generation
              && w.kills[call].phase == if s.force then Condemned else Captured)
  {
    if step.Terminate? && KillAt(w, step.call, Captured) {
      assert step.call in w.kills;
    }
    if step.ForceKill? && KillAt(w, step.call, Condemned) {
      assert step.call in w.kills;
    }
  }

  // ---------- marked books, and restarts that fail ----------

  lemma MarkedStepKeepsBook(w: World, step: Step)
    requires w.book.state == Restarting && !CommitsNow(w, step)
    ensures Next(w, step).book == w.book
  {
    MarkedIsLeftAlone(w.book, if step.MonitorSees? && step.pid in w.monitors then w.monitors[step.pid] else 0);
  }

  lemma {:induction false} MarkedRunKeepsBook(w: World, steps: seq<Step>)
    requires w.book.state == Restarting && CommitFree(w, steps)
    ensures Exec(w, steps).book == w.book
    decreases steps
  {
    if steps != [] {
      MarkedStepKeepsBook(w, steps[0]);
      MarkedRunKeepsBook(Next(w, steps[0]), steps[1..]);
    }
  }

  /** A marked book stays as it is, whatever monitors, kills and further restarts do, exactly until one of
      the restarts commits. */
  lemma MarkedUntilCommit(w: World, steps: seq<Step>)
    requires Inv(w) && Unsaturated(Exec(w, steps)) && w.book.state == Restarting
    ensures Exec(w, steps).book == w.book <==> CommitFree(w, steps)
  {
    CommitFreeIff(w, steps);
    RunKeepsInv(w, steps);
    if CommitFree(w, steps) {
      MarkedRunKeepsBook(w, steps);
    }
  }

  /** A failed respawn leaves the book marked Restarting with the pid it had, whatever other restarts are under
      way: monitor exits, kills, process exits and further marks leave it so exactly until a restart commits. */
  lemma FailedRespawnStaysMarked(w: World, call: nat, steps: seq<Step>)
    requires Inv(w) && Unsaturated(Exec(w, [LaunchFails(call)] + steps))
    requires call in w.restarts && w.restarts[call] == Signalled && w.book.state == Restarting
    ensures Exec(w, [LaunchFails(call)] + steps).book == w.book <==> CommitFree(Next(w, LaunchFails(call)), steps)
  {
    var w' := Next(w, LaunchFails(call));
    assert ([LaunchFails(call)] + steps)[1..] == steps;
    CommitFreeIff(w, [LaunchFails(call)] + steps);
    StepKeepsInv(w, LaunchFails(call));
    MarkedUntilCommit(w', steps);
  }

  // ---------- late exits ----------

  /** A restart's commit and a monitor's late exit come to the same book in either order; what differs is only
      whether the exit is reported. */
  lemma ExitAndCommitCommute(w: World, seen: nat, call: nat)
    requires Inv(w) && |w.commits| < U64_MAX && CommitsNow(w, CommitRestart(call))
    requires seen in w.monitors && seen in w.dead
    ensures var (exitFirst, commitFirst) := (Next(Next(w, MonitorSees(seen)), CommitRestart(call)),
                                             Next(Next(w, CommitRestart(call)), MonitorSees(seen)));
      && exitFirst == commitFirst.(exits := exitFirst.exits)
      && commitFirst.exits == w.exits
      && exitFirst.exits == w.exits + if seen == Latest(w) then [w.book.generation] else []
  {
    assert Incarnation(w, seen, w.monitors[seen]);
    ExitCommutesWithCommitIff(w.book, w.restarts[call].pid, w.monitors[seen]);
    assert w.exits + [] == w.exits;
  }

  /** The monitor that a commit replaces leaves the fresh incarnation alone exactly while the generation
      counter has room. */
  lemma ReplacedMonitorSilentIff(w: World, seen: nat, call: nat)
    requires LaunchesSound(w) && w.book.generation <= U64_MAX && CommitsNow(w, CommitRestart(call))
    requires seen in w.monitors && seen in w.dead && w.monitors[seen] == w.book.generation
    ensures var w' := Next(w, CommitRestart(call));
      Next(w', MonitorSees(seen)).book == w'.book <==> w.book.generation < U64_MAX
  {
    StaleExitIgnoredIff(w.book, w.restarts[call].pid);
  }

  lemma PollEndsIfMovedOn(w: World, call: nat)
    requires KillAt(w, call, Polling) && MovedOn(w.book, w.kills[call].generation)
    ensures call !in Next(w, PollMoved(call)).kills && !KillAt(Next(w, PollTimesOut(call)), call, GraceOver)
  {
  }

  lemma CurrentExitRecorded(w: World, seen: nat)
    requires Inv(w) && Unsaturated(w) && seen == Latest(w) && seen in w.monitors && seen in w.dead
    ensures var w' := Next(w, MonitorSees(seen));
      w'.book == RecordExit(w.book, w.book.generation) && w'.kills == w.kills
  {
    assert Incarnation(w, seen, w.monitors[seen]);
  }

  /** Once its exit is recorded, every kill that polls the incarnation ends at its next look. */
  lemma ExitEndsEveryPoll(w: World, seen: nat, call: nat)
    requires Inv(w) && Unsaturated(w) && seen == Latest(w) && seen in w.monitors && seen in w.dead
    requires KillAt(w, call, Polling)
    ensures var w' := Next(w, MonitorSees(seen));
      call !in Next(w', PollMoved(call)).kills && !KillAt(Next(w', PollTimesOut(call)), call, GraceOver)
  {
    CurrentExitRecorded(w, seen);
    ExitRecordedOnce(w.book);
    PollEndsIfMovedOn(Next(w, MonitorSees(seen)), call);
  }

  // ---------- kills, from capture to SIGKILL ----------

  lemma BeginKillCapturesLatest(w: World, call: nat)
    requires Inv(w) && Unsaturated(w) && call !in w.kills && Capture(w.book).Some?
    ensures var w' := Next(w, BeginKill(call));
      call in w'.kills && w'.kills[call] == Kill(Captured, Latest(w), |w.commits| - 1)
  {
  }

  /** A kill begins exactly if the child is Running, and then captures its latest incarnation. */
  lemma KillBeginsIffRunning(w: World, call: nat)
    requires Inv(w) && Unsaturated(w) && call !in w.kills
    ensures var w' := Next(w, BeginKill(call));
      && (call in w'.kills <==> w.book.state == Running)
      && (call in w'.kills ==> w'.kills[call] == Kill(Captured, Latest(w), |w.commits| - 1))
  {
    if Capture(w.book).Some? {
      BeginKillCapturesLatest(w, call);
    }
  }

  /** A kill is after the generation that was current at some earlier state exactly if no restart committed
      from there until the kill began. */
  lemma CapturesGenerationOfIff(w: World, steps: seq<Step>, call: nat)
    requires Inv(w) && Unsaturated(Exec(w, steps))
    requires call !in Exec(w, steps).kills && Capture(Exec(w, steps).book).Some?
    ensures var w' := Next(Exec(w, steps), BeginKill(call));
      && call in w'.kills
      && (w'.kills[call].generation == |w.commits| - 1 <==> CommitFree(w, steps))
      && (w'.kills[call].pid == Latest(w) <==> CommitFree(w, steps))
  {
    RunKeepsInv(w, steps);
    CommitFreeIff(w, steps);
    BeginKillCapturesLatest(Exec(w, steps), call);
    assert Latest(w) == Exec(w, steps).commits[|w.commits| - 1];
  }

  /** A restart before a kill starts, wherever the snapshot was: the fresh incarnation is terminated. */
  lemma FreshIncarnationTerminated()
    ensures var steps := [BeginRestart(2), SignalOld(2), Launch(2, 8), CommitRestart(2), BeginKill(1), Terminate(1)];
      Exec(Init(7), steps).killSignals == [Signal(1, 8, 1, false)]
  {
  }

  lemma UnresponsiveChildIsTerminated(w: World, call: nat, pid: nat, generation: nat)
    requires call !in w.kills && Capture(w.book) == Some((pid, generation))
    ensures var w' := Next(Next(w, BeginKill(call)), Terminate(call));
      w' == w.(kills := w.kills[call := Kill(Polling, pid, generation)],
               killSignals := w.killSignals + [Signal(call, pid, generation, false)])
  {
    assert w.kills[call := Kill(Captured, pid, generation)][call := Kill(Polling, pid, generation)]
      == w.kills[call := Kill(Polling, pid, generation)];
  }

  lemma PollingChildIsForced(w: World, call: nat)
    requires KillAt(w, call, Polling)
    requires !MovedOn(w.book, w.kills[call].generation)
    requires StillCurrent(w.book, w.kills[call].pid, w.kills[call].generation)
    ensures var k := w.kills[call]; var s := Signal(call, k.pid, k.generation, true);
      var w' := Next(Next(Next(w, PollTimesOut(call)), RecheckBook(call)), ForceKill(call));
      && w'.killSignals == w.killSignals + [s] && w'.killReports == w.killReports + [s]
      && call !in w'.kills && w'.book == w.book
  {
    var k := w.kills[call];
    var w1 := Next(w, PollTimesOut(call));
    assert KillAt(w1, call, GraceOver) && w1.kills[call] == Kill(GraceOver, k.pid, k.generation) && w1.book == w.book;
    var w2 := Next(w1, RecheckBook(call));
    assert KillAt(w2, call, Condemned) && w2.kills[call] == Kill(Condemned, k.pid, k.generation);
  }

  /** A child that never reacts, with nothing else going on, is terminated, forced and reported, each at the
      one pid that was captured. */
  lemma UnresponsiveChildIsForced(w: World, call: nat)
    requires call !in w.kills && Capture(w.book).Some?
    ensures var (pid, generation) := Capture(w.book).value;
      var polling := Next(Next(w, BeginKill(call)), Terminate(call));
      var w' := Next(Next(Next(polling, PollTimesOut(call)), RecheckBook(call)), ForceKill(call));
      && w'.killSignals
           == w.killSignals + [Signal(call, pid, generation, false)] + [Signal(call, pid, generation, true)]
      && w'.killReports == w.killReports + [Signal(call, pid, generation, true)]
      && call !in w'.kills && w'.book == w.book
  {
    var (pid, generation) := Capture(w.book).value;
    CapturedIffCurrent(w.book, pid, generation);
    UnresponsiveChildIsTerminated(w, call, pid, generation);
    PollingChildIsForced(Next(Next(w, BeginKill(call)), Terminate(call)), call);
  }

  /** The call waits for its re-check in grace-over, after this incarnation, until it looks; then no step but
      its own beginning brings it back. */
  lemma GraceOverStep(w: World, step: Step, call: nat)
    requires step != BeginKill(call)
    ensures var w' := Next(w, step);
      && (KillAt(w', call, GraceOver) ==> KillAt(w, call, GraceOver) || KillAt(w, call, Polling))
      && (KillAt(w', call, Polling) ==> KillAt(w, call, Polling) || KillAt(w, call, Captured))
      && (KillAt(w', call, Captured) ==> KillAt(w, call, Captured))
      && (call in w'.kills ==>
            call in w.kills && w'.kills[call].(phase := Captured) == w.kills[call].(phase := Captured))
  {
  }

  lemma {:induction false} GraceOverStays(w: World, steps: seq<Step>, call: nat)
    requires forall i :: 0 <= i < |steps| ==> steps[i] != BeginKill(call)
    requires !KillAt(w, call, Captured) && !KillAt(w, call, Polling)
    ensures KillAt(Exec(w, steps), call, GraceOver) ==>
      KillAt(w, call, GraceOver) && Exec(w, steps).kills[call] == w.kills[call]
    decreases steps
  {
    if steps != [] {
      assert steps[0] != BeginKill(call);
      GraceOverStep(w, steps[0], call);
      GraceOverStays(Next(w, steps[0]), steps[1..], call);
    }
  }

  lemma RecheckCondemnsIff(w: World, call: nat)
    requires KillAt(w, call, GraceOver)
    ensures KillAt(Next(w, RecheckBook(call)), call, Condemned) <==>
      StillCurrent(w.book, w.kills[call].pid, w.kills[call].generation)
  {
  }

  /** The re-check reads generation and pid, not the state: a kill whose grace is over still forces a child
      that a restart has marked, however late it looks, exactly until a restart commits. */
  lemma MarkedChildStillForcedIff(w: World, steps: seq<Step>, call: nat)
    requires Inv(w) && Unsaturated(Exec(w, steps)) && KillAt(w, call, GraceOver)
    requires w.book.state == Restarting && w.book.pid != 0 && w.kills[call].generation == |w.commits| - 1
    requires forall i :: 0 <= i < |steps| ==> steps[i] != BeginKill(call)
    requires KillAt(Exec(w, steps), call, GraceOver)
    ensures KillAt(Next(Exec(w, steps), RecheckBook(call)), call, Condemned) <==> CommitFree(w, steps)
  {
    assert Incarnation(w, w.kills[call].pid, w.kills[call].generation);
    GraceOverStays(w, steps, call);
    CommitFreeIff(w, steps);
    RunKeepsInv(w, steps);
    MarkedUntilCommit(w, steps);
    RecheckCondemnsIff(Exec(w, steps), call);
  }

  /** The first process terminated by a kill whose grace ran out. */
  function GraceRanOut(): World {
    World(Book(7, Running, 0, 0), [7], {7}, {}, map[0 := Committed(7, 0)], map[],
          map[1 := Kill(GraceOver, 7, 0)], [], [Signal(1, 7, 0, false)], [])
  }

  lemma ReachesGraceRanOut()
    ensures Exec(Init(7), [BeginKill(1), Terminate(1), PollTimesOut(1)]) == GraceRanOut()
  {
  }

  lemma ForcedUnderMark()
    ensures var w := Exec(GraceRanOut(), [BeginRestart(2), RecheckBook(1), ForceKill(1)]);
      w.killSignals == [Signal(1, 7, 0, false), Signal(1, 7, 0, true)] && w.book == Book(7, Restarting, 0, 0)
  {
  }

  /** A concrete run: SIGKILL under the mark of a restart. */
  lemma MarkedChildForced()
    ensures var steps := [BeginKill(1), Terminate(1), PollTimesOut(1), BeginRestart(2), RecheckBook(1), ForceKill(1)];
      var w := Exec(Init(7), steps);
      w.killSignals == [Signal(1, 7, 0, false), Signal(1, 7, 0, true)] && w.book == Book(7, Restarting, 0, 0)
  {
    var (before, after) := ([BeginKill(1), Terminate(1), PollTimesOut(1)],
                            [BeginRestart(2), RecheckBook(1), ForceKill(1)]);
    ExecJoins(Init(7), before, after);
    ReachesGraceRanOut();
    ForcedUnderMark();
    assert before + after
      == [BeginKill(1), Terminate(1), PollTimesOut(1), BeginRestart(2), RecheckBook(1), ForceKill(1)];
  }

  // ---------- kills that a restart supersedes ----------

  /** How many kill events a call has yielded. */
  function ReportsBy(reports: seq<Signal>, call: nat): nat {
    if reports == [] then 0
    else
      var last := |reports| - 1;
      ReportsBy(reports[..last], call) + if reports[last].call == call then 1 else 0
  }

  lemma ReportAppended(reports: seq<Signal>, r: Signal, call: nat)
    ensures ReportsBy(reports + [r], call) == ReportsBy(reports, call) + if r.call == call then 1 else 0
  {
    assert (reports + [r])[..|reports|] == reports;
  }

  /** A later incarnation has committed since the call captured its own. */
  predicate Superseded(w: World, call: nat) {
    call in w.kills && w.kills[call].generation + 1 < |w.commits|
  }

  /** A commit supersedes every kill under way at once, whatever its phase: no poll or re-check of it passes any
      more, and only the new incarnation can be captured. */
  lemma CommitSupersedesKills(w: World, restart: nat, call: nat)
    requires Inv(w) && |w.commits| < U64_MAX && CommitsNow(w, CommitRestart(restart)) && call in w.kills
    ensures var w' := Next(w, CommitRestart(restart)); var k := w'.kills[call];
      && k == w.kills[call] && Superseded(w', call)
      && MovedOn(w'.book, k.generation) && !StillCurrent(w'.book, k.pid, k.generation)
      && Capture(w'.book) == Some((w.restarts[restart].pid, |w.commits|))
  {
    var k := w.kills[call];
    assert Incarnation(w, k.pid, k.generation);
    CommitRetiresEarlier(w.book, w.restarts[restart].pid, k.generation, k.pid);
  }

  /** The kill event a step yields. */
  function ReportOf(w: World, step: Step): seq<Signal> {
    match step
    case PollMoved(call) =>
      if KillAt(w, call, Polling) && MovedOn(w.book, w.kills[call].generation) then
        [Signal(call, w.kills[call].pid, w.kills[call].generation, false)]
      else []
    case ForceKill(call) =>
      if KillAt(w, call, Condemned) then [Signal(call, w.kills[call].pid, w.kills[call].generation, true)] else []
    case _ => []
  }

  lemma StepAppendsReport(w: World, step: Step)
    ensures Next(w, step).killReports == w.killReports + ReportOf(w, step)
  {
    assert w.killReports + [] == w.killReports;
  }

  /** A call ends with its report, or in silence at its re-check. */
  lemma KillEndsWithReport(w: World, step: Step, call: nat)
    ensures call in w.kills && call !in Next(w, step).kills && !step.RecheckBook? <==>
      ReportOf(w, step) != [] && ReportOf(w, step)[0].call == call
  {
  }

  /** At most one report per step, and it is its own call's. */
  lemma StepReports(w: World, step: Step, call: nat)
    ensures var (before, after) := (ReportsBy(w.killReports, call), ReportsBy(Next(w, step).killReports, call));
      after == before + if call in w.kills && call !in Next(w, step).kills && !step.RecheckBook? then 1 else 0
  {
    var report := ReportOf(w, step);
    StepAppendsReport(w, step);
    KillEndsWithReport(w, step, call);
    if report != [] {
      assert report == [report[0]];
      ReportAppended(w.killReports, report[0], call);
    } else {
      assert w.killReports + [] == w.killReports;
    }
  }

  /** The step is one of the call's own, past its beginning. */
  predicate Advances(step: Step, call: nat) {
    step == Terminate(call) || step == PollMoved(call) || step == PollTimesOut(call) || step == RecheckBook(call)
    || step == ForceKill(call)
  }

  lemma OnlyOwnStepsAdvance(w: World, step: Step, call: nat)
    requires call in w.kills && !Advances(step, call)
    ensures var w' := Next(w, step); call in w'.kills && w'.kills[call] == w.kills[call]
  {
  }

  lemma SupersededAdvance(w: World, step: Step, call: nat)
    requires Inv(w) && Unsaturated(w) && Superseded(w, call) && Advances(step, call)
    ensures var w' := Next(w, step);
      if call in w'.kills then
        && w'.kills[call].generation == w.kills[call].generation
        && (w'.kills[call].phase == GraceOver <==> w.kills[call].phase == GraceOver)
      else
        step.RecheckBook? <==> w.kills[call].phase == GraceOver
  {
  }

  lemma SupersededStep(w: World, step: Step, call: nat)
    requires Inv(w) && Unsaturated(w) && Superseded(w, call)
    ensures var w' := Next(w, step);
      if call in w'.kills then
        Superseded(w', call) && (w'.kills[call].phase == GraceOver <==> w.kills[call].phase == GraceOver)
      else
        step.RecheckBook? <==> w.kills[call].phase == GraceOver
  {
    StepCommits(w, step);
    if Advances(step, call) {
      SupersededAdvance(w, step, call);
    } else {
      OnlyOwnStepsAdvance(w, step, call);
    }
  }

  lemma {:induction false} GoneStaysUnreported(w: World, steps: seq<Step>, call: nat)
    requires call !in w.kills && forall i :: 0 <= i < |steps| ==> steps[i] != BeginKill(call)
    ensures ReportsBy(Exec(w, steps).killReports, call) == ReportsBy(w.killReports, call)
    decreases steps
  {
    if steps != [] {
      StepReports(w, steps[0], call);
      assert steps[0] != BeginKill(call);
      GoneStaysUnreported(Next(w, steps[0]), steps[1..], call);
    }
  }

  /** A call whose incarnation a restart has replaced yields exactly one kill event, unless its grace had run
      out and its re-check was still to come: then it ends in silence. Only that last case is the promised
      abort; a replacement that the poll sees, or that comes after the re-check, is reported as a kill. */
  lemma {:induction false} SupersededKillReportedIff(w: World, steps: seq<Step>, call: nat)
    requires Inv(w) && Unsaturated(Exec(w, steps)) && Superseded(w, call)
    requires forall i :: 0 <= i < |steps| ==> steps[i] != BeginKill(call)
    requires call !in Exec(w, steps).kills
    ensures ReportsBy(Exec(w, steps).killReports, call)
         == ReportsBy(w.killReports, call) + if w.kills[call].phase == GraceOver then 0 else 1
    decreases steps
  {
    var w' := Next(w, steps[0]);
    CommitFreeIff(w, steps);
    StepReports(w, steps[0], call);
    SupersededStep(w, steps[0], call);
    if call in w'.kills {
      StepKeepsInv(w, steps[0]);
      SupersededKillReportedIff(w', steps[1..], call);
    } else {
      GoneStaysUnreported(w', steps[1..], call);
    }
  }

  lemma {:induction false} ExecJoins(w: World, xs: seq<Step>, ys: seq<Step>)
    ensures Exec(w, xs + ys) == Exec(Exec(w, xs), ys)
    decreases xs
  {
    if xs == [] {
      assert xs + ys == ys;
    } else {
      assert (xs + ys)[1..] == xs[1..] + ys;
      ExecJoins(Next(w, xs[0]), xs[1..], ys);
    }
  }

  /** The first process terminated by a kill in its grace, and marked by a restart. */
  function KilledAndMarked(): World {
    World(Book(7, Restarting, 0, 0), [7], {7}, {}, map[0 := Committed(7, 0), 2 := Marked(7)], map[],
          map[1 := Kill(Polling, 7, 0)], [], [Signal(1, 7, 0, false)], [])
  }

  lemma ReachesKilledAndMarked()
    ensures Exec(Init(7), [BeginKill(1), Terminate(1), BeginRestart(2)]) == KilledAndMarked()
  {
  }

  lemma PollSeesReplacement()
    ensures var w := Exec(KilledAndMarked(), [SignalOld(2), Launch(2, 8), CommitRestart(2), PollMoved(1)]);
      w.killReports == [Signal(1, 7, 0, false)] && w.book == Book(8, Running, 1, 1)
  {
  }

  /** A restart seen by the grace poll: the kill is reported although the fresh incarnation runs on. */
  lemma RestartInGraceStillReported()
    ensures var steps := [BeginKill(1), Terminate(1), BeginRestart(2), SignalOld(2), Launch(2, 8), CommitRestart(2),
      PollMoved(1)];
      var w := Exec(Init(7), steps);
      w.killReports == [Signal(1, 7, 0, false)] && w.book == Book(8, Running, 1, 1)
  {
    var (before, after) := ([BeginKill(1), Terminate(1), BeginRestart(2)],
      [SignalOld(2), Launch(2, 8), CommitRestart(2), PollMoved(1)]);
    ExecJoins(Init(7), before, after);
    ReachesKilledAndMarked();
    PollSeesReplacement();
    assert before + after ==
      [BeginKill(1), Terminate(1), BeginRestart(2), SignalOld(2), Launch(2, 8), CommitRestart(2), PollMoved(1)];
  }
}
