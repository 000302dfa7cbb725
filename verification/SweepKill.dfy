/**
 The watchdog and the registry together, for one child: heartbeats, restarts and sweeps interleaved, and
 which incarnation a sweep's kill is after.

 The ledger knows a child by its id alone, and neither a restart nor a spawn writes to it. A sweep call's
 kill of the child begins as a section of the registry; everything else of either side runs as before.
*/
module SweepKill {
  import opened Common
  import opened Watchdog
  import ChildBook
  import RegistryProtocol

  datatype Joint = Joint(dog: State, world: RegistryProtocol.World)

  datatype JointStep =
    | Dog(step: Step)
    | Reg(move: RegistryProtocol.Step)
    | KillStarts(sweep: nat, call: nat)

  /** The child is next on the sweep call's list. */
  predicate IsNext(dog: State, id: string, sweep: nat) {
    sweep in dog.sweeps && dog.sweeps[sweep] != [] && dog.sweeps[sweep][0].child == id
  }

  /** Kills of the child begin only through a sweep call, which takes it off its list as they do; the ledger
      forgets it later, in a step of its own. */
  function JointNext(j: Joint, d: Deadlines, id: string, step: JointStep): Joint {
    match step
    case Dog(s) => if s.Acts? && IsNext(j.dog, id, s.call) then j else j.(dog := Next(j.dog, d, s))
    case Reg(s) => if s.BeginKill? then j else j.(world := RegistryProtocol.Next(j.world, s))
    case KillStarts(sweep, call) =>
      if IsNext(j.dog, id, sweep) && call !in j.world.kills then
        Joint(Next(j.dog, d, Acts(sweep, true)), RegistryProtocol.Next(j.world, RegistryProtocol.BeginKill(call)))
      else j
  }

  function Run(j: Joint, d: Deadlines, id: string, steps: seq<JointStep>): Joint
    decreases steps
  {
    if steps == [] then j else Run(JointNext(j, d, id, steps[0]), d, id, steps[1..])
  }

  /** The state right after `spawn`, with nothing heard from the child. */
  function Start(pid: nat): Joint {
    Joint(IDLE, RegistryProtocol.Init(pid))
  }

  // ---------- the registry's part of a joint run ----------

  /** The registry steps of a joint run, in order. */
  function Moves(j: Joint, d: Deadlines, id: string, steps: seq<JointStep>): seq<RegistryProtocol.Step>
    decreases steps
  {
    if steps == [] then []
    else MovesOf(j, id, steps[0]) + Moves(JointNext(j, d, id, steps[0]), d, id, steps[1..])
  }

  function MovesOf(j: Joint, id: string, step: JointStep): seq<RegistryProtocol.Step> {
    match step
    case Dog(_) => []
    case Reg(s) => if s.BeginKill? then [] else [s]
    case KillStarts(sweep, call) =>
      if IsNext(j.dog, id, sweep) && call !in j.world.kills then [RegistryProtocol.BeginKill(call)] else []
  }

  lemma {:induction false} WorldRuns(j: Joint, d: Deadlines, id: string, steps: seq<JointStep>)
    ensures Run(j, d, id, steps).world == RegistryProtocol.Exec(j.world, Moves(j, d, id, steps))
    decreases steps
  {
    if steps != [] {
      var j' := JointNext(j, d, id, steps[0]);
      WorldRuns(j', d, id, steps[1..]);
      var (first, rest) := (MovesOf(j, id, steps[0]), Moves(j', d, id, steps[1..]));
      RegistryProtocol.ExecJoins(j.world, first, rest);
      if first != [] {
        assert first == [first[0]] && first[1..] == [];
      }
    }
  }

  /** No step of the joint run gives the book a new incarnation. */
  ghost predicate NoRestartCommits(j: Joint, d: Deadlines, id: string, steps: seq<JointStep>)
    decreases steps
  {
    steps == []
    || (!(steps[0].Reg? && RegistryProtocol.CommitsNow(j.world, steps[0].move))
        && NoRestartCommits(JointNext(j, d, id, steps[0]), d, id, steps[1..]))
  }

  lemma {:induction false} NoCommitsIffFree(j: Joint, d: Deadlines, id: string, steps: seq<JointStep>)
    ensures NoRestartCommits(j, d, id, steps) <==> RegistryProtocol.CommitFree(j.world, Moves(j, d, id, steps))
    decreases steps
  {
    if steps != [] {
      var j' := JointNext(j, d, id, steps[0]);
      NoCommitsIffFree(j', d, id, steps[1..]);
      var (first, rest) := (MovesOf(j, id, steps[0]), Moves(j', d, id, steps[1..]));
      if first == [] {
        assert first + rest == rest;
      } else {
        assert (first + rest)[0] == first[0] && (first + rest)[1..] == rest;
      }
    }
  }

  // ---------- the watchdog's part ----------

  predicate BeatsId(step: JointStep, id: string) {
    step.Dog? && IsBeat(step.step, id)
  }

  /** Until the child beats again, the ledger holds the beat it held, if any. */
  lemma {:induction false} BeatStays(j: Joint, d: Deadlines, id: string, steps: seq<JointStep>, beat: Beat)
    requires id in j.dog.ledger ==> j.dog.ledger[id] == beat
    requires forall i :: 0 <= i < |steps| ==> !BeatsId(steps[i], id)
    ensures var ledger := Run(j, d, id, steps).dog.ledger; id in ledger ==> ledger[id] == beat
    decreases steps
  {
    if steps != [] {
      assert !BeatsId(steps[0], id);
      BeatStays(JointNext(j, d, id, steps[0]), d, id, steps[1..], beat);
    }
  }

  predicate LooksBy(step: JointStep, sweep: nat) {
    step.Dog? && step.step.Snapshot? && step.step.call == sweep
  }

  ghost predicate AllFrom(list: seq<Stale>, found: seq<Stale>) {
    forall c :: c in list ==> c in found
  }

  lemma ListStepShrinks(j: Joint, d: Deadlines, id: string, step: JointStep, sweep: nat, found: seq<Stale>)
    requires sweep in j.dog.sweeps && AllFrom(j.dog.sweeps[sweep], found) && !LooksBy(step, sweep)
    ensures var dog := JointNext(j, d, id, step).dog; sweep in dog.sweeps && AllFrom(dog.sweeps[sweep], found)
  {
  }

  /** Until it looks again, a call's list only holds what its snapshot found. */
  lemma {:induction false} ListShrinks(j: Joint, d: Deadlines, id: string, steps: seq<JointStep>, sweep: nat,
                                       found: seq<Stale>)
    requires sweep in j.dog.sweeps && AllFrom(j.dog.sweeps[sweep], found)
    requires forall i :: 0 <= i < |steps| ==> !LooksBy(steps[i], sweep)
    ensures var dog := Run(j, d, id, steps).dog; sweep in dog.sweeps && AllFrom(dog.sweeps[sweep], found)
    decreases steps
  {
    if steps != [] {
      assert !LooksBy(steps[0], sweep);
      ListStepShrinks(j, d, id, steps[0], sweep, found);
      ListShrinks(JointNext(j, d, id, steps[0]), d, id, steps[1..], sweep, found);
    }
  }

  // ---------- which incarnation the kill is after ----------

  /** The parts of a run up to a kill: the child's last beat before a sweep call's snapshot, the snapshot, and
      what came in between and after. */
  datatype Story = Story(pid: nat, before: seq<JointStep>, beat: Step, between: seq<JointStep>, look: Step,
                         after: seq<JointStep>) {

    ghost predicate Valid(id: string) {
      && pid != 0 && IsBeat(beat, id) && look.Snapshot?
      && (forall i :: 0 <= i < |between| ==> !BeatsId(between[i], id))
      && (forall i :: 0 <= i < |after| ==> !LooksBy(after[i], look.call))
    }

    function AtBeat(d: Deadlines, id: string): Joint {
      JointNext(Run(Start(pid), d, id, before), d, id, Dog(beat))
    }

    function AtLook(d: Deadlines, id: string): Joint {
      Run(AtBeat(d, id), d, id, between)
    }

    function AtKill(d: Deadlines, id: string): Joint {
      Run(JointNext(AtLook(d, id), d, id, Dog(look)), d, id, after)
    }

    /** Everything from the beat up to the kill. */
    function SinceBeat(): seq<JointStep> {
      between + [Dog(look)] + after
    }
  }

  lemma {:induction false} RunJoins(j: Joint, d: Deadlines, id: string, xs: seq<JointStep>, ys: seq<JointStep>)
    ensures Run(j, d, id, xs + ys) == Run(Run(j, d, id, xs), d, id, ys)
    decreases xs
  {
    if xs == [] {
      assert xs + ys == ys;
    } else {
      assert (xs + ys)[1..] == xs[1..] + ys;
      RunJoins(JointNext(j, d, id, xs[0]), d, id, xs[1..], ys);
    }
  }

  lemma KillIsAfterStory(s: Story, d: Deadlines, id: string)
    ensures s.AtKill(d, id) == Run(s.AtBeat(d, id), d, id, s.SinceBeat())
  {
    var j := s.AtBeat(d, id);
    RunJoins(j, d, id, s.between + [Dog(s.look)], s.after);
    RunJoins(j, d, id, s.between, [Dog(s.look)]);
    assert [Dog(s.look)][1..] == [];
  }

  /** If the sweep call comes to the child, it was that last beat which the snapshot judged and found too old. */
  lemma LastBeatWasJudged(s: Story, d: Deadlines, id: string)
    requires s.Valid(id) && IsNext(s.AtKill(d, id).dog, id, s.look.call)
    ensures id in s.look.known
    ensures SatSub(s.look.now, s.beat.now) > Deadline(d, Beat(s.beat.now, s.beat.inFlight), id in s.look.queued)
  {
    var beat := Beat(s.beat.now, s.beat.inFlight);
    BeatStays(s.AtBeat(d, id), d, id, s.between, beat);
    var ledger := s.AtLook(d, id).dog.ledger;
    var found := StaleOf(ledger, d, s.look.queued, s.look.known, s.look.now);
    ListShrinks(JointNext(s.AtLook(d, id), d, id, Dog(s.look)), d, id, s.after, s.look.call, found);
    var c := s.AtKill(d, id).dog.sweeps[s.look.call][0];
    assert c in s.AtKill(d, id).dog.sweeps[s.look.call];
    StaleIff(ledger, d, s.look.queued, s.look.known, s.look.now, id);
  }

  lemma BeatFindsInv(s: Story, d: Deadlines, id: string)
    requires s.Valid(id) && RegistryProtocol.Unsaturated(s.AtBeat(d, id).world)
    ensures RegistryProtocol.Inv(s.AtBeat(d, id).world)
  {
    WorldRuns(Start(s.pid), d, id, s.before);
    RegistryProtocol.InitHoldsInv(s.pid);
    RegistryProtocol.RunKeepsInv(RegistryProtocol.Init(s.pid), Moves(Start(s.pid), d, id, s.before));
  }

  /** In every interleaving, the kill a sweep call starts is after the incarnation whose last beat the snapshot
      judged exactly if no restart committed between that beat and the start of the kill; otherwise it is after
      one that committed since, and had not been heard of when the snapshot judged. */
  lemma KillsTheJudgedIncarnationIff(s: Story, d: Deadlines, id: string, call: nat)
    requires s.Valid(id) && IsNext(s.AtKill(d, id).dog, id, s.look.call)
    requires RegistryProtocol.Unsaturated(s.AtKill(d, id).world)
    requires call !in s.AtKill(d, id).world.kills && ChildBook.Capture(s.AtKill(d, id).world.book).Some?
    ensures var atBeat := s.AtBeat(d, id);
      var killing := JointNext(s.AtKill(d, id), d, id, KillStarts(s.look.call, call)).world;
      && atBeat.world.commits != [] && call in killing.kills
      && SatSub(s.look.now, s.beat.now) > Deadline(d, Beat(s.beat.now, s.beat.inFlight), id in s.look.queued)
      && (killing.kills[call].generation == atBeat.world.book.generation <==>
            NoRestartCommits(atBeat, d, id, s.SinceBeat()))
      && (killing.kills[call].pid == RegistryProtocol.Latest(atBeat.world) <==>
            NoRestartCommits(atBeat, d, id, s.SinceBeat()))
  {
    LastBeatWasJudged(s, d, id);
    KillIsAfterStory(s, d, id);
    var (atBeat, late) := (s.AtBeat(d, id), Moves(s.AtBeat(d, id), d, id, s.SinceBeat()));
    WorldRuns(atBeat, d, id, s.SinceBeat());
    NoCommitsIffFree(atBeat, d, id, s.SinceBeat());
    RegistryProtocol.CommitFreeIff(atBeat.world, late);
    BeatFindsInv(s, d, id);
    RegistryProtocol.CapturesGenerationOfIff(atBeat.world, late, call);
  }

  // ---------- a fresh child killed for its predecessor's silence ----------

  function Restart(): seq<JointStep> {
    [Reg(RegistryProtocol.BeginRestart(2)), Reg(RegistryProtocol.SignalOld(2)), Reg(RegistryProtocol.Launch(2, 8)),
     Reg(RegistryProtocol.CommitRestart(2))]
  }

  /** The child heard of at 0, and restarted as process 8. */
  function Restarted(): Joint {
    Joint(State(map["c" := Beat(0, false)], map[], []),
          RegistryProtocol.World(ChildBook.Book(8, ChildBook.Running, 1, 1), [7, 8], {7, 8}, {},
            map[0 := RegistryProtocol.Committed(7, 0), 2 := RegistryProtocol.Committed(8, 1)],
            map[], map[], [], [], []))
  }

  lemma ReachesRestarted(d: Deadlines)
    ensures Run(Start(7), d, "c", [Dog(Beats("c", false, 0))] + Restart()) == Restarted()
  {
    var j1 := JointNext(Start(7), d, "c", Dog(Beats("c", false, 0)));
    assert ([Dog(Beats("c", false, 0))] + Restart())[1..] == Restart();
    RestartRuns(j1, d);
  }

  lemma RestartRuns(j: Joint, d: Deadlines)
    requires j == Joint(State(map["c" := Beat(0, false)], map[], []), RegistryProtocol.Init(7))
    ensures Run(j, d, "c", Restart()) == Restarted()
  {
  }

  function Looked(): Joint {
    Joint(State(map["c" := Beat(0, false)], map[0 := [Stale("c", 41, 30)]], []), Restarted().world)
  }

  lemma LookFindsFreshChild()
    ensures JointNext(Restarted(), Deadlines(30, 600), "c", Dog(Snapshot(0, ["c"], {}, 41))) == Looked()
  {
    assert ["c"][..0] == [];
    assert StaleOf(Restarted().dog.ledger, Deadlines(30, 600), {}, ["c"], 41) == [Stale("c", 41, 30)];
  }

  lemma KillTerminatesFreshChild()
    ensures var j := JointNext(Looked(), Deadlines(30, 600), "c", KillStarts(0, 1));
      JointNext(j, Deadlines(30, 600), "c", Reg(RegistryProtocol.Terminate(1))).world.killSignals
        == [RegistryProtocol.Signal(1, 8, 1, false)]
  {
    var j := JointNext(Looked(), Deadlines(30, 600), "c", KillStarts(0, 1));
    assert j.world.kills == map[1 := RegistryProtocol.Kill(RegistryProtocol.Captured, 8, 1)];
  }

  lemma ThreeSteps(j: Joint, d: Deadlines, id: string, a: JointStep, b: JointStep, c: JointStep)
    ensures Run(j, d, id, [a, b, c]) == JointNext(JointNext(JointNext(j, d, id, a), d, id, b), d, id, c)
    ensures !a.Reg? && !b.Reg? && !(c.Reg? && c.move.CommitRestart?) ==> NoRestartCommits(j, d, id, [a, b, c])
  {
    assert [a, b, c][1..] == [b, c] && [b, c][1..] == [c] && [c][1..] == [];
    var j2 := JointNext(JointNext(j, d, id, a), d, id, b);
    assert Run(j2, d, id, [c]) == JointNext(j2, d, id, c);
    assert !(c.Reg? && c.move.CommitRestart?) ==> NoRestartCommits(j2, d, id, [c]);
  }

  /** A restart commits at 40, the snapshot follows at 41 and the kill right after, with no restart in between:
      the fresh process is terminated, as the beat at 0 is all the ledger holds. */
  lemma FreshChildTerminated()
    ensures var d := Deadlines(30, 600);
      var steps := [Dog(Snapshot(0, ["c"], {}, 41)), KillStarts(0, 1), Reg(RegistryProtocol.Terminate(1))];
      && NoRestartCommits(Restarted(), d, "c", steps)
      && Run(Start(7), d, "c", [Dog(Beats("c", false, 0))] + Restart() + steps).world.killSignals
           == [RegistryProtocol.Signal(1, 8, 1, false)]
  {
    var d := Deadlines(30, 600);
    var (look, kill, signal) := (Dog(Snapshot(0, ["c"], {}, 41)), KillStarts(0, 1), Reg(RegistryProtocol.Terminate(1)));
    RunJoins(Start(7), d, "c", [Dog(Beats("c", false, 0))] + Restart(), [look, kill, signal]);
    ReachesRestarted(d);
    ThreeSteps(Restarted(), d, "c", look, kill, signal);
    LookFindsFreshChild();
    KillTerminatesFreshChild();
  }
}
