/**
 The shared bookkeeping of one managed child, and the lock sections that change or read it.
*/
module ChildBook {
  import opened Common

  datatype ChildState = Running | Restarting | Stopped

  /** pid 0 means that no incarnation runs; `generation` counts the restarts. */
  datatype Book = Book(pid: nat, state: ChildState, restartCount: nat, generation: nat)

  function Spawned(pid: nat): Book {
    Book(pid, Running, 0, 0)
  }

  /** First section of `restart`. */
  function Mark(b: Book): Book {
    b.(state := Restarting)
  }

  /** Second section of `restart`: the replacement runs and owns a new generation. */
  function Commit(b: Book, pid: nat): Book {
    Book(pid, Running, Bump(b.restartCount, U32_MAX), Bump(b.generation, U64_MAX))
  }

  /** The monitor's section, on the exit of the incarnation it was attached to. */
  function RecordExit(b: Book, generation: nat): Book {
    if b.generation == generation && b.state == Running then b.(state := Stopped, pid := 0) else b
  }

  /** What a kill captures: nothing unless an incarnation runs. */
  function Capture(b: Book): Option<(nat, nat)> {
    if b.pid == 0 || b.state != Running then None else Some((b.pid, b.generation))
  }

  /** The grace poll: the captured incarnation no longer runs. */
  predicate MovedOn(b: Book, generation: nat) {
    b.generation != generation || b.state != Running || b.pid == 0
  }

  /** The last look before SIGKILL. */
  predicate StillCurrent(b: Book, pid: nat, generation: nat) {
    b.generation == generation && b.pid == pid
  }

  class ChildRecord {
    var pid: nat
    var state: ChildState
    var restartCount: nat
    var generation: nat

    function Value(): Book
      reads this
    {
      Book(pid, state, restartCount, generation)
    }

    constructor (spawnedPid: nat)
      ensures Value() == Spawned(spawnedPid)
    {
      pid, state, restartCount, generation := 0, Running, 0, 0;
      new;
      pid := spawnedPid;
    }

    method BeginRestart() returns (oldPid: nat)
      modifies this`state
      ensures Value() == Mark(old(Value())) && oldPid == old(pid)
    {
      state := Restarting;
      oldPid := pid;
    }

    method CommitRestart(newPid: nat) returns (count: nat, incarnation: nat)
      modifies this
      ensures Value() == Commit(old(Value()), newPid)
      ensures count == restartCount && incarnation == generation
    {
      restartCount := Bump(restartCount, U32_MAX);
      pid := newPid;
      state := Running;
      generation := Bump(generation, U64_MAX);
      return restartCount, generation;
    }

    /** True, so that `child_exited` is sent, iff the monitor's incarnation is still the book's. */
    method ObserveExit(incarnation: nat) returns (isCurrent: bool)
      modifies this
      ensures Value() == RecordExit(old(Value()), incarnation)
      ensures isCurrent <==> old(generation) == incarnation
    {
      if generation == incarnation {
        if state == Running {
          state := Stopped;
          pid := 0;
        }
        return true;
      }
      return false;
    }

    method CaptureForKill() returns (target: Option<(nat, nat)>)
      ensures target == Capture(Value())
    {
      if pid == 0 || state != Running {
        return None;
      }
      return Some((pid, generation));
    }

    /** One turn of `await_exit_within`. */
    method PollExit(incarnation: nat) returns (left: bool)
      ensures left == MovedOn(Value(), incarnation)
      ensures left <==> forall target :: Capture(Value()) != Some((target, incarnation))
    {
      left := generation != incarnation || state != Running || pid == 0;
    }

    method Recheck(target: nat, incarnation: nat) returns (same: bool)
      ensures same == StillCurrent(Value(), target, incarnation)
      ensures same && target != 0 && state == Running <==> Capture(Value()) == Some((target, incarnation))
    {
      same := generation == incarnation && pid == target;
    }
  }

  /** The mark shields the book: while it stands no exit is written into it, nothing captures the child for a
      kill, and every poll ends. It does not stop a re-check, which looks at generation and pid alone. */
  lemma MarkedIsLeftAlone(b: Book, generation: nat)
    ensures RecordExit(Mark(b), generation) == Mark(b) && Capture(Mark(b)).None? && MovedOn(Mark(b), generation)
    ensures StillCurrent(Mark(b), b.pid, b.generation)
  {
  }

  /** A capture is the incarnation that a poll would not give up and a re-check would confirm. */
  lemma CapturedIffCurrent(b: Book, pid: nat, generation: nat)
    ensures Capture(b) == Some((pid, generation)) <==>
      pid != 0 && !MovedOn(b, generation) && StillCurrent(b, pid, generation)
  {
  }

  /** While the counter has room a commit retires every earlier generation at once, for polls, re-checks and
      exits alike, and only the new one can be captured. */
  lemma CommitRetiresEarlier(b: Book, pid: nat, generation: nat, target: nat)
    requires pid != 0 && generation <= b.generation < U64_MAX
    ensures var fresh_ := Commit(b, pid);
      && MovedOn(fresh_, generation) && !StillCurrent(fresh_, target, generation)
      && RecordExit(fresh_, generation) == fresh_
      && Capture(fresh_) == Some((pid, b.generation + 1))
  {
  }

  /** An exit is recorded once: seeing it again changes nothing, nothing can capture the incarnation any more,
      and every poll ends. A re-check fails too unless the book was not Running, which keeps its pid. */
  lemma ExitRecordedOnce(b: Book)
    ensures var after := RecordExit(b, b.generation);
      && RecordExit(after, b.generation) == after
      && after.state == (if b.state == Running then Stopped else b.state) && (b.state == Running ==> after.pid == 0)
      && after.state != Running && Capture(after).None? && MovedOn(after, b.generation)
      && after.generation == b.generation && after.restartCount == b.restartCount
      && (b.pid != 0 ==> (StillCurrent(after, b.pid, b.generation) <==> b.state != Running))
  {
  }

  /** A commit and the exit of some generation come to the same book in either order exactly if the exit is
      not the new incarnation's own. */
  lemma ExitCommutesWithCommitIff(b: Book, pid: nat, generation: nat)
    requires pid != 0
    ensures RecordExit(Commit(b, pid), generation) == Commit(RecordExit(b, generation), pid) <==>
      generation != Bump(b.generation, U64_MAX)
  {
  }

  /** The incarnation guard: a monitor of the replaced incarnation leaves the fresh one alone exactly
      while the generation counter has not saturated. */
  lemma StaleExitIgnoredIff(b: Book, pid: nat)
    requires b.generation <= U64_MAX && pid != 0
    ensures RecordExit(Commit(b, pid), b.generation) == Commit(b, pid) <==> b.generation < U64_MAX
  {
  }
}
