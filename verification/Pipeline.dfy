/**
 The pipeline runner: each step is resolved and checked against the bindings so far, spawned, and
 its output bound for the steps after it. Processes are an oracle: any function of how many were
 spawned before and of what is asked.
*/
module Pipeline {
  import opened Common
  import opened StepEnv

  datatype Value =
    | Str(raw: string)
    | Name(id: string)
    | Arr(items: seq<Value>)
    | Dur(amount: nat, unit: Unit)
    | Num(n: real)
    | Other
  datatype Unit = Seconds | Minutes | Hours | Days
  datatype Property = Property(key: string, value: Value)
  datatype PipeStep = PipeStep(name: string, properties: seq<Property>)

  /** `StepFailed` is declared and documented for runs, but nothing returns it. */
  datatype RuntimeError =
    | StepFailed(name: string, code: int)
    | Unbound(name: string)
    | ShellMetacharacters(command: string)
    | CommandNotAllowed(command: string)
    | StdinSourceNotFound(name: string, stdinRef: string)
    | Io
    | StepTimeout(name: string, timeoutSecs: nat)

  datatype Invocation = Invocation(command: string, args: seq<string>, stdin: Option<string>, timeoutSecs: nat)

  /** What a process comes to; a signalled one has no exit code. */
  datatype Outcome = Exited(code: Option<int>, stdout: string, stderr: string) | SpawnFails | WaitFails | TimesOut

  type Machine = (nat, Invocation) -> Outcome

  datatype StepResult = StepResult(name: string, exitCode: int, stdout: string, stderr: string)

  // ---------- properties of a step ----------

  function AsText(v: Value): Option<string> {
    match v
    case Str(raw) => Some(raw)
    case Name(id) => Some(id)
    case _ => None
  }

  function TextsOf(items: seq<Value>): seq<string> {
    if items == [] then []
    else (match AsText(items[0]) case Some(t) => [t] case None => []) + TextsOf(items[1..])
  }

  function AsTexts(v: Value): Option<seq<string>> {
    match v
    case Arr(items) => Some(TextsOf(items))
    case _ => None
  }

  function AsSeconds(v: Value): Option<nat> {
    match v
    case Dur(n, unit) =>
      Some(match unit case Seconds => n case Minutes => n * 60 case Hours => n * 3600 case Days => n * 86400)
    case Num(n) => Some(if n < 0.0 then 0 else Min(n.Floor, U64_MAX))
    case _ => None
  }

  /** `find_map`: the first property of that key whose value has the wanted kind. */
  function FindProperty<T>(properties: seq<Property>, key: string, as_: Value -> Option<T>): Option<T> {
    if properties == [] then None
    else if properties[0].key == key && as_(properties[0].value).Some? then as_(properties[0].value)
    else FindProperty(properties[1..], key, as_)
  }

  /** The commands a configuration permits, if it limits them. */
  type Allowlist = Option<set<string>>

  const SHELL_METACHARACTERS: set<char> :=
    {'|', '&', ';', '$', '`', '(', ')', '{', '}', '<', '>', '!', '\\', '\n', '*', '?', '[', ']', '~'}

  predicate CommandSafe(command: string) {
    forall c :: c in command ==> c !in SHELL_METACHARACTERS
  }

  /** What follows the last slash. */
  function Binary(command: string): string {
    if '/' !in command then command else Binary(command[1..])
  }

  predicate CommandAllowed(command: string, allowlist: Allowlist) {
    allowlist.Some? ==> Binary(command) in allowlist.value || command in allowlist.value
  }

  // ---------- one step ----------

  function Lift<T>(r: Result<T, EnvError>): Result<T, RuntimeError> {
    match r case Ok(v) => Ok(v) case Err(VariableNotFound(name)) => Err(Unbound(name))
  }

  function OrElse<T>(o: Option<T>, default: T): T {
    match o case Some(v) => v case None => default
  }

  function RawCommand(step: PipeStep): string {
    OrElse(FindProperty(step.properties, "command", AsText), "")
  }

  function RawArgs(step: PipeStep): seq<string> {
    OrElse(FindProperty(step.properties, "args", AsTexts), [])
  }

  /** Everything before the spawn: resolve the command, check it, resolve the arguments, find the input. */
  function Prepare(step: PipeStep, env: Bindings, allowlist: Allowlist): Result<Invocation, RuntimeError> {
    match Lift(Resolved(RawCommand(step), env))
    case Err(e) => Err(e)
    case Ok(command) =>
      if !CommandSafe(command) then Err(ShellMetacharacters(command))
      else if !CommandAllowed(command, allowlist) then Err(CommandNotAllowed(command))
      else
        match Lift(ResolvedAll(RawArgs(step), env))
        case Err(e) => Err(e)
        case Ok(args) =>
          var timeout := OrElse(FindProperty(step.properties, "timeout", AsSeconds), 300);
          match FindProperty(step.properties, "stdin", AsText)
          case None => Ok(Invocation(command, args, None, timeout))
          case Some(source) =>
            if source + ".stdout" in env then Ok(Invocation(command, args, Some(env[source + ".stdout"]), timeout))
            else Err(StdinSourceNotFound(step.name, source))
  }

  function Settle(step: PipeStep, call: Invocation, outcome: Outcome): Result<StepResult, RuntimeError> {
    match outcome
    case Exited(code, stdout, stderr) => Ok(StepResult(step.name, OrElse(code, -1), stdout, stderr))
    case SpawnFails => Err(Io)
    case WaitFails => Err(Io)
    case TimesOut => Err(StepTimeout(step.name, call.timeoutSecs))
  }

  function RunStep(step: PipeStep, env: Bindings, allowlist: Allowlist, machine: Machine, n: nat)
    : Result<StepResult, RuntimeError>
  {
    match Prepare(step, env, allowlist)
    case Err(e) => Err(e)
    case Ok(call) => Settle(step, call, machine(n, call))
  }

  // ---------- the pipeline ----------

  /** The result handed back, with the bindings the run left; or the error that discarded everything. */
  datatype RunResult = Done(results: seq<StepResult>, success: bool, env: Bindings) | Aborted(error: RuntimeError)

  function Record(env: Bindings, r: StepResult): Bindings {
    Recorded(env, r.name, r.stdout, r.stderr, r.exitCode)
  }

  /** Results already in hand, put before those of the rest of a run. */
  function After(done: seq<StepResult>, rest: RunResult): RunResult {
    match rest case Done(rs, success, env) => Done(done + rs, success, env) case Aborted(e) => Aborted(e)
  }

  /** How one step is carried out, given the bindings and how many were before it. */
  type Runner = (PipeStep, Bindings, nat) -> Result<StepResult, RuntimeError>

  function Spawning(allowlist: Allowlist, machine: Machine): Runner {
    (step: PipeStep, env: Bindings, n: nat) => RunStep(step, env, allowlist, machine, n)
  }

  /** Run the steps in order from the `n`-th spawn on, up to the first that exits non-zero. */
  function Run(steps: seq<PipeStep>, env: Bindings, run: Runner, n: nat): RunResult
    decreases steps
  {
    if steps == [] then Done([], true, env)
    else
      match run(steps[0], env, n)
      case Err(e) => Aborted(e)
      case Ok(r) =>
        if r.exitCode != 0 then Done([r], false, Record(env, r))
        else After([r], Run(steps[1..], Record(env, r), run, n + 1))
  }

  method ExecuteStep(step: PipeStep, env: StepEnv, allowlist: Allowlist, machine: Machine, n: nat)
    returns (r: Result<StepResult, RuntimeError>)
    ensures r == RunStep(step, env.bindings, allowlist, machine, n)
  {
    var resolved := env.Resolve(RawCommand(step));
    if resolved.Err? {
      return Err(Unbound(resolved.error.name));
    }
    var command := resolved.value;
    if !CommandSafe(command) {
      return Err(ShellMetacharacters(command));
    }
    if !CommandAllowed(command, allowlist) {
      return Err(CommandNotAllowed(command));
    }
    var args := env.ResolveArgs(RawArgs(step));
    if args.Err? {
      return Err(Unbound(args.error.name));
    }
    var stdinSource := FindProperty(step.properties, "stdin", AsText);
    var timeout := OrElse(FindProperty(step.properties, "timeout", AsSeconds), 300);
    var input: Option<string> := None;
    if stdinSource.Some? {
      input := env.Get(stdinSource.value + ".stdout");
      if input.None? {
        return Err(StdinSourceNotFound(step.name, stdinSource.value));
      }
    }
    var call := Invocation(command, args.value, input, timeout);
    r := Settle(step, call, machine(n, call));
  }

  method ExecutePipeline(steps: seq<PipeStep>, env: StepEnv, allowlist: Allowlist, machine: Machine)
    returns (r: RunResult)
    modifies env
    ensures r == Run(steps, old(env.bindings), Spawning(allowlist, machine), 0)
    ensures r.Done? ==> env.bindings == r.env
  {
    ghost var run := Spawning(allowlist, machine);
    var stepResults: seq<StepResult> := [];
    var i := 0;
    AfterNothing(Run(steps, env.bindings, run, 0));
    assert steps[0..] == steps;
    while i < |steps|
      invariant i <= |steps|
      invariant After(stepResults, Run(steps[i..], env.bindings, run, i)) == Run(steps, old(env.bindings), run, 0)
    {
      RunUnfolds(steps, i, env.bindings, run, stepResults);
      var result := ExecuteStep(steps[i], env, allowlist, machine, i);
      if result.Err? {
        return Aborted(result.error);
      }
      env.RecordStepOutput(result.value.name, result.value.stdout, result.value.stderr, result.value.exitCode);
      stepResults := stepResults + [result.value];
      if result.value.exitCode != 0 {
        return Done(stepResults, false, env.bindings);
      }
      i := i + 1;
    }
    assert steps[i..] == [] && stepResults + [] == stepResults;
    r := Done(stepResults, true, env.bindings);
  }

  /** One step moves from what is left of a run to what is done. */
  lemma RunUnfolds(steps: seq<PipeStep>, i: nat, env: Bindings, run: Runner, done: seq<StepResult>)
    requires i < |steps|
    ensures After(done, Run(steps[i..], env, run, i)) ==
      match run(steps[i], env, i)
      case Err(e) => Aborted(e)
      case Ok(r) =>
        if r.exitCode != 0 then Done(done + [r], false, Record(env, r))
        else After(done + [r], Run(steps[i + 1..], Record(env, r), run, i + 1))
  {
    assert steps[i..][1..] == steps[i + 1..];
    match run(steps[i], env, i)
    case Err(_) =>
    case Ok(r) => AfterTwice(done, [r], Run(steps[i + 1..], Record(env, r), run, i + 1));
  }

  lemma AfterNothing(r: RunResult)
    ensures After([], r) == r
  {
    if r.Done? {
      assert [] + r.results == r.results;
    }
  }

  lemma AfterTwice(a: seq<StepResult>, b: seq<StepResult>, r: RunResult)
    ensures After(a, After(b, r)) == After(a + b, r)
  {
    if r.Done? {
      assert a + (b + r.results) == a + b + r.results;
    }
  }

  // ---------- laws of a run ----------

  /** How a run goes on after its first step. */
  function Onward(first: Result<StepResult, RuntimeError>, env: Bindings, rest: RunResult): RunResult {
    match first
    case Err(e) => Aborted(e)
    case Ok(r) => if r.exitCode != 0 then Done([r], false, Record(env, r)) else After([r], rest)
  }

  /** A run followed by another, which only happens if all of the first exits zero. */
  function Continue(first: RunResult, second: RunResult): RunResult {
    if first.Done? && first.success then After(first.results, second) else first
  }

  lemma OnwardContinues(r: Result<StepResult, RuntimeError>, env: Bindings, rest: RunResult, more: RunResult)
    ensures Continue(Onward(r, env, rest), more) == Onward(r, env, Continue(rest, more))
  {
    if r.Ok? && r.value.exitCode == 0 && rest.Done? && rest.success {
      AfterTwice([r.value], rest.results, more);
    }
  }

  /** The run that would follow another in the bindings it left. */
  function Following(first: RunResult, ys: seq<PipeStep>, run: Runner, n: nat): RunResult {
    if first.Done? then Run(ys, first.env, run, n) else first
  }

  /** A run of `xs` and then `ys` is the run of `xs` alone unless all of it exits zero, and else goes on
      with `ys` in the bindings `xs` left. */
  lemma {:induction false} RunComposes(xs: seq<PipeStep>, ys: seq<PipeStep>, env: Bindings, run: Runner, n: nat)
    ensures var first := Run(xs, env, run, n);
      Run(xs + ys, env, run, n) == Continue(first, Following(first, ys, run, n + |xs|))
    decreases xs
  {
    if xs == [] {
      assert xs + ys == ys;
      AfterNothing(Run(ys, env, run, n));
    } else {
      assert (xs + ys)[1..] == xs[1..] + ys && (xs + ys)[0] == xs[0];
      var r := run(xs[0], env, n);
      if r.Ok? {
        RunComposes(xs[1..], ys, Record(env, r.value), run, n + 1);
        RestContinues(r, env, Run(xs[1..], Record(env, r.value), run, n + 1), ys, run, n + |xs|);
      }
    }
  }

  lemma RestContinues(r: Result<StepResult, RuntimeError>, env: Bindings, rest: RunResult, ys: seq<PipeStep>,
                      run: Runner, m: nat)
    requires r.Ok?
    ensures var whole := Onward(r, env, rest);
      Onward(r, env, Continue(rest, Following(rest, ys, run, m))) ==
        Continue(whole, Following(whole, ys, run, m))
  {
    OnwardContinues(r, env, rest, Following(rest, ys, run, m));
  }

  /** No more results than steps, only the last of them non-zero, and success iff none is and every step ran. */
  ghost predicate Shaped(r: RunResult, size: nat) {
    r.Done? ==>
      && |r.results| <= size
      && (forall i :: 0 <= i < |r.results| - 1 ==> r.results[i].exitCode == 0)
      && (r.success <==> |r.results| == size && forall i :: 0 <= i < |r.results| ==> r.results[i].exitCode == 0)
      && (!r.success ==> r.results != [] && r.results[|r.results| - 1].exitCode != 0)
  }

  lemma ShapedAfter(first: StepResult, rest: RunResult, size: nat)
    requires first.exitCode == 0 && Shaped(rest, size)
    ensures Shaped(After([first], rest), size + 1)
  {
    if rest.Done? {
      var whole := [first] + rest.results;
      assert forall i :: 0 <= i < |rest.results| ==> rest.results[i] == whole[i + 1];
      assert forall i :: 0 < i < |whole| ==> whole[i] == rest.results[i - 1];
    }
  }

  lemma ShapedStop(last: StepResult, env: Bindings, size: nat)
    requires last.exitCode != 0 && size > 0
    ensures Shaped(Done([last], false, env), size)
  {
    assert Done([last], false, env).results[0].exitCode != 0;
  }

  /** Only the last result of a run can be non-zero; it succeeds exactly when every step ran and exited zero. */
  lemma {:induction false} RunShape(steps: seq<PipeStep>, env: Bindings, run: Runner, n: nat)
    ensures Shaped(Run(steps, env, run, n), |steps|)
    decreases steps
  {
    if steps != [] {
      var r := run(steps[0], env, n);
      if r.Ok? && r.value.exitCode == 0 {
        RunShape(steps[1..], Record(env, r.value), run, n + 1);
        ShapedAfter(r.value, Run(steps[1..], Record(env, r.value), run, n + 1), |steps| - 1);
      } else if r.Ok? {
        ShapedStop(r.value, Record(env, r.value), |steps|);
      }
    }
  }

  /** The results carry the names of the steps they came from, in order. */
  lemma {:induction false} ResultsNameTheirSteps(steps: seq<PipeStep>, env: Bindings, allowlist: Allowlist,
                                                 machine: Machine, n: nat)
    requires Run(steps, env, Spawning(allowlist, machine), n).Done?
    ensures var results := Run(steps, env, Spawning(allowlist, machine), n).results;
      |results| <= |steps| && forall i :: 0 <= i < |results| ==> results[i].name == steps[i].name
    decreases steps
  {
    if steps != [] {
      var first := RunStep(steps[0], env, allowlist, machine, n).value;
      if first.exitCode == 0 {
        ResultsNameTheirSteps(steps[1..], Record(env, first), allowlist, machine, n + 1);
      }
    }
  }

  // ---------- errors ----------

  /** The `k`-th step is reached, all before it having exited zero, and ends in the error. */
  ghost predicate FailsAt(steps: seq<PipeStep>, env: Bindings, run: Runner, n: nat, k: nat, e: RuntimeError) {
    k < |steps|
    && var sofar := Run(steps[..k], env, run, n);
      sofar.Done? && sofar.success && run(steps[k], sofar.env, n + k) == Err(e)
  }

  /** A run comes to an error exactly when some step, reached after `k` that exited zero, comes to it. */
  lemma {:induction false} AbortsIff(steps: seq<PipeStep>, env: Bindings, run: Runner, n: nat, e: RuntimeError)
    ensures Run(steps, env, run, n) == Aborted(e) <==> exists k: nat :: FailsAt(steps, env, run, n, k, e)
    decreases |steps|
  {
    if steps != [] {
      assert steps[..0] == [];
      assert FailsAt(steps, env, run, n, 0, e) <==> run(steps[0], env, n) == Err(e);
      var r := run(steps[0], env, n);
      if r.Ok? && r.value.exitCode == 0 {
        var (rest, env', n') := (steps[1..], Record(env, r.value), n + 1);
        AbortsIff(rest, env', run, n', e);
        if k: nat :| FailsAt(rest, env', run, n', k, e) {
          FailsAtShift(steps, env, run, n, k, e);
        }
      }
      if k: nat :| k > 0 && FailsAt(steps, env, run, n, k, e) {
        assert steps[..k][0] == steps[0];
        FailsAtShift(steps, env, run, n, k - 1, e);
      }
    }
  }

  lemma FailsAtShift(steps: seq<PipeStep>, env: Bindings, run: Runner, n: nat, k: nat, e: RuntimeError)
    requires steps != [] && k + 1 <= |steps| && run(steps[0], env, n).Ok? && run(steps[0], env, n).value.exitCode == 0
    ensures FailsAt(steps, env, run, n, k + 1, e) <==>
      FailsAt(steps[1..], Record(env, run(steps[0], env, n).value), run, n + 1, k, e)
  {
    if k + 1 < |steps| {
      assert steps[..k + 1][0] == steps[0] && steps[..k + 1][1..] == steps[1..][..k];
    }
  }

  /** The results that an error costs: those of all the steps before it, which had exited zero. */
  lemma ErrorDiscardsResults(steps: seq<PipeStep>, env: Bindings, run: Runner, n: nat, k: nat, e: RuntimeError)
    requires FailsAt(steps, env, run, n, k, e)
    ensures Run(steps, env, run, n) == Aborted(e) && |Run(steps[..k], env, run, n).results| == k
  {
    AbortsIff(steps, env, run, n, e);
    RunShape(steps[..k], env, run, n);
  }

  /** Two steps, of which the first succeeds and the second cannot be spawned: the first's result is lost. */
  lemma EarlierResultIsLost()
    ensures var machine: Machine :=
      (n: nat, call: Invocation) => if n == 0 then Exited(Some(0), "out", "") else SpawnFails;
      var (a, b) := (PipeStep("a", []), PipeStep("b", []));
      && Run([a], map[], Spawning(None, machine), 0).Done?
      && Run([a], map[], Spawning(None, machine), 0).results == [StepResult("a", 0, "out", "")]
      && Run([a, b], map[], Spawning(None, machine), 0) == Aborted(Io)
  {
    var machine: Machine := (n: nat, call: Invocation) => if n == 0 then Exited(Some(0), "out", "") else SpawnFails;
    var (a, b) := (PipeStep("a", []), PipeStep("b", []));
    assert RawCommand(a) == "" && Segments("", 0) == [] && Resolved("", map[]) == Ok("");
    assert Prepare(a, map[], None) == Ok(Invocation("", [], None, 300));
    var done := StepResult("a", 0, "out", "");
    assert Spawning(None, machine)(a, map[], 0) == Ok(done);
    var env := Record(map[], done);
    assert RawCommand(b) == "" && Resolved("", env) == Ok("");
    assert Prepare(b, env, None) == Ok(Invocation("", [], None, 300));
    assert Spawning(None, machine)(b, env, 1) == Err(Io);
    assert [a, b][1..] == [b] && [a][1..] == [];
    assert Run([a], map[], Spawning(None, machine), 0) == After([done], Done([], true, env));
  }

  lemma StepIsNeverStepFailed(step: PipeStep, env: Bindings, allowlist: Allowlist, machine: Machine, n: nat)
    ensures var r := Spawning(allowlist, machine)(step, env, n); r.Err? ==> !r.error.StepFailed?
  {
  }

  /** The documented `StepFailed` error is never returned: a failing step is an unsuccessful result. */
  lemma StepFailedIsNeverReturned(steps: seq<PipeStep>, env: Bindings, allowlist: Allowlist, machine: Machine)
    ensures var r := Run(steps, env, Spawning(allowlist, machine), 0); r.Aborted? ==> !r.error.StepFailed?
  {
    var run := Spawning(allowlist, machine);
    var r := Run(steps, env, run, 0);
    if r.Aborted? {
      AbortsIff(steps, env, run, 0, r.error);
      var k: nat :| FailsAt(steps, env, run, 0, k, r.error);
      StepIsNeverStepFailed(steps[k], Run(steps[..k], env, run, 0).env, allowlist, machine, k);
    }
  }

  // ---------- what later steps see ----------

  predicate LastNamed(results: seq<StepResult>, i: nat, name: string) {
    i < |results| && results[i].name == name && forall j :: i < j < |results| ==> results[j].name != name
  }

  /** The last result of that name. */
  function Latest(results: seq<StepResult>, name: string): (r: Option<StepResult>)
    ensures r.Some? ==> exists i: nat :: LastNamed(results, i, name) && results[i] == r.value
    ensures r.None? <==> forall i :: 0 <= i < |results| ==> results[i].name != name
  {
    if results == [] then None
    else if results[|results| - 1].name == name then
      assert LastNamed(results, |results| - 1, name);
      Some(results[|results| - 1])
    else
      assert forall i: nat :: LastNamed(results[..|results| - 1], i, name) ==> LastNamed(results, i, name);
      Latest(results[..|results| - 1], name)
  }

  function RecordAll(env: Bindings, results: seq<StepResult>): Bindings {
    if results == [] then env else Record(RecordAll(env, results[..|results| - 1]), results[|results| - 1])
  }

  lemma RecordAllSnoc(env: Bindings, results: seq<StepResult>, r: StepResult)
    ensures RecordAll(env, results + [r]) == Record(RecordAll(env, results), r)
  {
    assert (results + [r])[..|results|] == results;
  }

  lemma {:induction false} RecordAllCons(env: Bindings, r: StepResult, rest: seq<StepResult>)
    ensures RecordAll(env, [r] + rest) == RecordAll(Record(env, r), rest)
    decreases |rest|
  {
    if rest == [] {
      assert [r] + rest == [] + [r];
      RecordAllSnoc(env, [], r);
    } else {
      var (front, last) := (rest[..|rest| - 1], rest[|rest| - 1]);
      assert rest == front + [last];
      RecordAllCons(env, r, front);
      Associative([r], front, [last]);
      RecordAllSnoc(env, [r] + front, last);
      RecordAllSnoc(Record(env, r), front, last);
    }
  }

  /** The bindings a run leaves are the initial ones with every result recorded in order. */
  lemma {:induction false} RunRecordsAll(steps: seq<PipeStep>, env: Bindings, run: Runner, n: nat)
    requires Run(steps, env, run, n).Done?
    ensures var r := Run(steps, env, run, n); r.env == RecordAll(env, r.results)
    decreases steps
  {
    if steps != [] {
      var first := run(steps[0], env, n).value;
      if first.exitCode == 0 {
        var rest := Run(steps[1..], Record(env, first), run, n + 1);
        RunRecordsAll(steps[1..], Record(env, first), run, n + 1);
        RecordAllCons(env, first, rest.results);
      } else {
        RecordAllCons(env, first, []);
        assert [first] + [] == [first];
      }
    }
  }

  /** Keys of different steps, or of different fields, never collide. */
  lemma KeysDiffer(a: string, b: string)
    ensures a + ".stdout" != b + ".stderr" && a + ".stdout" != b + ".exitCode" && a + ".stderr" != b + ".exitCode"
    ensures a != b ==>
      a + ".stdout" != b + ".stdout" && a + ".stderr" != b + ".stderr" && a + ".exitCode" != b + ".exitCode"
  {
    var (o, e, x) := (a + ".stdout", a + ".stderr", a + ".exitCode");
    var (o', e', x') := (b + ".stdout", b + ".stderr", b + ".exitCode");
    assert o[|o| - 1] == 't' && e[|e| - 1] == 'r' && x[|x| - 1] == 'e';
    assert o'[|o'| - 1] == 't' && e'[|e'| - 1] == 'r' && x'[|x'| - 1] == 'e';
    if a != b {
      assert o[..|a|] == a && o'[..|b|] == b && e[..|a|] == a && e'[..|b|] == b && x[..|a|] == a && x'[..|b|] == b;
      assert |a| == |b| ==> o != o' && e != e' && x != x';
    }
  }

  predicate Bound(env: Bindings, r: StepResult) {
    && r.name + ".stdout" in env && env[r.name + ".stdout"] == r.stdout
    && r.name + ".stderr" in env && env[r.name + ".stderr"] == r.stderr
    && r.name + ".exitCode" in env && env[r.name + ".exitCode"] == ShowInt(r.exitCode)
  }

  predicate SameAt(env: Bindings, env': Bindings, key: string) {
    (key in env <==> key in env') && (key in env ==> env'[key] == env[key])
  }

  predicate SameOutputs(env: Bindings, env': Bindings, name: string) {
    SameAt(env, env', name + ".stdout") && SameAt(env, env', name + ".stderr") && SameAt(env, env', name + ".exitCode")
  }

  /** Recording a result binds its three keys to its three fields, each to its own, and leaves every other key
      as it was: in particular those of every step of another name. */
  lemma RecordBinds(env: Bindings, r: StepResult, name: string)
    ensures Bound(Record(env, r), r)
    ensures forall key :: key !in {r.name + ".stdout", r.name + ".stderr", r.name + ".exitCode"} ==>
      SameAt(env, Record(env, r), key)
    ensures r.name != name ==> SameOutputs(env, Record(env, r), name)
  {
    KeysDiffer(r.name, r.name);
    KeysDiffer(r.name, name);
    KeysDiffer(name, r.name);
  }

  /** After any results, a step's keys hold its latest output, and other keys what they held. */
  lemma {:induction false} RecordedOutputs(env: Bindings, results: seq<StepResult>, name: string)
    ensures var env' := RecordAll(env, results);
      match Latest(results, name)
      case Some(r) => Bound(env', r)
      case None => SameOutputs(env, env', name)
    decreases results
  {
    if results != [] {
      var n := |results| - 1;
      RecordedOutputs(env, results[..n], name);
      RecordBinds(RecordAll(env, results[..n]), results[n], name);
    }
  }

  /** After a run in which all of `steps` exited zero, every name that ran is bound to its latest output,
      with exit code "0". */
  lemma SuccessBindsLatest(steps: seq<PipeStep>, env: Bindings, allowlist: Allowlist, machine: Machine, name: string)
    requires Run(steps, env, Spawning(allowlist, machine), 0).Done? &&
      Run(steps, env, Spawning(allowlist, machine), 0).success
    ensures var r := Run(steps, env, Spawning(allowlist, machine), 0);
      match Latest(r.results, name)
      case Some(last) =>
        && name + ".stdout" in r.env && r.env[name + ".stdout"] == last.stdout
        && name + ".exitCode" in r.env && r.env[name + ".exitCode"] == "0"
      case None => forall i :: 0 <= i < |steps| ==> steps[i].name != name
  {
    var r := Run(steps, env, Spawning(allowlist, machine), 0);
    RunShape(steps, env, Spawning(allowlist, machine), 0);
    ResultsNameTheirSteps(steps, env, allowlist, machine, 0);
    RunRecordsAll(steps, env, Spawning(allowlist, machine), 0);
    RecordedOutputs(env, r.results, name);
    if Latest(r.results, name).Some? {
      var i: nat :| LastNamed(r.results, i, name) && r.results[i] == Latest(r.results, name).value;
      assert ShowInt(0) == "0";
    } else {
      assert forall i :: 0 <= i < |steps| ==> r.results[i].name == steps[i].name;
    }
  }

  /** A run that gets past its first `k` steps goes on in the bindings they left, where every name among
      them is bound to its latest output and exit code "0". */
  lemma LaterStepSeesLatest(steps: seq<PipeStep>, env: Bindings, allowlist: Allowlist, machine: Machine, k: nat,
                            name: string)
    requires k <= |steps| && Run(steps[..k], env, Spawning(allowlist, machine), 0).Done? &&
      Run(steps[..k], env, Spawning(allowlist, machine), 0).success
    requires exists i :: 0 <= i < k && steps[i].name == name
    ensures var sofar := Run(steps[..k], env, Spawning(allowlist, machine), 0); var last := Latest(sofar.results, name);
      && Run(steps, env, Spawning(allowlist, machine), 0) ==
        After(sofar.results, Run(steps[k..], sofar.env, Spawning(allowlist, machine), k))
      && last.Some?
      && name + ".stdout" in sofar.env && sofar.env[name + ".stdout"] == last.value.stdout
      && name + ".exitCode" in sofar.env && sofar.env[name + ".exitCode"] == "0"
  {
    SuccessBindsLatest(steps[..k], env, allowlist, machine, name);
    var i :| 0 <= i < k && steps[i].name == name;
    assert steps[..k][i].name == name;
    RunResumes(steps, env, Spawning(allowlist, machine), k);
  }

  lemma RunResumes(steps: seq<PipeStep>, env: Bindings, run: Runner, k: nat)
    requires k <= |steps| && Run(steps[..k], env, run, 0).Done? && Run(steps[..k], env, run, 0).success
    ensures var sofar := Run(steps[..k], env, run, 0);
      Run(steps, env, run, 0) == After(sofar.results, Run(steps[k..], sofar.env, run, k))
  {
    assert steps == steps[..k] + steps[k..];
    RunComposes(steps[..k], steps[k..], env, run, 0);
  }

  /** A step that names an earlier step as its input is given that step's latest standard output. */
  lemma StdinIsLatestOutput(steps: seq<PipeStep>, env: Bindings, allowlist: Allowlist, machine: Machine, k: nat,
                            source: string)
    requires k < |steps| && Run(steps[..k], env, Spawning(allowlist, machine), 0).Done? &&
      Run(steps[..k], env, Spawning(allowlist, machine), 0).success
    requires FindProperty(steps[k].properties, "stdin", AsText) == Some(source)
    requires exists i :: 0 <= i < k && steps[i].name == source
    ensures var sofar := Run(steps[..k], env, Spawning(allowlist, machine), 0);
      && Latest(sofar.results, source).Some?
      && (Prepare(steps[k], sofar.env, allowlist).Ok? ==>
            Prepare(steps[k], sofar.env, allowlist).value.stdin == Some(Latest(sofar.results, source).value.stdout))
  {
    LaterStepSeesLatest(steps, env, allowlist, machine, k, source);
  }

  lemma {:induction false} ArgsResolveOneByOne(args: seq<string>, env: Bindings)
    ensures ResolvedAll(args, env).Ok? <==> forall i :: 0 <= i < |args| ==> Resolved(args[i], env).Ok?
    ensures var all := ResolvedAll(args, env);
      all.Ok? ==> |all.value| == |args| && forall i :: 0 <= i < |args| ==> Ok(all.value[i]) == Resolved(args[i], env)
    decreases args
  {
    if args != [] {
      ArgsResolveOneByOne(args[1..], env);
      assert forall i :: 1 <= i < |args| ==> args[i] == args[1..][i - 1];
      assert forall i :: 0 <= i < |args[1..]| ==> args[1..][i] == args[i + 1];
    }
  }

  /** Something is spawned exactly when the substituted command has no metacharacter and is allowed, every
      argument resolves, and the input step has an output; and it is that command with those arguments, in
      order. The checks come after the substitution, so no binding gets round them. */
  lemma SpawnsIff(step: PipeStep, env: Bindings, allowlist: Allowlist)
    ensures var (command, source) := (Resolved(RawCommand(step), env), FindProperty(step.properties, "stdin", AsText));
      Prepare(step, env, allowlist).Ok? <==>
        && command.Ok?
        && (forall c :: c in command.value ==> c !in SHELL_METACHARACTERS)
        && (allowlist.Some? ==> command.value in allowlist.value || Binary(command.value) in allowlist.value)
        && (forall i :: 0 <= i < |RawArgs(step)| ==> Resolved(RawArgs(step)[i], env).Ok?)
        && (source.Some? ==> source.value + ".stdout" in env)
    ensures Prepare(step, env, allowlist).Ok? ==>
      var call := Prepare(step, env, allowlist).value;
      var input := FindProperty(step.properties, "stdin", AsText);
      var timeout := FindProperty(step.properties, "timeout", AsSeconds);
      && (input.None? ==> call.stdin == None)
      && (input.Some? ==> input.value + ".stdout" in env && call.stdin == Some(env[input.value + ".stdout"]))
      && Resolved(RawCommand(step), env) == Ok(call.command)
      && call.timeoutSecs == (if timeout.Some? then timeout.value else 300)
      && |call.args| == |RawArgs(step)|
      && forall i :: 0 <= i < |call.args| ==> Ok(call.args[i]) == Resolved(RawArgs(step)[i], env)
  {
    ArgsResolveOneByOne(RawArgs(step), env);
  }

  /** The characters no command may have. */
  lemma MetacharactersAre(c: char)
    ensures c in SHELL_METACHARACTERS <==>
      || c == '|' || c == '&' || c == ';' || c == '$' || c == '`' || c == '(' || c == ')' || c == '{' || c == '}'
      || c == '<' || c == '>' || c == '!' || c == '\\' || c == '\n' || c == '*' || c == '?' || c == '[' || c == ']'
      || c == '~'
  {
  }

  /** Which check speaks when several fail: the command's variables, its characters, the allowlist, the arguments'
      variables and the input step, in this order. */
  lemma FirstFailedCheckIsNamed(step: PipeStep, env: Bindings, allowlist: Allowlist)
    requires Prepare(step, env, allowlist).Err?
    ensures var (command, args) := (Resolved(RawCommand(step), env), ResolvedAll(RawArgs(step), env));
      var (passes, e) := (PassesChecks(command, allowlist), Prepare(step, env, allowlist).error);
      && (e.Unbound? || e.ShellMetacharacters? || e.CommandNotAllowed? || e.StdinSourceNotFound?)
      && (e.Unbound? ==>
            command == Err(VariableNotFound(e.name)) || (passes && args == Err(VariableNotFound(e.name))))
      && (e.ShellMetacharacters? ==> command == Ok(e.command) && !CommandSafe(e.command))
      && (e.CommandNotAllowed? ==>
            command == Ok(e.command) && CommandSafe(e.command) && !CommandAllowed(e.command, allowlist))
      && (e.StdinSourceNotFound? ==>
            && passes && args.Ok? && e.name == step.name
            && FindProperty(step.properties, "stdin", AsText) == Some(e.stdinRef) && e.stdinRef + ".stdout" !in env)
  {
  }

  predicate PassesChecks(command: Result<string, EnvError>, allowlist: Allowlist) {
    command.Ok? && CommandSafe(command.value) && CommandAllowed(command.value, allowlist)
  }

  /** Of several arguments that fail, the first is named. */
  lemma {:induction false} FirstFailingArgument(args: seq<string>, env: Bindings, e: EnvError, i: nat)
    requires i < |args| && Resolved(args[i], env) == Err(e) && forall j :: 0 <= j < i ==> Resolved(args[j], env).Ok?
    ensures ResolvedAll(args, env) == Err(e)
    decreases i
  {
    if i > 0 {
      assert forall j :: 0 <= j < |args[1..]| ==> args[1..][j] == args[j + 1];
      FirstFailingArgument(args[1..], env, e, i - 1);
    }
  }

  // ---------- what is read from a step's properties ----------

  /** The first property of the key whose value has the wanted kind is taken. */
  lemma {:induction false} FirstPropertyIsTaken<T>(properties: seq<Property>, key: string, as_: Value -> Option<T>,
                                                   i: nat)
    requires i < |properties| && properties[i].key == key && as_(properties[i].value).Some?
    requires forall j :: 0 <= j < i ==> properties[j].key != key || as_(properties[j].value).None?
    ensures FindProperty(properties, key, as_) == as_(properties[i].value)
    decreases i
  {
    if i > 0 {
      assert forall j :: 0 <= j < |properties[1..]| ==> properties[1..][j] == properties[j + 1];
      FirstPropertyIsTaken(properties[1..], key, as_, i - 1);
    }
  }

  /** If there is none, nothing is. */
  lemma {:induction false} NoPropertyIsTaken<T>(properties: seq<Property>, key: string, as_: Value -> Option<T>)
    requires forall j :: 0 <= j < |properties| ==> properties[j].key != key || as_(properties[j].value).None?
    ensures FindProperty(properties, key, as_) == None
    decreases properties
  {
    if properties != [] {
      assert properties[0].key != key || as_(properties[0].value).None?;
      NoPropertyIsTaken(properties[1..], key, as_);
    }
  }

  /** Strings and names are text, arrays are lists, durations and numbers are seconds, and nothing else is. */
  lemma KindsOfValues(v: Value, text: string, n: nat)
    ensures AsText(v) == Some(text) <==> v == Str(text) || v == Name(text)
    ensures AsTexts(v).Some? <==> v.Arr?
    ensures AsSeconds(v).Some? <==> v.Dur? || v.Num?
    ensures AsSeconds(Dur(n, Seconds)) == Some(n) && AsSeconds(Dur(n, Minutes)) == AsSeconds(Dur(60 * n, Seconds))
    ensures AsSeconds(Dur(n, Hours)) == AsSeconds(Dur(60 * n, Minutes))
    ensures AsSeconds(Dur(n, Days)) == AsSeconds(Dur(24 * n, Hours))
    ensures v.Num? && v.n < 0.0 ==> AsSeconds(v) == Some(0)
    ensures v.Num? && n as real <= v.n < n as real + 1.0 ==> AsSeconds(v) == Some(Min(n, 0xFFFF_FFFF_FFFF_FFFF))
  {
    assert v.Num? && n as real <= v.n < n as real + 1.0 ==> v.n.Floor == n;
  }

  /** The texts are those of the items at these places, in order, and no text among the first `n` items is missed. */
  ghost predicate Taken(items: seq<Value>, n: nat, texts: seq<string>, at: seq<nat>) {
    && n <= |items| && |at| == |texts|
    && (forall k :: 0 <= k < |at| ==> at[k] < n && AsText(items[at[k]]) == Some(texts[k]))
    && (forall j, k :: 0 <= j < k < |at| ==> at[j] < at[k])
    && (forall i :: 0 <= i < n && AsText(items[i]).Some? ==> i in at)
  }

  lemma TextsAppend(items: seq<Value>, v: Value)
    ensures TextsOf(items + [v]) == TextsOf(items) + match AsText(v) case Some(t) => [t] case None => []
    decreases items
  {
    if items == [] {
      assert [] + [v] == [v] && [v][1..] == [];
      assert TextsOf([]) == [];
    } else {
      assert (items + [v])[1..] == items[1..] + [v];
      TextsAppend(items[1..], v);
      Associative(match AsText(items[0]) case Some(t) => [t] case None => [], TextsOf(items[1..]),
                  match AsText(v) case Some(t) => [t] case None => []);
    }
  }

  lemma TakenNext(items: seq<Value>, n: nat, texts: seq<string>, at: seq<nat>) returns (longer: seq<nat>)
    requires Taken(items, n, texts, at) && n < |items|
    ensures Taken(items, n + 1, texts + match AsText(items[n]) case Some(t) => [t] case None => [], longer)
  {
    if AsText(items[n]).Some? {
      longer := at + [n];
      assert forall i :: i in at ==> i in longer;
      assert longer[|at|] == n;
    } else {
      longer := at;
      assert texts + [] == texts;
    }
  }

  lemma {:induction false} TextsAreTakenUpTo(items: seq<Value>, n: nat) returns (at: seq<nat>)
    requires n <= |items|
    ensures Taken(items, n, TextsOf(items[..n]), at)
    decreases n
  {
    if n == 0 {
      at := [];
    } else {
      var before := TextsAreTakenUpTo(items, n - 1);
      assert items[..n] == items[..n - 1] + [items[n - 1]];
      TextsAppend(items[..n - 1], items[n - 1]);
      at := TakenNext(items, n - 1, TextsOf(items[..n - 1]), before);
    }
  }

  /** Of an array exactly the texts are taken, in order; `at` says from where. */
  lemma TextsAreTaken(items: seq<Value>) returns (at: seq<nat>)
    ensures Taken(items, |items|, TextsOf(items), at)
  {
    at := TextsAreTakenUpTo(items, |items|);
    assert items[..|items|] == items;
  }

  // ---------- processes and results ----------

  /** A step that comes to a process has that process's outcome for its result: the very code it exits with, or -1 if
      a signal ended it, and what it wrote. A spawn or a wait that fails is an I/O error, and a process that takes
      too long a timeout after the step's own seconds. */
  lemma OutcomeIsTheResult(step: PipeStep, env: Bindings, allowlist: Allowlist, machine: Machine, n: nat)
    ensures var r := Spawning(allowlist, machine)(step, env, n);
      match Prepare(step, env, allowlist)
      case Err(e) => r == Err(e)
      case Ok(call) =>
        match machine(n, call)
        case Exited(Some(code), stdout, stderr) => r == Ok(StepResult(step.name, code, stdout, stderr))
        case Exited(None, stdout, stderr) => r == Ok(StepResult(step.name, -1, stdout, stderr))
        case SpawnFails => r == Err(Io)
        case WaitFails => r == Err(Io)
        case TimesOut => r == Err(StepTimeout(step.name, call.timeoutSecs))
  {
  }

  /** Every step passes its checks, in the bindings that the processes before it left, and its process exits 0. */
  ghost predicate AllExitZero(steps: seq<PipeStep>, env: Bindings, allowlist: Allowlist, machine: Machine, n: nat)
    decreases steps
  {
    steps == []
    || (var call := Prepare(steps[0], env, allowlist);
        call.Ok?
        && var outcome := machine(n, call.value);
          outcome.Exited? && outcome.code == Some(0)
          && var env' := Recorded(env, steps[0].name, outcome.stdout, outcome.stderr, 0);
            AllExitZero(steps[1..], env', allowlist, machine, n + 1))
  }

  /** A pipeline succeeds exactly if every step is spawned and every process exits zero. */
  lemma {:induction false} SucceedsIffAllExitZero(steps: seq<PipeStep>, env: Bindings, allowlist: Allowlist,
                                                  machine: Machine, n: nat)
    ensures var r := Run(steps, env, Spawning(allowlist, machine), n);
      r.Done? && r.success <==> AllExitZero(steps, env, allowlist, machine, n)
    decreases steps
  {
    if steps != [] {
      var r := Spawning(allowlist, machine)(steps[0], env, n);
      OutcomeIsTheResult(steps[0], env, allowlist, machine, n);
      if r.Ok? && r.value.exitCode == 0 {
        SucceedsIffAllExitZero(steps[1..], Record(env, r.value), allowlist, machine, n + 1);
      }
    }
  }

  /** A process that exits non-zero ends the run: its result is the last, with its own code, and no later step runs. */
  lemma NonZeroExitEndsRun(steps: seq<PipeStep>, env: Bindings, allowlist: Allowlist, machine: Machine, k: nat,
                           code: int)
    requires k < |steps| && AllExitZero(steps[..k], env, allowlist, machine, 0) && code != 0
    requires var sofar := Run(steps[..k], env, Spawning(allowlist, machine), 0);
      && sofar.Done? && Prepare(steps[k], sofar.env, allowlist).Ok?
      && var outcome := machine(k, Prepare(steps[k], sofar.env, allowlist).value);
        outcome.Exited? && outcome.code == Some(code)
    ensures var r := Run(steps, env, Spawning(allowlist, machine), 0);
      && r.Done? && !r.success && |r.results| == k + 1
      && r.results[k].exitCode == code && r.results[k].name == steps[k].name
  {
    var run := Spawning(allowlist, machine);
    var sofar := Run(steps[..k], env, run, 0);
    SucceedsIffAllExitZero(steps[..k], env, allowlist, machine, 0);
    RunShape(steps[..k], env, run, 0);
    RunResumes(steps, env, run, k);
    OutcomeIsTheResult(steps[k], sofar.env, allowlist, machine, k);
    assert steps[k..][0] == steps[k];
  }

  /** A process that a signal ended counts as a failed step, and ends the run. */
  lemma SignalledStepEndsRun(steps: seq<PipeStep>, env: Bindings, allowlist: Allowlist, machine: Machine, n: nat)
    requires steps != [] && Prepare(steps[0], env, allowlist).Ok?
    requires machine(n, Prepare(steps[0], env, allowlist).value).Exited? &&
      machine(n, Prepare(steps[0], env, allowlist).value).code.None?
    ensures var r := Run(steps, env, Spawning(allowlist, machine), n);
      r.Done? && !r.success && |r.results| == 1 && r.results[0].name == steps[0].name
  {
  }

  /** The binary is what follows the last slash. */
  lemma {:induction false} BinaryIsLastComponent(command: string)
    ensures '/' !in Binary(command) && |Binary(command)| <= |command|
    ensures command[|command| - |Binary(command)|..] == Binary(command)
    ensures var n := |command| - |Binary(command)|; n == 0 || command[n - 1] == '/'
    decreases command
  {
    if '/' in command {
      BinaryIsLastComponent(command[1..]);
      var n := |command| - 1 - |Binary(command[1..])|;
      assert command[1..][n..] == command[n + 1..];
    }
  }
}
