/**
 Variable bindings of a pipeline and the single-pass resolution of `{name}` placeholders.
*/
module StepEnv {
  import opened Common

  type Bindings = map<string, string>

  datatype EnvError = VariableNotFound(name: string)

  // ---------- templates, apart from any bindings ----------

  /** A template is a row of literals and placeholders, fixed by its text alone. */
  datatype Segment = Lit(text: string) | Var(name: string)

  /** Where the next closing brace is from `i` on, or the end of the text. */
  function CloseFrom(s: string, i: nat): (e: nat)
    requires i <= |s|
    ensures i <= e <= |s| && (e < |s| ==> s[e] == '}') && forall k :: i <= k < e ==> s[k] != '}'
    decreases |s| - i
  {
    if i == |s| || s[i] == '}' then i else CloseFrom(s, i + 1)
  }

  /** What starts at `i` and where the text goes on: a character, a placeholder, or a malformed
      opening brace. The empty placeholder leaves a lone brace and swallows the closing one. */
  function SegmentAt(s: string, i: nat): (r: (Segment, nat))
    requires i < |s|
    ensures i < r.1 <= |s|
  {
    if s[i] != '{' then (Lit([s[i]]), i + 1)
    else
      var close := CloseFrom(s, i + 1);
      if close == |s| then (Lit(s[i..]), |s|)
      else if close == i + 1 then (Lit("{"), close + 1)
      else (Var(s[i + 1..close]), close + 1)
  }

  function Segments(s: string, i: nat): seq<Segment>
    requires i <= |s|
    decreases |s| - i
  {
    if i == |s| then [] else [SegmentAt(s, i).0] + Segments(s, SegmentAt(s, i).1)
  }

  /** A literal as it stands, a value as it is bound. */
  function SegmentText(seg: Segment, env: Bindings): Result<string, EnvError> {
    match seg
    case Lit(text) => Ok(text)
    case Var(name) => if name in env then Ok(env[name]) else Err(VariableNotFound(name))
  }

  /** Texts in a row; the first failure wins. */
  function Then(a: Result<string, EnvError>, b: Result<string, EnvError>): Result<string, EnvError> {
    if a.Err? then a else if b.Err? then b else Ok(a.value + b.value)
  }

  /** The segments' texts in a row: no value is looked at again. */
  function Render(segments: seq<Segment>, env: Bindings): Result<string, EnvError> {
    if segments == [] then Ok("") else Then(SegmentText(segments[0], env), Render(segments[1..], env))
  }

  lemma ThenLaws(a: Result<string, EnvError>, b: Result<string, EnvError>, c: Result<string, EnvError>)
    ensures Then(Ok(""), a) == a
    ensures Then(a, Then(b, c)) == Then(Then(a, b), c)
  {
    if a.Ok? && b.Ok? && c.Ok? {
      assert a.value + (b.value + c.value) == a.value + b.value + c.value;
    }
    if a.Ok? {
      assert "" + a.value == a.value;
    }
  }

  function Resolved(s: string, env: Bindings): Result<string, EnvError> {
    Render(Segments(s, 0), env)
  }

  /** All of a list, or the first failure in it. */
  function ResolvedAll(args: seq<string>, env: Bindings): Result<seq<string>, EnvError> {
    if args == [] then Ok([])
    else
      match Resolved(args[0], env)
      case Err(e) => Err(e)
      case Ok(first) =>
        match ResolvedAll(args[1..], env)
        case Err(e) => Err(e)
        case Ok(rest) => Ok([first] + rest)
  }

  /** Results already in hand, put before those of the rest. */
  function Onto(done: seq<string>, r: Result<seq<string>, EnvError>): Result<seq<string>, EnvError> {
    if r.Ok? then Ok(done + r.value) else r
  }

  lemma OntoNothing(r: Result<seq<string>, EnvError>)
    ensures Onto([], r) == r
  {
    if r.Ok? {
      assert [] + r.value == r.value;
    }
  }

  lemma ResolvedAllStep(args: seq<string>, i: nat, done: seq<string>, env: Bindings)
    requires i < |args|
    ensures var one := Resolved(args[i], env);
      Onto(done, ResolvedAll(args[i..], env)) ==
        if one.Err? then Err(one.error) else Onto(done + [one.value], ResolvedAll(args[i + 1..], env))
  {
    assert args[i..][1..] == args[i + 1..];
    var (one, rest) := (Resolved(args[i], env), ResolvedAll(args[i + 1..], env));
    if one.Ok? && rest.Ok? {
      assert done + ([one.value] + rest.value) == done + [one.value] + rest.value;
    }
  }

  // ---------- numbers as text ----------

  function Digits(n: nat): string
    decreases n
  {
    if n < 10 then [['0', '1', '2', '3', '4', '5', '6', '7', '8', '9'][n]]
    else Digits(n / 10) + [['0', '1', '2', '3', '4', '5', '6', '7', '8', '9'][n % 10]]
  }

  function ShowInt(n: int): string {
    if n < 0 then "-" + Digits(-n) else Digits(n)
  }

  /** The number a row of decimal digits stands for. */
  function ValueOf(digits: string): nat {
    if digits == [] then 0
    else
      var c := digits[|digits| - 1];
      10 * ValueOf(digits[..|digits| - 1]) + if '0' <= c <= '9' then c as nat - '0' as nat else 0
  }

  /** A number is written in decimal, without leading zeros. */
  lemma {:induction false} DigitsReadBack(n: nat)
    ensures ValueOf(Digits(n)) == n && Digits(n) != []
    ensures forall i :: 0 <= i < |Digits(n)| ==> '0' <= Digits(n)[i] <= '9'
    ensures n > 0 ==> Digits(n)[0] != '0'
    decreases n
  {
    var last := ['0', '1', '2', '3', '4', '5', '6', '7', '8', '9'][n % 10];
    assert '0' <= last <= '9' && last as nat - '0' as nat == n % 10;
    if n >= 10 {
      DigitsReadBack(n / 10);
      assert Digits(n)[..|Digits(n)| - 1] == Digits(n / 10);
    } else {
      assert n % 10 == n && Digits(n) == [last] && [last][..0] == [];
    }
  }

  /** An exit code's text: its decimal digits, after a minus sign exactly if it is negative. */
  lemma ShownIntReadsBack(n: int)
    ensures var text := ShowInt(n);
      && text != [] && (text[0] == '-' <==> n < 0)
      && (n < 0 ==> ValueOf(text[1..]) == -n) && (n >= 0 ==> ValueOf(text) == n)
  {
    DigitsReadBack(if n < 0 then -n else n);
    if n < 0 {
      assert ShowInt(n)[1..] == Digits(-n);
    }
  }

  // ---------- recording outputs ----------

  function Recorded(env: Bindings, name: string, stdout: string, stderr: string, code: int): Bindings {
    env[name + ".stdout" := stdout][name + ".stderr" := stderr][name + ".exitCode" := ShowInt(code)]
  }

  // ---------- the environment object ----------

  class StepEnv {
    var bindings: Bindings

    constructor (initial: Bindings)
      ensures bindings == initial
    {
      bindings := initial;
    }

    method Set(name: string, value: string)
      modifies this
      ensures bindings == old(bindings)[name := value]
    {
      bindings := bindings[name := value];
    }

    method Get(name: string) returns (value: Option<string>)
      ensures value == if name in bindings then Some(bindings[name]) else None
    {
      value := if name in bindings then Some(bindings[name]) else None;
    }

    /** The character loop; the inner loop up to the closing brace is CollectName. */
    method Resolve(input: string) returns (r: Result<string, EnvError>)
      ensures r == Resolved(input, bindings)
    {
      var result := "";
      var at := 0;
      ThenLaws(Render(Segments(input, 0), bindings), Ok(""), Ok(""));
      while at < |input|
        invariant at <= |input|
        invariant Then(Ok(result), Render(Segments(input, at), bindings)) == Resolved(input, bindings)
        decreases |input| - at
      {
        StepSoFar(input, at, result, bindings);
        var ch := input[at];
        if ch == '{' {
          var varName, foundClose, next := CollectName(input, at + 1);
          OpenBrace(input, at, varName, foundClose, next);
          if !foundClose || varName == "" {
            result := result + (['{'] + varName);
          } else if varName in bindings {
            result := result + bindings[varName];
          } else {
            return Err(VariableNotFound(varName));
          }
          at := next;
        } else {
          result := result + [ch];
          at := at + 1;
        }
      }
      assert result + "" == result;
      r := Ok(result);
    }

    /** The inner loop: collect a variable name until the closing brace, or the end of the input. */
    static method CollectName(input: string, start: nat) returns (varName: string, foundClose: bool, next: nat)
      requires start <= |input|
      ensures Collected(input, start, varName, foundClose, next)
    {
      next := start;
      varName := "";
      foundClose := false;
      while next < |input|
        invariant start <= next <= |input| && !foundClose
        invariant varName == input[start..next]
        invariant CloseFrom(input, next) == CloseFrom(input, start)
        decreases |input| - next
      {
        var inner := input[next];
        next := next + 1;
        if inner == '}' {
          foundClose := true;
          break;
        }
        varName := varName + [inner];
      }
    }

    method ResolveArgs(args: seq<string>) returns (r: Result<seq<string>, EnvError>)
      ensures r == ResolvedAll(args, bindings)
    {
      var done := [];
      var i := 0;
      assert args[0..] == args;
      OntoNothing(ResolvedAll(args, bindings));
      while i < |args|
        invariant i <= |args|
        invariant Onto(done, ResolvedAll(args[i..], bindings)) == Onto([], ResolvedAll(args, bindings))
      {
        ResolvedAllStep(args, i, done, bindings);
        var one := Resolve(args[i]);
        if one.Err? {
          return Err(one.error);
        }
        done := done + [one.value];
        i := i + 1;
      }
      assert args[i..] == [] && done + [] == done;
      r := Ok(done);
    }

    method RecordStepOutput(name: string, stdout: string, stderr: string, code: int)
      modifies this
      ensures bindings == Recorded(old(bindings), name, stdout, stderr, code)
    {
      Set(name + ".stdout", stdout);
      Set(name + ".stderr", stderr);
      Set(name + ".exitCode", ShowInt(code));
    }
  }

  ghost predicate Collected(s: string, start: nat, varName: string, foundClose: bool, next: nat)
    requires start <= |s|
  {
    var close := CloseFrom(s, start);
    && varName == s[start..close]
    && (foundClose <==> close < |s|)
    && next == if foundClose then close + 1 else |s|
  }

  /** What an opening brace and the name after it amount to. */
  lemma OpenBrace(s: string, i: nat, varName: string, foundClose: bool, next: nat)
    requires i < |s| && s[i] == '{' && Collected(s, i + 1, varName, foundClose, next)
    ensures SegmentAt(s, i) == (if !foundClose || varName == "" then Lit(['{'] + varName) else Var(varName), next)
  {
    var close := CloseFrom(s, i + 1);
    if close == |s| {
      assert s[i..] == ['{'] + s[i + 1..close];
    } else if close == i + 1 {
      assert ['{'] + varName == "{";
    }
  }

  /** One segment moves from what is left to what is done. */
  lemma StepSoFar(s: string, i: nat, done: string, env: Bindings)
    requires i < |s|
    ensures var (seg, next) := SegmentAt(s, i);
      Then(Ok(done), Render(Segments(s, i), env)) ==
        Then(Then(Ok(done), SegmentText(seg, env)), Render(Segments(s, next), env))
  {
    var (seg, next) := SegmentAt(s, i);
    assert Segments(s, i)[1..] == Segments(s, next);
    ThenLaws(Ok(done), SegmentText(seg, env), Render(Segments(s, next), env));
  }
}
