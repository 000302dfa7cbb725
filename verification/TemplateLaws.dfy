/** What placeholder resolution promises about every template and every set of bindings. */
module TemplateLaws {
  import opened Common
  import opened StepEnv

  /** The k-th segment is the first placeholder without a binding. */
  predicate FirstUnbound(segments: seq<Segment>, env: Bindings, name: string, k: nat) {
    k < |segments| && segments[k] == Var(name) && name !in env
    && forall j :: 0 <= j < k && segments[j].Var? ==> segments[j].name in env
  }

  /** Resolution fails exactly when some placeholder is unbound, and names the first such placeholder in
      template order. */
  lemma {:induction false} FirstUnboundIsNamed(segments: seq<Segment>, env: Bindings, name: string)
    ensures Render(segments, env) == Err(VariableNotFound(name)) <==>
      exists k: nat :: FirstUnbound(segments, env, name, k)
    decreases segments
  {
    if segments != [] {
      var rest := segments[1..];
      FirstUnboundIsNamed(rest, env, name);
      if SegmentText(segments[0], env).Ok? {
        if k: nat :| FirstUnbound(segments, env, name, k) {
          assert forall j :: 0 <= j < |rest| ==> rest[j] == segments[j + 1];
          assert k > 0 && FirstUnbound(rest, env, name, k - 1);
        }
        if k: nat :| FirstUnbound(rest, env, name, k) {
          assert forall j :: 1 <= j < |segments| ==> segments[j] == rest[j - 1];
          assert FirstUnbound(segments, env, name, k + 1);
        }
      } else if Render(segments, env) == Err(VariableNotFound(name)) {
        assert FirstUnbound(segments, env, name, 0);
      }
    }
  }

  lemma {:induction false} ResolvesIffBound(segments: seq<Segment>, env: Bindings)
    ensures Render(segments, env).Ok? <==>
      forall k :: 0 <= k < |segments| && segments[k].Var? ==> segments[k].name in env
    decreases segments
  {
    if segments != [] {
      ResolvesIffBound(segments[1..], env);
      assert forall k :: 1 <= k < |segments| ==> segments[k] == segments[1..][k - 1];
      assert forall k :: 0 <= k < |segments[1..]| ==> segments[1..][k] == segments[k + 1];
    }
  }

  /** Only the placeholders of the template are looked up: bindings that agree on them resolve it alike. */
  lemma {:induction false} OnlyPlaceholdersMatter(segments: seq<Segment>, env: Bindings, env': Bindings)
    requires forall k :: 0 <= k < |segments| && segments[k].Var? ==>
      (segments[k].name in env <==> segments[k].name in env')
      && (segments[k].name in env ==> env[segments[k].name] == env'[segments[k].name])
    ensures Render(segments, env) == Render(segments, env')
    decreases segments
  {
    if segments != [] {
      OnlyPlaceholdersMatter(segments[1..], env, env');
      assert segments[0].Var? ==> (segments[0].name in env <==> segments[0].name in env');
    }
  }

  /** Adding bindings for new names never changes a successful result. */
  lemma NewBindingsChangeNothing(s: string, env: Bindings, more: Bindings)
    requires Resolved(s, env).Ok? && env.Keys !! more.Keys
    ensures Resolved(s, env + more) == Resolved(s, env)
  {
    ResolvesIffBound(Segments(s, 0), env);
    OnlyPlaceholdersMatter(Segments(s, 0), env, env + more);
  }

  /** A value is inserted raw, whatever braces it holds. */
  lemma ValueIsNotRescanned(name: string, value: string, env: Bindings)
    requires name != "" && '}' !in name
    ensures Resolved("{" + name + "}", env[name := value]) == Ok(value)
  {
    var s := "{" + name + "}";
    CloseAt(s, 1, |s| - 1);
    assert s[1..|s| - 1] == name;
    assert SegmentAt(s, 0) == (Var(name), |s|);
    assert Segments(s, 0) == [Var(name)] + Segments(s, |s|) == [Var(name)];
    RenderOne(Var(name), env[name := value]);
  }

  lemma RenderOne(seg: Segment, env: Bindings)
    ensures Render([seg], env) == SegmentText(seg, env)
  {
    assert [seg][1..] == [];
    if SegmentText(seg, env).Ok? {
      assert SegmentText(seg, env).value + "" == SegmentText(seg, env).value;
    }
  }

  lemma {:induction false} CloseAt(s: string, i: nat, at: nat)
    requires i <= at < |s| && s[at] == '}' && forall k :: i <= k < at ==> s[k] != '}'
    ensures CloseFrom(s, i) == at
    decreases at - i
  {
    if i < at {
      CloseAt(s, i + 1, at);
    }
  }

  // ---------- joining templates ----------

  /** Reading `s` from `i` never runs into an opening brace that is not closed. */
  predicate Closed(s: string, i: nat)
    requires i <= |s|
    decreases |s| - i
  {
    i == |s| || ((s[i] == '{' ==> CloseFrom(s, i + 1) < |s|) && Closed(s, SegmentAt(s, i).1))
  }

  lemma {:induction false} CloseBeforeJoin(a: string, b: string, i: nat)
    requires i <= |a| && CloseFrom(a, i) < |a|
    ensures CloseFrom(a + b, i) == CloseFrom(a, i)
    decreases |a| - i
  {
    if a[i] != '}' {
      CloseBeforeJoin(a, b, i + 1);
    }
  }

  lemma SegmentBeforeJoin(a: string, b: string, i: nat)
    requires i < |a| && (a[i] == '{' ==> CloseFrom(a, i + 1) < |a|)
    ensures SegmentAt(a + b, i) == SegmentAt(a, i)
  {
    if a[i] == '{' {
      CloseBeforeJoin(a, b, i + 1);
      var close := CloseFrom(a, i + 1);
      SliceOfPrefix(a, b, i + 1, close);
    }
  }

  lemma {:induction false} CloseAfterJoin(a: string, b: string, j: nat)
    requires j <= |b|
    ensures CloseFrom(a + b, |a| + j) == |a| + CloseFrom(b, j)
    decreases |b| - j
  {
    if j < |b| {
      CloseAfterJoin(a, b, j + 1);
    }
  }

  lemma SegmentAfterJoin(a: string, b: string, j: nat)
    requires j < |b|
    ensures SegmentAt(a + b, |a| + j) == (SegmentAt(b, j).0, |a| + SegmentAt(b, j).1)
  {
    if b[j] == '{' {
      CloseAfterJoin(a, b, j + 1);
      var close := CloseFrom(b, j + 1);
      SliceOfSuffix(a, b, j + 1, close);
      assert (a + b)[|a| + j..] == b[j..];
    }
  }

  /** Texts that agree on the segment at a place, up to `n`, go on alike. */
  lemma SegmentsBoth(s: string, i: nat, b: string, j: nat, n: nat, seg: Segment, next: nat)
    requires j < |b| && i == n + j < |s| && SegmentAt(b, j) == (seg, next) && SegmentAt(s, i) == (seg, n + next)
    ensures next <= |b| && n + next <= |s|
    ensures Segments(b, j) == [seg] + Segments(b, next) && Segments(s, i) == [seg] + Segments(s, n + next)
  {
  }

  lemma {:induction false} SegmentsAfterJoin(a: string, b: string, j: nat)
    requires j <= |b|
    ensures Segments(a + b, |a| + j) == Segments(b, j)
    decreases |b| - j
  {
    if j < |b| {
      SegmentAfterJoin(a, b, j);
      var (seg, next) := SegmentAt(b, j);
      SegmentsBoth(a + b, |a| + j, b, j, |a|, seg, next);
      SegmentsAfterJoin(a, b, next);
    }
  }

  /** Templates joined after a closed one are segmented, hence resolved, one by one. */
  lemma {:induction false} SegmentsJoin(a: string, b: string, i: nat)
    requires i <= |a| && Closed(a, i)
    ensures Segments(a + b, i) == Segments(a, i) + Segments(b, 0)
    decreases |a| - i
  {
    if i == |a| {
      SegmentsAfterJoin(a, b, 0);
    } else {
      SegmentBeforeJoin(a, b, i);
      var (seg, next) := SegmentAt(a, i);
      SegmentsJoin(a, b, next);
      Associative([seg], Segments(a, next), Segments(b, 0));
    }
  }

  lemma {:induction false} RenderJoin(xs: seq<Segment>, ys: seq<Segment>, env: Bindings)
    ensures Render(xs + ys, env) == Then(Render(xs, env), Render(ys, env))
    decreases xs
  {
    if xs == [] {
      assert xs + ys == ys;
      ThenLaws(Render(ys, env), Ok(""), Ok(""));
    } else {
      assert (xs + ys)[1..] == xs[1..] + ys;
      RenderJoin(xs[1..], ys, env);
      ThenLaws(SegmentText(xs[0], env), Render(xs[1..], env), Render(ys, env));
    }
  }

  lemma ResolveJoin(a: string, b: string, env: Bindings)
    requires Closed(a, 0)
    ensures Resolved(a + b, env) == Then(Resolved(a, env), Resolved(b, env))
  {
    SegmentsJoin(a, b, 0);
    RenderJoin(Segments(a, 0), Segments(b, 0), env);
  }

  // ---------- is a malformed placeholder literal? ----------

  /** A segment written back as template text. */
  function Source(seg: Segment): string {
    match seg case Lit(text) => text case Var(name) => "{" + name + "}"
  }

  function SourceOf(segments: seq<Segment>): string {
    if segments == [] then "" else Source(segments[0]) + SourceOf(segments[1..])
  }

  /** Empty placeholders met when reading `s` from `i`. */
  function Empties(s: string, i: nat): nat
    requires i <= |s|
    decreases |s| - i
  {
    if i == |s| then 0
    else (if EmptyAt(s, i) then 1 else 0) + Empties(s, SegmentAt(s, i).1)
  }

  predicate EmptyAt(s: string, i: nat) {
    i + 1 < |s| && s[i] == '{' && s[i + 1] == '}'
  }

  lemma Braced(s: string, i: nat, close: nat)
    requires i < close < |s| && s[i] == '{' && s[close] == '}'
    ensures "{" + s[i + 1..close] + "}" == s[i..close + 1]
  {
  }

  lemma SegmentKeepsText(s: string, i: nat)
    requires i < |s|
    ensures var (seg, next) := SegmentAt(s, i);
      if EmptyAt(s, i) then Source(seg) == "{" && next == i + 2 else Source(seg) == s[i..next]
  {
    if s[i] == '{' {
      var close := CloseFrom(s, i + 1);
      if close < |s| && close != i + 1 {
        Braced(s, i, close);
      }
    }
  }

  lemma SourceUnfolds(s: string, i: nat)
    requires i < |s|
    ensures SourceOf(Segments(s, i)) == Source(SegmentAt(s, i).0) + SourceOf(Segments(s, SegmentAt(s, i).1))
  {
    assert Segments(s, i)[1..] == Segments(s, SegmentAt(s, i).1);
  }

  /** The text with the closing brace of each empty placeholder left out. */
  function Kept(s: string, i: nat): string
    requires i <= |s|
    decreases |s| - i
  {
    if i == |s| then ""
    else if EmptyAt(s, i) then "{" + Kept(s, i + 2)
    else s[i..SegmentAt(s, i).1] + Kept(s, SegmentAt(s, i).1)
  }

  /** Segments keep exactly that text: an empty placeholder costs its closing brace, and nothing else is lost. */
  lemma {:induction false} SegmentsKeepText(s: string, i: nat)
    requires i <= |s|
    ensures SourceOf(Segments(s, i)) == Kept(s, i)
    decreases |s| - i
  {
    if i < |s| {
      SegmentsKeepText(s, SegmentAt(s, i).1);
      SourceUnfolds(s, i);
      KeptUnfolds(s, i);
    }
  }

  lemma KeptUnfolds(s: string, i: nat)
    requires i < |s|
    ensures Kept(s, i) == Source(SegmentAt(s, i).0) + Kept(s, SegmentAt(s, i).1)
  {
    SegmentKeepsText(s, i);
  }

  lemma {:induction false} KeptLength(s: string, i: nat)
    requires i <= |s|
    ensures |Kept(s, i)| + Empties(s, i) == |s| - i
    ensures Empties(s, i) == 0 ==> Kept(s, i) == s[i..]
    decreases |s| - i
  {
    if i < |s| {
      var next := SegmentAt(s, i).1;
      SegmentKeepsText(s, i);
      KeptLength(s, next);
      SliceSplit(s, i, next);
    }
  }

  /** Segmentation keeps a template's text, malformed placeholders as literals included, exactly when no
      empty placeholder is met. */
  lemma LiteralIffNoEmpty(s: string)
    ensures SourceOf(Segments(s, 0)) == s <==> Empties(s, 0) == 0
  {
    SegmentsKeepText(s, 0);
    KeptLength(s, 0);
    assert s[0..] == s;
  }

  lemma {:induction false} LiteralsRenderAsSource(segments: seq<Segment>, env: Bindings)
    requires forall k :: 0 <= k < |segments| ==> segments[k].Lit?
    ensures Render(segments, env) == Ok(SourceOf(segments))
    decreases segments
  {
    if segments != [] {
      LiteralsRenderAsSource(segments[1..], env);
    }
  }

  /** A template with no variable in it resolves, under any bindings, to its kept text: to itself exactly when
      it has no empty placeholder. */
  lemma NoVariableResolvesToItselfIff(s: string, env: Bindings)
    requires forall k :: 0 <= k < |Segments(s, 0)| ==> Segments(s, 0)[k].Lit?
    ensures Resolved(s, env) == Ok(Kept(s, 0))
    ensures Resolved(s, env) == Ok(s) <==> Empties(s, 0) == 0
  {
    LiteralsRenderAsSource(Segments(s, 0), env);
    SegmentsKeepText(s, 0);
    LiteralIffNoEmpty(s);
  }

  /** The empty placeholder: its closing brace is lost. */
  lemma EmptyPlaceholderLosesBrace(env: Bindings)
    ensures Resolved("{}", env) == Ok("{")
  {
    var s := "{}";
    assert CloseFrom(s, 1) == 1;
    assert SegmentAt(s, 0) == (Lit("{"), 2);
    assert Segments(s, 0) == [Lit("{")] + Segments(s, 2) == [Lit("{")];
    RenderOne(Lit("{"), env);
  }
}
