/**
 The skill library's dependency closure and profile resolution: work lists over graphs that may
 have cycles and may name skills or profiles that do not exist.
*/
module SkillGraph {
  import opened Common

  datatype Skill = Skill(name: string, dependencies: seq<string>)
  datatype Profile = Profile(skills: seq<string>, parent: string)

  /** The first entry of that name in the index. */
  function GetSkill(index: seq<Skill>, name: string): (r: Option<Skill>)
    ensures r.Some? ==> r.value in index && r.value.name == name
    ensures r.None? ==> forall s :: s in index ==> s.name != name
  {
    if index == [] then None
    else if index[0].name == name then Some(index[0])
    else
      assert forall s :: s in index ==> s == index[0] || s in index[1..];
      GetSkill(index[1..], name)
  }

  /** No entry before the i-th has the name, which the i-th has. */
  predicate FirstNamed(index: seq<Skill>, name: string, i: nat) {
    i < |index| && index[i].name == name && forall j :: 0 <= j < i ==> index[j].name != name
  }

  lemma {:induction false} GetSkillIsFirst(index: seq<Skill>, name: string, i: nat)
    requires FirstNamed(index, name, i)
    ensures GetSkill(index, name) == Some(index[i])
    decreases i
  {
    if i > 0 {
      assert forall j :: 0 <= j < i - 1 ==> index[1..][j] == index[j + 1];
      GetSkillIsFirst(index[1..], name, i - 1);
    }
  }

  /** Direct dependencies; an unknown skill has none. */
  function Deps(index: seq<Skill>, name: string): seq<string> {
    match GetSkill(index, name) case Some(s) => s.dependencies case None => []
  }

  // ---------- reachability ----------

  /** The first entry of the name lists the other as a dependency. */
  ghost predicate DependsOn(index: seq<Skill>, x: string, y: string) {
    exists i: nat :: FirstNamed(index, x, i) && y in index[i].dependencies
  }

  lemma {:induction false} FirstEntry(index: seq<Skill>, name: string) returns (i: nat)
    requires GetSkill(index, name).Some?
    ensures FirstNamed(index, name, i) && GetSkill(index, name) == Some(index[i])
    decreases index
  {
    if index[0].name == name {
      i := 0;
    } else {
      var rest := FirstEntry(index[1..], name);
      assert forall j :: 0 <= j < |index[1..]| ==> index[1..][j] == index[j + 1];
      i := rest + 1;
    }
  }

  /** The dependencies looked up are those of the first entry of the name, all of them and in its order. */
  lemma DepsAreTheFirstEntrys(index: seq<Skill>, name: string, i: nat)
    ensures FirstNamed(index, name, i) ==> Deps(index, name) == index[i].dependencies
    ensures (forall s :: s in index ==> s.name != name) ==> Deps(index, name) == []
  {
    if FirstNamed(index, name, i) {
      GetSkillIsFirst(index, name, i);
    }
  }

  lemma DepsAre(index: seq<Skill>, x: string, y: string)
    ensures y in Deps(index, x) <==> DependsOn(index, x, y)
  {
    if y in Deps(index, x) {
      var i := FirstEntry(index, x);
    }
    if i: nat :| FirstNamed(index, x, i) && y in index[i].dependencies {
      GetSkillIsFirst(index, x, i);
    }
  }

  /** A chain of direct dependencies that starts at one of the given names. */
  ghost predicate IsPath(index: seq<Skill>, names: seq<string>, path: seq<string>) {
    && path != [] && path[0] in names
    && forall i :: 0 <= i < |path| - 1 ==> DependsOn(index, path[i], path[i + 1])
  }

  ghost predicate ReachedBy(index: seq<Skill>, names: seq<string>, x: string, path: seq<string>) {
    IsPath(index, names, path) && path[|path| - 1] == x
  }

  ghost predicate Reachable(index: seq<Skill>, names: seq<string>, x: string) {
    exists path :: ReachedBy(index, names, x, path)
  }

  /** Some chain of at most `n` dependencies leads to `x`. */
  ghost predicate Within(index: seq<Skill>, names: seq<string>, x: string, n: nat) {
    exists path :: ReachedBy(index, names, x, path) && |path| <= n + 1
  }

  lemma PathExtends(index: seq<Skill>, names: seq<string>, x: string, y: string, n: nat)
    requires Within(index, names, x, n) && y in Deps(index, x)
    ensures Within(index, names, y, n + 1)
  {
    var path :| ReachedBy(index, names, x, path) && |path| <= n + 1;
    DepsAre(index, x, y);
    assert ReachedBy(index, names, y, path + [y]);
  }

  lemma RootsAreWithin(index: seq<Skill>, names: seq<string>, x: string)
    ensures Within(index, names, x, 0) <==> x in names
  {
    if x in names {
      assert ReachedBy(index, names, x, [x]);
    }
  }

  /** A name first reached in `n + 1` steps is a dependency of one reached in `n`. */
  lemma PathShrinks(index: seq<Skill>, names: seq<string>, y: string, n: nat)
    requires Within(index, names, y, n + 1)
    ensures y in names || exists x :: Within(index, names, x, n) && y in Deps(index, x)
  {
    var path :| ReachedBy(index, names, y, path) && |path| <= n + 2;
    if |path| > 1 {
      var prev := path[..|path| - 1];
      assert ReachedBy(index, names, prev[|prev| - 1], prev);
      assert Within(index, names, prev[|prev| - 1], n);
      assert DependsOn(index, path[|path| - 2], path[|path| - 2 + 1]);
      DepsAre(index, prev[|prev| - 1], y);
    }
  }

  /** Sets of names closed under dependencies keep every path inside. */
  lemma {:induction false} ClosedHoldsPath(index: seq<Skill>, names: seq<string>, closed: set<string>,
                                           path: seq<string>)
    requires IsPath(index, names, path)
    requires forall x :: x in names ==> x in closed
    requires forall x, y :: x in closed && y in Deps(index, x) ==> y in closed
    ensures path[|path| - 1] in closed
    decreases |path|
  {
    if |path| > 1 {
      var prev := path[..|path| - 1];
      ClosedHoldsPath(index, names, closed, prev);
      assert prev[|prev| - 1] == path[|path| - 2] && DependsOn(index, path[|path| - 2], path[|path| - 2 + 1]);
      DepsAre(index, path[|path| - 2], path[|path| - 1]);
    }
  }

  // ---------- the closure ----------

  /** Every name the work list can ever hold. */
  ghost function Universe(index: seq<Skill>, names: seq<string>): set<string> {
    (set x | x in names) + (set s, d | s in index && d in s.dependencies :: d)
  }

  ghost predicate Distinct(s: seq<string>) {
    forall i, j :: 0 <= i < j < |s| ==> s[i] != s[j]
  }

  /** Listed in non-decreasing shortest distance: whatever bound holds for a later name holds for an earlier one. */
  ghost predicate ByDistance(index: seq<Skill>, names: seq<string>, s: seq<string>) {
    forall i, j, n: nat :: 0 <= i < j < |s| && Within(index, names, s[j], n) ==> Within(index, names, s[i], n)
  }

  function Elems(s: seq<string>): set<string> {
    set x | x in s
  }

  /** The work list's state: `near` are the queued names at most `d` away that come first, `far` those
      queued behind them, one step further at most. */
  ghost predicate Frontier(index: seq<Skill>, names: seq<string>, resolved: set<string>, near: set<string>,
                           far: set<string>, d: nat) {
    && (forall x :: x in near ==> Within(index, names, x, d))
    && (forall x :: x in far ==> Within(index, names, x, d + 1))
    && (forall x :: x in resolved ==> Within(index, names, x, d))
    && (forall x :: Within(index, names, x, d) ==> x in resolved || x in near)
    && (d > 0 ==> forall x :: Within(index, names, x, d - 1) ==> x in resolved)
    && (forall x, y :: x in resolved && y in Deps(index, x) ==> y in resolved || y in near || y in far)
  }

  /** When the near part is used up, the rest of the queue is the next distance. */
  lemma NextDistance(index: seq<Skill>, names: seq<string>, resolved: set<string>, far: set<string>, d: nat)
    requires Frontier(index, names, resolved, {}, far, d)
    ensures Frontier(index, names, resolved, far, {}, d + 1)
  {
    forall x | Within(index, names, x, d + 1)
      ensures x in resolved || x in far
    {
      PathShrinks(index, names, x, d);
      if x in names {
        RootsAreWithin(index, names, x);
        WithinGrows(index, names, x, 0, d);
      }
    }
    forall x | x in resolved
      ensures Within(index, names, x, d + 1)
    {
      WithinGrows(index, names, x, d, d + 1);
    }
  }

  lemma WithinGrows(index: seq<Skill>, names: seq<string>, x: string, n: nat, m: nat)
    requires n <= m && Within(index, names, x, n)
    ensures Within(index, names, x, m)
  {
  }

  /** A new name at the front is no nearer than `d`, so it keeps the order of the list. */
  lemma OrderedWithNew(index: seq<Skill>, names: seq<string>, resolved: seq<string>, x0: string, near: set<string>,
                       far: set<string>, d: nat)
    requires Frontier(index, names, Elems(resolved), near, far, d) && x0 in near && x0 !in resolved
    requires Distinct(resolved) && ByDistance(index, names, resolved)
    ensures Distinct(resolved + [x0]) && ByDistance(index, names, resolved + [x0])
  {
    var r := resolved + [x0];
    forall i, j, n: nat | 0 <= i < j < |r| && Within(index, names, r[j], n)
      ensures Within(index, names, r[i], n)
    {
      if j == |resolved| {
        assert r[i] in resolved;
        assert x0 !in Elems(resolved) && r[i] in Elems(resolved);
        if n >= d {
          WithinGrows(index, names, r[i], d, n);
        }
      }
    }
  }

  /** A new name is resolved, and its unresolved dependencies go to the back. */
  lemma TakeNew(index: seq<Skill>, names: seq<string>, resolved: set<string>, x0: string,
                near: set<string>, near': set<string>, far: set<string>, added: set<string>, d: nat)
    requires Frontier(index, names, resolved, near, far, d) && near == near' + {x0}
    requires forall y :: y in added ==> y in Deps(index, x0)
    requires forall y :: y in Deps(index, x0) ==> y in added || y in resolved || y == x0
    ensures Frontier(index, names, resolved + {x0}, near', far + added, d)
  {
    forall y | y in added
      ensures Within(index, names, y, d + 1)
    {
      PathExtends(index, names, x0, y, d);
    }
  }

  /** The dependencies the loop pushes: those not resolved yet, in order. */
  function Unresolved(deps: seq<string>, resolved: seq<string>): (r: seq<string>)
    ensures forall y :: y in r <==> y in deps && y !in resolved
  {
    if deps == [] then []
    else
      var last := deps[|deps| - 1];
      assert deps == deps[..|deps| - 1] + [last];
      Unresolved(deps[..|deps| - 1], resolved) + if last in resolved then [] else [last]
  }

  /** The sets of a queue cut at `near`, seen from its first name. */
  lemma QueueParts(queue: seq<string>, near: nat)
    requires 0 < near <= |queue|
    ensures Elems(queue[..near]) == Elems(queue[1..][..near - 1]) + {queue[0]}
    ensures queue[1..][near - 1..] == queue[near..]
    ensures forall x :: x in queue <==> x == queue[0] || x in queue[1..]
  {
    assert queue[..near] == [queue[0]] + queue[1..][..near - 1];
    assert queue == [queue[0]] + queue[1..];
  }

  /** The loop's invariant: the queue is cut after its first `near` names. */
  ghost predicate Searching(index: seq<Skill>, names: seq<string>, resolved: seq<string>, queue: seq<string>,
                            near: nat, d: nat) {
    && near <= |queue|
    && Frontier(index, names, Elems(resolved), Elems(queue[..near]), Elems(queue[near..]), d)
    && Distinct(resolved) && ByDistance(index, names, resolved)
    && Elems(resolved) + Elems(queue) <= Universe(index, names)
  }

  lemma Refocus(index: seq<Skill>, names: seq<string>, resolved: seq<string>, queue: seq<string>, d: nat)
    requires Searching(index, names, resolved, queue, 0, d)
    ensures Searching(index, names, resolved, queue, |queue|, d + 1)
  {
    assert queue[..0] == [] && queue[0..] == queue && queue[..|queue|] == queue && queue[|queue|..] == [];
    NextDistance(index, names, Elems(resolved), Elems(queue), d);
  }

  lemma DropFirst(index: seq<Skill>, names: seq<string>, resolved: seq<string>, queue: seq<string>, near: nat, d: nat)
    requires Searching(index, names, resolved, queue, near, d) && near > 0 && queue[0] in resolved
    ensures Searching(index, names, resolved, queue[1..], near - 1, d)
  {
    QueueParts(queue, near);
    assert queue[0] in Elems(resolved);
    assert Elems(queue[1..]) <= Elems(queue);
  }

  lemma TakeFirst(index: seq<Skill>, names: seq<string>, resolved: seq<string>, queue: seq<string>, near: nat, d: nat)
    requires Searching(index, names, resolved, queue, near, d) && near > 0 && queue[0] !in resolved
    ensures var r := resolved + [queue[0]];
      && Searching(index, names, r, queue[1..] + Unresolved(Deps(index, queue[0]), r), near - 1, d)
      && Universe(index, names) - Elems(r) < Universe(index, names) - Elems(resolved)
  {
    var (x0, q) := (queue[0], queue[1..]);
    var (near0, far0) := (Elems(queue[..near]), Elems(queue[near..]));
    var added := Unresolved(Deps(index, x0), resolved + [x0]);
    QueueParts(queue, near);
    OrderedWithNew(index, names, resolved, x0, near0, far0, d);
    TakeNew(index, names, Elems(resolved), x0, near0, Elems(q[..near - 1]), far0, Elems(added), d);
    TakenParts(index, names, resolved, q, near - 1, x0, added);
    assert Elems(q) <= Elems(queue) && x0 in Elems(queue);
    assert x0 in Universe(index, names) - Elems(resolved);
  }

  lemma Finished(index: seq<Skill>, names: seq<string>, resolved: seq<string>, near: nat, d: nat)
    requires Searching(index, names, resolved, [], near, d)
    ensures Distinct(resolved) && ByDistance(index, names, resolved)
    ensures forall x :: x in resolved <==> Reachable(index, names, x)
  {
    forall x
      ensures x in resolved <==> Reachable(index, names, x)
    {
      ResolvedIsReachable(index, names, resolved, d, x);
    }
  }

  lemma Started(index: seq<Skill>, names: seq<string>)
    ensures Searching(index, names, [], names, |names|, 0)
  {
    StartsAtRoots(index, names);
  }

  // ---------- the order of the list ----------

  /** Each element where it first occurs. */
  function Dedup(s: seq<string>): (r: seq<string>)
    ensures forall x :: x in r <==> x in s
  {
    if s == [] then []
    else
      var last := |s| - 1;
      assert s == s[..last] + [s[last]];
      if s[last] in s[..last] then Dedup(s[..last]) else Dedup(s[..last]) + [s[last]]
  }

  lemma DedupSnoc(s: seq<string>, x: string)
    ensures Dedup(s + [x]) == if x in s then Dedup(s) else Dedup(s) + [x]
  {
    assert (s + [x])[..|s|] == s;
  }

  lemma {:induction false} DedupAppend(a: seq<string>, b: seq<string>, z: seq<string>)
    requires Dedup(a) == Dedup(b)
    ensures Dedup(a + z) == Dedup(b + z)
    decreases z
  {
    if z == [] {
      assert a + z == a && b + z == b;
    } else {
      var (front, x) := (z[..|z| - 1], z[|z| - 1]);
      DedupAppend(a, b, front);
      assert z == front + [x];
      Associative(a, front, [x]);
      Associative(b, front, [x]);
      DedupSnoc(a + front, x);
      DedupSnoc(b + front, x);
      assert x in a + front <==> x in Dedup(a + front);
      assert x in b + front <==> x in Dedup(b + front);
    }
  }

  lemma {:induction false} DistinctIsDedup(s: seq<string>)
    requires Distinct(s)
    ensures Dedup(s) == s
    decreases s
  {
    if s != [] {
      var (front, x) := (s[..|s| - 1], s[|s| - 1]);
      assert s == front + [x];
      DistinctIsDedup(front);
      DedupSnoc(front, x);
    }
  }

  /** Leaving out what occurred before changes nothing. */
  lemma {:induction false} UnresolvedDedups(s: seq<string>, deps: seq<string>, resolved: seq<string>)
    requires forall x :: x in resolved ==> x in s
    ensures Dedup(s + Unresolved(deps, resolved)) == Dedup(s + deps)
    decreases deps
  {
    if deps == [] {
      assert Unresolved(deps, resolved) == deps;
    } else {
      var (front, x) := (deps[..|deps| - 1], deps[|deps| - 1]);
      var kept := Unresolved(front, resolved);
      UnresolvedDedups(s, front, resolved);
      assert deps == front + [x];
      Associative(s, front, [x]);
      DedupSnoc(s + front, x);
      if x in resolved {
        assert Unresolved(deps, resolved) == kept + [] == kept;
      } else {
        Associative(s, kept, [x]);
        DedupSnoc(s + kept, x);
        assert x in s + kept <==> x in Dedup(s + kept);
        assert x in s + front <==> x in Dedup(s + front);
      }
    }
  }

  /** The dependencies of all of these names, one after the other. */
  function AllDeps(index: seq<Skill>, names: seq<string>): seq<string> {
    if names == [] then [] else AllDeps(index, names[..|names| - 1]) + Deps(index, names[|names| - 1])
  }

  /** Read off without repeats, what is resolved and what is queued is what one gets by listing the initial names
      and then the dependencies of each resolved name in turn. */
  ghost predicate InOrder(index: seq<Skill>, names: seq<string>, resolved: seq<string>, queue: seq<string>) {
    Dedup(resolved + queue) == Dedup(names + AllDeps(index, resolved))
  }

  lemma OrderStarts(index: seq<Skill>, names: seq<string>)
    ensures InOrder(index, names, [], names)
  {
    assert [] + names == names && names + [] == names;
  }

  lemma OrderDrops(index: seq<Skill>, names: seq<string>, resolved: seq<string>, queue: seq<string>)
    requires InOrder(index, names, resolved, queue) && queue != [] && queue[0] in resolved
    ensures InOrder(index, names, resolved, queue[1..])
  {
    var (x, rest) := (queue[0], queue[1..]);
    assert queue == [x] + rest;
    DedupSnoc(resolved, x);
    DedupAppend(resolved + [x], resolved, rest);
    Associative(resolved, [x], rest);
  }

  lemma OrderTakes(index: seq<Skill>, names: seq<string>, resolved: seq<string>, queue: seq<string>)
    requires InOrder(index, names, resolved, queue) && queue != []
    ensures var r := resolved + [queue[0]]; InOrder(index, names, r, queue[1..] + Unresolved(Deps(index, queue[0]), r))
  {
    var (x, rest, r) := (queue[0], queue[1..], resolved + [queue[0]]);
    var deps := Deps(index, x);
    assert queue == [x] + rest;
    Associative(resolved, [x], rest);
    UnresolvedDedups(r + rest, deps, r);
    Associative(r, rest, Unresolved(deps, r));
    DedupAppend(r + rest, names + AllDeps(index, resolved), deps);
    assert r[..|r| - 1] == resolved;
    Associative(names, AllDeps(index, resolved), deps);
  }

  lemma OrderEnds(index: seq<Skill>, names: seq<string>, resolved: seq<string>)
    requires InOrder(index, names, resolved, []) && Distinct(resolved)
    ensures resolved == Dedup(names + AllDeps(index, resolved))
  {
    assert resolved + [] == resolved;
    DistinctIsDedup(resolved);
  }

  /** The whole of the work list's state. */
  ghost predicate Working(index: seq<Skill>, names: seq<string>, resolved: seq<string>, queue: seq<string>, near: nat,
                          d: nat) {
    Searching(index, names, resolved, queue, near, d) && InOrder(index, names, resolved, queue)
  }

  lemma WorkStarts(index: seq<Skill>, names: seq<string>)
    ensures Working(index, names, [], names, |names|, 0)
  {
    Started(index, names);
    OrderStarts(index, names);
  }

  lemma WorkRefocuses(index: seq<Skill>, names: seq<string>, resolved: seq<string>, queue: seq<string>, d: nat)
    requires Working(index, names, resolved, queue, 0, d)
    ensures Working(index, names, resolved, queue, |queue|, d + 1)
  {
    Refocus(index, names, resolved, queue, d);
  }

  lemma WorkDrops(index: seq<Skill>, names: seq<string>, resolved: seq<string>, queue: seq<string>, near: nat, d: nat)
    requires Working(index, names, resolved, queue, near, d) && near > 0 && queue[0] in resolved
    ensures Working(index, names, resolved, queue[1..], near - 1, d)
  {
    DropFirst(index, names, resolved, queue, near, d);
    OrderDrops(index, names, resolved, queue);
  }

  lemma WorkTakes(index: seq<Skill>, names: seq<string>, resolved: seq<string>, queue: seq<string>, near: nat, d: nat)
    requires Working(index, names, resolved, queue, near, d) && near > 0 && queue[0] !in resolved
    ensures var r := resolved + [queue[0]];
      && Working(index, names, r, queue[1..] + Unresolved(Deps(index, queue[0]), r), near - 1, d)
      && Universe(index, names) - Elems(r) < Universe(index, names) - Elems(resolved)
  {
    TakeFirst(index, names, resolved, queue, near, d);
    OrderTakes(index, names, resolved, queue);
  }

  lemma WorkEnds(index: seq<Skill>, names: seq<string>, resolved: seq<string>, near: nat, d: nat)
    requires Working(index, names, resolved, [], near, d)
    ensures Distinct(resolved) && ByDistance(index, names, resolved)
    ensures forall x :: x in resolved <==> Reachable(index, names, x)
    ensures resolved == Dedup(names + AllDeps(index, resolved))
  {
    Finished(index, names, resolved, near, d);
    OrderEnds(index, names, resolved);
  }

  /** Exactly the names reachable over the first entries' dependencies, each once, nearer ones first, and each where
      listing the initial names and then every listed name's dependencies in turn first comes to it. */
  method ResolveDependencyTree(index: seq<Skill>, names: seq<string>) returns (resolved: seq<string>)
    ensures Distinct(resolved)
    ensures forall x :: x in resolved <==> Reachable(index, names, x)
    ensures ByDistance(index, names, resolved)
    ensures resolved == Dedup(names + AllDeps(index, resolved))
  {
    resolved := [];
    var queue := names;
    ghost var near: nat, d: nat := |names|, 0;
    WorkStarts(index, names);
    while queue != []
      invariant Working(index, names, resolved, queue, near, d)
      decreases Universe(index, names) - Elems(resolved), |queue|
    {
      if near == 0 {
        WorkRefocuses(index, names, resolved, queue, d);
        near, d := |queue|, d + 1;
      }
      var current := queue[0];
      if current in resolved {
        WorkDrops(index, names, resolved, queue, near, d);
        queue, near := queue[1..], near - 1;
        continue;
      }
      WorkTakes(index, names, resolved, queue, near, d);
      resolved := resolved + [current];
      queue := PushUnresolved(queue[1..], Deps(index, current), resolved);
      near := near - 1;
    }
    WorkEnds(index, names, resolved, near, d);
  }

  /** What taking a new name does to the sets the argument is about. */
  lemma TakenParts(index: seq<Skill>, names: seq<string>, resolved: seq<string>, queue: seq<string>, near: nat,
                   x0: string, added: seq<string>)
    requires near <= |queue| && added == Unresolved(Deps(index, x0), resolved + [x0])
    ensures Elems(resolved + [x0]) == Elems(resolved) + {x0}
    ensures (queue + added)[..near] == queue[..near]
    ensures Elems((queue + added)[near..]) == Elems(queue[near..]) + Elems(added)
    ensures Elems(queue + added) == Elems(queue) + Elems(added)
    ensures Elems(added) <= Universe(index, names)
  {
    assert (queue + added)[near..] == queue[near..] + added;
    DepsInUniverse(index, names, x0);
  }

  /** The inner loop. */
  method PushUnresolved(queue: seq<string>, deps: seq<string>, resolved: seq<string>) returns (longer: seq<string>)
    ensures longer == queue + Unresolved(deps, resolved)
  {
    longer := queue;
    for i := 0 to |deps|
      invariant longer == queue + Unresolved(deps[..i], resolved)
    {
      assert deps[..i + 1][..i] == deps[..i];
      if deps[i] !in resolved {
        longer := longer + [deps[i]];
      }
    }
    assert deps[..|deps|] == deps;
  }

  lemma StartsAtRoots(index: seq<Skill>, names: seq<string>)
    ensures Frontier(index, names, {}, Elems(names[..|names|]), Elems(names[|names|..]), 0)
  {
    assert names[..|names|] == names;
    forall x
      ensures Within(index, names, x, 0) <==> x in names
    {
      RootsAreWithin(index, names, x);
    }
  }

  lemma DepsInUniverse(index: seq<Skill>, names: seq<string>, x: string)
    ensures forall y :: y in Deps(index, x) ==> y in Universe(index, names)
  {
  }

  lemma ResolvedIsReachable(index: seq<Skill>, names: seq<string>, resolved: seq<string>, d: nat, x: string)
    requires Frontier(index, names, Elems(resolved), {}, {}, d)
    ensures x in resolved <==> Reachable(index, names, x)
  {
    if x in resolved {
      assert x in Elems(resolved);
      var path :| ReachedBy(index, names, x, path) && |path| <= d + 1;
    }
    if Reachable(index, names, x) {
      var path :| ReachedBy(index, names, x, path);
      forall r | r in names
        ensures r in Elems(resolved)
      {
        RootsAreWithin(index, names, r);
        WithinGrows(index, names, r, 0, d);
      }
      ClosedHoldsPath(index, names, Elems(resolved), path);
    }
  }

  /** A dependency may be listed before a dependant's other dependencies, but never before every
      name that leads to it: each resolved name beyond the roots follows one it is a dependency of. */
  lemma DependantComesFirst(index: seq<Skill>, names: seq<string>, resolved: seq<string>, j: nat)
    requires Distinct(resolved) && ByDistance(index, names, resolved) && j < |resolved|
    requires forall x :: x in resolved <==> Reachable(index, names, x)
    requires resolved[j] !in names
    ensures exists i :: 0 <= i < j && DependsOn(index, resolved[i], resolved[j])
  {
    var y := resolved[j];
    assert y in resolved;
    var path :| ReachedBy(index, names, y, path);
    var n := LeastDistance(index, names, y, |path| - 1);
    RootsAreWithin(index, names, y);
    PathShrinks(index, names, y, n - 1);
    var x :| Within(index, names, x, n - 1) && y in Deps(index, x);
    var p :| ReachedBy(index, names, x, p) && |p| <= n;
    assert x in resolved;
    var i :| 0 <= i < |resolved| && resolved[i] == x;
    assert !Within(index, names, y, n - 1);
    DepsAre(index, x, y);
  }

  /** The shortest distance itself. */
  lemma LeastDistance(index: seq<Skill>, names: seq<string>, x: string, n: nat) returns (least: nat)
    requires Within(index, names, x, n)
    ensures Within(index, names, x, least) && forall m: nat :: m < least ==> !Within(index, names, x, m)
    decreases n
  {
    if n == 0 || !Within(index, names, x, n - 1) {
      least := n;
      forall m: nat | m < n
        ensures !Within(index, names, x, m)
      {
        assert Within(index, names, x, m) ==> Within(index, names, x, n - 1);
      }
    } else {
      least := LeastDistance(index, names, x, n - 1);
    }
  }

  // ---------- profiles ----------

  /** The k-th profile name of an `extends` chain; the chain ends at an empty name or a missing profile. */
  function ChainAt(profiles: map<string, Profile>, name: string, k: nat): Option<string>
    decreases k
  {
    if k == 0 then (if name == "" || name !in profiles then None else Some(name))
    else
      match ChainAt(profiles, name, k - 1)
      case None => None
      case Some(p) =>
        var next := profiles[p].parent;
        if next == "" || next !in profiles then None else Some(next)
  }

  /** A skill that some profile of the chain lists. */
  ghost predicate ListedBy(profiles: map<string, Profile>, name: string, skill: string, k: nat) {
    match ChainAt(profiles, name, k) case None => false case Some(p) => p in profiles && skill in profiles[p].skills
  }

  ghost predicate Listed(profiles: map<string, Profile>, name: string, skill: string) {
    exists k :: ListedBy(profiles, name, skill, k)
  }

  /** Once a chain repeats a profile it only repeats; once it ends it stays ended. */
  lemma {:induction false} ChainRepeats(profiles: map<string, Profile>, name: string, j: nat, n: nat, k: nat)
    returns (i: nat)
    requires j < n <= k && ChainAt(profiles, name, n) == ChainAt(profiles, name, j)
    ensures i < n && ChainAt(profiles, name, k) == ChainAt(profiles, name, i)
    decreases k
  {
    if k == n {
      i := j;
    } else {
      var before := ChainRepeats(profiles, name, j, n, k - 1);
      if before + 1 == n {
        i := j;
      } else {
        i := before + 1;
      }
    }
  }

  lemma {:induction false} ChainStaysEnded(profiles: map<string, Profile>, name: string, n: nat, k: nat)
    requires n <= k && ChainAt(profiles, name, n).None?
    ensures ChainAt(profiles, name, k).None?
    decreases k
  {
    if n < k {
      ChainStaysEnded(profiles, name, n, k - 1);
    }
  }

  /** Names reachable from a list are those reachable from one of its members. */
  lemma ReachableFromOne(index: seq<Skill>, names: seq<string>, x: string)
    ensures Reachable(index, names, x) <==> exists r :: r in names && Reachable(index, [r], x)
  {
    if Reachable(index, names, x) {
      var path :| ReachedBy(index, names, x, path);
      assert ReachedBy(index, [path[0]], x, path);
      assert Reachable(index, [path[0]], x);
    }
    if r :| r in names && Reachable(index, [r], x) {
      var path :| ReachedBy(index, [r], x, path);
      assert ReachedBy(index, names, x, path);
    }
  }

  /** The walk's state: the first `n` links are visited, and their skills collected. */
  ghost predicate Walked(profiles: map<string, Profile>, name: string, current: string, visited: seq<string>,
                         skills: seq<string>) {
    var n := |visited|;
    && (forall i :: 0 <= i < n ==> ChainAt(profiles, name, i) == Some(visited[i]) && visited[i] in profiles)
    && ChainAt(profiles, name, n) == (if current == "" || current !in profiles then None else Some(current))
    && (forall x :: x in skills <==> exists k :: 0 <= k < n && ListedBy(profiles, name, x, k))
  }

  lemma WalkEnds(profiles: map<string, Profile>, name: string, current: string, visited: seq<string>,
                 skills: seq<string>)
    requires Walked(profiles, name, current, visited, skills)
    requires current == "" || current !in profiles || current in visited
    ensures forall x :: x in skills <==> Listed(profiles, name, x)
  {
    var n := |visited|;
    forall x, k: nat | ListedBy(profiles, name, x, k)
      ensures x in skills
    {
      if k >= n {
        if current == "" || current !in profiles {
          ChainStaysEnded(profiles, name, n, k);
        } else {
          var j :| 0 <= j < n && visited[j] == current;
          var i := ChainRepeats(profiles, name, j, n, k);
          assert ListedBy(profiles, name, x, i);
        }
      }
    }
  }

  /** The skills of all of these profiles, one list after the other. */
  function SkillsOf(profiles: map<string, Profile>, chain: seq<string>): seq<string>
    requires forall p :: p in chain ==> p in profiles
  {
    if chain == [] then [] else SkillsOf(profiles, chain[..|chain| - 1]) + profiles[chain[|chain| - 1]].skills
  }

  /** The chain of a profile as far as it does not repeat itself. */
  ghost predicate IsChain(profiles: map<string, Profile>, name: string, chain: seq<string>) {
    && (forall p :: p in chain ==> p in profiles)
    && (forall i :: 0 <= i < |chain| ==> ChainAt(profiles, name, i) == Some(chain[i]))
    && Distinct(chain)
    && (match ChainAt(profiles, name, |chain|) case None => true case Some(p) => p in chain)
  }

  lemma SkillsOfSnoc(profiles: map<string, Profile>, chain: seq<string>, p: string)
    requires (forall q :: q in chain ==> q in profiles) && p in profiles
    ensures SkillsOf(profiles, chain + [p]) == SkillsOf(profiles, chain) + profiles[p].skills
  {
    assert (chain + [p])[..|chain|] == chain;
  }

  /** The inner loop of the walk: a set keeps each skill where it was first added. */
  method AddSkills(skills: seq<string>, more: seq<string>, ghost listed: seq<string>) returns (all: seq<string>)
    requires skills == Dedup(listed)
    ensures all == Dedup(listed + more)
  {
    all := skills;
    assert listed + more[..0] == listed;
    for i := 0 to |more|
      invariant all == Dedup(listed + more[..i])
    {
      assert more[..i + 1] == more[..i] + [more[i]];
      Associative(listed, more[..i], [more[i]]);
      DedupSnoc(listed + more[..i], more[i]);
      if more[i] !in all {
        all := all + [more[i]];
      }
    }
    assert more[..|more|] == more;
  }

  /** The walk's state, and the skills in the order they were first listed. */
  ghost predicate Collecting(profiles: map<string, Profile>, name: string, current: string, visited: seq<string>,
                             skills: seq<string>) {
    && Walked(profiles, name, current, visited, skills) && Distinct(visited)
    && (forall p :: p in visited ==> p in profiles)
    && skills == Dedup(SkillsOf(profiles, visited))
  }

  lemma CollectStarts(profiles: map<string, Profile>, name: string)
    ensures Collecting(profiles, name, name, [], [])
  {
  }

  lemma CollectStep(profiles: map<string, Profile>, name: string, current: string, visited: seq<string>,
                    skills: seq<string>, all: seq<string>)
    requires Collecting(profiles, name, current, visited, skills) && current != "" && current in profiles
    requires current !in visited && all == Dedup(SkillsOf(profiles, visited) + profiles[current].skills)
    ensures Collecting(profiles, name, profiles[current].parent, visited + [current], all)
    ensures profiles.Keys - Elems(visited + [current]) < profiles.Keys - Elems(visited)
  {
    WalkStep(profiles, name, current, visited, skills, all);
    SkillsOfSnoc(profiles, visited, current);
    assert current in profiles.Keys - Elems(visited) && Elems(visited + [current]) == Elems(visited) + {current};
  }

  lemma CollectEnds(profiles: map<string, Profile>, name: string, current: string, visited: seq<string>,
                    skills: seq<string>)
    requires Collecting(profiles, name, current, visited, skills)
    requires current == "" || current !in profiles || current in visited
    ensures forall x :: x in skills <==> Listed(profiles, name, x)
    ensures IsChain(profiles, name, visited) && skills == Dedup(SkillsOf(profiles, visited))
  {
    WalkEnds(profiles, name, current, visited, skills);
  }

  method CollectProfile(profiles: map<string, Profile>, name: string) returns (skills: seq<string>)
    ensures forall x :: x in skills <==> Listed(profiles, name, x)
    ensures exists chain :: IsChain(profiles, name, chain) && skills == Dedup(SkillsOf(profiles, chain))
  {
    skills := [];
    var visited := [];
    var current := name;
    CollectStarts(profiles, name);
    while current != "" && current !in visited
      invariant Collecting(profiles, name, current, visited, skills)
      decreases profiles.Keys - Elems(visited)
    {
      if current !in profiles {
        break;
      }
      var profile := profiles[current];
      var all := AddSkills(skills, profile.skills, SkillsOf(profiles, visited));
      CollectStep(profiles, name, current, visited, skills, all);
      skills := all;
      visited := visited + [current];
      current := profile.parent;
    }
    CollectEnds(profiles, name, current, visited, skills);
  }

  lemma WalkStep(profiles: map<string, Profile>, name: string, current: string, visited: seq<string>,
                 before: seq<string>, skills: seq<string>)
    requires Walked(profiles, name, current, visited, before) && current != "" && current in profiles
    requires forall x :: x in skills <==> x in before || x in profiles[current].skills
    ensures Walked(profiles, name, profiles[current].parent, visited + [current], skills)
  {
    var n := |visited|;
    forall x
      ensures x in skills <==> exists k :: 0 <= k < n + 1 && ListedBy(profiles, name, x, k)
    {
      assert ListedBy(profiles, name, x, n) <==> x in profiles[current].skills;
      if x in before {
        var k :| 0 <= k < n && ListedBy(profiles, name, x, k);
      }
    }
  }

  /** Distances depend on which names one starts from, not on their order. */
  lemma SameNamesSameDistances(index: seq<Skill>, names: seq<string>, names': seq<string>, x: string, n: nat)
    requires forall s :: s in names <==> s in names'
    ensures Within(index, names, x, n) <==> Within(index, names', x, n)
  {
    if path :| ReachedBy(index, names, x, path) && |path| <= n + 1 {
      assert ReachedBy(index, names', x, path);
    }
    if path :| ReachedBy(index, names', x, path) && |path| <= n + 1 {
      assert ReachedBy(index, names, x, path);
    }
  }

  lemma SameNamesSameOrder(index: seq<Skill>, names: seq<string>, names': seq<string>, resolved: seq<string>)
    requires (forall s :: s in names <==> s in names') && ByDistance(index, names, resolved)
    ensures ByDistance(index, names', resolved)
  {
    forall i, j, n: nat | 0 <= i < j < |resolved| && Within(index, names', resolved[j], n)
      ensures Within(index, names', resolved[i], n)
    {
      SameNamesSameDistances(index, names, names', resolved[i], n);
      SameNamesSameDistances(index, names, names', resolved[j], n);
    }
  }

  /** The names are the skills the profile's chain lists, in some order. */
  ghost predicate Lists(profiles: map<string, Profile>, name: string, names: seq<string>) {
    forall s :: s in names <==> Listed(profiles, name, s)
  }

  /** A profile resolves to exactly what is reachable from the skills its `extends` chain lists, cycles
      in either graph included, each name once and nearer ones first. */
  method ResolveProfile(index: seq<Skill>, profiles: map<string, Profile>, name: string) returns (resolved: seq<string>)
    ensures Distinct(resolved)
    ensures forall x :: x in resolved <==> exists s :: Listed(profiles, name, s) && Reachable(index, [s], x)
    ensures forall names :: Lists(profiles, name, names) ==> ByDistance(index, names, resolved)
  {
    var skills := CollectProfile(profiles, name);
    resolved := ResolveDependencyTree(index, skills);
    forall x
      ensures x in resolved <==> exists s :: Listed(profiles, name, s) && Reachable(index, [s], x)
    {
      ReachableFromOne(index, skills, x);
    }
    forall names | Lists(profiles, name, names)
      ensures ByDistance(index, names, resolved)
    {
      SameNamesSameOrder(index, skills, names, resolved);
    }
  }

  /** Profiles that extend each other in a circle resolve alike. */
  lemma CycleSharesSkills(profiles: map<string, Profile>, a: string, b: string, skill: string)
    requires a != "" && b != "" && a in profiles && b in profiles && profiles[a].parent == b && profiles[b].parent == a
    ensures Listed(profiles, a, skill) <==> skill in profiles[a].skills || skill in profiles[b].skills
  {
    assert ChainAt(profiles, a, 1) == Some(b);
    assert ChainAt(profiles, a, 2) == Some(a);
    assert ListedBy(profiles, a, skill, 0) <==> skill in profiles[a].skills;
    assert ListedBy(profiles, a, skill, 1) <==> skill in profiles[b].skills;
    if k :| ListedBy(profiles, a, skill, k) {
      if k >= 2 {
        var i := ChainRepeats(profiles, a, 0, 2, k);
        assert i == 0 || i == 1;
      }
    }
  }
}
