/**
 Runs of the LLM queue, and what a queued waiter may rely on over any of them.
*/
module LlmFairness {
  import opened Common
  import opened LlmQueue

  datatype Step =
    | Configuring(provider: string, tokens: nat, requests: nat, windowMs: nat, now: nat)
    | Admitting(request: Request, now: nat)
    | Releasing(child: string)
    | Sweeping(now: nat)

  function Next(q: Queue, step: Step): Queue {
    match step
    case Configuring(p, tokens, requests, windowMs, now) => Configure(q, p, tokens, requests, windowMs, now)
    case Admitting(r, now) => AdmitQ(q, r, now).0
    case Releasing(child) => ReleaseQ(q, child)
    case Sweeping(now) => SweepQ(q, now)
  }

  function Exec(q: Queue, steps: seq<Step>): Queue
    decreases steps
  {
    if steps == [] then q else Next(Exec(q, steps[..|steps| - 1]), steps[|steps| - 1])
  }

  /** The state the i-th step of a run starts from. */
  function At(q: Queue, steps: seq<Step>, i: nat): Queue
    requires i <= |steps|
  {
    Exec(q, steps[..i])
  }

  lemma AtSucc(q: Queue, steps: seq<Step>, i: nat)
    requires i < |steps|
    ensures At(q, steps, i + 1) == Next(At(q, steps, i), steps[i])
  {
    assert steps[..i + 1][..i] == steps[..i];
  }

  predicate AdmitsAt(q: Queue, step: Step) {
    step.Admitting? && AdmitQ(q, step.request, step.now).1.Admitted?
  }

  predicate DefersAt(q: Queue, step: Step) {
    step.Admitting? && AdmitQ(q, step.request, step.now).1.Deferred?
  }

  // ---------- the waiter structure ----------

  /** Tickets are distinct and below the counter, and a child owns at most one row. */
  ghost predicate WaitersSound(q: Queue) {
    && (forall k :: k in q.waiters ==> k.ticket < q.nextTicket)
    && (forall j, k :: j in q.waiters && k in q.waiters && j.ticket == k.ticket ==> j == k)
    && (forall j, k :: j in q.waiters && k in q.waiters && q.waiters[j].child == q.waiters[k].child ==> j == k)
  }

  lemma FewerWaitersStaySound(q: Queue, q': Queue)
    requires WaitersSound(q) && q'.nextTicket == q.nextTicket
    requires forall k :: k in q'.waiters ==> k in q.waiters && q'.waiters[k] == q.waiters[k]
    ensures WaitersSound(q')
  {
  }

  lemma NewcomerKeepsWaiters(q: Queue, q': Queue, rank: nat, w: Waiter)
    requires WaitersSound(q) && q.nextTicket < U64_MAX && RowOf(q.waiters, w.child).None?
    requires q'.waiters == q.waiters[Key(rank, q.nextTicket) := w] && q'.nextTicket == q.nextTicket + 1
    ensures WaitersSound(q')
  {
  }

  lemma AdmitKeepsWaiters(q: Queue, r: Request, now: nat)
    requires WaitersSound(q) && q.nextTicket < U64_MAX
    ensures var q' := AdmitQ(q, r, now).0; WaitersSound(q') && q.nextTicket <= q'.nextTicket <= q.nextTicket + 1
  {
    var (q', d) := AdmitQ(q, r, now);
    if d.Deferred? && RowOf(q.waiters, r.child).None? {
      NewcomerKeepsWaiters(q, q', r.priority.Rank(), Waiter(r.provider, r.estTokens, r.child));
    } else {
      FewerWaitersStaySound(q, q');
    }
  }

  lemma StepKeepsWaiters(q: Queue, step: Step)
    requires WaitersSound(q) && q.nextTicket < U64_MAX
    ensures WaitersSound(Next(q, step)) && q.nextTicket <= Next(q, step).nextTicket <= q.nextTicket + 1
  {
    if step.Admitting? {
      AdmitKeepsWaiters(q, step.request, step.now);
    } else {
      FewerWaitersStaySound(q, Next(q, step));
    }
  }

  /** The ticket counter saturates, so the structure is promised for runs it cannot exhaust. */
  lemma {:induction false} RunKeepsWaiters(q: Queue, steps: seq<Step>)
    requires WaitersSound(q) && q.nextTicket + |steps| <= U64_MAX
    ensures WaitersSound(Exec(q, steps)) && Exec(q, steps).nextTicket <= q.nextTicket + |steps|
    decreases steps
  {
    if steps != [] {
      RunKeepsWaiters(q, steps[..|steps| - 1]);
      StepKeepsWaiters(Exec(q, steps[..|steps| - 1]), steps[|steps| - 1]);
    }
  }

  /** The structure survives a step exactly unless the counter has saturated and the step queues a child
      that has no row yet. */
  lemma WaitersKeptIff(q: Queue, step: Step)
    requires WaitersSound(q) && q.nextTicket <= U64_MAX
    ensures WaitersSound(Next(q, step)) <==>
      !(q.nextTicket == U64_MAX && DefersAt(q, step) && RowOf(q.waiters, step.request.child).None?)
  {
    if q.nextTicket < U64_MAX {
      StepKeepsWaiters(q, step);
    } else if DefersAt(q, step) && RowOf(q.waiters, step.request.child).None? {
      assert Key(step.request.priority.Rank(), U64_MAX) in Next(q, step).waiters;
    } else {
      FewerWaitersStaySound(q, Next(q, step));
    }
  }

  /** At the saturated counter a newcomer takes over the key of the last waiter of its class. */
  lemma SaturatedCounterLosesARow(q: Queue, r: Request, now: nat, other: string)
    requires q.nextTicket == U64_MAX && RowOf(q.waiters, r.child).None?
    requires var key := Key(r.priority.Rank(), U64_MAX); key in q.waiters && q.waiters[key].child == other
    requires AdmitQ(q, r, now).1.Deferred?
    ensures var q' := AdmitQ(q, r, now).0; q'.waiters[Key(r.priority.Rank(), U64_MAX)].child == r.child != other
  {
  }

  // ---------- no overtaking by a lower class ----------

  /** What holds in every run, of any length: a child owns at most one row, and a ticket that is not below
      the counter is the saturated counter itself. */
  ghost predicate RowsSound(q: Queue) {
    && q.nextTicket <= U64_MAX
    && (forall k :: k in q.waiters ==> k.ticket < q.nextTicket || k.ticket == q.nextTicket == U64_MAX)
    && (forall j, k :: j in q.waiters && k in q.waiters && q.waiters[j].child == q.waiters[k].child ==> j == k)
  }

  lemma StepKeepsRows(q: Queue, step: Step)
    requires RowsSound(q)
    ensures RowsSound(Next(q, step))
  {
  }

  lemma {:induction false} RunKeepsRows(q: Queue, steps: seq<Step>)
    requires RowsSound(q)
    ensures RowsSound(Exec(q, steps))
    decreases steps
  {
    if steps != [] {
      RunKeepsRows(q, steps[..|steps| - 1]);
      StepKeepsRows(Exec(q, steps[..|steps| - 1]), steps[|steps| - 1]);
    }
  }

  /** The step takes the child's row out of the queue. */
  predicate Removes(q: Queue, step: Step, child: string) {
    step == Releasing(child) || (AdmitsAt(q, step) && step.request.child == child)
  }

  /** The step queues a child that has no row yet. */
  predicate Joins(q: Queue, step: Step) {
    DefersAt(q, step) && RowOf(q.waiters, step.request.child).None?
  }

  /** The counter has saturated and the newcomer's key is this very one. */
  predicate Overwrites(q: Queue, step: Step, k: Key) {
    Joins(q, step) && q.nextTicket == U64_MAX && k == Key(step.request.priority.Rank(), U64_MAX)
  }

  /** The two ways a child's row at `k` is lost. */
  predicate Loses(q: Queue, step: Step, child: string, k: Key) {
    Removes(q, step, child) || Overwrites(q, step, k)
  }

  /** A step loses or changes a row exactly when it admits or releases the row's own child, or queues a
      newcomer at the saturated counter under the row's key. */
  lemma RowKeptIff(q: Queue, step: Step, k: Key)
    requires RowsSound(q) && k in q.waiters
    ensures k in Next(q, step).waiters && Next(q, step).waiters[k] == q.waiters[k] <==>
      !Loses(q, step, q.waiters[k].child, k)
  {
  }

  /** Nothing up to the `i`-th step removes or overwrites the row. */
  ghost predicate Undisturbed(q: Queue, steps: seq<Step>, k: Key, i: nat)
    requires k in q.waiters && i <= |steps|
  {
    forall j :: 0 <= j < i ==> !Loses(At(q, steps, j), steps[j], q.waiters[k].child, k)
  }

  /** In any run a row stays as it is until its own child is admitted or released, or a newcomer takes its
      key at the saturated counter. */
  lemma RowStays(q: Queue, steps: seq<Step>, k: Key, i: nat)
    requires RowsSound(q) && k in q.waiters && i <= |steps| && Undisturbed(q, steps, k, i)
    ensures k in At(q, steps, i).waiters && At(q, steps, i).waiters[k] == q.waiters[k]
  {
    if i > 0 {
      RowStays(q, steps, k, i - 1);
      RunKeepsRows(q, steps[..i - 1]);
      AtSucc(q, steps, i - 1);
      RowKeptIff(At(q, steps, i - 1), steps[i - 1], k);
    } else {
      assert steps[..0] == [];
    }
  }

  /** A run too short to exhaust the counter overwrites nothing. */
  lemma ShortRunsOverwriteNothing(q: Queue, steps: seq<Step>, k: Key, i: nat)
    requires WaitersSound(q) && q.nextTicket + |steps| <= U64_MAX && i < |steps|
    ensures !Overwrites(At(q, steps, i), steps[i], k)
  {
    RunKeepsWaiters(q, steps[..i]);
  }

  /** An admit is granted exactly when the refilled bucket covers it and no strictly higher class waits. */
  lemma AdmittedIff(q: Queue, r: Request, now: nat)
    ensures AdmitQ(q, r, now).1.Admitted? <==>
      && Bucket(q, r.provider, now).tokensRemaining >= r.estTokens
      && Bucket(q, r.provider, now).reqRemaining >= 1
      && forall k :: k in q.waiters && q.waiters[k].provider == r.provider ==> k.rank >= r.priority.Rank()
  {
    var higher := Higher(q.waiters, r.provider, r.priority.Rank());
    assert |higher| == 0 <==> higher == {};
    if higher == {} {
      forall k | k in q.waiters && q.waiters[k].provider == r.provider
        ensures k.rank >= r.priority.Rank()
      {
        assert k !in higher;
      }
    } else {
      var k :| k in higher;
    }
  }

  /** Either answer reports the tokens the provider has left once it is given. */
  lemma ReplyTellsBudget(q: Queue, r: Request, now: nat)
    ensures var (q', d) := AdmitQ(q, r, now);
      r.provider in q'.buckets && d.tokensRemaining == q'.buckets[r.provider].tokensRemaining
  {
  }

  /** Taking a child's row out takes exactly that row. */
  lemma RemovesOwnRowOnly(q: Queue, child: string)
    requires RowsSound(q)
    ensures var left := RemoveRow(q.waiters, child);
      && (forall k :: k in left <==> k in q.waiters && q.waiters[k].child != child)
      && (forall k :: k in left ==> left[k] == q.waiters[k])
  {
  }

  /** A call reads as in flight exactly while a sweep at that time would keep it, and no earlier sweep
      changes the answer. */
  lemma InFlightIffSweepKeeps(q: Queue, child: string, swept: nat, now: nat)
    ensures HasInFlight(q, child, now) <==> child in SweepQ(q, now).inFlight
    ensures swept <= now ==> (HasInFlight(SweepQ(q, swept), child, now) <==> HasInFlight(q, child, now))
  {
  }

  /** What an admission changes: the provider's bucket is charged, the child's row goes and its call is filed; the
      rows and calls of others, the other buckets and the counter stay. */
  lemma AdmissionChanges(q: Queue, r: Request, now: nat, other: string)
    requires RowsSound(q) && AdmitQ(q, r, now).1.Admitted?
    ensures var q' := AdmitQ(q, r, now).0; var b := Bucket(q, r.provider, now);
      && r.provider in q'.buckets
      && q'.buckets[r.provider]
           == b.(tokensRemaining := b.tokensRemaining - r.estTokens, reqRemaining := b.reqRemaining - 1)
      && (other != r.provider ==>
            && (other in q'.buckets <==> other in q.buckets)
            && (other in q.buckets ==> q'.buckets[other] == q.buckets[other]))
      && (forall k :: k in q'.waiters <==> k in q.waiters && q.waiters[k].child != r.child)
      && (forall k :: k in q'.waiters ==> q'.waiters[k] == q.waiters[k])
      && q'.inFlight == q.inFlight[r.child := InFlight(r.provider, now, r.ttlMs)] && q'.nextTicket == q.nextTicket
  {
    AdmittedIff(q, r, now);
    RemovesOwnRowOnly(q, r.child);
  }

  /** A release leaves no trace of the child in calls or waiters, and everything of all others. */
  lemma ReleaseClears(q: Queue, child: string, now: nat)
    requires RowsSound(q)
    ensures var q' := ReleaseQ(q, child);
      && !HasInFlight(q', child, now) && RowOf(q'.waiters, child).None?
      && (forall other :: other != child ==> (HasInFlight(q', other, now) <==> HasInFlight(q, other, now)))
      && (forall k :: k in q.waiters && q.waiters[k].child != child ==>
          k in q'.waiters && q'.waiters[k] == q.waiters[k])
      && q'.buckets == q.buckets
  {
  }

  /** While a waiter's row stands, no request of a lower class is admitted on its provider: in any run any
      such admission comes after the waiter's own child was admitted or released, or after a newcomer took
      the row's key at the saturated counter. */
  lemma NoOvertaking(q: Queue, steps: seq<Step>, k: Key, i: nat)
    requires RowsSound(q) && k in q.waiters && i < |steps| && AdmitsAt(At(q, steps, i), steps[i])
    requires steps[i].request.provider == q.waiters[k].provider && k.rank < steps[i].request.priority.Rank()
    ensures exists j :: 0 <= j < i && Loses(At(q, steps, j), steps[j], q.waiters[k].child, k)
  {
    if Undisturbed(q, steps, k, i) {
      RowStays(q, steps, k, i);
      AdmittedIff(At(q, steps, i), steps[i].request, steps[i].now);
      assert false;
    }
  }

  /** Lead comes before Worker, and Worker before Background. */
  predicate Outranks(a: Priority, b: Priority) {
    (a.Lead? && !b.Lead?) || (a.Worker? && b.Background?)
  }

  lemma OutranksIsByRank(a: Priority, b: Priority)
    ensures Outranks(a, b) <==> a.Rank() < b.Rank()
    ensures !Outranks(a, b) && !Outranks(b, a) <==> a == b
  {
  }

  /** A deferred newcomer of some class holds up every outranked class on its provider: over any run, an outranked
      request is admitted there only after the newcomer's row was lost. */
  lemma DeferredClassHoldsUp(q: Queue, r: Request, now: nat, steps: seq<Step>, i: nat)
    requires RowsSound(q) && RowOf(q.waiters, r.child).None? && AdmitQ(q, r, now).1.Deferred?
    requires var q' := AdmitQ(q, r, now).0;
      && i < |steps| && AdmitsAt(At(q', steps, i), steps[i])
      && steps[i].request.provider == r.provider && Outranks(r.priority, steps[i].request.priority)
    ensures var q' := AdmitQ(q, r, now).0;
      exists j :: 0 <= j < i && Loses(At(q', steps, j), steps[j], r.child, Key(r.priority.Rank(), q.nextTicket))
  {
    var q' := AdmitQ(q, r, now).0;
    DeferralQueues(q, r, now);
    StepKeepsRows(q, Admitting(r, now));
    OutranksIsByRank(r.priority, steps[i].request.priority);
    NoOvertaking(q', steps, Key(r.priority.Rank(), q.nextTicket), i);
  }

  /** A class is never held up by the classes it outranks: with only those waiting, budget alone decides. */
  lemma OutrankedWaitersDoNotHoldUp(q: Queue, r: Request, now: nat)
    requires forall k :: k in q.waiters && q.waiters[k].provider == r.provider ==>
      exists c: Priority :: k.rank == c.Rank() && !Outranks(c, r.priority)
    ensures AdmitQ(q, r, now).1.Admitted? <==>
      Bucket(q, r.provider, now).tokensRemaining >= r.estTokens && Bucket(q, r.provider, now).reqRemaining >= 1
  {
    AdmittedIff(q, r, now);
    forall k | k in q.waiters && q.waiters[k].provider == r.provider
      ensures k.rank >= r.priority.Rank()
    {
      var c: Priority :| k.rank == c.Rank() && !Outranks(c, r.priority);
      OutranksIsByRank(c, r.priority);
    }
  }

  /** The child has a row on the provider, at this class or a higher one. */
  ghost predicate Guarded(q: Queue, r: Request) {
    exists k :: k in q.waiters && q.waiters[k].child == r.child && q.waiters[k].provider == r.provider
                && k.rank <= r.priority.Rank()
  }

  /** The row that no lower class may pass: a deferral leaves its child one on the provider it asked for, at its
      class or a higher one, exactly if the child had no row at all, or its one row already was such a row. */
  lemma DeferralGuardsIff(q: Queue, r: Request, now: nat)
    requires RowsSound(q) && AdmitQ(q, r, now).1.Deferred?
    ensures Guarded(AdmitQ(q, r, now).0, r) <==> RowOf(q.waiters, r.child).None? || Guarded(q, r)
  {
    if RowOf(q.waiters, r.child).None? {
      var key := Key(r.priority.Rank(), q.nextTicket);
      assert key in AdmitQ(q, r, now).0.waiters && AdmitQ(q, r, now).0.waiters[key].child == r.child;
    } else {
      AskingAgainMovesNothing(q, Admitting(r, now));
    }
  }

  /** A Lead whose child waits on another provider is deferred without a row where it asks, and a Worker is
      admitted there before it. */
  lemma DeferredLeadMayBePassed()
    ensures var bucket := RateBucket(10, 5, 0, 10, 5, 1000);
      var q := Queue(map["s" := bucket], map[Key(1, 0) := Waiter("p", 5, "lead")], map[], 1);
      var (q', d) := AdmitQ(q, Request("s", Lead, 50, "lead", 0), 1);
      d.Deferred? && !Guarded(q', Request("s", Lead, 50, "lead", 0))
      && AdmitQ(q', Request("s", Worker, 5, "worker", 0), 2).1.Admitted?
  {
    var q := Queue(map["s" := RateBucket(10, 5, 0, 10, 5, 1000)], map[Key(1, 0) := Waiter("p", 5, "lead")], map[], 1);
    var big := Request("s", Lead, 50, "lead", 0);
    AdmittedIff(q, big, 1);
    assert RowOf(q.waiters, "lead").Some? by {
      assert Key(1, 0) in q.waiters && q.waiters[Key(1, 0)].child == "lead";
    }
    AskingAgainMovesNothing(q, Admitting(big, 1));
    AdmittedIff(AdmitQ(q, big, 1).0, Request("s", Worker, 5, "worker", 0), 2);
  }

  /** Within a class the ticket order is reported but not enforced: a later, smaller request of the
      same class passes a queued one. */
  lemma SameClassMayOvertake()
    ensures var q0 := Configure(Queue(map[], map[], map[], 0), "p", 10, 5, 1000, 0);
      var big := Request("p", Worker, 50, "first", 0);
      var small := Request("p", Worker, 5, "second", 0);
      var (q1, d1) := AdmitQ(q0, big, 1);
      d1.Deferred? && Key(1, 0) in q1.waiters && q1.waiters[Key(1, 0)].child == "first" &&
        AdmitQ(q1, small, 2).1.Admitted?
  {
    var q0 := Configure(Queue(map[], map[], map[], 0), "p", 10, 5, 1000, 0);
    var big := Request("p", Worker, 50, "first", 0);
    var small := Request("p", Worker, 5, "second", 0);
    var (q1, d1) := AdmitQ(q0, big, 1);
    AdmittedIff(q0, big, 1);
    AdmittedIff(q1, small, 2);
  }

  // ---------- positions ----------

  /** The list holds exactly the provider's rows, in grant order. */
  ghost predicate InGrantOrder(waiters: map<Key, Waiter>, provider: string, order: seq<Key>) {
    && (forall i :: 0 <= i < |order| ==> order[i] in waiters && waiters[order[i]].provider == provider)
    && (forall k :: k in waiters && waiters[k].provider == provider ==> k in order)
    && (forall i, j :: 0 <= i < j < |order| ==>
          order[i].rank < order[j].rank || (order[i].rank == order[j].rank && order[i].ticket < order[j].ticket))
  }

  /** The rows of a provider in a higher class than the place, or in its class with an earlier ticket. */
  function InFrontOf(waiters: map<Key, Waiter>, provider: string, rank: nat, ticket: nat): set<Key> {
    set k | k in waiters && waiters[k].provider == provider && (k.rank < rank || (k.rank == rank && k.ticket < ticket))
  }

  /** What a deferral leaves and answers: a child with a row keeps it; a newcomer gets one with the next ticket, its
      class, provider and estimate. The position counts the rows in front at the class asked for. */
  lemma DeferralQueues(q: Queue, r: Request, now: nat)
    requires AdmitQ(q, r, now).1.Deferred?
    ensures var (q', d) := AdmitQ(q, r, now);
      && (match RowOf(q.waiters, r.child)
          case Some(k) =>
            && q'.waiters == q.waiters && q'.nextTicket == q.nextTicket
            && d.position == Min(|InFrontOf(q'.waiters, r.provider, r.priority.Rank(), k.ticket)|, U32_MAX)
          case None =>
            && q'.waiters == q.waiters[Key(r.priority.Rank(), q.nextTicket) := Waiter(r.provider, r.estTokens, r.child)]
            && q'.nextTicket == Min(q.nextTicket + 1, U64_MAX)
            && d.position == Min(|InFrontOf(q'.waiters, r.provider, r.priority.Rank(), q.nextTicket)|, U32_MAX))
      && q'.inFlight == q.inFlight
  {
    var q' := AdmitQ(q, r, now).0;
    var row := RowOf(q.waiters, r.child);
    var ticket := if row.Some? then row.value.ticket else q.nextTicket;
    assert AheadOf(q'.waiters, r.provider, Key(r.priority.Rank(), ticket))
      == InFrontOf(q'.waiters, r.provider, r.priority.Rank(), ticket);
  }

  lemma {:induction false} DistinctPrefixSize(order: seq<Key>, n: nat, s: set<Key>)
    requires n <= |order| && (forall i, j :: 0 <= i < j < |order| ==> Before(order[i], order[j]))
    requires s == set i | 0 <= i < n :: order[i]
    ensures |s| == n
    decreases n
  {
    if n > 0 {
      var t := set i | 0 <= i < n - 1 :: order[i];
      DistinctPrefixSize(order, n - 1, t);
      assert s == t + {order[n - 1]};
    }
  }

  /** The rows ahead of a provider's i-th row are the i rows before it. */
  lemma AheadIsIndex(waiters: map<Key, Waiter>, provider: string, order: seq<Key>, i: nat)
    requires InGrantOrder(waiters, provider, order) && i < |order|
    ensures |AheadOf(waiters, provider, order[i])| == i
  {
    var s := set j | 0 <= j < i :: order[j];
    DistinctPrefixSize(order, i, s);
    forall k
      ensures k in AheadOf(waiters, provider, order[i]) <==> k in s
    {
      if k in AheadOf(waiters, provider, order[i]) {
        var j :| 0 <= j < |order| && order[j] == k;
        assert j >= i ==> j == i || Before(order[i], order[j]);
      }
    }
    assert AheadOf(waiters, provider, order[i]) == s;
  }

  /** A deferred request whose row carries the class and provider it asked for is told its exact
      place in that provider's grant order. */
  lemma PositionIsPlace(q: Queue, r: Request, now: nat, order: seq<Key>, i: nat)
    requires WaitersSound(q) && q.nextTicket < U64_MAX
    requires var (q', d) := AdmitQ(q, r, now);
      && d.Deferred? && InGrantOrder(q'.waiters, r.provider, order) && i < |order|
      && q'.waiters[order[i]].child == r.child && order[i].rank == r.priority.Rank()
    ensures AdmitQ(q, r, now).1.position == Min(i, U32_MAX)
  {
    var (q', d) := AdmitQ(q, r, now);
    StepKeepsWaiters(q, Admitting(r, now));
    AheadIsIndex(q'.waiters, r.provider, order, i);
    assert RowOf(q'.waiters, r.child) == Some(order[i]);
  }

  lemma SubsetSize<T>(a: set<T>, b: set<T>)
    requires a <= b
    ensures |a| <= |b|
  {
    if a != b {
      var x :| x in b && x !in a;
      if a != {} {
        var y :| y in a;
        SubsetSize(a - {y}, b - {y});
      }
    }
  }

  /** The step queues a newcomer that ranks ahead of the place: only a strictly higher class does. */
  predicate PushesBack(q: Queue, step: Step, provider: string, place: Key) {
    Joins(q, step) && step.request.provider == provider && step.request.priority.Rank() < place.rank
  }

  lemma StepKeepsPlace(q: Queue, step: Step, provider: string, place: Key)
    requires WaitersSound(q) && q.nextTicket < U64_MAX && place.ticket < q.nextTicket
    requires !PushesBack(q, step, provider, place)
    ensures AheadOf(Next(q, step).waiters, provider, place) <= AheadOf(q.waiters, provider, place)
  {
  }

  lemma AheadOnlyShrinks(q: Queue, steps: seq<Step>, provider: string, place: Key, i: nat)
    requires WaitersSound(q) && q.nextTicket + |steps| <= U64_MAX && place.ticket < q.nextTicket && i <= |steps|
    requires forall j :: 0 <= j < i ==> !PushesBack(At(q, steps, j), steps[j], provider, place)
    ensures AheadOf(At(q, steps, i).waiters, provider, place) <= AheadOf(q.waiters, provider, place)
    ensures q.nextTicket <= At(q, steps, i).nextTicket
  {
    if i == 0 {
      assert steps[..0] == [];
    } else {
      AheadOnlyShrinks(q, steps, provider, place, i - 1);
      RunKeepsWaiters(q, steps[..i - 1]);
      AtSucc(q, steps, i - 1);
      StepKeepsWaiters(At(q, steps, i - 1), steps[i - 1]);
      StepKeepsPlace(At(q, steps, i - 1), steps[i - 1], provider, place);
    }
  }

  /** A place in a provider's order never gets worse unless a newcomer of a strictly higher class joins the
      provider: whatever queued waiters of any class ask again, the rows ahead only ever get fewer. */
  lemma PlaceNeverWorsens(q: Queue, steps: seq<Step>, provider: string, place: Key, i: nat)
    requires WaitersSound(q) && q.nextTicket + |steps| <= U64_MAX && place.ticket < q.nextTicket && i <= |steps|
    requires forall j :: 0 <= j < i ==> !PushesBack(At(q, steps, j), steps[j], provider, place)
    ensures AheadOf(At(q, steps, i).waiters, provider, place) <= AheadOf(q.waiters, provider, place)
    ensures |AheadOf(At(q, steps, i).waiters, provider, place)| <= |AheadOf(q.waiters, provider, place)|
    ensures q.nextTicket <= At(q, steps, i).nextTicket
  {
    AheadOnlyShrinks(q, steps, provider, place, i);
    SubsetSize(AheadOf(At(q, steps, i).waiters, provider, place), AheadOf(q.waiters, provider, place));
  }

  /** A queued waiter that asks again, of whatever class, moves no row. */
  lemma AskingAgainMovesNothing(q: Queue, step: Step)
    requires DefersAt(q, step) && !Joins(q, step)
    ensures Next(q, step).waiters == q.waiters && Next(q, step).nextTicket == q.nextTicket
  {
  }

  /** The place a deferred request is told about: the class it asks at, and its child's ticket. */
  function PlaceOf(q: Queue, r: Request): Key {
    var row := RowOf(q.waiters, r.child);
    Key(r.priority.Rank(), if row.Some? then row.value.ticket else q.nextTicket)
  }

  lemma DeferralTellsPlace(q: Queue, r: Request, now: nat)
    requires WaitersSound(q) && q.nextTicket < U64_MAX && AdmitQ(q, r, now).1.Deferred?
    ensures var (q', d) := AdmitQ(q, r, now);
      && d.position == Min(|AheadOf(q'.waiters, r.provider, PlaceOf(q, r))|, U32_MAX)
      && PlaceOf(q, r).ticket < q'.nextTicket
      && exists k :: k in q'.waiters && q'.waiters[k].child == r.child && k.ticket == PlaceOf(q, r).ticket
  {
    var row := RowOf(q.waiters, r.child);
    var k := if row.Some? then row.value else PlaceOf(q, r);
    assert k in AdmitQ(q, r, now).0.waiters;
  }

  /** The row a deferral leaves its child with, which keeps the place it was told about. */
  lemma DeferredRowStays(q: Queue, r: Request, now: nat, steps: seq<Step>)
    requires WaitersSound(q) && q.nextTicket + |steps| + 1 < U64_MAX && AdmitQ(q, r, now).1.Deferred?
    requires var q' := AdmitQ(q, r, now).0;
      forall j :: 0 <= j < |steps| ==> !Removes(At(q', steps, j), steps[j], r.child)
    ensures var q' := AdmitQ(q, r, now).0;
      && WaitersSound(q') && q'.nextTicket <= q.nextTicket + 1
      && WaitersSound(Exec(q', steps)) && Exec(q', steps).nextTicket < U64_MAX
      && PlaceOf(Exec(q', steps), r) == PlaceOf(q, r) && RowOf(Exec(q', steps).waiters, r.child).Some?
  {
    var q' := AdmitQ(q, r, now).0;
    var n := |steps|;
    assert steps[..n] == steps;
    StepKeepsWaiters(q, Admitting(r, now));
    DeferralTellsPlace(q, r, now);
    var k :| k in q'.waiters && q'.waiters[k].child == r.child && k.ticket == PlaceOf(q, r).ticket;
    forall j | 0 <= j < n
      ensures !Overwrites(At(q', steps, j), steps[j], k)
    {
      ShortRunsOverwriteNothing(q', steps, k, j);
    }
    RowStays(q', steps, k, n);
    RunKeepsWaiters(q', steps);
    RowIsTheOne(Exec(q', steps), k);
  }

  /** The same request deferred twice in a run: as long as its child was neither admitted nor released in
      between, and no newcomer of a strictly higher class joined its provider, the later reply's position is
      no worse than the earlier one's. */
  lemma RepeatedPositionNeverWorsens(q: Queue, r: Request, now: nat, steps: seq<Step>, later: nat)
    requires WaitersSound(q) && q.nextTicket + |steps| + 1 < U64_MAX && AdmitQ(q, r, now).1.Deferred?
    requires var q' := AdmitQ(q, r, now).0;
      forall j :: 0 <= j < |steps| ==> !Removes(At(q', steps, j), steps[j], r.child)
    requires var q' := AdmitQ(q, r, now).0;
      forall j :: 0 <= j < |steps| ==> !PushesBack(At(q', steps, j), steps[j], r.provider, PlaceOf(q, r))
    requires AdmitQ(Exec(AdmitQ(q, r, now).0, steps), r, later).1.Deferred?
    ensures AdmitQ(Exec(AdmitQ(q, r, now).0, steps), r, later).1.position <= AdmitQ(q, r, now).1.position
  {
    var q' := AdmitQ(q, r, now).0;
    assert steps[..|steps|] == steps;
    DeferredRowStays(q, r, now, steps);
    DeferralTellsPlace(q, r, now);
    PlaceNeverWorsens(q', steps, r.provider, PlaceOf(q, r), |steps|);
    DeferralTellsPlace(Exec(q', steps), r, later);
    AskingAgainMovesNothing(Exec(q', steps), Admitting(r, later));
  }

  lemma RowIsTheOne(q: Queue, k: Key)
    requires WaitersSound(q) && k in q.waiters
    ensures RowOf(q.waiters, q.waiters[k].child) == Some(k)
  {
  }

  // ---------- the back-off ----------

  predicate Touches(step: Step, provider: string) {
    (step.Configuring? && step.provider == provider) || (step.Admitting? && step.request.provider == provider)
  }

  lemma {:induction false} UntouchedBucket(q: Queue, steps: seq<Step>, provider: string)
    requires forall i :: 0 <= i < |steps| ==> !Touches(steps[i], provider)
    ensures provider in Exec(q, steps).buckets <==> provider in q.buckets
    ensures provider in q.buckets ==> Exec(q, steps).buckets[provider] == q.buckets[provider]
    decreases steps
  {
    if steps != [] {
      UntouchedBucket(q, steps[..|steps| - 1], provider);
    }
  }

  /** Waiting out the back-off is enough, and nothing but budget and class then decides: after any run
      that leaves the provider alone, the retried request is admitted exactly when its estimate fits a
      whole window, the window grants a request at all, and no strictly higher class waits. */
  lemma BackoffSuffices(q: Queue, r: Request, now: nat, steps: seq<Step>, later: nat)
    requires r.provider in q.buckets ==> q.buckets[r.provider].windowStart <= now
    requires AdmitQ(q, r, now).1.Deferred?
    requires forall i :: 0 <= i < |steps| ==> !Touches(steps[i], r.provider)
    requires later >= now + AdmitQ(q, r, now).1.retryAfterMs
    ensures var (q', d) := AdmitQ(q, r, now);
      var b := Bucket(q, r.provider, now);
      var then_ := Exec(q', steps);
      && 1 <= d.retryAfterMs <= Max(b.windowMs, 1)
      && (AdmitQ(then_, r, later).1.Admitted? <==>
            && r.estTokens <= b.tokensPerWindow && b.requestsPerWindow >= 1
            && forall k :: k in then_.waiters && then_.waiters[k].provider == r.provider ==>
              k.rank >= r.priority.Rank())
  {
    var (q', d) := AdmitQ(q, r, now);
    UntouchedBucket(q', steps, r.provider);
    AdmittedIff(Exec(q', steps), r, later);
  }

  /** Nor is it longer than it must be: a request deferred for want of budget and repeated any sooner, with
      the provider left alone, is deferred again. */
  lemma BackoffIsTight(q: Queue, r: Request, now: nat, steps: seq<Step>, later: nat)
    requires AdmitQ(q, r, now).1.Deferred? && !Bucket(q, r.provider, now).CanAdmit(r.estTokens)
    requires Bucket(q, r.provider, now).windowMs > 0 && Bucket(q, r.provider, now).windowStart <= now
    requires forall i :: 0 <= i < |steps| ==> !Touches(steps[i], r.provider)
    requires now <= later < now + AdmitQ(q, r, now).1.retryAfterMs
    ensures AdmitQ(Exec(AdmitQ(q, r, now).0, steps), r, later).1.Deferred?
  {
    UntouchedBucket(AdmitQ(q, r, now).0, steps, r.provider);
  }

  /** The back-off is the moment the bucket refills, whatever the deferral was for: with the provider left alone, a
      look at the bucket finds a full new window from then on, and the old one any sooner. */
  lemma RefillsAfterBackoffIff(q: Queue, r: Request, now: nat, steps: seq<Step>, later: nat)
    requires AdmitQ(q, r, now).1.Deferred?
    requires Bucket(q, r.provider, now).windowMs > 0 && Bucket(q, r.provider, now).windowStart <= now <= later
    requires forall i :: 0 <= i < |steps| ==> !Touches(steps[i], r.provider)
    ensures var b := Bucket(q, r.provider, now);
      Bucket(Exec(AdmitQ(q, r, now).0, steps), r.provider, later)
        == if later >= now + AdmitQ(q, r, now).1.retryAfterMs
           then RateBucket(b.tokensPerWindow, b.requestsPerWindow, later,
                           b.tokensPerWindow, b.requestsPerWindow, b.windowMs)
           else b
  {
    UntouchedBucket(AdmitQ(q, r, now).0, steps, r.provider);
  }

  // ---------- the in-flight ledger ----------

  /** The child's entry is this call, or was swept after its time ran out. */
  ghost predicate Tracks(q: Queue, child: string, call: InFlight, later: nat) {
    if child in q.inFlight then q.inFlight[child] == call else !Live(call, later)
  }

  lemma StepTracks(q: Queue, step: Step, child: string, call: InFlight, later: nat)
    requires Tracks(q, child, call, later) && !Removes(q, step, child)
    requires step.Sweeping? ==> step.now <= later
    ensures Tracks(Next(q, step), child, call, later)
  {
  }

  lemma RunTracks(q: Queue, steps: seq<Step>, child: string, call: InFlight, later: nat, i: nat)
    requires Tracks(q, child, call, later) && i <= |steps|
    requires forall j :: 0 <= j < |steps| ==> !Removes(At(q, steps, j), steps[j], child)
    requires forall j :: 0 <= j < |steps| && steps[j].Sweeping? ==> steps[j].now <= later
    ensures Tracks(At(q, steps, i), child, call, later)
  {
    if i > 0 {
      RunTracks(q, steps, child, call, later, i - 1);
      AtSucc(q, steps, i - 1);
      StepTracks(At(q, steps, i - 1), steps[i - 1], child, call, later);
    } else {
      assert steps[..0] == [];
    }
  }

  /** An admitted call reads as in flight exactly until its time to live runs out, whatever the queue
      does meanwhile, as long as its own child is neither released nor admitted again. */
  lemma InFlightUntilTtl(q: Queue, r: Request, now: nat, steps: seq<Step>, later: nat)
    requires AdmitQ(q, r, now).1.Admitted?
    requires var q' := AdmitQ(q, r, now).0;
      forall i :: 0 <= i < |steps| ==> !Removes(At(q', steps, i), steps[i], r.child)
    requires forall i :: 0 <= i < |steps| && steps[i].Sweeping? ==> steps[i].now <= later
    ensures HasInFlight(Exec(AdmitQ(q, r, now).0, steps), r.child, later) <==> SatSub(later, now) <= r.ttlMs
  {
    var q' := AdmitQ(q, r, now).0;
    RunTracks(q', steps, r.child, InFlight(r.provider, now, r.ttlMs), later, |steps|);
    assert steps[..|steps|] == steps;
  }

  /** The child's entry, if there is one, is this call. */
  ghost predicate Holds(q: Queue, child: string, call: InFlight) {
    child in q.inFlight ==> q.inFlight[child] == call
  }

  lemma RunHolds(q: Queue, steps: seq<Step>, child: string, call: InFlight, i: nat)
    requires Holds(q, child, call) && i <= |steps|
    requires forall j :: 0 <= j < i ==> !Removes(At(q, steps, j), steps[j], child)
    ensures Holds(At(q, steps, i), child, call)
  {
    if i > 0 {
      RunHolds(q, steps, child, call, i - 1);
      AtSucc(q, steps, i - 1);
    } else {
      assert steps[..0] == [];
    }
  }

  /** An admitted call is filed under its own provider, time and time to live, and stays so: through any steps that
      neither release nor admit its child again, the entry is unchanged while it is there, and the sweep that drops
      it, which it does exactly when the time to live is over, reports the child with that provider. */
  lemma CallIsFiledUnderItsProvider(q: Queue, r: Request, now: nat, steps: seq<Step>, sweep: nat)
    requires AdmitQ(q, r, now).1.Admitted?
    requires var q' := AdmitQ(q, r, now).0;
      forall i :: 0 <= i < |steps| ==> !Removes(At(q', steps, i), steps[i], r.child)
    ensures r.child in AdmitQ(q, r, now).0.inFlight
    ensures var later := Exec(AdmitQ(q, r, now).0, steps);
      r.child in later.inFlight ==>
        && later.inFlight[r.child] == InFlight(r.provider, now, r.ttlMs)
        && (r.child in SweptCalls(later, sweep) <==> SatSub(sweep, now) > r.ttlMs)
        && (r.child in SweptCalls(later, sweep) <==> r.child !in SweepQ(later, sweep).inFlight)
        && (r.child in SweptCalls(later, sweep) ==> SweptCalls(later, sweep)[r.child] == r.provider)
  {
    RunHolds(AdmitQ(q, r, now).0, steps, r.child, InFlight(r.provider, now, r.ttlMs), |steps|);
    assert steps[..|steps|] == steps;
  }
}
