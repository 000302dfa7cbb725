/**
 The rate governor over whole runs: conservation inside a window, and the bound any interval of
 time puts on what a provider is sent.
*/
module LlmRate {
  import opened Common
  import opened LlmQueue
  import opened LlmFairness

  /** One admitted call. */
  datatype Event = Event(at: nat, provider: string, estTokens: nat)

  /** The two budgets of a bucket are governed alike. */
  datatype Meter = Tokens | Requests

  function Budget(b: RateBucket, m: Meter): nat {
    match m case Tokens => b.tokensPerWindow case Requests => b.requestsPerWindow
  }

  function Left(b: RateBucket, m: Meter): nat {
    match m case Tokens => b.tokensRemaining case Requests => b.reqRemaining
  }

  function Cost(e: Event, m: Meter): nat {
    match m case Tokens => e.estTokens case Requests => 1
  }

  /** The calls a run admits, in order. */
  function Log(q: Queue, steps: seq<Step>): seq<Event>
    decreases steps
  {
    if steps == [] then []
    else
      Logged(Log(q, steps[..|steps| - 1]), Exec(q, steps[..|steps| - 1]), steps[|steps| - 1])
  }

  /** What a provider was sent at times from `lo` up to but excluding `hi`. */
  function Sent(log: seq<Event>, provider: string, m: Meter, lo: nat, hi: nat): nat {
    if log == [] then 0
    else
      var e := log[|log| - 1];
      Sent(log[..|log| - 1], provider, m, lo, hi)
      + if e.provider == provider && lo <= e.at < hi then Cost(e, m) else 0
  }

  /** The log after one more step. */
  function Logged(log: seq<Event>, q: Queue, step: Step): seq<Event> {
    if AdmitsAt(q, step) then log + [Event(step.now, step.request.provider, step.request.estTokens)] else log
  }

  function TimeOf(step: Step): Option<nat> {
    match step
    case Configuring(_, _, _, _, now) => Some(now)
    case Admitting(_, now) => Some(now)
    case Releasing(_) => None
    case Sweeping(now) => Some(now)
  }

  /** The latest time a run has seen, starting from `from`. */
  function Clock(steps: seq<Step>, from: nat): nat
    decreases steps
  {
    if steps == [] then from
    else
      var t := TimeOf(steps[|steps| - 1]);
      if t.Some? then t.value else Clock(steps[..|steps| - 1], from)
  }

  /** The clock never runs backwards. */
  predicate Ordered(steps: seq<Step>, from: nat)
    decreases steps
  {
    steps == []
    || (Ordered(steps[..|steps| - 1], from) && Clock(steps[..|steps| - 1], from) <= Clock(steps, from))
  }

  /** No step of the run changes the provider's budget. */
  predicate KeepsBudget(steps: seq<Step>, provider: string) {
    forall i :: 0 <= i < |steps| && steps[i].Configuring? ==> steps[i].provider != provider
  }

  /** The bucket a provider has, or would be given on its first admit. */
  function Quota(q: Queue, provider: string): RateBucket {
    if provider in q.buckets then q.buckets[provider] else DefaultBucket(0)
  }

  // ---------- one bucket, one step ----------

  /** Nothing is counted before it happened. */
  lemma {:induction false} NothingSentLater(log: seq<Event>, provider: string, m: Meter, lo: nat, hi: nat)
    requires forall k :: 0 <= k < |log| && log[k].provider == provider ==> log[k].at < lo
    ensures Sent(log, provider, m, lo, hi) == 0
    decreases log
  {
    if log != [] {
      NothingSentLater(log[..|log| - 1], provider, m, lo, hi);
    }
  }

  lemma SentAppend(log: seq<Event>, e: Event, provider: string, m: Meter, lo: nat, hi: nat)
    ensures Sent(log + [e], provider, m, lo, hi)
         == Sent(log, provider, m, lo, hi) + if e.provider == provider && lo <= e.at < hi then Cost(e, m) else 0
  {
    assert (log + [e])[..|log|] == log;
  }

  /** Only an admit of the provider, or its configuration, moves its bucket. */
  lemma BucketStep(q: Queue, step: Step, provider: string)
    requires !(step.Configuring? && step.provider == provider)
    ensures var q' := Next(q, step);
      if step.Admitting? && step.request.provider == provider then
        && provider in q'.buckets
        && q'.buckets[provider] == (var b := Bucket(q, provider, step.now);
             if AdmitsAt(q, step) then b.Debit(step.request.estTokens) else b)
      else
        && (provider in q'.buckets <==> provider in q.buckets)
        && (provider in q.buckets ==> q'.buckets[provider] == q.buckets[provider])
  {
  }

  /** An admit within budget never meets the floor of the saturating subtraction. */
  lemma DebitIsExact(q: Queue, r: Request, now: nat, m: Meter)
    requires AdmitQ(q, r, now).1.Admitted?
    ensures var b := Bucket(q, r.provider, now); var e := Event(now, r.provider, r.estTokens);
      Left(b.Debit(r.estTokens), m) + Cost(e, m) == Left(b, m)
  {
    AdmittedIff(q, r, now);
  }

  // ---------- conservation ----------

  /** An admit at this time finds a new or refilled bucket. */
  predicate Renews(q: Queue, provider: string, now: nat) {
    provider in q.buckets ==> SatSub(now, q.buckets[provider].windowStart) >= q.buckets[provider].windowMs
  }

  /** What a run has debited from a provider since its bucket was last created, configured or refilled: the
      costs of the calls admitted, added up, whatever their times. */
  function Debited(q: Queue, steps: seq<Step>, provider: string, m: Meter): nat
    decreases steps
  {
    if steps == [] then SatSub(Budget(Quota(q, provider), m), Left(Quota(q, provider), m))
    else
      var (prev, step) := (steps[..|steps| - 1], steps[|steps| - 1]);
      DebitedBy(Debited(q, prev, provider, m), Exec(q, prev), step, provider, m)
  }

  function DebitedBy(before: nat, q: Queue, step: Step, provider: string, m: Meter): nat {
    match step
    case Configuring(p, _, _, _, _) => if p == provider then 0 else before
    case Admitting(r, now) =>
      if r.provider != provider then before
      else
        (if Renews(q, provider, now) then 0 else before)
        + (if AdmitsAt(q, step) then Cost(Event(now, provider, r.estTokens), m) else 0)
    case Releasing(_) => before
    case Sweeping(_) => before
  }

  /** In every state of every run, what a bucket has left and what was debited from it since it was last full
      add up to its budget: under any clock, any window length and any reconfiguration. */
  lemma {:induction false} Conservation(q: Queue, steps: seq<Step>, provider: string, m: Meter)
    requires Left(Quota(q, provider), m) <= Budget(Quota(q, provider), m)
    ensures Left(Quota(Exec(q, steps), provider), m) + Debited(q, steps, provider, m)
         == Budget(Quota(Exec(q, steps), provider), m)
    decreases steps
  {
    if steps != [] {
      var (prev, step) := (steps[..|steps| - 1], steps[|steps| - 1]);
      Conservation(q, prev, provider, m);
      StepConserves(Debited(q, prev, provider, m), Exec(q, prev), step, provider, m);
    }
  }

  lemma StepConserves(before: nat, q: Queue, step: Step, provider: string, m: Meter)
    requires Left(Quota(q, provider), m) + before == Budget(Quota(q, provider), m)
    ensures var b := Quota(Next(q, step), provider);
      Left(b, m) + DebitedBy(before, q, step, provider, m) == Budget(b, m)
  {
    if !(step.Configuring? && step.provider == provider) {
      BucketStep(q, step, provider);
      if AdmitsAt(q, step) && step.request.provider == provider {
        DebitIsExact(q, step.request, step.now, m);
      }
    }
  }

  /** The bucket accounts for every call since its window opened, and none of its calls lies a
      window or more after that. */
  ghost predicate Conserves(q: Queue, log: seq<Event>, provider: string, m: Meter, clock: nat, hi: nat) {
    if provider in q.buckets then
      var b := q.buckets[provider];
      && Left(b, m) + Sent(log, provider, m, b.windowStart, hi) == Budget(b, m)
      && b.windowMs > 0 && b.windowStart <= clock
      && (forall k :: 0 <= k < |log| && log[k].provider == provider ==> log[k].at < b.windowStart + b.windowMs)
    else
      forall k :: 0 <= k < |log| ==> log[k].provider != provider
  }

  lemma RefilledConserves(q: Queue, log: seq<Event>, provider: string, now: nat, m: Meter, clock: nat, hi: nat)
    requires Conserves(q, log, provider, m, clock, hi) && clock <= now && Renews(q, provider, now)
    ensures var b := Bucket(q, provider, now);
      && Left(b, m) == Budget(b, m) && b.windowMs > 0 && b.windowStart == now
      && Sent(log, provider, m, now, hi) == 0
      && (forall k :: 0 <= k < |log| && log[k].provider == provider ==> log[k].at < now)
  {
    NothingSentLater(log, provider, m, now, hi);
  }

  /** The same, for the bucket an admit looks at: a refill opens a window nothing was sent in yet. */
  lemma SeenBucketConserves(q: Queue, log: seq<Event>, provider: string, now: nat, m: Meter, clock: nat, hi: nat)
    requires Conserves(q, log, provider, m, clock, hi) && clock <= now
    ensures var b := Bucket(q, provider, now);
      && Left(b, m) + Sent(log, provider, m, b.windowStart, hi) == Budget(b, m)
      && b.windowMs > 0 && b.windowStart <= now < b.windowStart + b.windowMs
      && (forall k :: 0 <= k < |log| && log[k].provider == provider ==> log[k].at < b.windowStart + b.windowMs)
  {
    if Renews(q, provider, now) {
      RefilledConserves(q, log, provider, now, m, clock, hi);
    }
  }

  /** The bucket the admit found is the one it leaves, less what the admitted call costs. */
  lemma AdmitLeavesBucket(q: Queue, r: Request, now: nat, m: Meter)
    ensures var (q', d) := AdmitQ(q, r, now); var (b, b') := (Bucket(q, r.provider, now), q'.buckets[r.provider]);
      && r.provider in q'.buckets
      && b'.windowStart == b.windowStart && b'.windowMs == b.windowMs && Budget(b', m) == Budget(b, m)
      && Left(b', m) + (if d.Admitted? then Cost(Event(now, r.provider, r.estTokens), m) else 0) == Left(b, m)
  {
    BucketStep(q, Admitting(r, now), r.provider);
    if AdmitQ(q, r, now).1.Admitted? {
      DebitIsExact(q, r, now, m);
    }
  }

  lemma AdmitConserves(q: Queue, log: seq<Event>, r: Request, now: nat, m: Meter, clock: nat, hi: nat)
    requires Conserves(q, log, r.provider, m, clock, hi) && clock <= now < hi
    ensures var (q', d) := AdmitQ(q, r, now);
      Conserves(q', if d.Admitted? then log + [Event(now, r.provider, r.estTokens)] else log, r.provider, m, now, hi)
  {
    SeenBucketConserves(q, log, r.provider, now, m, clock, hi);
    AdmitLeavesBucket(q, r, now, m);
    SentAppend(log, Event(now, r.provider, r.estTokens), r.provider, m, Bucket(q, r.provider, now).windowStart, hi);
  }

  lemma OtherStepConserves(q: Queue, log: seq<Event>, step: Step, provider: string, m: Meter, clock: nat, clock': nat,
                           hi: nat)
    requires Conserves(q, log, provider, m, clock, hi) && clock <= clock'
    requires !Touches(step, provider)
    ensures Conserves(Next(q, step), log, provider, m, clock', hi)
    ensures forall e: Event :: e.provider != provider ==> Conserves(Next(q, step), log + [e], provider, m, clock', hi)
  {
    BucketStep(q, step, provider);
    forall e: Event | e.provider != provider
      ensures Conserves(Next(q, step), log + [e], provider, m, clock', hi)
    {
      if provider in q.buckets {
        SentAppend(log, e, provider, m, q.buckets[provider].windowStart, hi);
      }
    }
  }

  lemma {:induction false} RunConserves(q: Queue, steps: seq<Step>, provider: string, m: Meter, from: nat, hi: nat)
    requires Ordered(steps, from) && KeepsBudget(steps, provider) && Clock(steps, from) < hi
    requires provider in q.buckets ==>
      var b := q.buckets[provider];
      Left(b, m) == Budget(b, m) && b.windowMs > 0 && b.windowStart <= from
    ensures Conserves(Exec(q, steps), Log(q, steps), provider, m, Clock(steps, from), hi)
    decreases steps
  {
    if steps != [] {
      var n := |steps| - 1;
      var (prev, step) := (steps[..n], steps[n]);
      RunConserves(q, prev, provider, m, from, hi);
      if step.Admitting? && step.request.provider == provider {
        AdmitConserves(Exec(q, prev), Log(q, prev), step.request, step.now, m, Clock(prev, from), hi);
      } else {
        OtherStepConserves(Exec(q, prev), Log(q, prev), step, provider, m, Clock(prev, from), Clock(steps, from), hi);
      }
    }
  }

  /** Under a forward clock and one budget, what was debited since the last refill is what was sent since the
      window opened, by the times of the calls. */
  lemma DebitedIsSent(q: Queue, steps: seq<Step>, provider: string, m: Meter, from: nat, hi: nat)
    requires Ordered(steps, from) && KeepsBudget(steps, provider) && Clock(steps, from) < hi
    requires provider in q.buckets ==>
      var b := q.buckets[provider];
      Left(b, m) == Budget(b, m) && b.windowMs > 0 && b.windowStart <= from
    requires provider in Exec(q, steps).buckets
    ensures Debited(q, steps, provider, m)
         == Sent(Log(q, steps), provider, m, Exec(q, steps).buckets[provider].windowStart, hi)
  {
    Conservation(q, steps, provider, m);
    RunConserves(q, steps, provider, m, from, hi);
  }

  // ---------- the bound on any interval ----------

  /** Windows of length `w` needed to cover `len`: the quotient rounded up. */
  function Windows(len: nat, w: nat): nat
    requires w > 0
  {
    (len + w - 1) / w
  }

  /** Quotient and product by counting; the argument below only ever adds one window at a time. */
  ghost function Quot(x: nat, w: nat): nat
    requires w > 0
  {
    if x < w then 0 else 1 + Quot(x - w, w)
  }

  ghost function Times(budget: nat, n: nat): nat {
    if n == 0 then 0 else budget + Times(budget, n - 1)
  }

  lemma {:induction false} QuotGrows(x: nat, y: nat, w: nat)
    requires w > 0 && x <= y
    ensures Quot(x, w) <= Quot(y, w)
    decreases x
  {
    if x >= w {
      QuotGrows(x - w, y - w, w);
    }
  }

  lemma {:induction false} TimesGrows(budget: nat, a: nat, b: nat)
    requires a <= b
    ensures Times(budget, a) <= Times(budget, b)
    decreases b
  {
    if a < b {
      TimesGrows(budget, a, b - 1);
    }
  }

  lemma MulGrows(x: nat, a: nat, b: nat)
    requires a <= b
    ensures x * a <= x * b
  {
  }

  lemma DivUnique(x: nat, w: nat, q: nat)
    requires w > 0 && w * q <= x < w * q + w
    ensures x / w == q
  {
    var q' := x / w;
    if q < q' {
      MulGrows(w, q + 1, q');
    } else if q' < q {
      MulGrows(w, q' + 1, q);
    }
  }

  lemma DivNext(x: nat, w: nat)
    requires w > 0
    ensures (x + w) / w == x / w + 1
  {
    assert w * (x / w + 1) == w * (x / w) + w;
    DivUnique(x + w, w, x / w + 1);
  }

  lemma {:induction false} QuotIsDiv(x: nat, w: nat)
    requires w > 0
    ensures Quot(x, w) == x / w
    decreases x
  {
    if x >= w {
      QuotIsDiv(x - w, w);
      DivNext(x - w, w);
    } else {
      DivUnique(x, w, 0);
    }
  }

  lemma {:induction false} TimesIsMul(budget: nat, n: nat)
    ensures Times(budget, n) == budget * n
    decreases n
  {
    if n > 0 {
      TimesIsMul(budget, n - 1);
      assert budget * n == budget * (n - 1) + budget;
    }
  }

  /** Windows a run can open inside an interval of `len`, plus the one already open. */
  ghost function Allowed(len: nat, w: nat): nat
    requires w > 0
  {
    (if len == 0 then 0 else Quot(len - 1, w) + 1) + 1
  }

  lemma AllowedIs(len: nat, w: nat)
    requires w > 0
    ensures Allowed(len, w) == Windows(len, w) + 1
  {
    QuotIsDiv(len + w - 1, w);
    if len == 0 {
      assert Quot(w - 1, w) == 0;
    } else {
      assert Quot(len - 1 + w, w) == 1 + Quot(len - 1, w);
    }
  }

  /** How much of an interval's allowance is gone, by where the current window opened: `used` is what
      the window has paid out so far. */
  ghost predicate Bounded(ws: nat, w: nat, budget: nat, used: nat, sent: nat, t: nat, len: nat) {
    && w > 0 && used <= budget
    && (ws < t ==> sent <= used)
    && (t <= ws < t + len ==> sent <= Times(budget, Quot(ws - t, w) + 1) + used)
    && sent <= Times(budget, Allowed(len, w))
  }

  lemma RefillBounded(ws: nat, w: nat, budget: nat, used: nat, sent: nat, t: nat, len: nat, now: nat)
    requires Bounded(ws, w, budget, used, sent, t, len) && ws + w <= now && (now < t ==> sent == 0)
    ensures Bounded(now, w, budget, 0, sent, t, len)
  {
    if t <= now < t + len {
      if ws < t {
        TimesGrows(budget, 1, Quot(now - t, w) + 1);
      } else {
        QuotGrows(ws - t + w, now - t, w);
        TimesGrows(budget, Quot(ws - t, w) + 2, Quot(now - t, w) + 1);
      }
    }
  }

  lemma DebitBounded(ws: nat, w: nat, budget: nat, used: nat, cost: nat, sent: nat, t: nat, len: nat, now: nat)
    requires Bounded(ws, w, budget, used, sent, t, len) && ws <= now && used + cost <= budget
    ensures Bounded(ws, w, budget, used + cost, sent + if t <= now < t + len then cost else 0, t, len)
  {
    if t <= now < t + len {
      if ws < t {
        TimesGrows(budget, 1, Allowed(len, w));
      } else {
        QuotGrows(ws - t, len - 1, w);
        TimesGrows(budget, Quot(ws - t, w) + 2, Allowed(len, w));
      }
    }
  }

  ghost predicate BucketBounded(b: RateBucket, m: Meter, sent: nat, t: nat, len: nat) {
    Left(b, m) <= Budget(b, m)
    && Bounded(b.windowStart, b.windowMs, Budget(b, m), Budget(b, m) - Left(b, m), sent, t, len)
  }

  /** The state of the argument after a run: the bucket's part, and that no call lies in the future. */
  ghost predicate RateInv(q: Queue, log: seq<Event>, provider: string, m: Meter, quota: RateBucket, clock: nat, t: nat,
                          len: nat) {
    && (forall k :: 0 <= k < |log| && log[k].provider == provider ==> log[k].at <= clock)
    && (if provider in q.buckets then
          var b := q.buckets[provider];
          && b.windowStart <= clock && b.windowMs == quota.windowMs && Budget(b, m) == Budget(quota, m)
          && BucketBounded(b, m, Sent(log, provider, m, t, t + len), t, len)
        else quota == DefaultBucket(0) && forall k :: 0 <= k < |log| ==> log[k].provider != provider)
  }

  /** The bucket an admit looks at is bounded before the admit is counted. */
  lemma SeenBucketBounded(q: Queue, log: seq<Event>, provider: string, now: nat, m: Meter, quota: RateBucket,
                          clock: nat, t: nat, len: nat)
    requires RateInv(q, log, provider, m, quota, clock, t, len) && clock <= now
    ensures var b := Bucket(q, provider, now);
      && b.windowStart <= now && b.windowMs == quota.windowMs && Budget(b, m) == Budget(quota, m)
      && BucketBounded(b, m, Sent(log, provider, m, t, t + len), t, len)
  {
    if now < t || provider !in q.buckets {
      NothingSentLater(log, provider, m, t, t + len);
    }
    if provider in q.buckets {
      var b := q.buckets[provider];
      if SatSub(now, b.windowStart) >= b.windowMs {
        RefillBounded(b.windowStart, b.windowMs, Budget(b, m), Budget(b, m) - Left(b, m),
                      Sent(log, provider, m, t, t + len), t, len, now);
      }
    }
  }

  lemma DeferralKeepsRate(q: Queue, log: seq<Event>, r: Request, now: nat, m: Meter, quota: RateBucket, clock: nat,
                          t: nat, len: nat)
    requires RateInv(q, log, r.provider, m, quota, clock, t, len) && clock <= now && !AdmitQ(q, r, now).1.Admitted?
    ensures RateInv(AdmitQ(q, r, now).0, log, r.provider, m, quota, now, t, len)
  {
    SeenBucketBounded(q, log, r.provider, now, m, quota, clock, t, len);
    BucketStep(q, Admitting(r, now), r.provider);
  }

  lemma AdmissionKeepsRate(q: Queue, log: seq<Event>, r: Request, now: nat, m: Meter, quota: RateBucket, clock: nat,
                           t: nat, len: nat)
    requires RateInv(q, log, r.provider, m, quota, clock, t, len) && clock <= now && AdmitQ(q, r, now).1.Admitted?
    ensures RateInv(AdmitQ(q, r, now).0, log + [Event(now, r.provider, r.estTokens)], r.provider, m, quota, now, t, len)
  {
    var e := Event(now, r.provider, r.estTokens);
    var b := Bucket(q, r.provider, now);
    SeenBucketBounded(q, log, r.provider, now, m, quota, clock, t, len);
    BucketStep(q, Admitting(r, now), r.provider);
    DebitIsExact(q, r, now, m);
    DebitBounded(b.windowStart, b.windowMs, Budget(b, m), Budget(b, m) - Left(b, m), Cost(e, m),
                 Sent(log, r.provider, m, t, t + len), t, len, now);
    SentAppend(log, e, r.provider, m, t, t + len);
  }

  lemma AdmitKeepsRate(q: Queue, log: seq<Event>, r: Request, now: nat, m: Meter, quota: RateBucket, clock: nat,
                       t: nat, len: nat)
    requires RateInv(q, log, r.provider, m, quota, clock, t, len) && clock <= now
    ensures var (q', d) := AdmitQ(q, r, now);
      var log' := if d.Admitted? then log + [Event(now, r.provider, r.estTokens)] else log;
      RateInv(q', log', r.provider, m, quota, now, t, len)
  {
    if AdmitQ(q, r, now).1.Admitted? {
      AdmissionKeepsRate(q, log, r, now, m, quota, clock, t, len);
    } else {
      DeferralKeepsRate(q, log, r, now, m, quota, clock, t, len);
    }
  }

  lemma OtherStepKeepsRate(q: Queue, log: seq<Event>, step: Step, provider: string, m: Meter, quota: RateBucket,
                           clock: nat, clock': nat, t: nat, len: nat)
    requires RateInv(q, log, provider, m, quota, clock, t, len) && clock <= clock'
    requires !Touches(step, provider)
    ensures RateInv(Next(q, step), log, provider, m, quota, clock', t, len)
    ensures forall e: Event :: e.provider != provider ==>
      RateInv(Next(q, step), log + [e], provider, m, quota, clock', t, len)
  {
    BucketStep(q, step, provider);
    forall e: Event | e.provider != provider
      ensures RateInv(Next(q, step), log + [e], provider, m, quota, clock', t, len)
    {
      SentAppend(log, e, provider, m, t, t + len);
    }
  }

  lemma {:induction false} RunKeepsRate(q: Queue, steps: seq<Step>, provider: string, m: Meter, from: nat, t: nat,
                                        len: nat)
    requires Ordered(steps, from) && KeepsBudget(steps, provider)
    requires Quota(q, provider).windowMs > 0 && Left(Quota(q, provider), m) <= Budget(Quota(q, provider), m)
    requires Quota(q, provider).windowStart <= from
    ensures RateInv(Exec(q, steps), Log(q, steps), provider, m, Quota(q, provider), Clock(steps, from), t, len)
    decreases steps
  {
    if steps != [] {
      var n := |steps| - 1;
      var (prev, step) := (steps[..n], steps[n]);
      RunKeepsRate(q, prev, provider, m, from, t, len);
      if step.Admitting? && step.request.provider == provider {
        AdmitKeepsRate(Exec(q, prev), Log(q, prev), step.request, step.now, m, Quota(q, provider), Clock(prev, from),
                       t, len);
      } else {
        OtherStepKeepsRate(Exec(q, prev), Log(q, prev), step, provider, m, Quota(q, provider), Clock(prev, from),
                           Clock(steps, from), t, len);
      }
    }
  }

  /** Over every run under a forward clock, from any state of the bucket, the tokens and the requests
      a provider is sent in any half-open interval of `len` ms stay within its budget times one more
      than the number of windows that cover the interval. */
  lemma IntervalBound(q: Queue, steps: seq<Step>, provider: string, m: Meter, from: nat, t: nat, len: nat)
    requires Ordered(steps, from) && KeepsBudget(steps, provider)
    requires Quota(q, provider).windowMs > 0 && Left(Quota(q, provider), m) <= Budget(Quota(q, provider), m)
    requires Quota(q, provider).windowStart <= from
    ensures var quota := Quota(q, provider);
      Sent(Log(q, steps), provider, m, t, t + len) <= Budget(quota, m) * (Windows(len, quota.windowMs) + 1)
  {
    RunKeepsRate(q, steps, provider, m, from, t, len);
    var quota := Quota(q, provider);
    AllowedIs(len, quota.windowMs);
    TimesIsMul(Budget(quota, m), Allowed(len, quota.windowMs));
    if provider !in Exec(q, steps).buckets {
      NothingSentLater(Log(q, steps), provider, m, t, t + len);
    }
  }

  lemma TwoAdmits(q: Queue, a: Request, at: nat, b: Request, bt: nat)
    requires AdmitQ(q, a, at).1.Admitted? && AdmitQ(AdmitQ(q, a, at).0, b, bt).1.Admitted? && at <= bt
    ensures var steps := [Admitting(a, at), Admitting(b, bt)];
      Ordered(steps, 0) && Log(q, steps) == [Event(at, a.provider, a.estTokens), Event(bt, b.provider, b.estTokens)]
  {
    var steps := [Admitting(a, at), Admitting(b, bt)];
    assert steps[..1] == [Admitting(a, at)] && steps[..1][..0] == [];
    assert Exec(q, steps[..1]) == AdmitQ(q, a, at).0;
    assert Log(q, steps[..1]) == [Event(at, a.provider, a.estTokens)];
  }

  /** The bound is met: two full windows' budgets can go out within two milliseconds. */
  lemma BoundIsMet()
    ensures var q := Configure(Queue(map[], map[], map[], 0), "p", 100, 5, 10, 0);
      var steps := [Admitting(Request("p", Worker, 100, "a", 0), 9), Admitting(Request("p", Worker, 100, "b", 0), 10)];
      && Ordered(steps, 0)
      && Sent(Log(q, steps), "p", Tokens, 9, 9 + 2) == 100 * (Windows(2, 10) + 1)
  {
    var q := Configure(Queue(map[], map[], map[], 0), "p", 100, 5, 10, 0);
    var a := Request("p", Worker, 100, "a", 0);
    var b := Request("p", Worker, 100, "b", 0);
    AdmittedIff(q, a, 9);
    var q1 := AdmitQ(q, a, 9).0;
    assert q1.buckets["p"] == RateBucket(0, 4, 0, 100, 5, 10) && q1.waiters == map[];
    AdmittedIff(q1, b, 10);
    TwoAdmits(q, a, 9, b, 10);
    var (ea, eb) := (Event(9, "p", 100), Event(10, "p", 100));
    assert [ea, eb] == [ea] + [eb] && [ea] == [] + [ea];
    SentAppend([ea], eb, "p", Tokens, 9, 11);
    SentAppend([], ea, "p", Tokens, 9, 11);
  }

  // ---------- quotas ----------

  /** A configured provider starts with a full bucket of exactly the numbers given; the others keep theirs. */
  lemma ConfiguredQuota(q: Queue, provider: string, tokens: nat, requests: nat, windowMs: nat, now: nat, other: string)
    ensures var q' := Configure(q, provider, tokens, requests, windowMs, now);
      && Quota(q', provider) == RateBucket(tokens, requests, now, tokens, requests, windowMs)
      && (other != provider ==> Quota(q', other) == Quota(q, other))
      && q'.waiters == q.waiters && q'.inFlight == q.inFlight && q'.nextTicket == q.nextTicket
  {
  }

  /** A provider configured with a quota is sent, in any interval of a forward run from there, no more tokens and no
      more requests than that quota times one more than the windows that cover the interval. */
  lemma ConfiguredBound(q: Queue, provider: string, tokens: nat, requests: nat, windowMs: nat, now: nat,
                        steps: seq<Step>, t: nat, len: nat)
    requires windowMs > 0 && Ordered(steps, now) && KeepsBudget(steps, provider)
    ensures var log := Log(Configure(q, provider, tokens, requests, windowMs, now), steps);
      && Sent(log, provider, Tokens, t, t + len) <= tokens * (Windows(len, windowMs) + 1)
      && Sent(log, provider, Requests, t, t + len) <= requests * (Windows(len, windowMs) + 1)
  {
    var q' := Configure(q, provider, tokens, requests, windowMs, now);
    IntervalBound(q', steps, provider, Tokens, now, t, len);
    IntervalBound(q', steps, provider, Requests, now, t, len);
  }

  /** A provider nobody configured is held to two million tokens and five thousand requests a minute. */
  lemma DefaultBound(q: Queue, provider: string, steps: seq<Step>, from: nat, t: nat, len: nat)
    requires provider !in q.buckets && Ordered(steps, from) && KeepsBudget(steps, provider)
    ensures Sent(Log(q, steps), provider, Tokens, t, t + len) <= 2_000_000 * (Windows(len, 60_000) + 1)
    ensures Sent(Log(q, steps), provider, Requests, t, t + len) <= 5_000 * (Windows(len, 60_000) + 1)
  {
    IntervalBound(q, steps, provider, Tokens, from, t, len);
    IntervalBound(q, steps, provider, Requests, from, t, len);
  }

  /** And is not held to less: its first request is admitted exactly if it fits those numbers and no strictly higher
      class waits. */
  lemma FirstRequestIff(q: Queue, r: Request, now: nat)
    requires r.provider !in q.buckets
    ensures AdmitQ(q, r, now).1.Admitted? <==>
      && r.estTokens <= 2_000_000
      && forall k :: k in q.waiters && q.waiters[k].provider == r.provider ==> k.rank >= r.priority.Rank()
    ensures AdmitQ(q, r, now).0.buckets[r.provider]
         == if AdmitQ(q, r, now).1.Admitted?
            then RateBucket(2_000_000 - r.estTokens, 4_999, now, 2_000_000, 5_000, 60_000)
            else RateBucket(2_000_000, 5_000, now, 2_000_000, 5_000, 60_000)
  {
    AdmittedIff(q, r, now);
  }
}
