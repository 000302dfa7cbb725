/**
 The in-memory LLM admission queue: priority classes, fixed-window rate buckets, an ordered
 waiter map and the in-flight ledger, all changed under one mutex.

 Each critical section is a function from queue to queue; class LlmQueue runs it in place.
 Times are milliseconds passed in by the caller.
*/
module LlmQueue {
  import opened Common

  const DEFAULT_TOKENS_PER_WINDOW: nat := 2_000_000
  const DEFAULT_REQUESTS_PER_WINDOW: nat := 5_000
  const DEFAULT_WINDOW_MS: nat := 60_000

  datatype Priority = Lead | Worker | Background {
    function Rank(): nat {
      match this
      case Lead => 0
      case Worker => 1
      case Background => 2
    }
  }

  datatype RateBucket = RateBucket(tokensRemaining: nat, reqRemaining: nat, windowStart: nat,
                                   tokensPerWindow: nat, requestsPerWindow: nat, windowMs: nat) {
    function Refill(now: nat): RateBucket {
      if SatSub(now, windowStart) >= windowMs then
        this.(tokensRemaining := tokensPerWindow, reqRemaining := requestsPerWindow, windowStart := now)
      else this
    }

    function RetryAfter(now: nat): nat {
      Max(SatSub(windowMs, SatSub(now, windowStart)), 1)
    }

    predicate CanAdmit(estTokens: nat) {
      tokensRemaining >= estTokens && reqRemaining >= 1
    }

    function Debit(estTokens: nat): RateBucket {
      this.(tokensRemaining := SatSub(tokensRemaining, estTokens), reqRemaining := SatSub(reqRemaining, 1))
    }
  }

  function NewBucket(tokens: nat, requests: nat, windowMs: nat, now: nat): RateBucket {
    RateBucket(tokens, requests, now, tokens, requests, windowMs)
  }

  function DefaultBucket(now: nat): RateBucket {
    NewBucket(DEFAULT_TOKENS_PER_WINDOW, DEFAULT_REQUESTS_PER_WINDOW, DEFAULT_WINDOW_MS, now)
  }

  datatype Key = Key(rank: nat, ticket: nat)
  datatype Waiter = Waiter(provider: string, estTokens: nat, child: string)
  datatype InFlight = InFlight(provider: string, admittedAt: nat, ttlMs: nat)

  datatype Decision =
    | Admitted(tokensRemaining: nat)
    | Deferred(retryAfterMs: nat, tokensRemaining: nat, position: nat)

  datatype Request = Request(provider: string, priority: Priority, estTokens: nat, child: string, ttlMs: nat)

  datatype Queue = Queue(buckets: map<string, RateBucket>, waiters: map<Key, Waiter>,
                         inFlight: map<string, InFlight>, nextTicket: nat)

  // ---------- the ordered waiter map ----------

  predicate Before(a: Key, b: Key) {
    a.rank < b.rank || (a.rank == b.rank && a.ticket < b.ticket)
  }

  ghost predicate IsLeast(keys: set<Key>, k: Key) {
    k in keys && forall other :: other in keys && other != k ==> Before(k, other)
  }

  lemma LeastExists(keys: set<Key>) returns (k: Key)
    requires keys != {}
    ensures IsLeast(keys, k)
  {
    var any :| any in keys;
    k := any;
    if keys != {any} {
      var least := LeastExists(keys - {any});
      k := if Before(any, least) then any else least;
      forall other | other in keys && other != k
        ensures Before(k, other)
      {
        assert other == any || other in keys - {any};
      }
    }
  }

  /** The first key in map order. */
  function Least(keys: set<Key>): (k: Key)
    requires keys != {}
    ensures k in keys && forall other :: other in keys && other != k ==> Before(k, other)
  {
    assert exists k :: IsLeast(keys, k) by {
      var k := LeastExists(keys);
    }
    var k :| k in keys && forall other :: other in keys && other != k ==> Before(k, other);
    k
  }

  /** The first row of a child in map order. */
  function RowOf(waiters: map<Key, Waiter>, child: string): (r: Option<Key>)
    ensures r.Some? ==> r.value in waiters && waiters[r.value].child == child
    ensures r.None? <==> forall k :: k in waiters ==> waiters[k].child != child
  {
    var mine := set k | k in waiters && waiters[k].child == child;
    if mine == {} then
      assert forall k :: k in waiters && waiters[k].child == child ==> k in mine;
      None
    else Some(Least(mine))
  }

  function RemoveRow(waiters: map<Key, Waiter>, child: string): map<Key, Waiter> {
    var row := RowOf(waiters, child);
    if row.Some? then waiters - {row.value} else waiters
  }

  /** Rows of a provider in a strictly higher class. */
  function Higher(waiters: map<Key, Waiter>, provider: string, rank: nat): set<Key> {
    set k | k in waiters && k.rank < rank && waiters[k].provider == provider
  }

  /** Rows of a provider that come before a place in (class, ticket) order. */
  function AheadOf(waiters: map<Key, Waiter>, provider: string, place: Key): set<Key> {
    set k | k in waiters && waiters[k].provider == provider && Before(k, place)
  }

  // ---------- the critical sections ----------

  function Configure(q: Queue, provider: string, tokens: nat, requests: nat, windowMs: nat, now: nat): Queue {
    q.(buckets := q.buckets[provider := NewBucket(tokens, requests, windowMs, now)])
  }

  /** The provider's bucket as an admit at `now` sees it. */
  function Bucket(q: Queue, provider: string, now: nat): RateBucket {
    (if provider in q.buckets then q.buckets[provider] else DefaultBucket(now)).Refill(now)
  }

  function Enqueue(q: Queue, r: Request): (Queue, nat) {
    var rank := r.priority.Rank();
    var row := RowOf(q.waiters, r.child);
    var ticket := if row.Some? then row.value.ticket else q.nextTicket;
    var q' := if row.Some? then q
              else q.(waiters := q.waiters[Key(rank, ticket) := Waiter(r.provider, r.estTokens, r.child)],
                      nextTicket := Bump(q.nextTicket, U64_MAX));
    (q', Min(|AheadOf(q'.waiters, r.provider, Key(rank, ticket))|, U32_MAX))
  }

  function AdmitQ(q: Queue, r: Request, now: nat): (Queue, Decision) {
    var bucket := Bucket(q, r.provider, now);
    if bucket.CanAdmit(r.estTokens) && Min(|Higher(q.waiters, r.provider, r.priority.Rank())|, U32_MAX) == 0 then
      var debited := bucket.Debit(r.estTokens);
      (Queue(q.buckets[r.provider := debited], RemoveRow(q.waiters, r.child),
             q.inFlight[r.child := InFlight(r.provider, now, r.ttlMs)], q.nextTicket),
       Admitted(debited.tokensRemaining))
    else
      var (q', position) := Enqueue(q.(buckets := q.buckets[r.provider := bucket]), r);
      (q', Deferred(bucket.RetryAfter(now), bucket.tokensRemaining, position))
  }

  function ReleaseQ(q: Queue, child: string): Queue {
    q.(inFlight := q.inFlight - {child}, waiters := RemoveRow(q.waiters, child))
  }

  predicate Live(call: InFlight, now: nat) {
    SatSub(now, call.admittedAt) <= call.ttlMs
  }

  predicate HasInFlight(q: Queue, child: string, now: nat) {
    child in q.inFlight && Live(q.inFlight[child], now)
  }

  function SweepQ(q: Queue, now: nat): Queue {
    q.(inFlight := map child | child in q.inFlight && Live(q.inFlight[child], now) :: q.inFlight[child])
  }

  /** What a sweep reports: each call past its time to live, with the provider it was filed under. */
  function SweptCalls(q: Queue, now: nat): map<string, string> {
    map child | child in q.inFlight && !Live(q.inFlight[child], now) :: q.inFlight[child].provider
  }

  // ---------- the queue object ----------

  class LlmQueue {
    var buckets: map<string, RateBucket>
    var waiters: map<Key, Waiter>
    var inFlight: map<string, InFlight>
    var nextTicket: nat

    function Value(): Queue
      reads this
    {
      Queue(buckets, waiters, inFlight, nextTicket)
    }

    constructor ()
      ensures Value() == Queue(map[], map[], map[], 0)
    {
      buckets, waiters, inFlight, nextTicket := map[], map[], map[], 0;
    }

    method ConfigureProvider(provider: string, tokens: nat, requests: nat, windowMs: nat, now: nat)
      modifies this
      ensures Value() == Configure(old(Value()), provider, tokens, requests, windowMs, now)
    {
      buckets := buckets[provider := NewBucket(tokens, requests, windowMs, now)];
    }

    method Admit(r: Request, now: nat) returns (d: Decision)
      modifies this
      ensures (Value(), d) == AdmitQ(old(Value()), r, now)
    {
      if r.provider !in buckets {
        buckets := buckets[r.provider := DefaultBucket(now)];
      }
      buckets := buckets[r.provider := buckets[r.provider].Refill(now)];
      var canBudget := buckets[r.provider].CanAdmit(r.estTokens);
      var tokensRemaining := buckets[r.provider].tokensRemaining;
      var retryAfter := buckets[r.provider].RetryAfter(now);
      var ahead := Min(|Higher(waiters, r.provider, r.priority.Rank())|, U32_MAX);
      if canBudget && ahead == 0 {
        buckets := buckets[r.provider := buckets[r.provider].Debit(r.estTokens)];
        assert buckets == old(buckets)[r.provider := Bucket(old(Value()), r.provider, now).Debit(r.estTokens)];
        RemoveWaiterForChild(r.child);
        inFlight := inFlight[r.child := InFlight(r.provider, now, r.ttlMs)];
        return Admitted(buckets[r.provider].tokensRemaining);
      }
      assert Value() == old(Value()).(buckets := old(buckets)[r.provider := Bucket(old(Value()), r.provider, now)]);
      var position := EnqueueWaiter(r);
      d := Deferred(retryAfter, tokensRemaining, position);
    }

    method EnqueueWaiter(r: Request) returns (position: nat)
      modifies this
      ensures (Value(), position) == Enqueue(old(Value()), r)
    {
      var rank := r.priority.Rank();
      var row := RowOf(waiters, r.child);
      var ticket;
      if row.Some? {
        ticket := row.value.ticket;
      } else {
        ticket := nextTicket;
        nextTicket := Bump(nextTicket, U64_MAX);
        waiters := waiters[Key(rank, ticket) := Waiter(r.provider, r.estTokens, r.child)];
      }
      position := Min(|AheadOf(waiters, r.provider, Key(rank, ticket))|, U32_MAX);
    }

    method RemoveWaiterForChild(child: string)
      modifies this`waiters
      ensures waiters == RemoveRow(old(waiters), child)
    {
      var row := RowOf(waiters, child);
      if row.Some? {
        waiters := waiters - {row.value};
      }
    }

    method Release(child: string)
      modifies this
      ensures Value() == ReleaseQ(old(Value()), child)
    {
      inFlight := inFlight - {child};
      RemoveWaiterForChild(child);
    }

    method HasInFlightCall(child: string, now: nat) returns (b: bool)
      ensures b == HasInFlight(Value(), child, now)
    {
      b := child in inFlight && SatSub(now, inFlight[child].admittedAt) <= inFlight[child].ttlMs;
    }

    /** Drop the calls past their time to live; report each with its provider, once. */
    method SweepExpired(now: nat) returns (expired: map<string, string>)
      modifies this`inFlight
      ensures Value() == SweepQ(old(Value()), now) && expired == SweptCalls(old(Value()), now)
      ensures forall child :: child in expired <==> child in old(inFlight) && !Live(old(inFlight)[child], now)
      ensures forall child :: child in expired ==> expired[child] == old(inFlight)[child].provider
    {
      expired := map child | child in inFlight && SatSub(now, inFlight[child].admittedAt) > inFlight[child].ttlMs
                     :: inFlight[child].provider;
      ghost var before := inFlight;
      var todo := expired.Keys;
      while todo != {}
        invariant todo <= expired.Keys
        invariant inFlight == before - (expired.Keys - todo)
        decreases todo
      {
        var child :| child in todo;
        inFlight := inFlight - {child};
        assert expired.Keys - (todo - {child}) == (expired.Keys - todo) + {child};
        todo := todo - {child};
      }
    }
  }
}
