/**
  * A bounded queue whose producers check the count before they take a lock, evict the oldest
  * items inside it and enqueue after releasing it, as a state machine over single steps.
  */
module BoundedQueue {

  /** Where a producer is in its call. */
  datatype Producer =
    | Idle
    | Checking(item: int)
    | Waiting(item: int)
    | Testing(item: int)
    | Evicting(item: int)
    | Ready(item: int)

  /** Whether a producer holds the lock. */
  predicate Holds(p: Producer) { p.Testing? || p.Evicting? }

  datatype State = State(
    capacity: nat,
    queue: seq<int>,
    producers: seq<Producer>,
    locked: bool,
    history: seq<int>,
    removed: nat)

  /** The steps: a call begins, and then runs through its atomic actions; consumers take items at any time. */
  datatype Action =
    | Begin(t: nat, item: int)
    | Check(t: nat)
    | Acquire(t: nat)
    | Test(t: nat)
    | Evict(t: nat)
    | Enqueue(t: nat)
    | Consume

  predicate Enabled(s: State, a: Action) {
    match a
    case Begin(t, _) => t < |s.producers| && s.producers[t].Idle?
    case Check(t) => t < |s.producers| && s.producers[t].Checking?
    case Acquire(t) => t < |s.producers| && s.producers[t].Waiting? && !s.locked
    case Test(t) => t < |s.producers| && s.producers[t].Testing?
    case Evict(t) => t < |s.producers| && s.producers[t].Evicting?
    case Enqueue(t) => t < |s.producers| && s.producers[t].Ready?
    case Consume => true
  }

  function SetProducer(s: State, t: nat, p: Producer): State
    requires t < |s.producers|
  {
    s.(producers := s.producers[t := p])
  }

  /** Taking the oldest item; an empty queue stays empty. */
  function Dequeue(s: State): State {
    if s.queue == [] then s else s.(queue := s.queue[1..], removed := s.removed + 1)
  }

  function Next(s: State, a: Action): State
    requires Enabled(s, a)
  {
    match a
    case Begin(t, item) => SetProducer(s, t, Checking(item))
    case Check(t) =>
      var item := s.producers[t].item;
      SetProducer(s, t, if |s.queue| >= s.capacity then Waiting(item) else Ready(item))
    case Acquire(t) => SetProducer(s, t, Testing(s.producers[t].item)).(locked := true)
    case Test(t) =>
      var item := s.producers[t].item;
      if |s.queue| >= s.capacity then SetProducer(s, t, Evicting(item))
      else SetProducer(s, t, Ready(item)).(locked := false)
    case Evict(t) => SetProducer(Dequeue(s), t, Testing(s.producers[t].item))
    case Enqueue(t) =>
      var item := s.producers[t].item;
      SetProducer(s, t, Idle).(queue := s.queue + [item], history := s.history + [item])
    case Consume => Dequeue(s)
  }

  /** A run: every step enabled in the state the steps before it lead to. */
  predicate Runs(s: State, acts: seq<Action>)
    decreases |acts|
  {
    acts == [] || (Enabled(s, acts[0]) && Runs(Next(s, acts[0]), acts[1..]))
  }

  function After(s: State, acts: seq<Action>): State
    requires Runs(s, acts)
    decreases |acts|
  {
    if acts == [] then s else After(Next(s, acts[0]), acts[1..])
  }

  function Start(capacity: nat, threads: nat, items: seq<int>): State {
    State(capacity, items, seq(threads, i => Idle), false, items, 0)
  }

  // ---------- The bound ----------

  function CountReady(ps: seq<Producer>): nat {
    if ps == [] then 0 else CountReady(ps[..|ps| - 1]) + if ps[|ps| - 1].Ready? then 1 else 0
  }

  lemma {:induction false} CountReadyAtMost(ps: seq<Producer>)
    ensures CountReady(ps) <= |ps|
  {
    if ps != [] {
      CountReadyAtMost(ps[..|ps| - 1]);
    }
  }

  lemma {:induction false} CountReadyUpdate(ps: seq<Producer>, t: nat, p: Producer)
    requires t < |ps|
    ensures CountReady(ps[t := p]) ==
            CountReady(ps) - (if ps[t].Ready? then 1 else 0) + if p.Ready? then 1 else 0
  {
    var n := |ps| - 1;
    if t == n {
      assert ps[t := p][..n] == ps[..n];
    } else {
      CountReadyUpdate(ps[..n], t, p);
      assert ps[t := p][..n] == ps[..n][t := p];
    }
  }

  /** The most the queue can hold: what it began with, or one more than its capacity per extra producer. */
  function Bound(capacity: nat, threads: nat, initial: nat): int {
    if initial > capacity + threads - 1 then initial else capacity + threads - 1
  }

  /** A producer that is about to enqueue counts as if it had. */
  predicate Within(s: State, threads: nat, initial: nat) {
    |s.producers| == threads && |s.queue| + CountReady(s.producers) <= Bound(s.capacity, threads, initial)
  }

  /** The contents are what was enqueued, in order, without the oldest items. */
  predicate Suffix(s: State) { s.removed <= |s.history| && s.queue == s.history[s.removed..] }

  /** The lock is taken exactly while one producer is inside. */
  predicate LockHeld(s: State) {
    && (forall t, u :: 0 <= t < u < |s.producers| ==> !(Holds(s.producers[t]) && Holds(s.producers[u])))
    && (s.locked <==> exists t :: 0 <= t < |s.producers| && Holds(s.producers[t]))
  }

  /** What every step keeps. */
  predicate Invariant(s: State, threads: nat, initial: nat) {
    Within(s, threads, initial) && Suffix(s) && LockHeld(s)
  }

  lemma {:induction false} StepWithin(s: State, a: Action, threads: nat, initial: nat)
    requires Within(s, threads, initial) && Enabled(s, a)
    ensures Within(Next(s, a), threads, initial) && Next(s, a).capacity == s.capacity
  {
    if !a.Consume? {
      var p := Next(s, a).producers[a.t];
      CountReadyUpdate(s.producers, a.t, p);
      CountReadyAtMost(s.producers[a.t := p]);
    }
  }

  lemma {:induction false} DequeueSuffix(s: State)
    requires Suffix(s)
    ensures Suffix(Dequeue(s))
  {
    if s.queue != [] {
      assert s.history[s.removed..][1..] == s.history[s.removed + 1..];
    }
  }

  lemma {:induction false} StepSuffix(s: State, a: Action)
    requires Suffix(s) && Enabled(s, a)
    ensures Suffix(Next(s, a))
  {
    DequeueSuffix(s);
    if a.Enqueue? {
      var item := s.producers[a.t].item;
      assert (s.history + [item])[s.removed..] == s.history[s.removed..] + [item];
    }
  }

  lemma {:induction false} StepLock(s: State, a: Action)
    requires LockHeld(s) && Enabled(s, a)
    ensures LockHeld(Next(s, a))
  {
    if !a.Consume? {
      var s', t := Next(s, a), a.t;
      assert forall u :: 0 <= u < |s.producers| && u != t ==> s'.producers[u] == s.producers[u];
      if Holds(s'.producers[t]) {
        assert s'.locked;
      } else if Holds(s.producers[t]) {
        assert !s'.locked;
      } else {
        assert s'.locked == s.locked;
        if s.locked {
          var u :| 0 <= u < |s.producers| && Holds(s.producers[u]);
          assert Holds(s'.producers[u]);
        }
      }
    }
  }

  lemma {:induction false} StartInvariant(capacity: nat, threads: nat, items: seq<int>)
    ensures Invariant(Start(capacity, threads, items), threads, |items|)
  {
    NoneReady(threads);
  }

  lemma {:induction false} NoneReady(threads: nat)
    ensures CountReady(seq(threads, i => Idle)) == 0
  {
    if threads > 0 {
      NoneReady(threads - 1);
      assert seq(threads, i => Idle)[..threads - 1] == seq(threads - 1, i => Idle);
    }
  }

  lemma {:induction false} RunKeeps(s: State, acts: seq<Action>, threads: nat, initial: nat)
    requires Invariant(s, threads, initial) && Runs(s, acts)
    ensures Invariant(After(s, acts), threads, initial) && After(s, acts).capacity == s.capacity
    decreases |acts|
  {
    if acts != [] {
      StepWithin(s, acts[0], threads, initial);
      StepSuffix(s, acts[0]);
      StepLock(s, acts[0]);
      RunKeeps(Next(s, acts[0]), acts[1..], threads, initial);
    }
  }

  /** Over every interleaving the count stays within the bound, and only the oldest items are gone. */
  lemma {:induction false} QueueIsBounded(capacity: nat, threads: nat, items: seq<int>, acts: seq<Action>)
    requires Runs(Start(capacity, threads, items), acts)
    ensures var s := After(Start(capacity, threads, items), acts);
            && |s.queue| <= Bound(capacity, threads, |items|)
            && s.removed <= |s.history| && s.queue == s.history[s.removed..]
  {
    StartInvariant(capacity, threads, items);
    RunKeeps(Start(capacity, threads, items), acts, threads, |items|);
  }

  /** A single producer never passes the capacity. */
  lemma {:induction false} SingleProducerIsBounded(capacity: nat, items: seq<int>, acts: seq<Action>)
    requires |items| <= capacity && Runs(Start(capacity, 1, items), acts)
    ensures |After(Start(capacity, 1, items), acts).queue| <= capacity
  {
    QueueIsBounded(capacity, 1, items, acts);
  }

  /** With no room at all a call never gets past its test, so nothing is ever enqueued. */
  lemma {:induction false} NoRoomStaysEmpty(s: State, acts: seq<Action>)
    requires s.capacity == 0 && s.queue == [] && CountReady(s.producers) == 0 && Runs(s, acts)
    ensures After(s, acts).queue == []
    decreases |acts|
  {
    if acts != [] {
      var a := acts[0];
      if !a.Consume? {
        if a.Enqueue? {
          ReadyIsCounted(s.producers, a.t);
        }
        CountReadyUpdate(s.producers, a.t, Next(s, a).producers[a.t]);
      }
      NoRoomStaysEmpty(Next(s, a), acts[1..]);
    }
  }

  lemma {:induction false} ReadyIsCounted(ps: seq<Producer>, t: nat)
    requires t < |ps| && ps[t].Ready?
    ensures CountReady(ps) > 0
  {
    if t < |ps| - 1 {
      ReadyIsCounted(ps[..|ps| - 1], t);
    }
  }

  // ---------- What is enqueued ----------

  lemma {:induction false} RunsLast(s: State, acts: seq<Action>)
    requires acts != [] && Runs(s, acts)
    ensures var front, a := acts[..|acts| - 1], acts[|acts| - 1];
            Runs(s, front) && Enabled(After(s, front), a) && After(s, acts) == Next(After(s, front), a)
    decreases |acts|
  {
    var front, a := acts[..|acts| - 1], acts[|acts| - 1];
    if |acts| == 1 {
      assert front == [] && acts[1..] == [];
      assert After(Next(s, a), []) == Next(s, a);
    } else {
      RunsLast(Next(s, acts[0]), acts[1..]);
      assert front[1..] == acts[1..][..|acts| - 2] && front[0] == acts[0];
    }
  }

  /** The item of the last call that a producer has begun. */
  function LastBegun(acts: seq<Action>, t: nat): int {
    if acts == [] then 0
    else
      var a := acts[|acts| - 1];
      if a.Begin? && a.t == t then a.item else LastBegun(acts[..|acts| - 1], t)
  }

  /** For every enqueue of a run, in order, the item its call began with. */
  function Called(acts: seq<Action>): seq<int> {
    if acts == [] then []
    else
      var front, a := acts[..|acts| - 1], acts[|acts| - 1];
      Called(front) + if a.Enqueue? then [LastBegun(front, a.t)] else []
  }

  /** A call keeps its item to the end, and what is enqueued is what was called for, in that order. */
  lemma {:induction false} EnqueuesWhatWasCalled(capacity: nat, threads: nat, items: seq<int>, acts: seq<Action>)
    requires Runs(Start(capacity, threads, items), acts)
    ensures var s := After(Start(capacity, threads, items), acts);
            && s.history == items + Called(acts)
            && forall t: nat :: t < |s.producers| && !s.producers[t].Idle? ==> s.producers[t].item == LastBegun(acts, t)
    decreases |acts|
  {
    var start := Start(capacity, threads, items);
    if acts == [] {
      assert items + [] == items;
    } else {
      var front, a := acts[..|acts| - 1], acts[|acts| - 1];
      RunsLast(start, acts);
      EnqueuesWhatWasCalled(capacity, threads, items, front);
      if a.Enqueue? {
        assert items + (Called(front) + [LastBegun(front, a.t)]) == items + Called(front) + [LastBegun(front, a.t)];
      } else {
        assert Called(front) + [] == Called(front);
      }
    }
  }

  // ---------- One producer on its own ----------

  /** How full the queue is at each point of a single producer's call, when nobody consumes. */
  predicate Filled(s: State) {
    && |s.producers| == 1 && s.capacity > 0
    && var n, all := |s.queue|, |s.history|;
       match s.producers[0]
       case Idle => n == Least(s.capacity, all)
       case Checking(_) => n == Least(s.capacity, all)
       case Waiting(_) => n == s.capacity <= all
       case Testing(_) => s.capacity - 1 <= n <= s.capacity <= all
       case Evicting(_) => n == s.capacity <= all
       case Ready(_) => n == Least(s.capacity - 1, all)
  }

  function Least(a: int, b: int): int { if a < b then a else b }

  lemma {:induction false} StepFills(s: State, a: Action)
    requires Filled(s) && Enabled(s, a) && !a.Consume?
    ensures Filled(Next(s, a))
  {
  }

  /** After every call of a single producer the queue holds the newest items, as many as its capacity allows. */
  lemma {:induction false} KeepsTheNewest(capacity: nat, items: seq<int>, acts: seq<Action>)
    requires |items| <= capacity && capacity > 0 && Runs(Start(capacity, 1, items), acts)
    requires forall k :: 0 <= k < |acts| ==> !acts[k].Consume?
    ensures var s := After(Start(capacity, 1, items), acts);
            && Filled(s)
            && (s.producers[0].Idle? ==>
                  s.queue == s.history[|s.history| - Least(capacity, |s.history|)..])
  {
    var start := Start(capacity, 1, items);
    RunFills(start, acts);
    StartInvariant(capacity, 1, items);
    RunKeeps(start, acts, 1, |items|);
  }

  lemma {:induction false} RunFills(s: State, acts: seq<Action>)
    requires Filled(s) && Runs(s, acts) && forall k :: 0 <= k < |acts| ==> !acts[k].Consume?
    ensures Filled(After(s, acts))
    decreases |acts|
  {
    if acts != [] {
      StepFills(s, acts[0]);
      RunFills(Next(s, acts[0]), acts[1..]);
    }
  }

  // ---------- Progress ----------

  /** Whoever waits for the lock waits for a producer that can move: some call can always go on. */
  lemma {:induction false} SomeCallProceeds(s: State, t: nat) returns (a: Action)
    requires LockHeld(s) && t < |s.producers| && !s.producers[t].Idle?
    ensures Enabled(s, a) && !a.Begin? && !a.Consume?
  {
    var p := s.producers[t];
    if p.Waiting? && s.locked {
      var u :| 0 <= u < |s.producers| && Holds(s.producers[u]);
      a := if s.producers[u].Testing? then Test(u) else Evict(u);
    } else {
      a := match p
        case Checking(_) => Check(t)
        case Waiting(_) => Acquire(t)
        case Testing(_) => Test(t)
        case Evicting(_) => Evict(t)
        case _ => Enqueue(t);
    }
  }

  // ---------- The bound is reached ----------

  lemma {:induction false} RunsConcat(s: State, acts: seq<Action>, more: seq<Action>)
    requires Runs(s, acts) && Runs(After(s, acts), more)
    ensures Runs(s, acts + more) && After(s, acts + more) == After(After(s, acts), more)
    decreases |acts|
  {
    if acts == [] {
      assert acts + more == more;
    } else {
      RunsConcat(Next(s, acts[0]), acts[1..], more);
      assert (acts + more)[0] == acts[0] && (acts + more)[1..] == acts[1..] + more;
    }
  }

  lemma {:induction false} RunsOne(s: State, a: Action)
    requires Enabled(s, a)
    ensures Runs(s, [a]) && After(s, [a]) == Next(s, a)
  {
    assert [a][1..] == [];
    assert Runs(Next(s, a), []) && After(Next(s, a), []) == Next(s, a);
  }

  lemma {:induction false} RunsTwo(s: State, a: Action, b: Action)
    requires Enabled(s, a) && Enabled(Next(s, a), b)
    ensures Runs(s, [a, b]) && After(s, [a, b]) == Next(Next(s, a), b)
  {
    RunsOne(s, a);
    RunsOne(Next(s, a), b);
    RunsConcat(s, [a], [b]);
    assert [a] + [b] == [a, b];
  }

  /** One producer alone, below capacity. */
  lemma {:induction false} EnqueueAlone(s: State) returns (acts: seq<Action>)
    requires |s.producers| > 0 && s.producers[0].Idle? && |s.queue| < s.capacity
    ensures Runs(s, acts) && After(s, acts) == s.(queue := s.queue + [0], history := s.history + [0])
  {
    var s2 := Next(Next(s, Begin(0, 0)), Check(0));
    assert s2.producers[0] == Ready(0);
    assert s2.producers[0 := Idle] == s.producers;
    RunsTwo(s, Begin(0, 0), Check(0));
    RunsOne(s2, Enqueue(0));
    RunsConcat(s, [Begin(0, 0), Check(0)], [Enqueue(0)]);
    acts := [Begin(0, 0), Check(0)] + [Enqueue(0)];
  }

  lemma {:induction false} FillAlone(s: State, n: nat) returns (acts: seq<Action>)
    requires |s.producers| > 0 && s.producers[0].Idle? && |s.queue| + n <= s.capacity
    ensures Runs(s, acts)
    ensures var r := After(s, acts);
            |r.queue| == |s.queue| + n && r.producers == s.producers && r.capacity == s.capacity
    decreases n
  {
    if n == 0 {
      acts := [];
    } else {
      var first := EnqueueAlone(s);
      var r := After(s, first);
      var rest := FillAlone(r, n - 1);
      RunsConcat(s, first, rest);
      acts := first + rest;
    }
  }

  /** The producers from `k` on look at the count before any of them enqueues. */
  lemma {:induction false} AllCheck(s: State, k: nat) returns (acts: seq<Action>)
    requires k <= |s.producers| && |s.queue| < s.capacity
    requires forall t :: k <= t < |s.producers| ==> s.producers[t].Idle?
    ensures Runs(s, acts)
    ensures var r := After(s, acts);
            && r.queue == s.queue && |r.producers| == |s.producers|
            && (forall t :: 0 <= t < k ==> r.producers[t] == s.producers[t])
            && forall t :: k <= t < |s.producers| ==> r.producers[t].Ready?
    decreases |s.producers| - k
  {
    if k == |s.producers| {
      acts := [];
    } else {
      var first := [Begin(k, 0), Check(k)];
      var s2 := Next(Next(s, Begin(k, 0)), Check(k));
      RunsTwo(s, Begin(k, 0), Check(k));
      var rest := AllCheck(s2, k + 1);
      RunsConcat(s, first, rest);
      acts := first + rest;
    }
  }

  lemma {:induction false} AllEnqueue(s: State, k: nat) returns (acts: seq<Action>)
    requires k <= |s.producers| && forall t :: k <= t < |s.producers| ==> s.producers[t].Ready?
    ensures Runs(s, acts) && |After(s, acts).queue| == |s.queue| + |s.producers| - k
    decreases |s.producers| - k
  {
    if k == |s.producers| {
      acts := [];
    } else {
      var s1 := Next(s, Enqueue(k));
      RunsOne(s, Enqueue(k));
      var rest := AllEnqueue(s1, k + 1);
      RunsConcat(s, [Enqueue(k)], rest);
      acts := [Enqueue(k)] + rest;
    }
  }

  /** From any queue with room for one, or with an item to take, some interleaving reaches the bound exactly. */
  lemma {:induction false} BoundIsReached(capacity: nat, threads: nat, items: seq<int>) returns (acts: seq<Action>)
    requires capacity > 0 && threads > 0 && |items| <= capacity
    ensures Runs(Start(capacity, threads, items), acts)
    ensures |After(Start(capacity, threads, items), acts).queue| == capacity + threads - 1
              == Bound(capacity, threads, |items|)
  {
    var s := Start(capacity, threads, items);
    var take := if |items| == capacity then [Consume] else [];
    RunsOne(s, Consume);
    var roomy := After(s, take);
    var fill := FillAlone(roomy, capacity - 1 - |roomy.queue|);
    var full := After(roomy, fill);
    var check := AllCheck(full, 0);
    var ready := After(full, check);
    var enqueue := AllEnqueue(ready, 0);
    RunsConcat(full, check, enqueue);
    RunsConcat(roomy, fill, check + enqueue);
    RunsConcat(s, take, fill + (check + enqueue));
    acts := take + (fill + (check + enqueue));
  }

  /** Whether no interleaving of the producers takes the count past the capacity. */
  ghost predicate NeverOver(capacity: nat, threads: nat, items: seq<int>) {
    var s := Start(capacity, threads, items);
    forall acts :: Runs(s, acts) ==> |After(s, acts).queue| <= capacity
  }

  /** The capacity is kept exactly by a single producer, and by a queue without room, into which nothing gets. */
  lemma {:induction false} NeverOverIff(capacity: nat, threads: nat, items: seq<int>)
    requires |items| <= capacity
    ensures NeverOver(capacity, threads, items) <==> threads <= 1 || capacity == 0
  {
    var s := Start(capacity, threads, items);
    if threads <= 1 || capacity == 0 {
      NoneReady(threads);
      forall acts | Runs(s, acts)
        ensures |After(s, acts).queue| <= capacity
      {
        if capacity == 0 {
          NoRoomStaysEmpty(s, acts);
        } else {
          QueueIsBounded(capacity, threads, items, acts);
        }
      }
    } else {
      var acts := BoundIsReached(capacity, threads, items);
      assert |After(s, acts).queue| > capacity;
    }
  }
}
