/**
 The worker pool and the hand-off of connection handlers as a transition system: the
 reactor thread (cci_daemon/src/procs/proc_ace_handler.cpp:221-295), the workers and
 the poison-pill shutdown (cci_daemon/src/procs/proc_ace_thread_pool.cpp:31-106).
 One action is one atomic step of one thread; a run is any interleaving of them. The
 message queue is an unbounded FIFO, the counter is atomic, and so are registering with
 and removing from the reactor. The idle timer is not running.
 */
module Pool {
  import opened Bytes

  type Handler = nat

  /** A message block: it carries a handler, or the null pointer that asks for shutdown. */
  datatype Item = Job(h: Handler) | Pill

  /** Where a worker stands in `svc`; `Leaving` is between the pill and the decrement of the counter. */
  datatype Worker = Outside | Waiting | Holding(h: Handler) | Leaving | Done

  /** Where `stop` stands. */
  datatype Stop = Running | Posting(left: nat) | Polling | Returned

  datatype State = State(
    registered: set<Handler>,
    transit: Option<Handler>,       // taken from the reactor by `handle_input`, not yet queued
    queue: seq<Item>,
    workers: seq<Worker>,
    counter: int,
    stop: Stop,
    // the history of the run
    accepted: set<Handler>,
    destroyed: multiset<Handler>,   // how often `delete this` ran
    enqueued: seq<Item>,
    taken: seq<Item>,
    takers: multiset<nat>,          // how many pills each worker took
    read: Option<int>)              // the counter as `stop` read it

  datatype Action =
    | Open(h: Handler)              // a connection is accepted and registered
    | Dispatch(h: Handler)          // the reactor calls `handle_input`, which removes the handler
    | Hand                          // and enqueues it
    | Enter(w: nat)                 // a worker starts `svc`
    | Take(w: nat)                  // `getq`
    | Keep(w: nat)                  // `process` went well: the handler is registered again
    | Close(w: nat)                 // `process` returned -1: `handle_close` destroys the handler
    | Exit(w: nat)                  // `svc` returns
    | Read                          // `stop` reads the counter
    | Post                          // `stop` enqueues one null block
    | Posted                        // the first loop of `stop` ends
    | Return                        // `stop` finds the counter at zero

  function Start(poolSize: nat): State {
    State({}, None, [], seq(poolSize, _ => Outside), 0, Running, {}, multiset{}, [], [], multiset{}, None)
  }

  predicate WorkerIs(s: State, w: nat, x: Worker) {
    w < |s.workers| && s.workers[w] == x
  }

  predicate Holds(s: State, w: nat) {
    w < |s.workers| && s.workers[w].Holding?
  }

  predicate Enabled(s: State, a: Action) {
    match a
    case Open(h) => s.transit == None && h !in s.accepted
    case Dispatch(h) => s.transit == None && h in s.registered
    case Hand => s.transit.Some?
    case Enter(w) => WorkerIs(s, w, Outside)
    case Take(w) => WorkerIs(s, w, Waiting) && s.queue != []
    case Keep(w) => Holds(s, w)
    case Close(w) => Holds(s, w)
    case Exit(w) => WorkerIs(s, w, Leaving)
    case Read => s.stop == Running
    case Post => s.stop.Posting? && s.stop.left > 0
    case Posted => s.stop == Posting(0)
    case Return => s.stop == Polling && s.counter == 0
  }

  function Enqueue(s: State, x: Item): State {
    s.(queue := s.queue + [x], enqueued := s.enqueued + [x])
  }

  function SetWorker(s: State, w: nat, x: Worker): State
    requires w < |s.workers|
  {
    s.(workers := s.workers[w := x])
  }

  function Next(s: State, a: Action): State
    requires Enabled(s, a)
  {
    match a
    case Open(h) => s.(accepted := s.accepted + {h}, registered := s.registered + {h})
    case Dispatch(h) => s.(registered := s.registered - {h}, transit := Some(h))
    case Hand => Enqueue(s, Job(s.transit.value)).(transit := None)
    case Enter(w) => SetWorker(s, w, Waiting).(counter := s.counter + 1)
    case Take(w) =>
      var x := s.queue[0];
      SetWorker(s, w, if x.Pill? then Leaving else Holding(x.h))
        .(queue := s.queue[1..], taken := s.taken + [x], takers := if x.Pill? then s.takers + multiset{w} else s.takers)
    case Keep(w) => SetWorker(s, w, Waiting).(registered := s.registered + {s.workers[w].h})
    case Close(w) =>
      var h := s.workers[w].h;
      SetWorker(s, w, Waiting).(registered := s.registered - {h}, destroyed := s.destroyed + multiset{h})
    case Exit(w) => SetWorker(s, w, Done).(counter := s.counter - 1)
    case Read => s.(stop := Posting(if s.counter > 0 then s.counter else 0), read := Some(s.counter))
    case Post => Enqueue(s, Pill).(stop := Posting(s.stop.left - 1))
    case Posted => s.(stop := Polling)
    case Return => s.(stop := Returned)
  }

  /** The actions can be taken one after the other. */
  predicate Possible(s: State, run: seq<Action>)
    decreases run
  {
    run != [] ==> Enabled(s, run[0]) && Possible(Next(s, run[0]), run[1..])
  }

  function After(s: State, run: seq<Action>): State
    requires Possible(s, run)
    decreases run
  {
    if run == [] then s else After(Next(s, run[0]), run[1..])
  }

  // ----- Counting -----

  function Total(ws: seq<Worker>, f: Worker -> int): int {
    if ws == [] then 0 else f(ws[0]) + Total(ws[1..], f)
  }

  function InsideOne(w: Worker): int { if w.Waiting? || w.Holding? || w.Leaving? then 1 else 0 }

  function GoneOne(w: Worker): int { if w.Leaving? || w.Done? then 1 else 0 }

  /** The workers between the increment and the decrement of the counter. */
  function Inside(ws: seq<Worker>): int { Total(ws, InsideOne) }

  /** The workers that have taken a pill. */
  function Gone(ws: seq<Worker>): int { Total(ws, GoneOne) }

  lemma {:induction false} TotalUpdate(ws: seq<Worker>, f: Worker -> int, i: nat, w: Worker)
    requires i < |ws|
    ensures Total(ws[i := w], f) == Total(ws, f) - f(ws[i]) + f(w)
  {
    if i == 0 {
      assert ws[0 := w][1..] == ws[1..];
    } else {
      assert ws[i := w][1..] == ws[1..][i - 1 := w];
      TotalUpdate(ws[1..], f, i - 1, w);
    }
  }

  /** A sum of zeros and ones reaches the length exactly when every worker counts. */
  lemma {:induction false} TotalBound(ws: seq<Worker>, f: Worker -> int)
    requires forall w :: 0 <= f(w) <= 1
    ensures 0 <= Total(ws, f) <= |ws|
    ensures Total(ws, f) == |ws| <==> forall i :: 0 <= i < |ws| ==> f(ws[i]) == 1
    ensures Total(ws, f) == 0 <==> forall i :: 0 <= i < |ws| ==> f(ws[i]) == 0
  {
    if ws == [] {
    } else {
      TotalBound(ws[1..], f);
      assert forall i :: 0 < i < |ws| ==> ws[i] == ws[1..][i - 1];
      assert forall i :: 0 <= i < |ws[1..]| ==> ws[1..][i] == ws[i + 1];
    }
  }

  function Pills(q: seq<Item>): nat {
    if q == [] then 0 else (if q[0].Pill? then 1 else 0) + Pills(q[1..])
  }

  lemma {:induction false} PillsConcat(a: seq<Item>, b: seq<Item>)
    ensures Pills(a + b) == Pills(a) + Pills(b)
  {
    if a == [] {
      assert a + b == b;
    } else {
      assert (a + b)[1..] == a[1..] + b;
      PillsConcat(a[1..], b);
    }
  }

  /** How many queued blocks carry the handler. */
  function JobsOf(q: seq<Item>, h: Handler): nat {
    if q == [] then 0 else (if q[0] == Job(h) then 1 else 0) + JobsOf(q[1..], h)
  }

  lemma {:induction false} JobsAppend(q: seq<Item>, x: Item, h: Handler)
    ensures JobsOf(q + [x], h) == JobsOf(q, h) + if x == Job(h) then 1 else 0
  {
    if q == [] {
      assert q + [x] == [x] && [x][1..] == [];
    } else {
      assert (q + [x])[1..] == q[1..] + [x];
      JobsAppend(q[1..], x, h);
    }
  }

  /** How many workers hold the handler. */
  function HoldersOf(ws: seq<Worker>, h: Handler): int { Total(ws, HoldsOne(h)) }

  function HoldsOne(h: Handler): Worker -> int { w => if w == Holding(h) then 1 else 0 }

  // ----- Ownership -----

  /** In how many places a handler is: the reactor, the reactor thread, the queue, the hands of a worker. */
  function PlacesOf(s: State, h: Handler): int {
    (if h in s.registered then 1 else 0) + (if s.transit == Some(h) then 1 else 0) + JobsOf(s.queue, h) + HoldersOf(s.workers, h)
  }

  /** Conservation: an accepted handler is in exactly one place or was destroyed, once; any other is nowhere. */
  ghost predicate OwnedOnce(s: State) {
    forall h :: PlacesOf(s, h) + s.destroyed[h] == if h in s.accepted then 1 else 0
  }

  lemma OwnershipReactor(s: State, a: Action, h: Handler)
    requires Enabled(s, a) && OwnedOnce(s) && (a.Open? || a.Dispatch? || a.Hand? || a.Post?)
    ensures var t := Next(s, a); PlacesOf(t, h) + t.destroyed[h] == if h in t.accepted then 1 else 0
  {
    assert PlacesOf(s, h) + s.destroyed[h] == if h in s.accepted then 1 else 0;
    TotalBound(s.workers, HoldsOne(h));
    match a
    case Hand => JobsAppend(s.queue, Job(s.transit.value), h);
    case Post => JobsAppend(s.queue, Pill, h);
    case _ =>
  }

  lemma OwnershipTaken(s: State, a: Action, h: Handler)
    requires Enabled(s, a) && OwnedOnce(s) && (a.Enter? || a.Take? || a.Exit?)
    ensures var t := Next(s, a); PlacesOf(t, h) + t.destroyed[h] == if h in t.accepted then 1 else 0
  {
    assert PlacesOf(s, h) + s.destroyed[h] == if h in s.accepted then 1 else 0;
    TotalUpdate(s.workers, HoldsOne(h), a.w, Next(s, a).workers[a.w]);
  }

  lemma OwnershipDone(s: State, a: Action, h: Handler)
    requires Enabled(s, a) && OwnedOnce(s) && (a.Keep? || a.Close?)
    ensures var t := Next(s, a); PlacesOf(t, h) + t.destroyed[h] == if h in t.accepted then 1 else 0
  {
    assert PlacesOf(s, h) + s.destroyed[h] == if h in s.accepted then 1 else 0;
    TotalUpdate(s.workers, HoldsOne(h), a.w, Waiting);
    HolderAlone(s, a.w);
  }

  lemma OwnershipStep(s: State, a: Action)
    requires Enabled(s, a) && OwnedOnce(s)
    ensures OwnedOnce(Next(s, a))
  {
    var t := Next(s, a);
    forall h ensures PlacesOf(t, h) + t.destroyed[h] == if h in t.accepted then 1 else 0 {
      if a.Open? || a.Dispatch? || a.Hand? || a.Post? {
        OwnershipReactor(s, a, h);
      } else if a.Enter? || a.Take? || a.Exit? {
        OwnershipTaken(s, a, h);
      } else if a.Keep? || a.Close? {
        OwnershipDone(s, a, h);
      } else {
        assert PlacesOf(t, h) == PlacesOf(s, h);
      }
    }
  }

  lemma {:induction false} HeldOnce(ws: seq<Worker>, i: nat, h: Handler)
    requires i < |ws| && ws[i] == Holding(h)
    ensures HoldersOf(ws, h) >= 1
    ensures forall j :: 0 <= j < |ws| && j != i && ws[j] == Holding(h) ==> HoldersOf(ws, h) >= 2
  {
    TotalBound(ws, HoldsOne(h));
    var ws' := ws[i := Done];
    TotalUpdate(ws, HoldsOne(h), i, Done);
    TotalBound(ws', HoldsOne(h));
    assert forall j :: 0 <= j < |ws| && j != i && ws[j] == Holding(h) ==> HoldsOne(h)(ws'[j]) == 1;
  }

  /** What a worker holds is nowhere else. */
  lemma HolderAlone(s: State, w: nat)
    requires Holds(s, w) && OwnedOnce(s)
    ensures var h := s.workers[w].h;
      h in s.accepted && h !in s.registered && s.transit != Some(h) && JobsOf(s.queue, h) == 0 && h !in s.destroyed && HoldersOf(s.workers, h) == 1
  {
    var h := s.workers[w].h;
    HeldOnce(s.workers, w, h);
    assert PlacesOf(s, h) + s.destroyed[h] == if h in s.accepted then 1 else 0;
  }

  // ----- The invariant -----

  function Left(stop: Stop): nat {
    if stop.Posting? then stop.left else 0
  }

  /** The last block taken was a job. */
  predicate LastIsJob(taken: seq<Item>) {
    taken != [] && taken[|taken| - 1].Job?
  }

  ghost predicate Counted(s: State) {
    && s.counter == Inside(s.workers)
    && Gone(s.workers) == Pills(s.taken)
    && (LastIsJob(s.taken) ==> Gone(s.workers) < |s.workers|)
  }

  /** Each worker has taken as many pills as it has left for: one or none. */
  ghost predicate OnePillEach(s: State) {
    forall w: nat :: s.takers[w] == if w < |s.workers| then GoneOne(s.workers[w]) else 0
  }

  /** The queue is what was enqueued and not yet taken, and `stop` posts as many pills as it read. */
  ghost predicate Ordered(s: State) {
    && s.taken + s.queue == s.enqueued
    && (s.stop == Running ==> s.read == None && Pills(s.enqueued) == 0)
    && (s.stop != Running ==> s.read.Some? && Pills(s.enqueued) + Left(s.stop) == s.read.value)
  }

  /** Had all workers started when the counter was read, none is outside later. */
  ghost predicate Started(s: State) {
    s.read.Some? ==>
      && s.read.value <= |s.workers|
      && (s.read.value == |s.workers| ==> forall i :: 0 <= i < |s.workers| ==> s.workers[i] != Outside)
  }

  ghost predicate Inv(s: State) {
    OwnedOnce(s) && Counted(s) && OnePillEach(s) && Ordered(s) && Started(s)
  }

  lemma WorkerStep(s: State, w: nat, x: Worker)
    requires w < |s.workers|
    ensures Inside(s.workers[w := x]) == Inside(s.workers) - InsideOne(s.workers[w]) + InsideOne(x)
    ensures Gone(s.workers[w := x]) == Gone(s.workers) - GoneOne(s.workers[w]) + GoneOne(x)
  {
    TotalUpdate(s.workers, InsideOne, w, x);
    TotalUpdate(s.workers, GoneOne, w, x);
  }

  lemma CountedStep(s: State, a: Action)
    requires Enabled(s, a) && Counted(s)
    ensures Counted(Next(s, a))
  {
    match a
    case Enter(w) => WorkerStep(s, w, Waiting);
    case Take(w) =>
      var x := s.queue[0];
      var y := if x.Pill? then Leaving else Holding(x.h);
      WorkerStep(s, w, y);
      PillsConcat(s.taken, [x]);
      assert [x][1..] == [];
      TotalBound(s.workers[w := y], GoneOne);
      assert s.workers[w := y][w] == y;
    case Keep(w) => WorkerStep(s, w, Waiting);
    case Close(w) => WorkerStep(s, w, Waiting);
    case Exit(w) => WorkerStep(s, w, Done);
    case _ =>
  }

  lemma TakersStep(s: State, a: Action)
    requires Enabled(s, a) && OnePillEach(s)
    ensures OnePillEach(Next(s, a))
  {
  }

  lemma OrderedStep(s: State, a: Action)
    requires Enabled(s, a) && Ordered(s) && Counted(s)
    ensures Ordered(Next(s, a))
  {
    match a
    case Hand =>
      PillsConcat(s.enqueued, [Job(s.transit.value)]);
      assert [Job(s.transit.value)][1..] == [];
      assert s.taken + s.queue + [Job(s.transit.value)] == s.taken + (s.queue + [Job(s.transit.value)]);
    case Take(w) =>
      assert s.taken + [s.queue[0]] + s.queue[1..] == s.taken + s.queue;
    case Read =>
      TotalBound(s.workers, InsideOne);
    case Post =>
      PillsConcat(s.enqueued, [Pill]);
      assert [Pill][1..] == [];
      assert s.taken + s.queue + [Pill] == s.taken + (s.queue + [Pill]);
    case _ =>
  }

  lemma StartedStep(s: State, a: Action)
    requires Enabled(s, a) && Started(s) && Counted(s)
    ensures Started(Next(s, a))
  {
    if a == Read {
      TotalBound(s.workers, InsideOne);
    }
  }

  lemma StepKeeps(s: State, a: Action)
    requires Enabled(s, a) && Inv(s)
    ensures Inv(Next(s, a)) && |Next(s, a).workers| == |s.workers|
  {
    OwnershipStep(s, a);
    CountedStep(s, a);
    TakersStep(s, a);
    OrderedStep(s, a);
    StartedStep(s, a);
  }

  lemma {:induction false} RunKeeps(s: State, run: seq<Action>)
    requires Possible(s, run) && Inv(s)
    ensures Inv(After(s, run)) && |After(s, run).workers| == |s.workers|
    decreases run
  {
    if run == [] {
    } else {
      StepKeeps(s, run[0]);
      RunKeeps(Next(s, run[0]), run[1..]);
    }
  }

  lemma {:induction false} AllOutside(n: nat, f: Worker -> int)
    requires f(Outside) == 0
    ensures Total(seq(n, _ => Outside), f) == 0
  {
    if n == 0 {
    } else {
      assert seq(n, _ => Outside)[1..] == seq(n - 1, _ => Outside);
      AllOutside(n - 1, f);
    }
  }

  lemma StartInv(poolSize: nat)
    ensures Inv(Start(poolSize))
  {
    AllOutside(poolSize, InsideOne);
    AllOutside(poolSize, GoneOne);
    forall h ensures PlacesOf(Start(poolSize), h) == 0 {
      AllOutside(poolSize, HoldsOne(h));
    }
  }

  /** The invariant holds in every state of every run. */
  lemma Reachable(poolSize: nat, run: seq<Action>)
    requires Possible(Start(poolSize), run)
    ensures Inv(After(Start(poolSize), run)) && |After(Start(poolSize), run).workers| == poolSize
  {
    StartInv(poolSize);
    RunKeeps(Start(poolSize), run);
  }

  // ----- What the ownership law says -----

  /**
   In every state of every run: a handler that was accepted and not destroyed is in exactly
   one place, one that was destroyed is in none and was destroyed once, and no two workers
   run `process` on the same handler.
   */
  lemma Ownership(poolSize: nat, run: seq<Action>, h: Handler)
    requires Possible(Start(poolSize), run)
    ensures var s := After(Start(poolSize), run);
      && (h in s.accepted && h !in s.destroyed ==> PlacesOf(s, h) == 1)
      && (h in s.destroyed || h !in s.accepted ==> PlacesOf(s, h) == 0)
      && s.destroyed[h] <= 1
      && forall v: nat, w: nat :: WorkerIs(s, v, Holding(h)) && WorkerIs(s, w, Holding(h)) ==> v == w
  {
    Reachable(poolSize, run);
    var s := After(Start(poolSize), run);
    assert PlacesOf(s, h) + s.destroyed[h] == if h in s.accepted then 1 else 0;
    TotalBound(s.workers, HoldsOne(h));
    forall v: nat, w: nat | WorkerIs(s, v, Holding(h)) && WorkerIs(s, w, Holding(h)) ensures v == w {
      HeldOnce(s.workers, v, h);
    }
  }

  // ----- How a handler ends -----

  /** `process` went well: the handler is registered again and alive, and the worker waits for the next block. */
  lemma KeptAlive(s: State, w: nat)
    requires Inv(s) && Holds(s, w)
    ensures Enabled(s, Keep(w)) && WorkerIs(Next(s, Keep(w)), w, Waiting) && Next(s, Keep(w)).destroyed == s.destroyed
    ensures s.workers[w].h in Next(s, Keep(w)).registered && s.workers[w].h !in Next(s, Keep(w)).destroyed
  {
    HolderAlone(s, w);
  }

  /** `process` failed: the handler is destroyed, for the first time, and nowhere any more. */
  lemma ClosedForGood(s: State, w: nat)
    requires Inv(s) && Holds(s, w)
    ensures Enabled(s, Close(w)) && WorkerIs(Next(s, Close(w)), w, Waiting)
    ensures Next(s, Close(w)).destroyed == s.destroyed + multiset{s.workers[w].h}
    ensures Next(s, Close(w)).destroyed[s.workers[w].h] == 1 && PlacesOf(Next(s, Close(w)), s.workers[w].h) == 0
  {
    HolderAlone(s, w);
    var h, t := s.workers[w].h, Next(s, Close(w));
    StepKeeps(s, Close(w));
    assert PlacesOf(t, h) + t.destroyed[h] == if h in t.accepted then 1 else 0;
    TotalBound(t.workers, HoldsOne(h));
  }

  /** At step `k` of the run, `process` fails on the handler. */
  ghost predicate FailsAt(s: State, run: seq<Action>, k: nat, h: Handler)
    requires Possible(s, run)
    decreases run
  {
    run != [] && if k == 0 then run[0].Close? && s.workers[run[0].w] == Holding(h) else FailsAt(Next(s, run[0]), run[1..], k - 1, h)
  }

  /** Only a handler on which `process` failed is destroyed. */
  lemma {:induction false} DestroyedByFailure(s: State, run: seq<Action>, h: Handler)
    requires Possible(s, run) && h !in s.destroyed
    ensures h in After(s, run).destroyed <==> Fails(s, run, h)
    decreases run
  {
    if run == [] {
    } else {
      var t := Next(s, run[0]);
      FailsLater(s, run, h);
      if h in t.destroyed {
        assert FailsAt(s, run, 0, h);
        DestroyedStays(t, run[1..], h);
      } else {
        DestroyedByFailure(t, run[1..], h);
        assert !FailsAt(s, run, 0, h);
      }
    }
  }

  /** `process` fails on the handler somewhere in the run. */
  ghost predicate Fails(s: State, run: seq<Action>, h: Handler)
    requires Possible(s, run)
  {
    exists k: nat :: FailsAt(s, run, k, h)
  }

  /** The first step, or a later one. */
  lemma FailsLater(s: State, run: seq<Action>, h: Handler)
    requires Possible(s, run) && run != []
    ensures Fails(s, run, h) <==> FailsAt(s, run, 0, h) || Fails(Next(s, run[0]), run[1..], h)
  {
    var t := Next(s, run[0]);
    if Fails(s, run, h) {
      var k: nat :| FailsAt(s, run, k, h);
      if k > 0 {
        assert FailsAt(t, run[1..], k - 1, h);
      }
    }
    if Fails(t, run[1..], h) {
      var k: nat :| FailsAt(t, run[1..], k, h);
      assert FailsAt(s, run, k + 1, h);
    }
  }

  lemma {:induction false} DestroyedStays(s: State, run: seq<Action>, h: Handler)
    requires Possible(s, run) && h in s.destroyed
    ensures h in After(s, run).destroyed
    decreases run
  {
    if run == [] {
    } else {
      DestroyedStays(Next(s, run[0]), run[1..], h);
    }
  }

  // ----- Shutdown -----

  /** The steps of the workers and of `stop` behind the reading of the counter. */
  predicate Internal(a: Action) {
    a.Enter? || a.Take? || a.Keep? || a.Close? || a.Exit? || a.Post? || a.Posted? || a.Return?
  }

  /** No worker can do anything, and `stop` neither. */
  ghost predicate Quiescent(s: State) {
    forall a :: Internal(a) ==> !Enabled(s, a)
  }

  predicate AllDone(s: State) {
    forall i :: 0 <= i < |s.workers| ==> s.workers[i] == Done
  }

  predicate SomeWaiting(s: State) {
    exists i :: 0 <= i < |s.workers| && s.workers[i] == Waiting
  }

  lemma QuiescentWorkers(s: State)
    requires Quiescent(s)
    ensures forall i :: 0 <= i < |s.workers| ==> s.workers[i] == Done || (s.workers[i] == Waiting && s.queue == [])
    ensures !s.stop.Posting?
    ensures s.stop == Polling ==> s.counter != 0
  {
    forall i | 0 <= i < |s.workers| ensures s.workers[i] == Done || (s.workers[i] == Waiting && s.queue == []) {
      assert !Enabled(s, Enter(i)) && !Enabled(s, Take(i)) && !Enabled(s, Keep(i)) && !Enabled(s, Exit(i));
    }
    assert !Enabled(s, Post) && !Enabled(s, Posted) && !Enabled(s, Return);
  }

  /**
   When `stop` was called and nothing moves any more, all workers have left exactly when
   the counter that `stop` read was the number of workers, that is, when all had
   entered `svc` by then. In that case `stop` has returned.
   */
  lemma AllExitExactly(poolSize: nat, run: seq<Action>)
    requires Possible(Start(poolSize), run)
    requires var s := After(Start(poolSize), run); s.read.Some? && Quiescent(s)
    ensures var s := After(Start(poolSize), run); AllDone(s) <==> s.read.value == poolSize
    ensures var s := After(Start(poolSize), run); AllDone(s) ==> s.stop == Returned
  {
    Reachable(poolSize, run);
    var s := After(Start(poolSize), run);
    QuiescentWorkers(s);
    TotalBound(s.workers, GoneOne);
    TotalBound(s.workers, InsideOne);
    PillsConcat(s.taken, s.queue);
    if SomeWaiting(s) {
      assert s.taken + [] == s.taken;
    } else {
      assert AllDone(s);
    }
  }

  /**
   Had all workers entered before `stop` read the counter, `stop` returns only when all have
   left; each took one pill, and they took, in order, all blocks up to the last pill. Only
   what was enqueued behind it is left in the queue.
   */
  lemma StopReturns(poolSize: nat, run: seq<Action>)
    requires poolSize > 0 && Possible(Start(poolSize), run)
    requires var s := After(Start(poolSize), run); s.stop == Returned && s.read == Some(poolSize)
    ensures var s := After(Start(poolSize), run);
      && s.taken + s.queue == s.enqueued && Pills(s.taken) == poolSize
      && s.taken != [] && s.taken[|s.taken| - 1] == Pill && Pills(s.queue) == 0
  {
    Reachable(poolSize, run);
    var s := After(Start(poolSize), run);
    ReturnedEmpty(poolSize, run);
    TotalBound(s.workers, InsideOne);
    TotalBound(s.workers, GoneOne);
    PillsConcat(s.taken, s.queue);
  }

  /** `stop` returns with the counter at zero, and it does not rise again if no worker is outside. */
  lemma ReturnedEmpty(poolSize: nat, run: seq<Action>)
    requires Possible(Start(poolSize), run)
    requires var s := After(Start(poolSize), run); s.stop == Returned && s.read == Some(poolSize)
    ensures var s := After(Start(poolSize), run); s.counter == 0 && AllDone(s)
  {
    StartInv(poolSize);
    ReturnedRun(Start(poolSize), run);
    Reachable(poolSize, run);
    var s := After(Start(poolSize), run);
    TotalBound(s.workers, InsideOne);
  }

  ghost predicate ReturnedWell(s: State) {
    s.stop == Returned && s.read == Some(|s.workers|) ==> s.counter == 0
  }

  lemma {:induction false} ReturnedRun(s: State, run: seq<Action>)
    requires Possible(s, run) && Inv(s) && ReturnedWell(s)
    ensures ReturnedWell(After(s, run))
    decreases run
  {
    if run == [] {
    } else {
      StepKeeps(s, run[0]);
      ReturnedStep(s, run[0]);
      ReturnedRun(Next(s, run[0]), run[1..]);
    }
  }

  lemma ReturnedStep(s: State, a: Action)
    requires Enabled(s, a) && Inv(s) && ReturnedWell(s)
    ensures ReturnedWell(Next(s, a))
  {
    if s.stop == Returned && s.read == Some(|s.workers|) {
      TotalBound(s.workers, InsideOne);
    }
  }

  // ----- Progress -----

  function WorkerWork(w: Worker): int {
    match w
    case Outside => 2
    case Waiting => 1
    case Holding(_) => 2
    case Leaving => 1
    case Done => 0
  }

  function StopWork(stop: Stop): nat {
    match stop
    case Running => 0
    case Posting(left) => 3 * left + 2
    case Polling => 1
    case Returned => 0
  }

  /** The work that is left without new connections and new input. */
  function Measure(s: State): int {
    Total(s.workers, WorkerWork) + 2 * |s.queue| + StopWork(s.stop)
  }

  lemma {:induction false} WorkNonNegative(ws: seq<Worker>)
    ensures Total(ws, WorkerWork) >= 0
  {
    if ws == [] {
    } else {
      WorkNonNegative(ws[1..]);
    }
  }

  lemma WorkerDecreases(s: State, a: Action)
    requires Enabled(s, a) && (a.Enter? || a.Take? || a.Keep? || a.Close? || a.Exit?)
    ensures Measure(Next(s, a)) < Measure(s)
  {
    TotalUpdate(s.workers, WorkerWork, a.w, Next(s, a).workers[a.w]);
  }

  lemma StopDecreases(s: State, a: Action)
    requires Enabled(s, a) && (a.Post? || a.Posted? || a.Return?)
    ensures Measure(Next(s, a)) < Measure(s)
  {
  }

  lemma InternalDecreases(s: State, a: Action)
    requires Enabled(s, a) && Internal(a)
    ensures Measure(Next(s, a)) < Measure(s)
  {
    hide Measure, Next, Enabled;
    if a.Post? || a.Posted? || a.Return? {
      StopDecreases(s, a);
    } else {
      WorkerDecreases(s, a);
    }
  }

  /** Without the reactor thread every run ends: it has no more steps than the measure says. */
  lemma {:induction false} InternalRunEnds(s: State, run: seq<Action>)
    requires Possible(s, run) && forall i :: 0 <= i < |run| ==> Internal(run[i])
    ensures |run| + Measure(After(s, run)) <= Measure(s) && Measure(After(s, run)) >= 0
    decreases run
  {
    WorkNonNegative(s.workers);
    if run == [] {
    } else {
      InternalDecreases(s, run[0]);
      InternalRunEnds(Next(s, run[0]), run[1..]);
    }
  }

  /**
   The shutdown as a whole: all workers entered, nobody enqueues behind the pills and the reactor
   is quiet. Then any run of the workers and of `stop` that cannot go on has dispatched every
   handler that was queued, in order, and each worker has taken one pill; the queue is empty, all workers
   are done and `stop` has returned.
   */
  lemma Shutdown(poolSize: nat, before: seq<Action>, run: seq<Action>)
    requires poolSize > 0 && Possible(Start(poolSize), before)
    requires var s := After(Start(poolSize), before); s.stop == Posting(poolSize) && Possible(s, run)
    requires forall i :: 0 <= i < |run| ==> Internal(run[i])
    requires Quiescent(After(After(Start(poolSize), before), run))
    ensures var s := After(Start(poolSize), before); var t := After(s, run);
      && t.taken == s.taken + s.queue + seq(poolSize, _ => Pill)
      && (forall w: nat :: t.takers[w] == if w < poolSize then 1 else 0)
      && t.queue == [] && AllDone(t) && t.stop == Returned && t.counter == 0
  {
    hide Inv, Enabled, Next, Start;
    var s := After(Start(poolSize), before);
    var t := After(s, run);
    Reachable(poolSize, before);
    AfterConcat(Start(poolSize), before, run);
    Reachable(poolSize, before + run);
    PillsOnly(s, run);
    CountRead(s, poolSize);
    assert t.read == Some(poolSize);
    AllExitExactly(poolSize, before + run);
    StopReturns(poolSize, before + run);
    ReturnedEmpty(poolSize, before + run);
    assert Left(t.stop) == 0 && Left(s.stop) == poolSize;
    LastPill(s.enqueued, poolSize, t.taken, t.queue);
    PillsTaken(t);
  }

  /** Before the first pill is posted, `stop` has as many to post as it read. */
  lemma CountRead(s: State, n: nat)
    requires Inv(s) && s.stop == Posting(n) && n == |s.workers|
    ensures s.read == Some(n) && Pills(s.enqueued) == 0 && s.taken + s.queue == s.enqueued
  {
  }

  lemma PillsTaken(t: State)
    requires Inv(t) && AllDone(t)
    ensures forall w: nat :: t.takers[w] == if w < |t.workers| then 1 else 0
  {
  }

  lemma {:induction false} AfterConcat(s: State, a: seq<Action>, b: seq<Action>)
    requires Possible(s, a) && Possible(After(s, a), b)
    ensures Possible(s, a + b) && After(s, a + b) == After(After(s, a), b)
    decreases a
  {
    if a == [] {
      assert a + b == b;
    } else {
      assert (a + b)[1..] == a[1..] + b;
      AfterConcat(Next(s, a[0]), a[1..], b);
    }
  }

  /** Without the reactor thread only pills are enqueued, and the reading of the counter stays. */
  lemma {:induction false} PillsOnly(s: State, run: seq<Action>)
    requires s.stop.Posting? || s.stop == Polling || s.stop == Returned
    requires Possible(s, run) && forall i :: 0 <= i < |run| ==> Internal(run[i])
    ensures var t := After(s, run);
      && t.read == s.read && Left(t.stop) <= Left(s.stop)
      && t.enqueued == s.enqueued + seq(Left(s.stop) - Left(t.stop), _ => Pill)
      && (t.stop.Posting? || t.stop == Polling || t.stop == Returned)
    decreases run
  {
    if run == [] {
    } else {
      var s' := Next(s, run[0]);
      PillsOnly(s', run[1..]);
      var t := After(s, run);
      if run[0] == Post {
        assert [Pill] + seq(Left(s'.stop) - Left(t.stop), _ => Pill) == seq(Left(s.stop) - Left(t.stop), _ => Pill);
        assert s.enqueued + [Pill] + seq(Left(s'.stop) - Left(t.stop), _ => Pill)
            == s.enqueued + ([Pill] + seq(Left(s'.stop) - Left(t.stop), _ => Pill));
      }
    }
  }

  /** A queue without pills behind everything taken is empty, if pills were enqueued last. */
  lemma LastPill(earlier: seq<Item>, n: nat, taken: seq<Item>, queue: seq<Item>)
    requires n > 0 && taken + queue == earlier + seq(n, _ => Pill) && Pills(queue) == 0
    ensures queue == []
  {
    if queue != [] {
      assert (taken + queue)[|taken + queue| - 1] == queue[|queue| - 1];
      assert (earlier + seq(n, _ => Pill))[|earlier| + n - 1] == Pill;
      assert queue == queue[..|queue| - 1] + [Pill];
      PillsConcat(queue[..|queue| - 1], [Pill]);
    }
  }

  // ----- What goes wrong for a worker that starts late -----

  /** One of two workers starts after `stop` has read the counter: `stop` returns, and the worker waits for ever. */
  lemma LateWorkerStays()
    ensures var run := [Enter(0), Read, Post, Posted] + [Take(0), Exit(0), Return, Enter(1)];
      Possible(Start(2), run)
      && var s := After(Start(2), run); s.stop == Returned && s.workers == [Done, Waiting] && s.queue == [] && s.counter == 1
  {
    LateStop();
    LateEnter();
    assert [Take(0), Exit(0)] + [Return, Enter(1)] == [Take(0), Exit(0), Return, Enter(1)];
    AfterConcat(Start(2), [Enter(0), Read, Post, Posted], [Take(0), Exit(0), Return, Enter(1)]);
  }

  /** The state after `stop` has posted the only pill. */
  function OnePill(): State {
    State({}, None, [Pill], [Waiting, Outside], 1, Polling, {}, multiset{}, [Pill], [], multiset{}, Some(1))
  }

  lemma LateStop()
    ensures Reaches(Start(2), [Enter(0), Read, Post, Posted], OnePill())
  {
    var s0 := Start(2);
    assert s0.workers == [Outside, Outside];
    var s1 := Next(s0, Enter(0));
    assert s1.workers == [Waiting, Outside];
    var s2 := Next(s1, Read);
    var s3 := Next(s2, Post);
    assert s3.queue == [Pill] && s3.enqueued == [Pill];
    FirstThen(s3, Posted, [], OnePill());
    FirstThen(s2, Post, [Posted], OnePill());
    FirstThen(s1, Read, [Post, Posted], OnePill());
    FirstThen(s0, Enter(0), [Read, Post, Posted], OnePill());
  }

  lemma LateEnter()
    ensures Reaches(OnePill(), [Take(0), Exit(0)] + [Return, Enter(1)], LastOutside().(stop := Returned, workers := [Done, Waiting], counter := 1))
  {
    var s0 := OnePill();
    var s1 := Next(s0, Take(0));
    assert s1.workers == [Leaving, Outside] && s1.queue == [] && s1.taken == [Pill];
    assert Next(s1, Exit(0)).workers == [Done, Outside];
    FirstThen(s1, Exit(0), [], LastOutside());
    FirstThen(s0, Take(0), [Exit(0)], LastOutside());
    LateLast();
    AfterConcat(s0, [Take(0), Exit(0)], [Return, Enter(1)]);
  }

  function LastOutside(): State {
    State({}, None, [], [Done, Outside], 0, Polling, {}, multiset{}, [Pill], [Pill], multiset{0}, Some(1))
  }

  lemma LateLast()
    ensures Reaches(LastOutside(), [Return, Enter(1)], LastOutside().(stop := Returned, workers := [Done, Waiting], counter := 1))
  {
    var s3 := Next(LastOutside(), Return);
    var s4 := Next(s3, Enter(1));
    assert s4.workers == [Done, Waiting];
    FirstThen(s3, Enter(1), [], s4);
    FirstThen(LastOutside(), Return, [Enter(1)], s4);
  }

  lemma FirstThen(s: State, a: Action, run: seq<Action>, t: State)
    requires Enabled(s, a) && Reaches(Next(s, a), run, t)
    ensures Reaches(s, [a] + run, t)
  {
    assert ([a] + run)[1..] == run;
  }

  ghost predicate Reaches(s: State, run: seq<Action>, t: State) {
    Possible(s, run) && After(s, run) == t
  }
}
