/** The job queue's two threads, as atomic steps: one per critical section, pipe operation or free.
    Every interleaving of the steps is a run. */
module JobProtocol {

  type Job = nat

  /** Where the worker thread is. */
  datatype Worker =
    | Ready              // about to lock and look for a job
    | Waiting            // asleep on the condition variable
    | Running(job: Job)
    | Finished(job: Job) // executed, not yet on the done list
    | Notifying          // on the done list, the byte not yet written
    | Exited

  /** Where the main thread is: in its event loop, in notify_cb, or in jobqueue_shutdown. */
  datatype Main = Idle | Draining | Freeing(batch: seq<Job>) | Joining | FreeingPending | FreeingDone | Closed

  datatype State = State(
    cap: nat,            // bytes the pipe holds
    pending: seq<Job>,
    done: seq<Job>,      // newest first
    running: bool,
    pipe: nat,
    worker: Worker,
    main: Main,
    submitted: seq<Job>, // the rest is history
    executed: seq<Job>,
    completed: seq<Job>,
    batches: seq<seq<Job>>,
    freed: seq<Job>)

  datatype Step =
    | Submit(job: Job) | Read | Drain | FreeOne | Shutdown | Join | FreePending | FreeDone
    | Look | SpuriousWakeup | Execute | EnqueueDone | Write

  function Init(cap: nat): State {
    State(cap, [], [], true, 0, Ready, Idle, [], [], [], [], [])
  }

  function Signalled(w: Worker): Worker { if w == Waiting then Ready else w }

  predicate Enabled(s: State, a: Step) {
    match a
    case Submit(j) => s.main == Idle && j !in s.submitted
    case Read => s.main == Idle && s.pipe > 0
    case Drain => s.main == Draining
    case FreeOne => s.main.Freeing?
    case Shutdown => s.main == Idle
    case Join => s.main == Joining && s.worker == Exited
    case FreePending => s.main == FreeingPending
    case FreeDone => s.main == FreeingDone
    case Look => s.worker == Ready
    case SpuriousWakeup => s.worker == Waiting
    case Execute => s.worker.Running?
    case EnqueueDone => s.worker.Finished?
    case Write => s.worker == Notifying && s.pipe < s.cap
  }

  function Apply(s: State, a: Step): State
    requires Enabled(s, a)
  {
    match a
    case Submit(j) =>
      s.(pending := s.pending + [j], submitted := s.submitted + [j], worker := Signalled(s.worker))
    case Read => s.(pipe := if s.pipe < 64 then 0 else s.pipe - 64, main := Draining)
    case Drain => s.(done := [], main := Freeing(s.done), batches := s.batches + [s.done])
    case FreeOne =>
      if s.main.batch == [] then s.(main := Idle)
      else s.(main := Freeing(s.main.batch[1..]), freed := s.freed + [s.main.batch[0]])
    case Shutdown => s.(running := false, main := Joining, worker := Signalled(s.worker))
    case Join => s.(main := FreeingPending)
    case FreePending =>
      if s.pending == [] then s.(main := FreeingDone)
      else s.(pending := s.pending[1..], freed := s.freed + [s.pending[0]])
    case FreeDone =>
      if s.done == [] then s.(main := Closed)
      else s.(done := s.done[1..], freed := s.freed + [s.done[0]])
    case Look =>
      if s.pending != [] then s.(pending := s.pending[1..], worker := Running(s.pending[0]))
      else if s.running then s.(worker := Waiting)
      else s.(worker := Exited)
    case SpuriousWakeup => s.(worker := Ready)
    case Execute => s.(worker := Finished(s.worker.job), executed := s.executed + [s.worker.job])
    case EnqueueDone =>
      s.(done := [s.worker.job] + s.done, completed := s.completed + [s.worker.job], worker := Notifying)
    case Write => s.(pipe := s.pipe + 1, worker := Ready)
  }

  /** `t` is reached from `s` by taking these steps. */
  predicate Reaches(s: State, steps: seq<Step>, t: State)
    decreases |steps|
  {
    if steps == [] then s == t
    else Enabled(s, steps[0]) && Reaches(Apply(s, steps[0]), steps[1..], t)
  }

  // ---------- what every step keeps ----------

  function Reverse(js: seq<Job>): seq<Job> {
    if js == [] then [] else Reverse(js[1..]) + [js[0]]
  }

  function Unbatched(batches: seq<seq<Job>>): seq<Job> {
    if batches == [] then [] else Unbatched(batches[..|batches| - 1]) + Reverse(batches[|batches| - 1])
  }

  function InHand(w: Worker): seq<Job> { if w.Running? || w.Finished? then [w.job] else [] }

  function Batch(m: Main): seq<Job> { if m.Freeing? then m.batch else [] }

  predicate Leaving(m: Main) { m == Joining || m == FreeingPending || m == FreeingDone || m == Closed }

  /** Jobs are executed once each, in the order they were submitted. */
  predicate InOrder(s: State) {
    && s.submitted == s.completed + InHand(s.worker) + s.pending
    && s.executed == s.completed + (if s.worker.Finished? then [s.worker.job] else [])
  }

  /** Drained batches, each turned round, are the completed jobs in order, up to the done list. */
  predicate BatchesReversed(s: State) {
    s.main == Closed || s.main == FreeingDone || s.completed == Unbatched(s.batches) + Reverse(s.done)
  }

  function Times(js: seq<Job>, j: Job): nat { multiset(js)[j] }

  /** How many places hold `j`, counting repetitions. */
  function Places(s: State, j: Job): nat {
    Times(s.freed, j) + Times(Batch(s.main), j) + Times(s.done, j) + Times(InHand(s.worker), j) + Times(s.pending, j)
  }

  predicate Distinct(js: seq<Job>) { forall i, k :: 0 <= i < k < |js| ==> js[i] != js[k] }

  /** Each submitted job is in exactly one place, once. */
  ghost predicate OnePlace(s: State) {
    Distinct(s.submitted) && forall j :: Places(s, j) == if j in s.submitted then 1 else 0
  }

  /** A sleeping worker has nothing to do, and a finished job has a byte on its way. */
  predicate NothingLost(s: State) {
    && (s.worker == Waiting ==> s.pending == [] && s.running)
    && (s.done != [] ==> s.pipe > 0 || s.worker == Notifying || s.main == Draining)
  }

  predicate Phases(s: State) {
    && (s.running <==> !Leaving(s.main))
    && (s.worker == Exited ==> s.pending == [] && !s.running)
    && (s.main in {FreeingPending, FreeingDone, Closed} ==> s.worker == Exited)
    && (s.main == Closed ==> s.done == [])
    && s.pipe <= s.cap
  }

  ghost predicate Inv(s: State) {
    InOrder(s) && BatchesReversed(s) && OnePlace(s) && NothingLost(s) && Phases(s)
  }

  lemma OrderKept(s: State, a: Step)
    requires Enabled(s, a) && InOrder(s) && Phases(s)
    ensures InOrder(Apply(s, a))
  {
    match a
    case Submit(j) => assert s.completed + InHand(s.worker) + s.pending + [j] == s.completed + InHand(s.worker) + (s.pending + [j]);
    case Look =>
      if s.pending != [] {
        assert [s.pending[0]] + s.pending[1..] == s.pending;
      }
    case EnqueueDone => assert s.completed + [s.worker.job] + [] == s.completed + [s.worker.job];
    case _ =>
  }

  lemma BatchesKept(s: State, a: Step)
    requires Enabled(s, a) && BatchesReversed(s) && Phases(s)
    ensures BatchesReversed(Apply(s, a))
  {
    match a
    case Drain => assert (s.batches + [s.done])[..|s.batches|] == s.batches;
    case EnqueueDone =>
      var j := s.worker.job;
      assert ([j] + s.done)[1..] == s.done;
      assert Unbatched(s.batches) + (Reverse(s.done) + [j]) == Unbatched(s.batches) + Reverse(s.done) + [j];
    case _ =>
  }

  lemma TimesSplit(a: seq<Job>, b: seq<Job>, j: Job)
    ensures Times(a + b, j) == Times(a, j) + Times(b, j)
    ensures a != [] ==> Times(a, j) == Times([a[0]], j) + Times(a[1..], j)
  {
    if a != [] {
      assert a == [a[0]] + a[1..];
    }
  }

  lemma TimesOne(i: Job, j: Job)
    ensures Times([i], j) == (if i == j then 1 else 0) && Times([], j) == 0
  {
  }

  lemma PlacesKept(s: State, a: Step, j: Job)
    requires Enabled(s, a) && !a.Submit?
    ensures Places(Apply(s, a), j) == Places(s, j)
  {
    hide Times;
    TimesOne(0, j);
    match a
    case FreeOne => if s.main.batch != [] { MoveToFreed(s.freed, s.main.batch, j); }
    case FreePending => if s.pending != [] { MoveToFreed(s.freed, s.pending, j); }
    case FreeDone => if s.done != [] { MoveToFreed(s.freed, s.done, j); }
    case Look => TimesSplit(s.pending, [], j);
    case EnqueueDone => TimesSplit([s.worker.job], s.done, j);
    case _ =>
  }

  lemma MoveToFreed(freed: seq<Job>, js: seq<Job>, j: Job)
    requires js != []
    ensures Times(freed + [js[0]], j) + Times(js[1..], j) == Times(freed, j) + Times(js, j)
  {
    TimesSplit(freed, [js[0]], j);
    TimesSplit(js, [], j);
  }

  lemma PlaceKept(s: State, a: Step)
    requires Enabled(s, a) && OnePlace(s)
    ensures OnePlace(Apply(s, a))
  {
    hide Times;
    var t := Apply(s, a);
    forall j
      ensures Places(t, j) == if j in t.submitted then 1 else 0
    {
      assert Places(s, j) == if j in s.submitted then 1 else 0;
      if a.Submit? {
        TimesSplit(s.pending, [a.job], j);
        TimesOne(a.job, j);
      } else {
        PlacesKept(s, a, j);
      }
    }
  }

  lemma LossKept(s: State, a: Step)
    requires Enabled(s, a) && NothingLost(s) && Phases(s)
    ensures NothingLost(Apply(s, a)) && Phases(Apply(s, a))
  {
  }

  lemma InvKept(s: State, a: Step)
    requires Enabled(s, a) && Inv(s)
    ensures Inv(Apply(s, a))
  {
    hide InOrder, BatchesReversed, OnePlace, NothingLost, Phases;
    OrderKept(s, a);
    BatchesKept(s, a);
    PlaceKept(s, a);
    LossKept(s, a);
  }

  lemma InitInv(cap: nat)
    ensures Inv(Init(cap))
  {
  }

  lemma {:induction false} RunKeepsInv(s: State, steps: seq<Step>, t: State)
    requires Inv(s) && Reaches(s, steps, t)
    ensures Inv(t)
    decreases |steps|
  {
    if steps != [] {
      InvKept(s, steps[0]);
      RunKeepsInv(Apply(s, steps[0]), steps[1..], t);
    }
  }

  // ---------- what every run has ----------

  /** Every job is in one place only; jobs were executed in the order of submission, none twice. */
  lemma ExactlyOnce(cap: nat, steps: seq<Step>, t: State)
    requires Reaches(Init(cap), steps, t)
    ensures OnePlace(t) && t.executed <= t.submitted && t.completed <= t.executed
    ensures Distinct(t.executed)
    ensures t.main in {FreeingPending, FreeingDone, Closed} ==> t.pending == [] && t.executed == t.submitted
    ensures t.main == Closed ==> forall j :: Times(t.freed, j) == if j in t.submitted then 1 else 0
  {
    hide Apply, Enabled, BatchesReversed, NothingLost;
    InitInv(cap);
    RunKeepsInv(Init(cap), steps, t);
    assert forall j :: t.main == Closed ==> Places(t, j) == Times(t.freed, j);
  }

  /** Each drained batch is a stretch of the completed jobs, newest first. */
  lemma BatchesAreReversedStretches(cap: nat, steps: seq<Step>, t: State)
    requires Reaches(Init(cap), steps, t) && !(t.main in {FreeingDone, Closed})
    ensures t.completed == Unbatched(t.batches) + Reverse(t.done)
  {
    InitInv(cap);
    RunKeepsInv(Init(cap), steps, t);
  }

  /** No wakeup is lost: the worker sleeps only with nothing to do, and while jobs are done and
      undrained the main thread will be told. */
  lemma NoLostWakeup(cap: nat, steps: seq<Step>, t: State)
    requires Reaches(Init(cap), steps, t)
    ensures t.worker == Waiting ==> t.pending == [] && t.running
    ensures t.done != [] && t.main == Idle ==> Enabled(t, Read) || t.worker == Notifying
  {
    InitInv(cap);
    RunKeepsInv(Init(cap), steps, t);
  }

  // ---------- shutdown ----------

  function WorkerWork(w: Worker): nat {
    match w
    case Running(_) => 8
    case Finished(_) => 7
    case Notifying => 4
    case Ready => 3
    case Waiting => 3
    case Exited => 0
  }

  function MainWork(m: Main): nat {
    match m
    case Joining => 3
    case FreeingPending => 2
    case FreeingDone => 1
    case _ => 0
  }

  /** What is left to do once the queue is shut down. */
  function Work(s: State): nat {
    10 * |s.pending| + 2 * |s.done| + WorkerWork(s.worker) + MainWork(s.main)
  }

  /** After shutdown every step of either thread makes progress. */
  lemma ShutdownProgresses(s: State, a: Step)
    requires Enabled(s, a) && Inv(s) && Leaving(s.main)
    ensures Work(Apply(s, a)) < Work(s) && Leaving(Apply(s, a).main)
  {
  }

  lemma {:induction false} ShutdownTerminates(s: State, steps: seq<Step>, t: State)
    requires Inv(s) && Leaving(s.main) && Reaches(s, steps, t)
    ensures |steps| <= Work(s) && Leaving(t.main)
    decreases |steps|
  {
    if steps != [] {
      ShutdownProgresses(s, steps[0]);
      InvKept(s, steps[0]);
      ShutdownTerminates(Apply(s, steps[0]), steps[1..], t);
    }
  }

  /** Bytes the worker has still to write. */
  function Owed(s: State): nat {
    |s.pending| + |InHand(s.worker)| + if s.worker == Notifying then 1 else 0
  }

  ghost predicate Stuck(s: State) { forall a :: !Enabled(s, a) }

  /** The worker hangs on a full pipe that the main thread, waiting to join it, no longer reads. */
  predicate Hung(s: State) { s.main == Joining && s.worker == Notifying && s.pipe == s.cap }

  /** A shut-down queue stops either closed, with everything freed, or hung. */
  lemma StuckWhenLeaving(s: State)
    requires Inv(s) && Leaving(s.main)
    ensures (s.main == Closed || Hung(s)) <==> Stuck(s)
  {
    hide Apply, Places, BatchesReversed;
    if s.main == Joining {
      assert Enabled(s, Join) || Enabled(s, Look) || Enabled(s, Execute) || Enabled(s, EnqueueDone) || Enabled(s, Write) || Hung(s);
    } else if s.main != Closed {
      assert Enabled(s, FreePending) || Enabled(s, FreeDone);
    }
  }

  lemma {:induction false} OwedWhileLeaving(s: State, steps: seq<Step>, t: State)
    requires Inv(s) && Leaving(s.main) && Reaches(s, steps, t)
    ensures Inv(t) && Leaving(t.main) && t.pipe + Owed(t) == s.pipe + Owed(s) && t.cap == s.cap && t.submitted == s.submitted
    decreases |steps|
  {
    if steps != [] {
      var s1 := Apply(s, steps[0]);
      InvKept(s, steps[0]);
      OwedKept(s, steps[0]);
      OwedWhileLeaving(s1, steps[1..], t);
    }
  }

  lemma OwedKept(s: State, a: Step)
    requires Enabled(s, a) && Inv(s) && Leaving(s.main)
    ensures var t := Apply(s, a); t.pipe + Owed(t) == s.pipe + Owed(s) && t.cap == s.cap && t.submitted == s.submitted && Leaving(t.main)
  {
  }

  /** The program can close exactly when the pipe has room for every byte the worker still owes:
      then no run gets stuck before, and otherwise no run gets past the join. */
  lemma ClosesIffPipeHasRoom(s: State, steps: seq<Step>, t: State)
    requires Inv(s) && s.main == Joining && Reaches(s, steps, t) && Stuck(t)
    ensures t.main == Closed <==> s.pipe + Owed(s) <= s.cap
    ensures t.main == Closed ==> t.executed == s.submitted && forall j :: Times(t.freed, j) == if j in s.submitted then 1 else 0
  {
    OwedWhileLeaving(s, steps, t);
    StuckWhenLeaving(t);
    assert forall j :: t.main == Closed ==> Places(t, j) == Times(t.freed, j);
  }

  // ---------- the hang can happen ----------

  lemma {:induction false} ReachesNext(s: State, steps: seq<Step>, t: State, a: Step)
    requires Reaches(s, steps, t) && Enabled(t, a)
    ensures Reaches(s, steps + [a], Apply(t, a))
    decreases |steps|
  {
    if steps == [] {
      assert ([] + [a])[1..] == [];
      assert Reaches(Apply(s, a), [], Apply(t, a));
    } else {
      assert (steps + [a])[1..] == steps[1..] + [a];
      ReachesNext(Apply(s, steps[0]), steps[1..], t, a);
    }
  }

  /** A queue that was given `n` jobs before the worker got going. */
  lemma {:induction false} Submitted(cap: nat, n: nat) returns (steps: seq<Step>, t: State)
    ensures Reaches(Init(cap), steps, t) && t.cap == cap && t.pipe == 0 && t.worker == Ready && t.main == Idle
    ensures |t.pending| == n == |t.submitted| && forall j :: j in t.submitted ==> j < n
  {
    if n == 0 {
      steps, t := [], Init(cap);
    } else {
      steps, t := Submitted(cap, n - 1);
      ReachesNext(Init(cap), steps, t, Submit(n - 1));
      steps, t := steps + [Submit(n - 1)], Apply(t, Submit(n - 1));
    }
  }

  /** The worker finishes a job, up to the write of its byte. */
  lemma JobDone(s: State, steps: seq<Step>, t: State) returns (more: seq<Step>, u: State)
    requires Reaches(s, steps, t) && t.worker == Ready && t.pending != [] && t.main == Joining
    ensures Reaches(s, more, u) && u.worker == Notifying && u.main == Joining
    ensures |u.pending| == |t.pending| - 1 && u.pipe == t.pipe && u.cap == t.cap && u.submitted == t.submitted
  {
    ReachesNext(s, steps, t, Look);
    var t1 := Apply(t, Look);
    ReachesNext(s, steps + [Look], t1, Execute);
    var t2 := Apply(t1, Execute);
    ReachesNext(s, steps + [Look] + [Execute], t2, EnqueueDone);
    more, u := steps + [Look] + [Execute] + [EnqueueDone], Apply(t2, EnqueueDone);
  }

  lemma {:induction false} JobsDone(s: State, steps: seq<Step>, t: State) returns (more: seq<Step>, u: State)
    requires Reaches(s, steps, t) && t.worker == Ready && t.main == Joining && t.pipe <= t.cap && |t.pending| == t.cap - t.pipe + 1
    ensures Reaches(s, more, u) && Hung(u) && u.submitted == t.submitted
    decreases t.cap - t.pipe
  {
    more, u := JobDone(s, steps, t);
    if u.pipe < u.cap {
      ReachesNext(s, more, u, Write);
      more, u := JobsDone(s, more + [Write], Apply(u, Write));
    }
  }

  /** Whatever the pipe holds, one job more, all submitted at once before a shutdown, hangs the program. */
  lemma HangIsReachable(cap: nat)
    ensures exists steps, t :: Reaches(Init(cap), steps, t) && Hung(t) && Stuck(t) && |t.submitted| == cap + 1
  {
    var steps, t := Submitted(cap, cap + 1);
    ReachesNext(Init(cap), steps, t, Shutdown);
    var more, u := JobsDone(Init(cap), steps + [Shutdown], Apply(t, Shutdown));
    assert u.submitted == t.submitted;
    hide Apply, Enabled, Init, Stuck, Inv;
    InitInv(cap);
    RunKeepsInv(Init(cap), more, u);
    StuckWhenLeaving(u);
    assert Reaches(Init(cap), more, u) && Hung(u);
  }

  // ---------- runs of the freeing loops ----------

  ghost predicate LeadsTo(s: State, t: State) { exists steps :: Reaches(s, steps, t) }

  lemma LeadsOn(s: State, a: Step, t: State)
    requires Enabled(s, a) && LeadsTo(Apply(s, a), t)
    ensures LeadsTo(s, t)
  {
    var steps :| Reaches(Apply(s, a), steps, t);
    assert ([a] + steps)[1..] == steps;
    assert Reaches(s, [a] + steps, t);
  }

  lemma LeadsHere(s: State)
    ensures LeadsTo(s, s)
  {
    assert Reaches(s, [], s);
  }

  /** The loop of notify_cb frees the whole batch, one job a step. */
  lemma {:induction false} BatchFreed(s: State)
    requires s.main.Freeing?
    ensures LeadsTo(s, s.(main := Idle, freed := s.freed + s.main.batch))
    decreases |Batch(s.main)|
  {
    var b, s1 := s.main.batch, Apply(s, FreeOne);
    if b == [] {
      assert s.freed + [] == s.freed;
      LeadsHere(s1);
    } else {
      assert s.freed + [b[0]] + b[1..] == s.freed + b;
      BatchFreed(s1);
    }
    LeadsOn(s, FreeOne, s.(main := Idle, freed := s.freed + b));
  }

  lemma {:induction false} PendingFreed(s: State)
    requires s.main == FreeingPending
    ensures LeadsTo(s, s.(main := Closed, pending := [], done := [], freed := s.freed + s.pending + s.done))
    decreases |s.pending|
  {
    var q, s1 := s.pending, Apply(s, FreePending);
    if q == [] {
      assert s.freed + [] == s.freed;
      DoneFreed(s1);
    } else {
      assert s.freed + [q[0]] + q[1..] == s.freed + q;
      PendingFreed(s1);
    }
    LeadsOn(s, FreePending, s.(main := Closed, pending := [], done := [], freed := s.freed + q + s.done));
  }

  lemma {:induction false} DoneFreed(s: State)
    requires s.main == FreeingDone
    ensures LeadsTo(s, s.(main := Closed, done := [], freed := s.freed + s.done))
    decreases |s.done|
  {
    var q, s1 := s.done, Apply(s, FreeDone);
    if q == [] {
      assert s.freed + [] == s.freed;
      LeadsHere(s1);
    } else {
      assert s.freed + [q[0]] + q[1..] == s.freed + q;
      DoneFreed(s1);
    }
    LeadsOn(s, FreeDone, s.(main := Closed, done := [], freed := s.freed + q));
  }
}
