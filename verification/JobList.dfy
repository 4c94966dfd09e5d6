/** The job queue's linked lists, as the two threads leave them at the end of each critical section. Each method
    carries out a step of the protocol between the threads. */
module JobList {
  import P = JobProtocol

  class Job {
    const id: nat   // what the protocol calls the job
    var next: Job?

    constructor (id: nat)
      ensures this.id == id && next == null
    {
      this.id, next := id, null;
    }
  }

  function Ids(js: seq<Job>): seq<nat> { seq(|js|, i requires 0 <= i < |js| => js[i].id) }

  lemma IdsParts(a: seq<Job>, b: seq<Job>)
    ensures Ids(a + b) == Ids(a) + Ids(b)
  {
  }

  function NodeAt(js: seq<Job>, i: nat): Job? { if i < |js| then js[i] else null }

  /** `js` is the list that starts at `head`. */
  ghost predicate Linked(head: Job?, js: seq<Job>)
    reads js
  {
    head == NodeAt(js, 0) && forall i :: 0 <= i < |js| ==> js[i].next == NodeAt(js, i + 1)
  }

  ghost predicate Distinct(js: seq<Job>) { forall i, k :: 0 <= i < k < |js| ==> js[i] != js[k] }

  ghost predicate Separate(a: seq<Job>, b: seq<Job>) { forall j :: j in a ==> j !in b }

  /** No job is on two lists, or twice on one. */
  ghost predicate OnePlace(freed: seq<Job>, done: seq<Job>, pending: seq<Job>) {
    && Distinct(freed) && Distinct(done) && Distinct(pending)
    && Separate(freed, done) && Separate(freed, pending) && Separate(done, pending)
  }

  class Queue {
    var jobHead: Job?
    var jobTail: Job?
    var doneHead: Job?
    ghost var pending: seq<Job>
    ghost var done: seq<Job>     // newest first
    ghost var freed: seq<Job>

    ghost predicate Valid()
      reads this, pending, done
    {
      && Linked(jobHead, pending) && jobTail == (if pending == [] then null else pending[|pending| - 1])
      && Linked(doneHead, done)
      && OnePlace(freed, done, pending)
    }

    /** The lists are those of the protocol's state `s`. */
    ghost predicate Shows(s: P.State)
      reads this
    {
      s.pending == Ids(pending) && s.done == Ids(done) && s.freed == Ids(freed)
    }

    constructor ()
      ensures Valid() && pending == [] && done == [] && freed == []
      ensures forall cap :: Shows(P.Init(cap))
    {
      jobHead, jobTail, doneHead := null, null, null;
      pending, done, freed := [], [], [];
    }

    /** The critical section of enqueue_pending. */
    method EnqueuePending(job: Job)
      requires Valid() && job.next == null && job !in freed && job !in done && job !in pending
      modifies this, jobTail
      ensures Valid() && pending == old(pending) + [job] && done == old(done) && freed == old(freed)
      ensures forall s :: old(Shows(s)) && P.Enabled(s, P.Submit(job.id)) ==> Shows(P.Apply(s, P.Submit(job.id)))
    {
      SubmitStep(pending, done, freed, job);
      AppendedApart(freed, done, pending, job);
      hide Ids, P.Apply, P.Enabled, OnePlace, Distinct;
      if jobTail != null {
        assert jobTail in pending;
        jobTail.next := job;
      } else {
        jobHead := job;
      }
      jobTail := job;
      pending := pending + [job];
    }

    /** What dequeue_pending does once it has stopped waiting. */
    method TakePending() returns (job: Job?)
      requires Valid()
      modifies this, jobHead
      ensures Valid() && done == old(done) && freed == old(freed)
      ensures if old(pending) == [] then job == null && pending == [] else
        job == old(pending)[0] && pending == old(pending)[1..] && job.next == null
      ensures forall s :: old(Shows(s)) && P.Enabled(s, P.Look) ==>
        Shows(P.Apply(s, P.Look)) && (P.Apply(s, P.Look).worker.Running? <==> job != null)
      ensures forall s :: old(Shows(s)) && P.Enabled(s, P.Look) && job != null ==> P.Apply(s, P.Look).worker.job == job.id
    {
      job := jobHead;
      if job != null {
        assert job == pending[0] && job !in done;
        jobHead := job.next;
        if jobHead == null {
          jobTail := null;
        }
        job.next := null;
        pending := pending[1..];
        assert forall i :: 0 <= i < |pending| ==> pending[i] == old(pending)[i + 1];
      }
    }

    /** enqueue_done */
    method EnqueueDone(job: Job)
      requires Valid() && job !in freed && job !in done && job !in pending
      modifies this, job
      ensures Valid() && done == [job] + old(done) && pending == old(pending) && freed == old(freed)
      ensures forall s :: old(Shows(s)) && s.worker == P.Finished(job.id) ==> Shows(P.Apply(s, P.EnqueueDone))
    {
      DoneStep(pending, done, freed, job);
      hide Ids, P.Apply, OnePlace, Distinct;
      PushedApart(freed, done, pending, job);
      job.next := doneHead;
      doneHead := job;
      done := [job] + done;
      assert forall i :: 0 < i < |done| ==> done[i] == old(done)[i - 1];
    }

    /** drain_done: the batch is now the main thread's alone. */
    method DrainDone() returns (list: Job?, ghost batch: seq<Job>)
      requires Valid()
      modifies this
      ensures Valid() && done == [] && pending == old(pending) && freed == old(freed)
      ensures batch == old(done) && Linked(list, batch) && OnePlace(freed + batch, done, pending)
      ensures forall s :: old(Shows(s)) && P.Enabled(s, P.Drain) ==>
        Shows(P.Apply(s, P.Drain)) && P.Apply(s, P.Drain).main == P.Freeing(Ids(batch))
    {
      Joined(freed, done);
      list, batch := doneHead, done;
      doneHead, done := null, [];
    }

    /** The loop of notify_cb: each job of the batch is freed once, in list order, and its link is
        read before. The worker may add to the other lists meanwhile. */
    method FreeBatch(list: Job?, ghost batch: seq<Job>)
      requires Valid() && Linked(list, batch) && OnePlace(freed + batch, done, pending)
      modifies this`freed, batch
      ensures Valid() && freed == old(freed) + batch
      ensures forall s :: old(Shows(s)) && s.main == P.Freeing(Ids(batch)) ==>
        exists t :: P.LeadsTo(s, t) && Shows(t) && t.main == P.Idle
    {
      BatchSteps(pending, done, freed, batch);
      hide Distinct, OnePlace, Ids, P.LeadsTo, Linked;
      FreeEach(list, batch);
    }

    method FreeEach(list: Job?, ghost batch: seq<Job>)
      requires Valid() && Linked(list, batch) && OnePlace(freed + batch, done, pending)
      modifies this`freed, batch
      ensures Valid() && freed == old(freed) + batch
    {
      hide Distinct, OnePlace;
      OnOneList(freed, batch, done, pending);
      var rest := list;
      ghost var n := 0;
      while rest != null
        invariant n <= |batch| && rest == NodeAt(batch, n) && freed == old(freed) + batch[..n]
        invariant forall i :: n <= i < |batch| ==> batch[i].next == NodeAt(batch, i + 1)
        invariant Linked(jobHead, pending) && Linked(doneHead, done)
        decreases |batch| - n
      {
        assert rest in batch;
        rest := FreeJob(rest);
        n := n + 1;
      }
      assert batch[..n] == batch;
    }

    /** free_job; the link is read first. */
    method FreeJob(job: Job) returns (next: Job?)
      modifies this`freed, job
      ensures next == old(job.next) && job.next == null && freed == old(freed) + [job]
    {
      next := job.next;
      job.next := null;
      freed := freed + [job];
    }

    /** The end of jobqueue_shutdown, after the worker is joined. */
    method FreeRemaining()
      requires Valid()
      modifies this
      ensures Valid() && pending == [] && done == [] && freed == old(freed) + old(pending) + old(done)
      ensures forall s :: old(Shows(s)) && s.main == P.FreeingPending ==>
        exists t :: P.LeadsTo(s, t) && Shows(t) && t.main == P.Closed
    {
      FreeList(jobHead, pending);
      jobHead, jobTail := null, null;
      FreeList(doneHead, done);
      doneHead := null;
      FreedAll(old(freed), old(done), old(pending));
      pending, done := [], [];
      RemainingSteps(old(pending), old(done), old(freed));
    }

    method FreeList(head: Job?, ghost js: seq<Job>)
      requires Linked(head, js)
      modifies this`freed
      ensures freed == old(freed) + js
    {
      var job := head;
      ghost var n := 0;
      while job != null
        invariant n <= |js| && job == NodeAt(js, n) && freed == old(freed) + js[..n]
        decreases |js| - n
      {
        var next := job.next;
        freed := freed + [job];
        job := next;
        n := n + 1;
      }
      assert js[..n] == js;
    }
  }

  lemma AppendedApart(freed: seq<Job>, done: seq<Job>, pending: seq<Job>, job: Job)
    requires OnePlace(freed, done, pending) && job !in freed && job !in done && job !in pending
    ensures OnePlace(freed, done, pending + [job])
  {
  }

  lemma SubmitStep(pending: seq<Job>, done: seq<Job>, freed: seq<Job>, job: Job)
    ensures forall s: P.State :: s.pending == Ids(pending) && s.done == Ids(done) && s.freed == Ids(freed) && P.Enabled(s, P.Submit(job.id)) ==>
      var t := P.Apply(s, P.Submit(job.id)); t.pending == Ids(pending + [job]) && t.done == Ids(done) && t.freed == Ids(freed)
  {
    IdsParts(pending, [job]);
    assert Ids([job]) == [job.id];
  }

  lemma PushedApart(freed: seq<Job>, done: seq<Job>, pending: seq<Job>, job: Job)
    requires OnePlace(freed, done, pending) && job !in freed && job !in done && job !in pending
    ensures OnePlace(freed, [job] + done, pending)
  {
  }

  lemma DoneStep(pending: seq<Job>, done: seq<Job>, freed: seq<Job>, job: Job)
    ensures forall s: P.State :: s.pending == Ids(pending) && s.done == Ids(done) && s.freed == Ids(freed) && s.worker == P.Finished(job.id) ==>
      var t := P.Apply(s, P.EnqueueDone); t.pending == Ids(pending) && t.done == Ids([job] + done) && t.freed == Ids(freed)
  {
    IdsParts([job], done);
    assert Ids([job]) == [job.id];
  }

  /** Freeing a batch is a run of the protocol. */
  lemma BatchSteps(pending: seq<Job>, done: seq<Job>, freed: seq<Job>, batch: seq<Job>)
    ensures forall s: P.State :: s.pending == Ids(pending) && s.done == Ids(done) && s.freed == Ids(freed) && s.main == P.Freeing(Ids(batch)) ==>
      P.LeadsTo(s, s.(main := P.Idle, freed := Ids(freed + batch)))
  {
    forall s: P.State | s.freed == Ids(freed) && s.main == P.Freeing(Ids(batch))
      ensures P.LeadsTo(s, s.(main := P.Idle, freed := Ids(freed + batch)))
    {
      IdsParts(freed, batch);
      P.BatchFreed(s);
    }
  }

  lemma RemainingSteps(pending: seq<Job>, done: seq<Job>, freed: seq<Job>)
    ensures forall s: P.State :: s.pending == Ids(pending) && s.done == Ids(done) && s.freed == Ids(freed) && s.main == P.FreeingPending ==>
      P.LeadsTo(s, s.(main := P.Closed, pending := Ids([]), done := Ids([]), freed := Ids(freed + pending + done)))
  {
    forall s: P.State | s.pending == Ids(pending) && s.done == Ids(done) && s.freed == Ids(freed) && s.main == P.FreeingPending
      ensures P.LeadsTo(s, s.(main := P.Closed, pending := Ids([]), done := Ids([]), freed := Ids(freed + pending + done)))
    {
      IdsParts(freed, pending);
      IdsParts(freed + pending, done);
      assert Ids([]) == [];
      P.PendingFreed(s);
    }
  }

  lemma Joined(a: seq<Job>, b: seq<Job>)
    requires Distinct(a) && Distinct(b) && Separate(a, b)
    ensures Distinct(a + b)
  {
    forall i, k | 0 <= i < k < |a + b|
      ensures (a + b)[i] != (a + b)[k]
    {
      assert i < |a| <= k ==> a[i] in a && b[k - |a|] in b;
    }
  }

  lemma OnOneList(freed: seq<Job>, batch: seq<Job>, done: seq<Job>, pending: seq<Job>)
    requires OnePlace(freed + batch, done, pending)
    ensures Separate(batch, done) && Separate(batch, pending)
    ensures forall i, k :: 0 <= i < k < |batch| ==> batch[i] != batch[k]
  {
    forall i, k | 0 <= i < k < |batch|
      ensures batch[i] != batch[k]
    {
      assert (freed + batch)[|freed| + i] == batch[i] && (freed + batch)[|freed| + k] == batch[k];
    }
  }

  lemma FreedAll(freed: seq<Job>, done: seq<Job>, pending: seq<Job>)
    requires OnePlace(freed, done, pending)
    ensures Distinct(freed + pending + done)
  {
    forall i, k | 0 <= i < k < |freed + pending + done|
      ensures (freed + pending + done)[i] != (freed + pending + done)[k]
    {
      var n := |freed + pending|;
      assert i < n ==> (freed + pending)[i] in freed || (freed + pending)[i] in pending;
      assert k >= n ==> (freed + pending + done)[k] in done;
    }
  }
}
