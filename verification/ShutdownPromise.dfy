/** The header of the thread pool promises that shutdown waits for the queued tasks. It does not: what becomes of
    them, and when all of them finish after all. */
module ShutdownPromise {
  import opened ThreadPool

  lemma {:induction false} EnqueuedGrows<Job>(s: State<Job>, es: seq<Event<Job>>, s': State<Job>)
    requires Run(s, es, s')
    ensures s.enqueued <= s'.enqueued
    decreases |es|
  {
    if es != [] {
      EnqueuedGrows(Step(s, es[0]), es[1..], s');
    }
  }

  lemma ReachableRun<Job(!new)>(s: State<Job>, es: seq<Event<Job>>, s': State<Job>)
    requires Reachable(s) && Run(s, es, s')
    ensures Reachable(s') && |s'.workers| == |s.workers|
  {
    var m: nat, fs: seq<Event<Job>> :| Run(Start(|s.workers|, m), fs, s);
    ReachableInv(s);
    RunInv(s, es, s');
    RunAppend(Start(|s.workers|, m), fs, s, es, s');
  }

  /** What shutdown throws away in the end: the queue as it was at any moment after the flag was set and before the
      first discard, and every task appended from then on. */
  lemma DiscardedInTheEnd<Job>(s: State<Job>, es: seq<Event<Job>>, s': State<Job>)
    requires Inv(s) && s.shutdown && s.discarded == []
    requires Run(s, es, s') && s'.closer.Freed?
    ensures s.enqueued <= s'.enqueued
    ensures s'.discarded == s.queue + s'.enqueued[|s.enqueued|..]
  {
    RunInv(s, es, s');
    ShutdownStopsWork(s, es, s');
    EnqueuedGrows(s, es, s');
    var taken := |s.takenBy|;
    assert s'.discarded + [] == s'.discarded;
    assert s'.enqueued[taken..] == s.enqueued[taken..] + s'.enqueued[|s.enqueued|..];
  }

  /** The promise of the header, for a pool of at most 255 workers from the moment the flag is set: the tasks
      enqueued by then all finish if and only if none of them is queued; and all tasks ever enqueued do if and only
      if, besides, none is appended later. */
  lemma PromiseKept<Job(!new)>(s: State<Job>, es: seq<Event<Job>>, s': State<Job>)
    requires Reachable(s) && s.closer.Broadcasting? && |s.workers| <= 255
    requires Run(s, es, s') && s'.closer.Freed?
    ensures (forall k :: 0 <= k < |s.enqueued| ==> k in s'.finished) <==> s.queue == []
    ensures (forall k :: 0 <= k < |s'.enqueued| ==> k in s'.finished) <==> s.queue == [] && s'.enqueued == s.enqueued
  {
    ReachableInv(s);
    ReachableRun(s, es, s');
    ReachableInv(s');
    ShutdownStopsWork(s, es, s');
    EnqueuedGrows(s, es, s');
    FreedAfterAll(s');
    var taken := |s.takenBy|;
    assert |s.queue| == |s.enqueued| - taken;
    assert taken !in s'.finished;
  }

  /** The promise is broken: with one worker and one client, any task can be thrown away. */
  lemma PromiseBroken<Job(!new)>(job: Job)
    ensures exists s: State<Job> :: Reachable(s) && |s.workers| == 1 && s.closer.Freed? && s.discarded == [job]
  {
    var s0 := Start<Job>(1, 1);
    var es1 := EnqueueOne(s0, job);
    var s1 := s0.(queue := [job], enqueued := [job]);
    var es2 := ShutOne(s1);
    var s2 := s1.(workers := [Returned], closer := Freed, shutdown := true, queue := [], discarded := [job]);
    RunAppend(s0, es1, s1, es2, s2);
    assert Reachable(s2) by { assert Run(Start<Job>(|s2.workers|, 1), es1 + es2, s2); }
  }

  /** A client's whole call, before the worker has locked the mutex for the first time. */
  lemma EnqueueOne<Job>(s: State<Job>, job: Job) returns (es: seq<Event<Job>>)
    requires s == Start(1, 1)
    ensures Run(s, es, s.(queue := [job], enqueued := [job]))
  {
    var s1 := s.(clients := [Appending(job)], owner := ClientOwns(0));
    var s2 := s.(clients := [Leaving], owner := ClientOwns(0), queue := [job], enqueued := [job]);
    var s3 := s.(queue := [job], enqueued := [job]);
    assert s.workers == [AtLock] && s.clients == [Outside];
    assert Wake(s.workers, {}) == s.workers;
    var first := [ByClient(0, Call(job)), ByClient(0, LockQueue)];
    var second: seq<Event<Job>> := [ByClient(0, Append), ByClient(0, Signal({}))];
    var third: seq<Event<Job>> := [ByClient(0, UnlockQueue)];
    TwoSteps(s, first, s1);
    TwoSteps(s1, second, s2);
    OneStep(s2, third, s3);
    RunAppend(s, first, s1, second, s2);
    RunAppend(s, first + second, s2, third, s3);
    es := first + second + third;
  }

  lemma OneStep<Job>(s: State<Job>, es: seq<Event<Job>>, s': State<Job>)
    requires |es| == 1 && Can(s, es[0]) && Step(s, es[0]) == s'
    ensures Run(s, es, s')
  {
    assert es[1..] == [];
  }

  lemma TwoSteps<Job>(s: State<Job>, es: seq<Event<Job>>, s': State<Job>)
    requires |es| == 2 && Can(s, es[0]) && Can(Step(s, es[0]), es[1]) && Step(Step(s, es[0]), es[1]) == s'
    ensures Run(s, es, s')
  {
    assert es[1..][1..] == [];
  }

  /** Shutdown from there: announced, joined, and the task thrown away. */
  lemma ShutOne<Job>(s: State<Job>) returns (es: seq<Event<Job>>)
    requires s.workers == [AtLock] && s.clients == [Outside] && s.closer.NotCalled? && s.owner.Nobody?
    requires |s.queue| == 1 && s.discarded == []
    ensures Run(s, es, s.(workers := [Returned], closer := Freed, shutdown := true, queue := [], discarded := s.queue))
  {
    var s1 := s.(closer := Joining(0), shutdown := true);
    var s2 := s1.(workers := [Returned], closer := Discarding);
    var s3 := s2.(closer := Freed, queue := [], discarded := s.queue);
    var es1 := Announce(s);
    var es2 := JoinTheOne(s1);
    var es3 := [ByCloser(Discard), ByCloser(Free)];
    assert s2.discarded + [s2.queue[0]] == s.queue;
    TwoSteps(s2, es3, s3);
    RunAppend(s, es1, s1, es2, s2);
    RunAppend(s, es1 + es2, s2, es3, s3);
    es := es1 + es2 + es3;
  }

  lemma Announce<Job>(s: State<Job>) returns (es: seq<Event<Job>>)
    requires s.workers == [AtLock] && s.closer.NotCalled? && s.owner.Nobody?
    ensures Run(s, es, s.(closer := Joining(0), shutdown := true))
  {
    var s1 := s.(closer := Flagging, owner := CloserOwns);
    var s2 := s1.(closer := Unlocking, shutdown := true);
    var s3 := s.(closer := Joining(0), shutdown := true);
    assert WakeAll(s.workers) == s.workers;
    var first := [ByCloser(CallShutdown), ByCloser(LockPool)];
    var second := [ByCloser(SetFlag), ByCloser(Broadcast)];
    var third := [ByCloser(UnlockPool)];
    TwoSteps(s, first, s1);
    TwoSteps(s1, second, s2);
    OneStep(s2, third, s3);
    RunAppend(s, first, s1, second, s2);
    RunAppend(s, first + second, s2, third, s3);
    es := first + second + third;
  }

  lemma JoinTheOne<Job>(s: State<Job>) returns (es: seq<Event<Job>>)
    requires s.workers == [AtLock] && s.clients == [Outside] && s.closer == Joining(0) && s.owner.Nobody? && s.shutdown
    ensures Run(s, es, s.(workers := [Returned], closer := Discarding))
  {
    var s1 := s.(workers := [Cleared], owner := WorkerOwns(0));
    var s2 := s.(workers := [Returned], closer := Joining(1));
    var s3 := s2.(closer := Discarding);
    assert JoinCount(s) == 1;
    var first := [ByWorker(0, Lock), ByWorker(0, Pass)];
    var second := [ByWorker(0, Return), ByCloser(Join)];
    var third := [ByCloser(StopJoining)];
    TwoSteps(s, first, s1);
    TwoSteps(s1, second, s2);
    OneStep(s2, third, s3);
    RunAppend(s, first, s1, second, s2);
    RunAppend(s, first + second, s2, third, s3);
    es := first + second + third;
  }
}
