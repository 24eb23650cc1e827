/** An open pool left alone drains: without new calls and stray wakeups it comes to rest, and at rest every task
    has finished. */
module PoolDrains {
  import opened ThreadPool

  /** The steps the pool makes by itself. */
  predicate ByItself<Job>(e: Event<Job>) {
    !IsCall(e) && e != ByCloser(CallShutdown) && !(e.ByWorker? && e.ws.WakeSpuriously?)
  }

  /** How many steps a worker makes before it sleeps, when it finds no task. */
  function WorkerWork(pc: Pc): nat {
    match pc
    case Blocked => 0
    case Returned => 0
    case Cleared => 0
    case Checking => 1
    case AtLock => 2
    case Waking => 2
    case Running(_) => 3
    case Taken(_) => 4
  }

  /** What a client's call may still set off in a pool of n workers: a signal may wake them all. */
  function ClientWork<Job>(n: nat): Client<Job> -> nat {
    (c: Client<Job>) =>
      match c
      case Outside => 0
      case Leaving => 1
      case Signalling => 2 * n + 2
      case Appending(_) => 2 * n + 8
      case Wanting(_) => 2 * n + 9
  }

  /** A bound on the steps left: a queued task stands for the five a worker makes over it. */
  function WorkLeft<Job>(s: State<Job>): nat {
    5 * |s.queue| + Sum(s.workers, WorkerWork) + ClientTotal(s.clients, ClientWork<Job>(|s.workers|))
  }

  /** Waking workers costs at most two steps each. */
  lemma {:induction false} WakeCosts(ws: seq<Pc>, ws': seq<Pc>)
    requires |ws| == |ws'| && forall i :: 0 <= i < |ws| ==> ws'[i] == ws[i] || ws'[i].Waking?
    ensures Sum(ws', WorkerWork) <= Sum(ws, WorkerWork) + 2 * |ws|
  {
    if ws != [] { WakeCosts(ws[1..], ws'[1..]); }
  }

  lemma WorkerUses<Job>(s: State<Job>, i: nat, e: WorkerStep)
    requires Inv(s) && !s.shutdown && CanWork(s, i, e) && !e.WakeSpuriously?
    ensures WorkLeft(Work(s, i, e)) < WorkLeft(s)
  {
    SumUpdate(s.workers, i, Work(s, i, e).workers[i], WorkerWork);
  }

  lemma ClientUses<Job>(s: State<Job>, c: nat, e: ClientStep<Job>)
    requires CanEnqueue(s, c, e) && !e.Call?
    ensures WorkLeft(Enqueue(s, c, e)) < WorkLeft(s)
  {
    ClientUpdate(s.clients, c, Enqueue(s, c, e).clients[c], ClientWork<Job>(|s.workers|));
    if e.Signal? { WakeCosts(s.workers, Wake(s.workers, e.woken)); }
  }

  /** Every step the pool makes by itself uses up some of the work left. */
  lemma StepUses<Job>(s: State<Job>, e: Event<Job>)
    requires Inv(s) && s.closer.NotCalled? && Can(s, e) && ByItself(e)
    ensures Step(s, e).closer.NotCalled? && WorkLeft(Step(s, e)) < WorkLeft(s)
  {
    match e
    case ByWorker(i, ws) => WorkerUses(s, i, ws);
    case ByClient(c, cs) => ClientUses(s, c, cs);
    case ByCloser(ss) =>
  }

  /** So it comes to rest. */
  lemma {:induction false} WorkEnds<Job>(s: State<Job>, es: seq<Event<Job>>, s': State<Job>)
    requires Inv(s) && s.closer.NotCalled? && Run(s, es, s')
    requires forall e :: e in es ==> ByItself(e)
    ensures s'.closer.NotCalled? && |es| <= WorkLeft(s) - WorkLeft(s')
    decreases |es|
  {
    if es != [] {
      StepInv(s, es[0]);
      StepUses(s, es[0]);
      WorkEnds(Step(s, es[0]), es[1..], s');
    }
  }

  // ---- At rest ----

  ghost predicate AtRest<Job(!new)>(s: State<Job>) {
    forall e: Event<Job> :: Can(s, e) ==> !ByItself(e)
  }

  /** Every worker asleep, nobody inside a call, nothing queued. */
  predicate Idle<Job>(s: State<Job>) {
    && (forall i :: 0 <= i < |s.workers| ==> s.workers[i].Blocked?)
    && (forall c :: 0 <= c < |s.clients| ==> s.clients[c].Outside?)
    && s.queue == []
  }

  /** A step the pool can make when it is not idle. */
  lemma MoreToDo<Job(!new)>(s: State<Job>) returns (e: Event<Job>)
    requires Inv(s) && s.workers != [] && s.closer.NotCalled? && !Idle(s)
    ensures Can(s, e) && ByItself(e)
  {
    if !s.owner.Nobody? {
      e := OwnersStep(s);
    } else if i :| 0 <= i < |s.workers| && !s.workers[i].Blocked? {
      var pc := s.workers[i];
      e := ByWorker(i, if pc.AtLock? then Lock else if pc.Waking? then Relock else Finish);
    } else if c :| 0 <= c < |s.clients| && !s.clients[c].Outside? {
      e := ByClient(c, LockQueue);
    } else {
      SumPositive(s.workers, Seeking);
      assert false;
    }
  }

  /** Before shutdown is called a pool rests exactly when it is idle, and then every task ever enqueued has been
      taken and has finished. */
  lemma RestIsIdle<Job(!new)>(s: State<Job>)
    requires Inv(s) && s.workers != [] && s.closer.NotCalled?
    ensures AtRest(s) <==> Idle(s)
    ensures Idle(s) ==> |s.takenBy| == |s.enqueued| && forall k :: 0 <= k < |s.enqueued| ==> k in s.finished
  {
    if !Idle(s) {
      var e := MoreToDo(s);
    } else {
      assert s.owner.Nobody?;
      forall e: Event<Job> | Can(s, e) ensures !ByItself(e) {
      }
    }
  }

  /** From any reachable state of an open pool, what it does by itself is bounded, and where it stops every task
      enqueued so far has finished. */
  lemma Drains<Job(!new)>(s: State<Job>, es: seq<Event<Job>>, s': State<Job>)
    requires Reachable(s) && s.workers != [] && s.closer.NotCalled? && Run(s, es, s')
    requires forall e :: e in es ==> ByItself(e)
    ensures |es| <= WorkLeft(s)
    ensures AtRest(s') ==> s'.queue == [] && forall k :: 0 <= k < |s'.enqueued| ==> k in s'.finished
  {
    ReachableInv(s);
    RunInv(s, es, s');
    WorkEnds(s, es, s');
    RestIsIdle(s');
  }
}
