/** The thread pool as a step system: any number of workers, any number of clients enqueueing, and one
    caller shutting the pool down, interleaved arbitrarily between the points where they touch the mutex
    or the condition variable. */
module ThreadPool {

  /** Where a worker is in worker_thread. */
  datatype Pc =
    | AtLock                  // about to lock the mutex
    | Checking                // holds it, at the head of the inner while
    | Blocked                 // waiting on the condition, mutex released
    | Waking                  // woken, the wait has yet to lock the mutex again
    | Cleared                 // holds it, past the inner while
    | Taken(ticket: nat)      // holds it, with a task unlinked
    | Running(ticket: nat)    // runs the task
    | Returned

  /** Where a caller is in tpool_enqueue. */
  datatype Client<Job> = Outside | Wanting(job: Job) | Appending(job: Job) | Signalling | Leaving

  /** Where the one caller of tpool_shutdown is. */
  datatype Closer = NotCalled | Locking | Flagging | Broadcasting | Unlocking | Joining(joined: nat) | Discarding | Freed

  datatype Owner = Nobody | WorkerOwns(w: nat) | ClientOwns(c: nat) | CloserOwns

  /** The shared state, the position of everyone, and a history: what was enqueued, in order; which worker
      took the k-th task; which tasks have finished; what shutdown threw away. */
  datatype State<Job> = State(
    workers: seq<Pc>, clients: seq<Client<Job>>, closer: Closer,
    owner: Owner, queue: seq<Job>, shutdown: bool,
    enqueued: seq<Job>, takenBy: seq<nat>, finished: seq<nat>, discarded: seq<Job>)

  datatype WorkerStep = Lock | Wait | WakeSpuriously | Relock | Pass | Return | Retry | Take | Unlock | Finish
  datatype ClientStep<Job> = Call(job: Job) | LockQueue | Append | Signal(woken: set<nat>) | UnlockQueue
  datatype CloserStep = CallShutdown | LockPool | SetFlag | Broadcast | UnlockPool | Join | StopJoining | Discard | Free

  datatype Event<Job> =
    | ByWorker(w: nat, ws: WorkerStep)
    | ByClient(c: nat, cs: ClientStep<Job>)
    | ByCloser(ss: CloserStep)

  function Start<Job>(n: nat, m: nat): State<Job> {
    State(seq(n, _ => AtLock), seq(m, _ => Outside), NotCalled, Nobody, [], false, [], [], [], [])
  }

  // ---- Workers ----

  predicate CanWork<Job>(s: State<Job>, i: nat, e: WorkerStep) {
    i < |s.workers| &&
    match e
    case Lock => s.workers[i].AtLock? && s.owner.Nobody?
    case Wait => s.workers[i].Checking? && s.queue == [] && !s.shutdown
    case WakeSpuriously => s.workers[i].Blocked?
    case Relock => s.workers[i].Waking? && s.owner.Nobody?
    case Pass => s.workers[i].Checking? && !(s.queue == [] && !s.shutdown)
    case Return => s.workers[i].Cleared? && s.shutdown
    case Retry => s.workers[i].Cleared? && !s.shutdown && s.queue == []
    case Take => s.workers[i].Cleared? && !s.shutdown && s.queue != []
    case Unlock => s.workers[i].Taken?
    case Finish => s.workers[i].Running?
  }

  function Goes<Job>(s: State<Job>, i: nat, pc: Pc): State<Job>
    requires i < |s.workers|
  {
    s.(workers := s.workers[i := pc])
  }

  function Work<Job>(s: State<Job>, i: nat, e: WorkerStep): State<Job>
    requires CanWork(s, i, e)
  {
    match e
    case Lock => Goes(s, i, Checking).(owner := WorkerOwns(i))
    case Wait => Goes(s, i, Blocked).(owner := Nobody)
    case WakeSpuriously => Goes(s, i, Waking)
    case Relock => Goes(s, i, Checking).(owner := WorkerOwns(i))
    case Pass => Goes(s, i, Cleared)
    case Return => Goes(s, i, Returned).(owner := Nobody)
    case Retry => Goes(s, i, AtLock).(owner := Nobody)
    case Take => Goes(s, i, Taken(|s.takenBy|)).(queue := s.queue[1..], takenBy := s.takenBy + [i])
    case Unlock => Goes(s, i, Running(s.workers[i].ticket)).(owner := Nobody)
    case Finish => Goes(s, i, AtLock).(finished := s.finished + [s.workers[i].ticket])
  }

  // ---- Clients ----

  /** Clients do not call into a pool that shutdown is already taking apart: that is their obligation. */
  predicate CanEnqueue<Job>(s: State<Job>, c: nat, e: ClientStep<Job>) {
    c < |s.clients| &&
    match e
    case Call(_) => s.clients[c].Outside? && !s.closer.Discarding? && !s.closer.Freed?
    case LockQueue => s.clients[c].Wanting? && s.owner.Nobody?
    case Append => s.clients[c].Appending?
    case Signal(woken) =>
      && s.clients[c].Signalling?
      && (forall i :: i in woken ==> i < |s.workers| && s.workers[i].Blocked?)
      && (woken == {} ==> NoneBlocked(s))    // a signal wakes at least one waiter if there is one
    case UnlockQueue => s.clients[c].Leaving?
  }

  predicate NoneBlocked<Job>(s: State<Job>) {
    forall i :: 0 <= i < |s.workers| ==> !s.workers[i].Blocked?
  }

  function Wake(workers: seq<Pc>, woken: set<nat>): (r: seq<Pc>)
    ensures |r| == |workers|
    ensures forall i :: 0 <= i < |r| ==>
              r[i] == if workers[i].Blocked? && i in woken then Waking else workers[i]
  {
    seq(|workers|, i requires 0 <= i < |workers| =>
      if workers[i].Blocked? && i in woken then Waking else workers[i])
  }

  function WakeAll(workers: seq<Pc>): (r: seq<Pc>)
    ensures |r| == |workers|
    ensures forall i :: 0 <= i < |r| ==> r[i] == if workers[i].Blocked? then Waking else workers[i]
  {
    seq(|workers|, i requires 0 <= i < |workers| => if workers[i].Blocked? then Waking else workers[i])
  }

  function Enqueue<Job>(s: State<Job>, c: nat, e: ClientStep<Job>): State<Job>
    requires CanEnqueue(s, c, e)
  {
    match e
    case Call(job) => s.(clients := s.clients[c := Wanting(job)])
    case LockQueue => s.(clients := s.clients[c := Appending(s.clients[c].job)], owner := ClientOwns(c))
    case Append =>
      var job := s.clients[c].job;
      s.(clients := s.clients[c := Signalling], queue := s.queue + [job], enqueued := s.enqueued + [job])
    case Signal(woken) => s.(clients := s.clients[c := Leaving], workers := Wake(s.workers, woken))
    case UnlockQueue => s.(clients := s.clients[c := Outside], owner := Nobody)
  }

  // ---- Shutdown ----

  /** The number of workers shutdown joins: the requested number went through eight bits. */
  function JoinCount<Job>(s: State<Job>): nat {
    |s.workers| % 256
  }

  predicate CanClose<Job>(s: State<Job>, e: CloserStep) {
    match e
    case CallShutdown => s.closer.NotCalled?
    case LockPool => s.closer.Locking? && s.owner.Nobody?
    case SetFlag => s.closer.Flagging?
    case Broadcast => s.closer.Broadcasting?
    case UnlockPool => s.closer.Unlocking?
    case Join =>
      && s.closer.Joining? && s.closer.joined < JoinCount(s)
      && s.workers[s.closer.joined].Returned?
    case StopJoining =>
      && s.closer.Joining? && s.closer.joined == JoinCount(s)
      && forall c :: 0 <= c < |s.clients| ==> s.clients[c].Outside?
    case Discard => s.closer.Discarding? && s.queue != []
    case Free => s.closer.Discarding? && s.queue == []
  }

  function Close<Job>(s: State<Job>, e: CloserStep): State<Job>
    requires CanClose(s, e)
  {
    match e
    case CallShutdown => s.(closer := Locking)
    case LockPool => s.(closer := Flagging, owner := CloserOwns)
    case SetFlag => s.(closer := Broadcasting, shutdown := true)
    case Broadcast => s.(closer := Unlocking, workers := WakeAll(s.workers))
    case UnlockPool => s.(closer := Joining(0), owner := Nobody)
    case Join => s.(closer := Joining(s.closer.joined + 1))
    case StopJoining => s.(closer := Discarding)
    case Discard => s.(queue := s.queue[1..], discarded := s.discarded + [s.queue[0]])
    case Free => s.(closer := Freed)
  }

  // ---- Runs ----

  predicate Can<Job>(s: State<Job>, e: Event<Job>) {
    match e
    case ByWorker(i, ws) => CanWork(s, i, ws)
    case ByClient(c, cs) => CanEnqueue(s, c, cs)
    case ByCloser(ss) => CanClose(s, ss)
  }

  function Step<Job>(s: State<Job>, e: Event<Job>): State<Job>
    requires Can(s, e)
  {
    match e
    case ByWorker(i, ws) => Work(s, i, ws)
    case ByClient(c, cs) => Enqueue(s, c, cs)
    case ByCloser(ss) => Close(s, ss)
  }

  /** From s the events es, each possible in its turn, lead to s'. */
  ghost predicate Run<Job>(s: State<Job>, es: seq<Event<Job>>, s': State<Job>)
    decreases |es|
  {
    if es == [] then s == s'
    else Can(s, es[0]) && Run(Step(s, es[0]), es[1..], s')
  }

  // ---- What every step keeps: the mutex and the flag ----

  predicate WorkerInside(pc: Pc) {
    pc.Checking? || pc.Cleared? || pc.Taken?
  }

  predicate ClientInside<Job>(c: Client<Job>) {
    c.Appending? || c.Signalling? || c.Leaving?
  }

  predicate CloserInside(c: Closer) {
    c.Flagging? || c.Broadcasting? || c.Unlocking?
  }

  /** Exactly the owner of the mutex is inside a critical section. */
  ghost predicate Mutex<Job>(s: State<Job>) {
    && (forall i :: 0 <= i < |s.workers| ==> (WorkerInside(s.workers[i]) <==> s.owner == WorkerOwns(i)))
    && (forall c :: 0 <= c < |s.clients| ==> (ClientInside(s.clients[c]) <==> s.owner == ClientOwns(c)))
    && (CloserInside(s.closer) <==> s.owner == CloserOwns)
    && (s.owner.WorkerOwns? ==> s.owner.w < |s.workers|)
    && (s.owner.ClientOwns? ==> s.owner.c < |s.clients|)
  }

  predicate Flagged(c: Closer) {
    c.Broadcasting? || AfterBroadcast(c)
  }

  predicate AfterBroadcast(c: Closer) {
    c.Unlocking? || c.Joining? || c.Discarding? || c.Freed?
  }

  /** The flag is set from the moment shutdown sets it; nobody returns before, nobody sleeps after the
      broadcast, and whoever is past the inner loop has a reason to be. */
  ghost predicate Flag<Job>(s: State<Job>) {
    && (s.shutdown <==> Flagged(s.closer))
    && (AfterBroadcast(s.closer) ==> NoneBlocked(s))
    && (forall i :: 0 <= i < |s.workers| && s.workers[i].Returned? ==> AfterBroadcast(s.closer))
    && (forall i :: 0 <= i < |s.workers| && s.workers[i].Cleared? ==> s.queue != [] || s.shutdown)
  }

  lemma WorkKeepsMutex<Job>(s: State<Job>, i: nat, e: WorkerStep)
    requires CanWork(s, i, e) && Mutex(s)
    ensures Mutex(Work(s, i, e))
  {
  }

  lemma EnqueueKeepsMutex<Job>(s: State<Job>, c: nat, e: ClientStep<Job>)
    requires CanEnqueue(s, c, e) && Mutex(s)
    ensures Mutex(Enqueue(s, c, e))
  {
  }

  lemma CloseKeepsMutex<Job>(s: State<Job>, e: CloserStep)
    requires CanClose(s, e) && Mutex(s)
    ensures Mutex(Close(s, e))
  {
  }

  lemma WorkKeepsFlag<Job>(s: State<Job>, i: nat, e: WorkerStep)
    requires CanWork(s, i, e) && Mutex(s) && Flag(s)
    ensures Flag(Work(s, i, e))
  {
  }

  lemma EnqueueKeepsFlag<Job>(s: State<Job>, c: nat, e: ClientStep<Job>)
    requires CanEnqueue(s, c, e) && Mutex(s) && Flag(s)
    ensures Flag(Enqueue(s, c, e))
  {
  }

  lemma CloseKeepsFlag<Job>(s: State<Job>, e: CloserStep)
    requires CanClose(s, e) && Mutex(s) && Flag(s)
    ensures Flag(Close(s, e))
  {
  }

  // ---- What every step keeps: order and accounts of tasks ----

  /** Tasks leave the queue in the order they came, one end taken by workers, the rest thrown away by
      shutdown, and shutdown throws nothing away before it has joined. */
  ghost predicate Fifo<Job>(s: State<Job>) {
    && |s.takenBy| <= |s.enqueued|
    && s.discarded + s.queue == s.enqueued[|s.takenBy|..]
    && (s.discarded != [] ==> s.closer.Discarding? || s.closer.Freed?)
  }

  predicate HasTask(pc: Pc) {
    pc.Taken? || pc.Running?
  }

  /** Every task taken is with exactly the worker that took it until it has finished, and finishes once. */
  ghost predicate Tickets<Job>(s: State<Job>) {
    && (forall k :: 0 <= k < |s.takenBy| ==>
          && s.takenBy[k] < |s.workers|
          && (k in s.finished || (HasTask(s.workers[s.takenBy[k]]) && s.workers[s.takenBy[k]].ticket == k)))
    && (forall i :: 0 <= i < |s.workers| && HasTask(s.workers[i]) ==>
          var k := s.workers[i].ticket; k < |s.takenBy| && s.takenBy[k] == i && k !in s.finished)
    && (forall a :: 0 <= a < |s.finished| ==> s.finished[a] < |s.takenBy|)
    && (forall a, b :: 0 <= a < b < |s.finished| ==> s.finished[a] != s.finished[b])
  }

  lemma WorkKeepsFifo<Job>(s: State<Job>, i: nat, e: WorkerStep)
    requires CanWork(s, i, e) && Flag(s) && Fifo(s)
    ensures Fifo(Work(s, i, e))
  {
    if e.Take? {
      assert s.discarded == [];
      assert s.queue[1..] == s.enqueued[|s.takenBy| + 1..];
    }
  }

  lemma EnqueueKeepsFifo<Job>(s: State<Job>, c: nat, e: ClientStep<Job>)
    requires CanEnqueue(s, c, e) && Fifo(s)
    ensures Fifo(Enqueue(s, c, e))
  {
    if e.Append? {
      var job := s.clients[c].job;
      assert (s.enqueued + [job])[|s.takenBy|..] == s.enqueued[|s.takenBy|..] + [job];
      assert s.discarded + (s.queue + [job]) == (s.discarded + s.queue) + [job];
    }
  }

  lemma CloseKeepsFifo<Job>(s: State<Job>, e: CloserStep)
    requires CanClose(s, e) && Fifo(s)
    ensures Fifo(Close(s, e))
  {
    if e.Discard? {
      assert (s.discarded + [s.queue[0]]) + s.queue[1..] == s.discarded + s.queue;
    }
  }

  lemma FinishKeepsTickets<Job>(s: State<Job>, i: nat)
    requires CanWork(s, i, Finish) && Tickets(s)
    ensures Tickets(Work(s, i, Finish))
  {
  }

  lemma TakeKeepsTickets<Job>(s: State<Job>, i: nat)
    requires CanWork(s, i, Take) && Tickets(s)
    ensures Tickets(Work(s, i, Take))
  {
  }

  lemma WorkKeepsTickets<Job>(s: State<Job>, i: nat, e: WorkerStep)
    requires CanWork(s, i, e) && Tickets(s)
    ensures Tickets(Work(s, i, e))
  {
    if e.Finish? {
      FinishKeepsTickets(s, i);
    } else if e.Take? {
      TakeKeepsTickets(s, i);
    }
  }

  lemma EnqueueKeepsTickets<Job>(s: State<Job>, c: nat, e: ClientStep<Job>)
    requires CanEnqueue(s, c, e) && Tickets(s)
    ensures Tickets(Enqueue(s, c, e))
  {
  }

  lemma CloseKeepsTickets<Job>(s: State<Job>, e: CloserStep)
    requires CanClose(s, e) && Tickets(s)
    ensures Tickets(Close(s, e))
  {
  }

  // ---- What every step keeps: nobody sleeps through work ----

  /** The sum of a weight over all workers. */
  function Sum(ws: seq<Pc>, f: Pc -> nat): nat {
    if ws == [] then 0 else f(ws[0]) + Sum(ws[1..], f)
  }

  lemma {:induction false} SumUpdate(ws: seq<Pc>, i: nat, pc: Pc, f: Pc -> nat)
    requires i < |ws|
    ensures Sum(ws[i := pc], f) == Sum(ws, f) - f(ws[i]) + f(pc)
  {
    var ws' := ws[i := pc];
    if i == 0 {
      assert ws'[1..] == ws[1..];
    } else {
      assert ws'[1..] == ws[1..][i - 1 := pc];
      SumUpdate(ws[1..], i - 1, pc, f);
    }
  }

  /** Pointwise at least as much, somewhere more. */
  lemma {:induction false} SumGrows(ws: seq<Pc>, ws': seq<Pc>, f: Pc -> nat)
    requires |ws| == |ws'| && forall i :: 0 <= i < |ws| ==> f(ws[i]) <= f(ws'[i])
    ensures Sum(ws, f) <= Sum(ws', f)
    ensures (exists i :: 0 <= i < |ws| && f(ws[i]) < f(ws'[i])) ==> Sum(ws, f) < Sum(ws', f)
  {
    if ws != [] {
      SumGrows(ws[1..], ws'[1..], f);
      if i :| 0 < i < |ws| && f(ws[i]) < f(ws'[i]) {
        assert f(ws[1..][i - 1]) < f(ws'[1..][i - 1]);
      }
    }
  }

  lemma {:induction false} SumPositive(ws: seq<Pc>, f: Pc -> nat)
    ensures Sum(ws, f) > 0 <==> exists i :: 0 <= i < |ws| && f(ws[i]) > 0
  {
    if ws != [] {
      SumPositive(ws[1..], f);
      if i :| 0 < i < |ws| && f(ws[i]) > 0 { assert f(ws[1..][i - 1]) > 0; }
      if i :| 0 <= i < |ws[1..]| && f(ws[1..][i]) > 0 { assert f(ws[i + 1]) > 0; }
    }
  }

  /** On the way to the queue: it will look at the queue before it can sleep. */
  function Seeking(pc: Pc): nat {
    if pc.AtLock? || pc.Checking? || pc.Waking? || pc.Cleared? then 1 else 0
  }

  function Busy(pc: Pc): nat {
    if pc.Taken? || pc.Running? then 1 else 0
  }

  /** A client has put a task on the queue and not yet signalled. */
  function SignalDue<Job>(s: State<Job>): nat {
    if s.owner.ClientOwns? && s.owner.c < |s.clients| && s.clients[s.owner.c].Signalling? then 1 else 0
  }

  /** While anyone sleeps, there is a worker on its way for every task in the queue. */
  ghost predicate Wakeups<Job>(s: State<Job>) {
    NoneBlocked(s) || |s.queue| <= Sum(s.workers, Seeking) + SignalDue(s)
  }

  /** Every task taken is being worked on or done. */
  ghost predicate Accounts<Job>(s: State<Job>) {
    |s.takenBy| == Sum(s.workers, Busy) + |s.finished|
  }

  lemma WorkKeepsAccounts<Job>(s: State<Job>, i: nat, e: WorkerStep)
    requires CanWork(s, i, e) && Accounts(s)
    ensures Accounts(Work(s, i, e))
  {
    SumUpdate(s.workers, i, Work(s, i, e).workers[i], Busy);
  }

  /** A worker's step blocks nobody else. */
  lemma WorkBlocksNoOther<Job>(s: State<Job>, i: nat, e: WorkerStep)
    requires CanWork(s, i, e) && NoneBlocked(s) && !e.Wait?
    ensures NoneBlocked(Work(s, i, e))
  {
    var s' := Work(s, i, e);
    forall j | 0 <= j < |s'.workers| ensures !s'.workers[j].Blocked? {
      assert j != i ==> s'.workers[j] == s.workers[j];
    }
  }

  lemma WorkKeepsWakeups<Job>(s: State<Job>, i: nat, e: WorkerStep)
    requires CanWork(s, i, e) && Mutex(s) && Flag(s) && Wakeups(s)
    ensures Wakeups(Work(s, i, e))
  {
    if NoneBlocked(s) && !e.Wait? {
      WorkBlocksNoOther(s, i, e);
    } else {
      SumUpdate(s.workers, i, Work(s, i, e).workers[i], Seeking);
    }
  }

  lemma EnqueueKeepsCounts<Job>(s: State<Job>, c: nat, e: ClientStep<Job>)
    requires CanEnqueue(s, c, e) && Mutex(s) && Wakeups(s) && Accounts(s)
    ensures Wakeups(Enqueue(s, c, e)) && Accounts(Enqueue(s, c, e))
  {
    if e.Signal? {
      var ws' := Wake(s.workers, e.woken);
      SumGrows(s.workers, ws', Seeking);
      SumGrows(s.workers, ws', Busy);
      SumGrows(ws', s.workers, Busy);
      if e.woken != {} {
        var i :| i in e.woken;
        assert Seeking(s.workers[i]) < Seeking(ws'[i]);
      }
    }
  }

  lemma CloseKeepsCounts<Job>(s: State<Job>, e: CloserStep)
    requires CanClose(s, e) && Mutex(s) && Wakeups(s) && Accounts(s)
    ensures Wakeups(Close(s, e)) && Accounts(Close(s, e))
  {
    if e.Broadcast? {
      SumGrows(s.workers, WakeAll(s.workers), Busy);
      SumGrows(WakeAll(s.workers), s.workers, Busy);
    }
  }

  // ---- What every step keeps: joining before freeing ----

  predicate AllReturned<Job>(s: State<Job>, n: nat)
    requires n <= |s.workers|
  {
    forall i :: 0 <= i < n ==> s.workers[i].Returned?
  }

  ghost predicate Joined<Job>(s: State<Job>) {
    && (s.closer.Joining? ==> s.closer.joined <= JoinCount(s) && AllReturned(s, s.closer.joined))
    && (s.closer.Discarding? || s.closer.Freed? ==>
          && AllReturned(s, JoinCount(s))
          && forall c :: 0 <= c < |s.clients| ==> s.clients[c].Outside?)
    && (s.closer.Freed? ==> s.queue == [])
  }

  lemma WorkKeepsJoined<Job>(s: State<Job>, i: nat, e: WorkerStep)
    requires CanWork(s, i, e) && Joined(s)
    ensures Joined(Work(s, i, e))
  {
  }

  lemma EnqueueKeepsJoined<Job>(s: State<Job>, c: nat, e: ClientStep<Job>)
    requires CanEnqueue(s, c, e) && Joined(s)
    ensures Joined(Enqueue(s, c, e))
  {
  }

  lemma CloseKeepsJoined<Job>(s: State<Job>, e: CloserStep)
    requires CanClose(s, e) && Joined(s)
    ensures Joined(Close(s, e))
  {
  }

  // ---- The invariant, over every run ----

  ghost predicate Inv<Job>(s: State<Job>) {
    Mutex(s) && Flag(s) && Fifo(s) && Tickets(s) && Wakeups(s) && Accounts(s) && Joined(s)
  }

  lemma {:induction false} SumOfSame(n: nat, pc: Pc, f: Pc -> nat)
    ensures Sum(seq(n, _ => pc), f) == n * f(pc)
  {
    if n > 0 {
      assert seq(n, _ => pc)[1..] == seq(n - 1, _ => pc);
      SumOfSame(n - 1, pc, f);
    }
  }

  lemma StartInv<Job>(n: nat, m: nat)
    ensures Inv<Job>(Start(n, m))
  {
    SumOfSame(n, AtLock, Busy);
  }

  lemma StepInv<Job>(s: State<Job>, e: Event<Job>)
    requires Can(s, e) && Inv(s)
    ensures Inv(Step(s, e)) && |Step(s, e).workers| == |s.workers|
  {
    match e
    case ByWorker(i, ws) =>
      WorkKeepsMutex(s, i, ws);
      WorkKeepsFlag(s, i, ws);
      WorkKeepsFifo(s, i, ws);
      WorkKeepsTickets(s, i, ws);
      WorkKeepsWakeups(s, i, ws);
      WorkKeepsAccounts(s, i, ws);
      WorkKeepsJoined(s, i, ws);
    case ByClient(c, cs) =>
      EnqueueKeepsMutex(s, c, cs);
      EnqueueKeepsFlag(s, c, cs);
      EnqueueKeepsFifo(s, c, cs);
      EnqueueKeepsTickets(s, c, cs);
      EnqueueKeepsCounts(s, c, cs);
      EnqueueKeepsJoined(s, c, cs);
    case ByCloser(ss) =>
      CloseKeepsMutex(s, ss);
      CloseKeepsFlag(s, ss);
      CloseKeepsFifo(s, ss);
      CloseKeepsTickets(s, ss);
      CloseKeepsCounts(s, ss);
      CloseKeepsJoined(s, ss);
  }

  lemma {:induction false} RunInv<Job>(s: State<Job>, es: seq<Event<Job>>, s': State<Job>)
    requires Inv(s) && Run(s, es, s')
    ensures Inv(s') && |s'.workers| == |s.workers|
    decreases |es|
  {
    if es != [] {
      StepInv(s, es[0]);
      RunInv(Step(s, es[0]), es[1..], s');
    }
  }

  /** s is the state after some run of a fresh pool. */
  ghost predicate Reachable<Job(!new)>(s: State<Job>) {
    exists m: nat, es: seq<Event<Job>> :: Run(Start(|s.workers|, m), es, s)
  }

  lemma ReachableInv<Job(!new)>(s: State<Job>)
    requires Reachable(s)
    ensures Inv(s)
  {
    var m: nat, es: seq<Event<Job>> :| Run(Start(|s.workers|, m), es, s);
    StartInv<Job>(|s.workers|, m);
    RunInv(Start(|s.workers|, m), es, s);
  }

  // ---- No lost wakeup ----

  /** In every reachable state in which someone sleeps, every queued task already has a worker on its way
      to it, up to the one task whose client is still to signal. */
  lemma NoLostWakeup<Job(!new)>(s: State<Job>)
    requires Reachable(s) && !NoneBlocked(s)
    ensures |s.queue| <= Sum(s.workers, Seeking) + SignalDue(s)
  {
    ReachableInv(s);
  }

  /** Some worker that has not returned is awake, or all have returned. */
  predicate Attended<Job>(s: State<Job>) {
    || AllReturned(s, |s.workers|)
    || exists i :: 0 <= i < |s.workers| && !s.workers[i].Blocked? && !s.workers[i].Returned?
  }

  /** So it is once a task is queued and its signal sent, or shutdown has been broadcast. */
  lemma SomeoneAwake<Job(!new)>(s: State<Job>)
    requires Reachable(s) && s.workers != []
    requires (s.queue != [] && SignalDue(s) == 0) || AfterBroadcast(s.closer)
    ensures Attended(s)
  {
    ReachableInv(s);
    if !NoneBlocked(s) {
      SumPositive(s.workers, Seeking);
    } else if !AllReturned(s, |s.workers|) {
      var i :| 0 <= i < |s.workers| && !s.workers[i].Returned?;
      assert !s.workers[i].Blocked?;
    }
  }

  /** The branch that unlocks and goes round again on finding no task is never taken. */
  lemma NeverRetries<Job(!new)>(s: State<Job>, i: nat)
    requires Reachable(s)
    ensures !CanWork(s, i, Retry)
  {
    ReachableInv(s);
  }

  // ---- Order and accounts ----

  /** In every reachable state the tasks taken are a prefix of the tasks enqueued, the queue and what
      shutdown discarded are the rest, and enqueued = queued + discarded + in work + finished. */
  lemma FirstInFirstOut<Job(!new)>(s: State<Job>)
    requires Reachable(s)
    ensures |s.takenBy| <= |s.enqueued|
    ensures s.enqueued == s.enqueued[..|s.takenBy|] + s.discarded + s.queue
    ensures |s.enqueued| == |s.queue| + |s.discarded| + Sum(s.workers, Busy) + |s.finished|
  {
    ReachableInv(s);
    assert s.enqueued == s.enqueued[..|s.takenBy|] + s.enqueued[|s.takenBy|..];
    assert |s.discarded + s.queue| == |s.discarded| + |s.queue|;
  }

  /** No task is ever with two workers, with one after it has finished, or finished twice. */
  lemma TakenOnce<Job(!new)>(s: State<Job>)
    requires Reachable(s)
    ensures forall i, j :: 0 <= i < j < |s.workers| && HasTask(s.workers[i]) && HasTask(s.workers[j]) ==>
              s.workers[i].ticket != s.workers[j].ticket
    ensures forall i :: 0 <= i < |s.workers| && HasTask(s.workers[i]) ==> s.workers[i].ticket !in s.finished
    ensures forall a, b :: 0 <= a < b < |s.finished| ==> s.finished[a] != s.finished[b]
  {
    ReachableInv(s);
  }

  // ---- Shutdown ----

  /** From the moment the flag is set no worker takes another task; from the broadcast on none sleeps. */
  lemma {:induction false} ShutdownStopsWork<Job>(s: State<Job>, es: seq<Event<Job>>, s': State<Job>)
    requires Inv(s) && s.shutdown && Run(s, es, s')
    ensures s'.shutdown && s'.takenBy == s.takenBy
    ensures AfterBroadcast(s.closer) ==> AfterBroadcast(s'.closer) && NoneBlocked(s')
    decreases |es|
  {
    if es != [] {
      StepInv(s, es[0]);
      ShutdownStopsWork(Step(s, es[0]), es[1..], s');
    }
  }

  /** The pool is freed only after every worker it joins has returned: with at most 255 workers, all of
      them. By then every task enqueued has finished or been discarded. */
  lemma FreedAfterAll<Job(!new)>(s: State<Job>)
    requires Reachable(s) && s.closer.Freed? && |s.workers| <= 255
    ensures AllReturned(s, |s.workers|)
    ensures |s.takenBy| <= |s.enqueued|
    ensures s.enqueued == s.enqueued[..|s.takenBy|] + s.discarded
    ensures |s.finished| == |s.takenBy| && forall k :: 0 <= k < |s.takenBy| ==> k in s.finished
  {
    ReachableInv(s);
    FirstInFirstOut(s);
    if Sum(s.workers, Busy) > 0 {
      SumPositive(s.workers, Busy);
    }
    assert s.discarded + [] == s.discarded;
  }

  /** The state once shutdown has thrown away the whole queue, and the steps that lead there. */
  function AfterDiscards<Job>(s: State<Job>): State<Job> {
    s.(queue := [], discarded := s.discarded + s.queue)
  }

  lemma {:induction false} DiscardRun<Job>(s: State<Job>, es: seq<Event<Job>>)
    requires s.closer.Discarding? && es == seq(|s.queue|, _ => ByCloser(Discard))
    ensures Run(s, es, AfterDiscards(s))
    decreases |s.queue|
  {
    if s.queue == [] {
      assert s.discarded + [] == s.discarded;
    } else {
      var s' := Step(s, es[0]);
      assert es[1..] == seq(|s'.queue|, _ => ByCloser(Discard));
      assert s'.discarded + s'.queue == s.discarded + s.queue;
      DiscardRun(s', es[1..]);
    }
  }

  /** How many steps of its own each party can still make once shutdown has been broadcast. */
  function WorkerSteps(pc: Pc): nat {
    match pc
    case Returned => 0
    case Cleared => 1
    case Checking => 2
    case AtLock => 3
    case Waking => 3
    case Blocked => 4
    case Running(_) => 4
    case Taken(_) => 5
  }

  function ClientSteps<Job>(c: Client<Job>): nat {
    match c
    case Outside => 0
    case Leaving => 1
    case Signalling => 2
    case Appending(_) => 4
    case Wanting(_) => 5
  }

  function ClientTotal<Job>(cs: seq<Client<Job>>, f: Client<Job> -> nat): nat {
    if cs == [] then 0 else f(cs[0]) + ClientTotal(cs[1..], f)
  }

  function CloserSteps<Job>(s: State<Job>): int {
    match s.closer
    case Unlocking => JoinCount(s) + 3
    case Joining(k) => JoinCount(s) - k + 2
    case Discarding => 1
    case _ => 0
  }

  function StepsLeft<Job>(s: State<Job>): int {
    Sum(s.workers, WorkerSteps) + ClientTotal(s.clients, ClientSteps) + CloserSteps(s) + |s.queue|
  }

  lemma {:induction false} ClientUpdate<Job>(cs: seq<Client<Job>>, c: nat, to: Client<Job>, f: Client<Job> -> nat)
    requires c < |cs|
    ensures ClientTotal(cs[c := to], f) == ClientTotal(cs, f) - f(cs[c]) + f(to)
  {
    var cs' := cs[c := to];
    if c == 0 {
      assert cs'[1..] == cs[1..];
    } else {
      assert cs'[1..] == cs[1..][c - 1 := to];
      ClientUpdate(cs[1..], c - 1, to, f);
    }
  }

  predicate IsCall<Job>(e: Event<Job>) {
    e.ByClient? && e.cs.Call?
  }

  lemma WorkDecreases<Job>(s: State<Job>, i: nat, e: WorkerStep)
    requires Inv(s) && AfterBroadcast(s.closer) && CanWork(s, i, e)
    ensures StepsLeft(Work(s, i, e)) < StepsLeft(s)
  {
    SumUpdate(s.workers, i, Work(s, i, e).workers[i], WorkerSteps);
  }

  lemma EnqueueDecreases<Job>(s: State<Job>, c: nat, e: ClientStep<Job>)
    requires Inv(s) && AfterBroadcast(s.closer) && CanEnqueue(s, c, e) && !e.Call?
    ensures StepsLeft(Enqueue(s, c, e)) < StepsLeft(s)
  {
    ClientUpdate(s.clients, c, Enqueue(s, c, e).clients[c], ClientSteps);
    if e.Signal? { assert Wake(s.workers, e.woken) == s.workers; }
  }

  /** After the broadcast every step except a new call brings the end closer, the end of a task included. */
  lemma StepsDecrease<Job>(s: State<Job>, e: Event<Job>)
    requires Inv(s) && AfterBroadcast(s.closer) && Can(s, e) && !IsCall(e)
    ensures StepsLeft(Step(s, e)) < StepsLeft(s)
  {
    match e
    case ByWorker(i, ws) => WorkDecreases(s, i, ws);
    case ByClient(c, cs) => EnqueueDecreases(s, c, cs);
    case ByCloser(ss) =>
  }

  lemma StepsNonNegative<Job>(s: State<Job>)
    requires Inv(s)
    ensures StepsLeft(s) >= 0
  {
  }

  /** After the broadcast, with no new calls, every run is finite, whatever the interleaving. */
  lemma {:induction false} ShutdownTerminates<Job>(s: State<Job>, es: seq<Event<Job>>, s': State<Job>)
    requires Inv(s) && AfterBroadcast(s.closer) && Run(s, es, s')
    requires forall e :: e in es ==> !IsCall(e)
    ensures |es| <= StepsLeft(s) - StepsLeft(s') <= StepsLeft(s)
    decreases |es|
  {
    if es != [] {
      StepInv(s, es[0]);
      StepsDecrease(s, es[0]);
      ShutdownTerminates(Step(s, es[0]), es[1..], s');
    }
    RunInv(s, es, s');
    StepsNonNegative(s');
  }

  /** And it cannot stop before the pool has been freed: until then somebody can make a step. */
  lemma ShutdownNeverStuck<Job(!new)>(s: State<Job>)
    requires Reachable(s) && AfterBroadcast(s.closer) && !s.closer.Freed?
    ensures exists e :: Can(s, e) && !IsCall(e)
  {
    ReachableInv(s);
    var e := NextStep(s);
  }

  lemma NextStep<Job>(s: State<Job>) returns (e: Event<Job>)
    requires Inv(s) && AfterBroadcast(s.closer) && !s.closer.Freed?
    ensures Can(s, e) && !IsCall(e)
  {
    match s.owner
    case WorkerOwns(i) =>
      var pc := s.workers[i];
      e := ByWorker(i, if pc.Checking? then Pass else if pc.Cleared? then Return else Unlock);
    case ClientOwns(c) =>
      var cl := s.clients[c];
      e := ByClient(c, if cl.Appending? then Append else if cl.Signalling? then Signal({}) else UnlockQueue);
    case CloserOwns =>
      e := ByCloser(UnlockPool);
    case Nobody =>
      if i :| 0 <= i < |s.workers| && !s.workers[i].Returned? {
        var pc := s.workers[i];
        e := ByWorker(i, if pc.AtLock? then Lock else if pc.Waking? then Relock else Finish);
      } else if c :| 0 <= c < |s.clients| && !s.clients[c].Outside? {
        e := ByClient(c, LockQueue);
      } else {
        e := ByCloser(
          if s.closer.Joining? then (if s.closer.joined < JoinCount(s) then Join else StopJoining)
          else if s.queue != [] then Discard else Free);
      }
  }

  /** While a task is queued the pool never waits for a caller or a stray wakeup: some other step is possible. */
  lemma WorkNeverStuck<Job(!new)>(s: State<Job>)
    requires Reachable(s) && s.workers != [] && s.queue != [] && !s.closer.Freed?
    ensures exists e :: Can(s, e) && !IsCall(e) && e != ByCloser(CallShutdown)
                        && !(e.ByWorker? && e.ws.WakeSpuriously?)
  {
    ReachableInv(s);
    if AfterBroadcast(s.closer) {
      var e := NextStep(s);
      assert Can(s, e);
    } else if s.owner.Nobody? {
      if !NoneBlocked(s) { SumPositive(s.workers, Seeking); }
      assert !s.workers[0].Returned?;
      var i :| 0 <= i < |s.workers| && !s.workers[i].Blocked? && !s.workers[i].Returned?;
      var pc := s.workers[i];
      assert Can(s, ByWorker(i, if pc.AtLock? then Lock else if pc.Waking? then Relock else Finish));
    } else {
      var e := OwnersStep(s);
      assert Can(s, e);
    }
  }

  lemma OwnersStep<Job>(s: State<Job>) returns (e: Event<Job>)
    requires Inv(s) && !s.owner.Nobody?
    ensures Can(s, e) && !IsCall(e) && e != ByCloser(CallShutdown) && !(e.ByWorker? && e.ws.WakeSpuriously?)
  {
    match s.owner
    case WorkerOwns(i) =>
      var pc := s.workers[i];
      e := ByWorker(i, if pc.Taken? then Unlock
                       else if pc.Checking? then (if s.queue == [] && !s.shutdown then Wait else Pass)
                       else if s.shutdown then Return else Take);
    case ClientOwns(c) =>
      var cl := s.clients[c];
      var blocked := set i: nat | i < |s.workers| && Sleeps(s, i);
      assert blocked == {} ==> NoneBlocked(s) by {
        if i :| 0 <= i < |s.workers| && s.workers[i].Blocked? { assert Sleeps(s, i) && i in blocked; }
      }
      e := ByClient(c, if cl.Appending? then Append else if cl.Signalling? then Signal(blocked) else UnlockQueue);
    case CloserOwns =>
      e := ByCloser(if s.closer.Flagging? then SetFlag else if s.closer.Broadcasting? then Broadcast else UnlockPool);
  }

  predicate Sleeps<Job>(s: State<Job>, i: nat)
    requires i < |s.workers|
  {
    s.workers[i].Blocked?
  }

  // ---- More than 255 workers ----

  lemma {:induction false} RunAppend<Job>(s: State<Job>, es: seq<Event<Job>>, t: State<Job>, fs: seq<Event<Job>>, u: State<Job>)
    requires Run(s, es, t) && Run(t, fs, u)
    ensures Run(s, es + fs, u)
    decreases |es|
  {
    if es == [] {
      assert es + fs == fs;
    } else {
      assert (es + fs)[1..] == es[1..] + fs;
      RunAppend(Step(s, es[0]), es[1..], t, fs, u);
    }
  }

  /** A pool nobody ever used, shutdown having joined its first k workers. */
  function JoinedIdle(n: nat, k: nat): State<int> {
    State(seq(n, i => if i < k then Returned else AtLock), [], Joining(k), Nobody, [], true, [], [], [], [])
  }

  lemma AnnounceIdle(n: nat) returns (es: seq<Event<int>>)
    ensures Run(Start<int>(n, 0), es, JoinedIdle(n, 0))
  {
    var s0 := Start<int>(n, 0);
    var s1 := s0.(closer := Flagging, owner := CloserOwns);
    var s2 := s1.(closer := Unlocking, shutdown := true);
    assert WakeAll(s0.workers) == s0.workers == JoinedIdle(n, 0).workers;
    var first := [ByCloser(CallShutdown), ByCloser(LockPool)];
    var second := [ByCloser(SetFlag), ByCloser(Broadcast)];
    assert Run(s0, first, s1) by { assert Run(Step(s0, first[0]), first[1..], s1); }
    assert Run(s1, second, s2) by { assert Run(Step(s1, second[0]), second[1..], s2); }
    RunAppend(s0, first, s1, second, s2);
    RunAppend(s0, first + second, s2, [ByCloser(UnlockPool)], JoinedIdle(n, 0));
    es := first + second + [ByCloser(UnlockPool)];
  }

  lemma JoinOneIdle(n: nat, k: nat) returns (es: seq<Event<int>>)
    requires k < n % 256
    ensures Run(JoinedIdle(n, k), es, JoinedIdle(n, k + 1))
  {
    var s0 := JoinedIdle(n, k);
    var s1 := Goes(s0, k, Cleared).(owner := WorkerOwns(k));
    var s2 := Goes(s0, k, Returned);
    assert s2.workers == JoinedIdle(n, k + 1).workers;
    assert Goes(Goes(s0, k, Checking), k, Cleared).workers == s1.workers;
    assert Goes(s1, k, Returned).workers == s2.workers;
    var first := [ByWorker(k, Lock), ByWorker(k, Pass)];
    var second := [ByWorker(k, Return), ByCloser(Join)];
    assert Run(s0, first, s1) by { assert Run(Step(s0, first[0]), first[1..], s1); }
    assert Run(s1, second, JoinedIdle(n, k + 1)) by {
      assert Step(s1, second[0]) == s2;
      assert Run(s2, second[1..], JoinedIdle(n, k + 1));
    }
    RunAppend(s0, first, s1, second, JoinedIdle(n, k + 1));
    es := first + second;
  }

  lemma JoinIdle(n: nat, k: nat) returns (es: seq<Event<int>>)
    requires k <= n % 256
    ensures Run(Start<int>(n, 0), es, JoinedIdle(n, k))
  {
    if k == 0 {
      es := AnnounceIdle(n);
    } else {
      var es1 := JoinIdle(n, k - 1);
      var es2 := JoinOneIdle(n, k - 1);
      RunAppend(Start<int>(n, 0), es1, JoinedIdle(n, k - 1), es2, JoinedIdle(n, k));
      es := es1 + es2;
    }
  }

  /** A pool of n workers can be freed under a worker that has not returned if and only if n exceeds 255. */
  lemma FreedTooEarly(n: nat)
    ensures (exists s: State<int> :: Reachable(s) && |s.workers| == n && s.closer.Freed? && !AllReturned(s, n))
            <==> n > 255
  {
    if n > 255 {
      var k := n % 256;
      var es1 := JoinIdle(n, k);
      var s1 := JoinedIdle(n, k);
      var s2 := s1.(closer := Freed);
      var es2 := [ByCloser(StopJoining), ByCloser(Free)];
      assert Run(s1, es2, s2) by { assert Run(Step(s1, es2[0]), es2[1..], s2); }
      RunAppend(Start<int>(n, 0), es1, s1, es2, s2);
      assert Reachable(s2) by { assert Run(Start<int>(|s2.workers|, 0), es1 + es2, s2); }
      assert !s2.workers[n - 1].Returned?;
    } else {
      forall s: State<int> | Reachable(s) && |s.workers| == n && s.closer.Freed? ensures AllReturned(s, n) {
        FreedAfterAll(s);
      }
    }
  }
}
