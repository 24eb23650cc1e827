/** From the calls of the clients to the tasks in the pool, read off the events of a run: what a client calls with is
    what gets appended, once, in the order of its calls; and who has to wait for what. */
module PoolCalls {
  import opened ThreadPool

  // ---- What was called, and what was appended ----

  /** The tasks client c called with, in the order of its calls. */
  function CallsBy<Job>(es: seq<Event<Job>>, c: nat): seq<Job> {
    if es == [] then []
    else (if es[0].ByClient? && es[0].c == c && es[0].cs.Call? then [es[0].cs.job] else []) + CallsBy(es[1..], c)
  }

  function Calls<Job>(es: seq<Event<Job>>): seq<Job> {
    if es == [] then []
    else (if es[0].ByClient? && es[0].cs.Call? then [es[0].cs.job] else []) + Calls(es[1..])
  }

  /** What the history gained while client c made a step. */
  ghost function AppendedBy<Job>(s: State<Job>, es: seq<Event<Job>>, s': State<Job>, c: nat): seq<Job>
    requires Run(s, es, s')
    decreases |es|
  {
    if es == [] then []
    else
      var t := Step(s, es[0]);
      Gained(s, es[0], c) + AppendedBy(t, es[1..], s', c)
  }

  ghost function Gained<Job>(s: State<Job>, e: Event<Job>, c: nat): seq<Job>
    requires Can(s, e)
  {
    if e.ByClient? && e.c == c && |Step(s, e).enqueued| >= |s.enqueued| then Step(s, e).enqueued[|s.enqueued|..] else []
  }

  /** The task of a call that has not been appended yet. */
  function InHand<Job>(s: State<Job>, c: nat): seq<Job> {
    if c >= |s.clients| then []
    else match s.clients[c]
      case Wanting(job) => [job]
      case Appending(job) => [job]
      case _ => []
  }

  lemma StepHands<Job>(s: State<Job>, e: Event<Job>, c: nat)
    requires Can(s, e)
    ensures InHand(s, c) + CallsBy([e], c) == Gained(s, e, c) + InHand(Step(s, e), c)
  {
    assert [e][1..] == [];
    assert s.enqueued[|s.enqueued|..] == [];
    if e.ByClient? && e.cs.Append? {
      assert (s.enqueued + [s.clients[e.c].job])[|s.enqueued|..] == [s.clients[e.c].job];
    }
  }

  lemma CallsCons<Job>(es: seq<Event<Job>>, c: nat)
    requires es != []
    ensures CallsBy(es, c) == CallsBy([es[0]], c) + CallsBy(es[1..], c)
  {
    assert [es[0]][1..] == [];
  }

  lemma {:induction false} RunHands<Job>(s: State<Job>, es: seq<Event<Job>>, s': State<Job>, c: nat)
    requires Run(s, es, s')
    ensures InHand(s, c) + CallsBy(es, c) == AppendedBy(s, es, s', c) + InHand(s', c)
    decreases |es|
  {
    if es != [] {
      var t := Step(s, es[0]);
      StepHands(s, es[0], c);
      RunHands(t, es[1..], s', c);
      CallsCons(es, c);
      Shift(InHand(s, c), CallsBy([es[0]], c), CallsBy(es[1..], c), Gained(s, es[0], c), InHand(t, c),
            AppendedBy(t, es[1..], s', c), InHand(s', c));
    }
  }

  lemma Shift<X>(a: seq<X>, b: seq<X>, c: seq<X>, g: seq<X>, h: seq<X>, r: seq<X>, k: seq<X>)
    requires a + b == g + h && h + c == r + k
    ensures a + (b + c) == g + r + k
  {
    assert a + (b + c) == (a + b) + c == g + (h + c);
  }

  /** Over every run of a fresh pool the k-th task a client appends is the one of its k-th call; only a call under way
      has not appended its task yet. */
  lemma AppendsItsCalls<Job>(n: nat, m: nat, es: seq<Event<Job>>, s': State<Job>, c: nat)
    requires Run(Start(n, m), es, s')
    ensures CallsBy(es, c) == AppendedBy(Start(n, m), es, s', c) + InHand(s', c)
  {
    RunHands(Start(n, m), es, s', c);
  }

  // ---- All clients together ----

  function Held<Job>(c: Client<Job>): multiset<Job> {
    match c
    case Wanting(job) => multiset{job}
    case Appending(job) => multiset{job}
    case _ => multiset{}
  }

  /** The tasks in the hands of all clients. */
  function AllHeld<Job>(cs: seq<Client<Job>>): multiset<Job> {
    if cs == [] then multiset{} else Held(cs[0]) + AllHeld(cs[1..])
  }

  lemma {:induction false} HandChanges<Job>(cs: seq<Client<Job>>, c: nat, to: Client<Job>)
    requires c < |cs|
    ensures AllHeld(cs[c := to]) + Held(cs[c]) == AllHeld(cs) + Held(to)
  {
    var cs' := cs[c := to];
    if c == 0 {
      assert cs'[1..] == cs[1..];
      Swap(Held(cs[0]), Held(to), AllHeld(cs[1..]));
    } else {
      assert cs'[1..] == cs[1..][c - 1 := to];
      HandChanges(cs[1..], c - 1, to);
      Under(Held(cs[0]), AllHeld(cs'[1..]), Held(cs[c]), AllHeld(cs[1..]), Held(to));
    }
  }

  lemma Swap<X>(a: multiset<X>, b: multiset<X>, r: multiset<X>)
    ensures (b + r) + a == (a + r) + b
  {
  }

  lemma Under<X>(h: multiset<X>, r': multiset<X>, a: multiset<X>, r: multiset<X>, b: multiset<X>)
    requires r' + a == r + b
    ensures (h + r') + a == (h + r) + b
  {
    assert (h + r') + a == h + (r' + a);
    assert (h + r) + b == h + (r + b);
  }

  lemma {:induction false} EmptyHanded<Job>(m: nat)
    ensures AllHeld(seq(m, _ => Client<Job>.Outside)) == multiset{}
  {
    if m > 0 {
      assert seq(m, _ => Client<Job>.Outside)[1..] == seq(m - 1, _ => Client<Job>.Outside);
      EmptyHanded<Job>(m - 1);
    }
  }

  function CallOf<Job>(e: Event<Job>): multiset<Job> {
    if e.ByClient? && e.cs.Call? then multiset{e.cs.job} else multiset{}
  }

  lemma CallsOne<Job>(e: Event<Job>)
    ensures multiset(Calls([e])) == CallOf(e)
  {
    assert [e][1..] == [];
    assert Calls([e]) == if e.ByClient? && e.cs.Call? then [e.cs.job] else [];
  }

  /** A client's step changes its own hands only. */
  lemma OwnHands<Job>(s: State<Job>, c: nat, e: ClientStep<Job>)
    requires CanEnqueue(s, c, e)
    ensures Enqueue(s, c, e).clients == s.clients[c := Enqueue(s, c, e).clients[c]]
  {
  }

  /** How a client moves from one step of its call to the next, with the same task in hand. */
  ghost predicate Moves<Job>(cl: Client<Job>, e: ClientStep<Job>, cl': Client<Job>) {
    match e
    case Call(job) => cl == Outside && cl' == Wanting(job)
    case LockQueue => cl.Wanting? && cl' == Appending(cl.job)
    case Append => cl.Appending? && cl' == Signalling
    case Signal(_) => cl == Signalling && cl' == Leaving
    case UnlockQueue => cl == Leaving && cl' == Outside
  }

  lemma OwnHistory<Job>(s: State<Job>, c: nat, e: ClientStep<Job>)
    requires CanEnqueue(s, c, e)
    ensures Moves(s.clients[c], e, Enqueue(s, c, e).clients[c])
    ensures Enqueue(s, c, e).enqueued == if e.Append? then s.enqueued + [s.clients[c].job] else s.enqueued
  {
  }

  /** Its call, its hands and the history account for each other. */
  lemma OwnAccount<Job>(s: State<Job>, c: nat, e: ClientStep<Job>)
    requires CanEnqueue(s, c, e)
    ensures multiset(Enqueue(s, c, e).enqueued) + Held(Enqueue(s, c, e).clients[c])
         == multiset(s.enqueued) + Held(s.clients[c]) + CallOf(ByClient(c, e))
  {
    OwnHistory(s, c, e);
    var s' := Enqueue(s, c, e);
    AccountOf(c, e, s.clients[c], s'.clients[c], s.enqueued, s'.enqueued);
  }

  lemma AccountOf<Job>(c: nat, e: ClientStep<Job>, cl: Client<Job>, cl': Client<Job>, q: seq<Job>, q': seq<Job>)
    requires Moves(cl, e, cl') && q' == if e.Append? then q + [cl.job] else q
    ensures multiset(q') + Held(cl') == multiset(q) + Held(cl) + CallOf(ByClient(c, e))
  {
    if e.Append? { Appended(q, cl.job, q', Held(cl), Held(cl')); }
  }

  lemma Appended<X>(q: seq<X>, x: X, q': seq<X>, a: multiset<X>, b: multiset<X>)
    requires q' == q + [x] && a == multiset{x} && b == multiset{}
    ensures multiset(q') + b == multiset(q) + a + multiset{}
  {
  }

  /** Everybody else's steps leave clients and history alone. */
  lemma OthersKeep<Job>(s: State<Job>, e: Event<Job>)
    requires Can(s, e) && !e.ByClient?
    ensures Step(s, e).enqueued == s.enqueued && Step(s, e).clients == s.clients
  {
  }

  lemma StepAccounts<Job>(s: State<Job>, e: Event<Job>)
    requires Can(s, e)
    ensures multiset(Step(s, e).enqueued) + AllHeld(Step(s, e).clients)
         == multiset(s.enqueued) + AllHeld(s.clients) + multiset(Calls([e]))
  {
    CallsOne(e);
    if e.ByClient? {
      ClientAccounts(s, e.c, e.cs);
    } else {
      OthersKeep(s, e);
    }
  }

  lemma ClientAccounts<Job>(s: State<Job>, c: nat, e: ClientStep<Job>)
    requires CanEnqueue(s, c, e)
    ensures multiset(Enqueue(s, c, e).enqueued) + AllHeld(Enqueue(s, c, e).clients)
         == multiset(s.enqueued) + AllHeld(s.clients) + CallOf(ByClient(c, e))
  {
    var s' := Enqueue(s, c, e);
    OwnHands(s, c, e);
    OwnAccount(s, c, e);
    HandChanges(s.clients, c, s'.clients[c]);
    Balance(multiset(s'.enqueued), AllHeld(s'.clients), multiset(s.enqueued), AllHeld(s.clients),
            Held(s'.clients[c]), Held(s.clients[c]), CallOf(ByClient(c, e)));
  }

  lemma Balance<X>(q': multiset<X>, r': multiset<X>, q: multiset<X>, r: multiset<X>,
                   b: multiset<X>, a: multiset<X>, calls: multiset<X>)
    requires q' + b == q + a + calls && r' + a == r + b
    ensures q' + r' == q + r + calls
  {
    forall x: X ensures (q' + r')[x] == (q + r + calls)[x] {
      assert (q' + b)[x] == (q + a + calls)[x] && (r' + a)[x] == (r + b)[x];
    }
  }

  lemma {:induction false} RunAccounts<Job>(s: State<Job>, es: seq<Event<Job>>, s': State<Job>)
    requires Run(s, es, s')
    ensures multiset(s'.enqueued) + AllHeld(s'.clients)
         == multiset(s.enqueued) + AllHeld(s.clients) + multiset(Calls(es))
    decreases |es|
  {
    if es == [] {
      assert multiset(s.enqueued) + AllHeld(s.clients) + multiset{} == multiset(s.enqueued) + AllHeld(s.clients);
    } else {
      StepAccounts(s, es[0]);
      RunAccounts(Step(s, es[0]), es[1..], s');
      CallsSplit(es);
      assert multiset(s.enqueued) + AllHeld(s.clients) + multiset(Calls([es[0]])) + multiset(Calls(es[1..]))
          == multiset(s.enqueued) + AllHeld(s.clients) + (multiset(Calls([es[0]])) + multiset(Calls(es[1..])));
    }
  }

  lemma CallsSplit<Job>(es: seq<Event<Job>>)
    requires es != []
    ensures multiset(Calls(es)) == multiset(Calls([es[0]])) + multiset(Calls(es[1..]))
  {
    assert [es[0]][1..] == [];
    assert Calls(es) == Calls([es[0]]) + Calls(es[1..]);
  }

  /** Over every run of a fresh pool the tasks called with are the tasks enqueued and those still in a client's hands:
      none is lost, doubled or exchanged. */
  lemma CalledIsEnqueued<Job>(n: nat, m: nat, es: seq<Event<Job>>, s': State<Job>)
    requires Run(Start(n, m), es, s')
    ensures multiset(Calls(es)) == multiset(s'.enqueued) + AllHeld(s'.clients)
  {
    RunAccounts(Start(n, m), es, s');
    EmptyHanded<Job>(m);
  }

  // ---- Who waits for what ----

  /** A worker that has not returned can always go on, except for the mutex; a sleeping one may wake at any time. */
  lemma WorkerWaits<Job(!new)>(s: State<Job>, i: nat)
    requires Reachable(s) && i < |s.workers|
    ensures (exists e :: CanWork(s, i, e))
            <==> !s.workers[i].Returned? && (s.workers[i].AtLock? || s.workers[i].Waking? ==> s.owner.Nobody?)
    ensures CanWork(s, i, WakeSpuriously) <==> s.workers[i].Blocked?
  {
    var pc := s.workers[i];
    var e := match pc
      case AtLock => Lock
      case Checking => if s.queue == [] && !s.shutdown then Wait else Pass
      case Blocked => WakeSpuriously
      case Waking => Relock
      case Cleared => if s.shutdown then Return else if s.queue == [] then Retry else Take
      case Taken(_) => Unlock
      case Running(_) => Finish
      case Returned => Finish;
    assert !pc.Returned? && (pc.AtLock? || pc.Waking? ==> s.owner.Nobody?) ==> CanWork(s, i, e);
  }

  /** A client can call with any task while shutdown is not yet taking the pool apart, and once called waits for the
      mutex only; its signal may wake any sleepers, but not nobody while there is one. */
  lemma ClientWaits<Job(!new)>(s: State<Job>, c: nat, job: Job, woken: set<nat>)
    requires Reachable(s) && c < |s.clients|
    ensures s.clients[c].Outside? ==>
              (CanEnqueue(s, c, Call(job)) <==> !s.closer.Discarding? && !s.closer.Freed?)
    ensures !s.clients[c].Outside? ==>
              ((exists e :: CanEnqueue(s, c, e)) <==> (s.clients[c].Wanting? ==> s.owner.Nobody?))
    ensures s.clients[c].Signalling? && (forall i :: i in woken ==> i < |s.workers| && s.workers[i].Blocked?) ==>
              (CanEnqueue(s, c, Signal(woken)) <==>
               woken != {} || forall i :: 0 <= i < |s.workers| ==> !s.workers[i].Blocked?)
  {
    match s.clients[c]
    case Outside =>
    case Wanting(_) =>
      assert s.owner.Nobody? ==> CanEnqueue(s, c, LockQueue);
    case Appending(_) =>
      assert CanEnqueue(s, c, Append);
    case Signalling =>
      var blocked := set i: nat | i < |s.workers| && Sleeps(s, i);
      assert blocked == {} ==> NoneBlocked(s) by {
        if i :| 0 <= i < |s.workers| && s.workers[i].Blocked? { assert Sleeps(s, i) && i in blocked; }
      }
      assert CanEnqueue(s, c, Signal(blocked));
    case Leaving =>
      assert CanEnqueue(s, c, UnlockQueue);
  }

  /** Shutdown waits for the mutex once, then for one worker after the other, and then, with its callers' help, for
      calls under way; nothing else holds it up. */
  lemma CloserWaits<Job(!new)>(s: State<Job>)
    requires Reachable(s) && |s.workers| <= 255
    ensures (exists e :: CanClose(s, e))
            <==> match s.closer
                 case Locking => s.owner.Nobody?
                 case Joining(k) =>
                   if k < |s.workers| then s.workers[k].Returned?
                   else forall c :: 0 <= c < |s.clients| ==> s.clients[c].Outside?
                 case Freed => false
                 case _ => true
  {
    ReachableInv(s);
    var e := match s.closer
      case NotCalled => CallShutdown
      case Locking => LockPool
      case Flagging => SetFlag
      case Broadcasting => Broadcast
      case Unlocking => UnlockPool
      case Joining(k) => if k < |s.workers| then Join else StopJoining
      case Discarding => if s.queue == [] then Free else Discard
      case Freed => Free;
    assert JoinCount(s) == |s.workers|;
    assert CanClose(s, e) || forall f :: !CanClose(s, f);
  }
}
