/** When every worker can be asleep although there is something to wake up for. */
module Sleepers {
  import opened ThreadPool
  import opened ShutdownPromise

  /** The two moments inside a critical section that come before its wakeup call, and all others. */
  datatype Moment = AppendedUnsignalled | FlaggedUnbroadcast | Otherwise

  function MomentOf<Job>(s: State<Job>): Moment {
    if SignalDue(s) > 0 then AppendedUnsignalled
    else if s.closer.Broadcasting? then FlaggedUnbroadcast
    else Otherwise
  }

  /** A task is queued, or shutdown announced, and nobody is up to see it. */
  predicate Unattended<Job>(s: State<Job>) {
    (s.queue != [] || s.shutdown) && !Attended(s)
  }

  /** For a pool of any size: that can happen in each of the two moments, and at no other. */
  lemma UnattendedExactly(n: nat, m: Moment)
    requires n > 0
    ensures (exists s: State<int> :: Reachable(s) && |s.workers| == n && MomentOf(s) == m && Unattended(s))
            <==> m != Otherwise
  {
    match m
    case AppendedUnsignalled =>
      var s := AppendToSleepers(n);
    case FlaggedUnbroadcast =>
      var s := FlagToSleepers(n);
    case Otherwise =>
      forall s: State<int> | Reachable(s) && |s.workers| == n && MomentOf(s) == m ensures !Unattended(s) {
        AttendedOtherwise(s);
      }
  }

  /** And then at most that one task is queued, and none when it is the flag. */
  lemma AttendedOtherwise<Job(!new)>(s: State<Job>)
    requires Reachable(s) && s.workers != []
    ensures Unattended(s) ==> MomentOf(s) != Otherwise
    ensures Unattended(s) ==> |s.queue| == if MomentOf(s).AppendedUnsignalled? then 1 else 0
  {
    ReachableInv(s);
    if Unattended(s) {
      if AfterBroadcast(s.closer) || (s.queue != [] && SignalDue(s) == 0) { SomeoneAwake(s); }
      NobodySeeks(s.workers);
      assert !NoneBlocked(s);
    }
  }

  lemma {:induction false} NobodySeeks(ws: seq<Pc>)
    requires forall i :: 0 <= i < |ws| ==> ws[i].Blocked? || ws[i].Returned?
    ensures Sum(ws, Seeking) == 0
  {
    if ws != [] { NobodySeeks(ws[1..]); }
  }

  /** A fresh pool with one client, its first k workers asleep. */
  function Asleep(n: nat, k: nat): State<int> {
    Start<int>(n, 1).(workers := seq(n, i => if i < k then Blocked else AtLock))
  }

  lemma {:induction false} FallAsleep(n: nat, k: nat)
    requires k <= n
    ensures Reachable(Asleep(n, k))
  {
    if k == 0 {
      assert Asleep(n, 0) == Start<int>(n, 1);
      assert Run(Start<int>(|Asleep(n, 0).workers|, 1), [], Asleep(n, 0));
    } else {
      var s, s' := Asleep(n, k - 1), Asleep(n, k);
      FallAsleep(n, k - 1);
      var es := [ByWorker(k - 1, Lock), ByWorker(k - 1, Wait)];
      assert Goes(Goes(s, k - 1, Checking), k - 1, Blocked).workers == s'.workers;
      TwoSteps(s, es, s');
      ReachableRun(s, es, s');
    }
  }

  lemma AppendToSleepers(n: nat) returns (s: State<int>)
    requires n > 0
    ensures Reachable(s) && |s.workers| == n && MomentOf(s) == AppendedUnsignalled && Unattended(s)
  {
    FallAsleep(n, n);
    var es;
    es, s := AppendAlone(Asleep(n, n), 7);
    ReachableRun(Asleep(n, n), es, s);
    assert s.workers[0].Blocked?;
  }

  /** A client's call up to the moment before its signal. */
  lemma AppendAlone(s: State<int>, job: int) returns (es: seq<Event<int>>, s': State<int>)
    requires s.clients == [Outside] && s.owner.Nobody? && s.closer.NotCalled?
    ensures Run(s, es, s') && s'.workers == s.workers && s'.queue == s.queue + [job]
    ensures s'.clients == [Signalling] && s'.owner == ClientOwns(0) && s'.closer.NotCalled?
  {
    var s1 := s.(clients := [Appending(job)], owner := ClientOwns(0));
    s' := s1.(clients := [Signalling], queue := s.queue + [job], enqueued := s.enqueued + [job]);
    var first, second := [ByClient(0, Call(job)), ByClient(0, LockQueue)], [ByClient(0, Append)];
    TwoSteps(s, first, s1);
    OneStep(s1, second, s');
    RunAppend(s, first, s1, second, s');
    es := first + second;
  }

  lemma FlagToSleepers(n: nat) returns (s: State<int>)
    requires n > 0
    ensures Reachable(s) && |s.workers| == n && MomentOf(s) == FlaggedUnbroadcast && Unattended(s)
  {
    var s0 := Asleep(n, n);
    FallAsleep(n, n);
    var s1 := s0.(closer := Flagging, owner := CloserOwns);
    s := s1.(closer := Broadcasting, shutdown := true);
    var first := [ByCloser(CallShutdown), ByCloser(LockPool)];
    TwoSteps(s0, first, s1);
    ReachableRun(s0, first, s1);
    OneStep(s1, [ByCloser(SetFlag)], s);
    ReachableRun(s1, [ByCloser(SetFlag)], s);
    assert s.workers[0].Blocked?;
  }
}
