/** The pool's task list over linked cells: what the critical sections do to it, tied to the steps of
    ThreadPool.dfy. */
module TaskList {
  import opened LinkedQueue
  import P = ThreadPool

  /** What a worker finds once it is past the wait: it quits, goes round again, or has a task. */
  datatype Verdict<Job> = Quit | Again | Got(job: Job)

  class Tpool<Job> {
    var tasks: Cell?<Job>
    var shutdown: bool
    ghost var cells: seq<Cell<Job>>

    ghost predicate Valid()
      reads this, cells
    {
      Chain(tasks, cells)
    }

    ghost function Contents(): seq<Job>
      reads this, cells
    {
      Payloads(cells)
    }

    /** The object holds the shared part of the state s. */
    ghost predicate Shows(s: P.State<Job>)
      reads this, cells
    {
      Valid() && Contents() == s.queue && shutdown == s.shutdown
    }

    constructor (ghost n: nat, ghost m: nat)
      ensures Shows(P.Start(n, m)) && cells == []
    {
      tasks, shutdown, cells := null, false, [];
    }

    /** A client's critical section: walk to the last cell and hang the new one behind it. */
    method Append(job: Job, ghost s: P.State<Job>, ghost c: nat)
      requires Shows(s) && P.CanEnqueue(s, c, P.Append) && s.clients[c].job == job
      modifies this, cells
      ensures Shows(P.Enqueue(s, c, P.Append))
      ensures fresh(set x | x in cells && x !in old(cells))
    {
      var added := new Cell(job);
      if tasks == null {
        tasks := added;
      } else {
        var current := tasks;
        ghost var i := 0;
        while current.next != null
          invariant 0 <= i < |cells| && current == cells[i]
          decreases |cells| - i
        {
          assert cells[i].next == current.next;
          current, i := current.next, i + 1;
        }
        assert cells[i].next == null;
        current.next := added;
      }
      cells := cells + [added];
    }

    /** A worker's critical section after the wait. */
    method AfterWait(ghost s: P.State<Job>, ghost i: nat) returns (r: Verdict<Job>)
      requires Shows(s) && i < |s.workers| && s.workers[i].Cleared?
      modifies this
      ensures r.Quit? <==> P.CanWork(s, i, P.Return)
      ensures r.Again? <==> P.CanWork(s, i, P.Retry)
      ensures r.Got? <==> P.CanWork(s, i, P.Take)
      ensures match r
              case Quit => Shows(P.Work(s, i, P.Return))
              case Again => Shows(P.Work(s, i, P.Retry))
              case Got(job) => Shows(P.Work(s, i, P.Take)) && job == s.queue[0]
    {
      if shutdown { return Quit; }
      var task := tasks;
      if task == null { return Again; }
      ChainTail(task, cells);
      tasks, cells := task.next, cells[1..];
      r := Got(task.payload);
    }

    method SetShutdown(ghost s: P.State<Job>)
      requires Shows(s) && P.CanClose(s, P.SetFlag)
      modifies this
      ensures Shows(P.Close(s, P.SetFlag))
    {
      shutdown := true;
    }

    /** Shutdown's last loop: it frees whatever is still queued, front to back, one discard step for each task,
        until the pool can be freed. */
    method DiscardAll(ghost s: P.State<Job>) returns (freed: seq<Job>, ghost es: seq<P.Event<Job>>)
      requires Shows(s) && s.closer.Discarding?
      modifies this`tasks, this`cells
      ensures freed == s.queue
      ensures es == seq(|s.queue|, _ => P.ByCloser(P.Discard)) && P.Run(s, es, P.AfterDiscards(s))
      ensures Shows(P.AfterDiscards(s)) && P.CanClose(P.AfterDiscards(s), P.Free)
    {
      freed := FreeAll();
      es := seq(|s.queue|, _ => P.ByCloser(P.Discard));
      P.DiscardRun(s, es);
      tasks, cells := null, [];
    }

    /** The walk over the list, which stays in memory that nobody reaches any more. */
    method FreeAll() returns (freed: seq<Job>)
      requires Valid()
      ensures freed == Contents()
    {
      freed := [];
      var current := tasks;
      ghost var rest := cells;
      while current != null
        invariant Chain(current, rest) && freed + Payloads(rest) == Contents()
        decreases |rest|
      {
        ChainTail(current, rest);
        freed := freed + [current.payload];
        current, rest := current.next, rest[1..];
      }
    }
  }
}
