/** Singly linked cells, and the head-and-tail queue the level-order walk keeps. */
module LinkedQueue {
  import opened Options

  class Cell<T> {
    var payload: T
    var next: Cell?<T>

    constructor (payload: T)
      ensures this.payload == payload && next == null
    {
      this.payload := payload;
      next := null;
    }
  }

  /** p heads the chain that runs through exactly these cells. */
  ghost predicate Chain<T>(p: Cell?<T>, cells: seq<Cell<T>>)
    reads cells
  {
    && (p == if cells == [] then null else cells[0])
    && (forall i, j :: 0 <= i < j < |cells| ==> cells[i] != cells[j])
    && (forall i {:trigger cells[i].next} :: 0 <= i < |cells| ==> cells[i].next == if i + 1 < |cells| then cells[i + 1] else null)
  }

  lemma ChainTail<T>(p: Cell<T>, cells: seq<Cell<T>>)
    requires Chain(p, cells)
    ensures Chain(p.next, cells[1..]) && Payloads(cells[1..]) == Payloads(cells)[1..]
  {
    var rest := cells[1..];
    assert p == cells[0] && cells[0].next == if 1 < |cells| then cells[1] else null;
    forall i | 0 <= i < |rest|
      ensures rest[i].next == if i + 1 < |rest| then rest[i + 1] else null
    {
      assert rest[i] == cells[i + 1] && (i + 1 < |rest| ==> rest[i + 1] == cells[i + 2]);
    }
  }

  ghost function Payloads<T>(cells: seq<Cell<T>>): (s: seq<T>)
    reads cells
    ensures |s| == |cells| && forall i :: 0 <= i < |cells| ==> s[i] == cells[i].payload
  {
    seq(|cells|, i requires 0 <= i < |cells| reads cells => cells[i].payload)
  }

  class Queue<T> {
    var head: Cell?<T>
    var tail: Cell?<T>
    ghost var cells: seq<Cell<T>>
    ghost var Repr: set<object>

    ghost predicate Valid()
      reads this, Repr
    {
      && this in Repr && (forall c :: c in cells ==> c in Repr)
      && Chain(head, cells)
      && tail == if cells == [] then null else cells[|cells| - 1]
    }

    ghost function Contents(): seq<T>
      requires Valid()
      reads this, Repr
    {
      Payloads(cells)
    }

    constructor ()
      ensures Valid() && fresh(Repr) && Contents() == []
    {
      head, tail, cells, Repr := null, null, [], {this};
    }

    predicate IsEmpty()
      requires Valid()
      reads this, Repr
      ensures IsEmpty() <==> Contents() == []
    {
      head == null
    }

    method Enqueue(x: T)
      requires Valid()
      modifies Repr
      ensures Valid() && fresh(Repr - old(Repr)) && Contents() == old(Contents()) + [x]
    {
      var c := new Cell(x);
      if tail == null {
        head := c;
      } else {
        tail.next := c;
      }
      tail := c;
      cells, Repr := cells + [c], Repr + {c};
    }

    /** None is the NULL a dequeue of the empty queue returns. */
    method Dequeue() returns (r: Option<T>)
      requires Valid()
      modifies Repr
      ensures Valid() && Repr == old(Repr)
      ensures old(Contents()) == [] ==> r == None && Contents() == []
      ensures old(Contents()) != [] ==> r == Some(old(Contents())[0]) && Contents() == old(Contents())[1..]
    {
      if head == null { return None; }
      ChainTail(head, cells);
      r := Some(head.payload);
      if head == tail {
        head, tail := null, null;
      } else {
        head := head.next;
      }
      cells := cells[1..];
    }
  }
}
