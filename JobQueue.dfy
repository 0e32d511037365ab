/** The job queue shared by the dispatcher and the workers (`JobQueue` and
    `Job` in hw1/header/func.h): a singly linked FIFO list with `head` and
    `tail` pointers. Jobs are appended at the tail and taken from the head.
    The mutex and condition variable that guard it are not modelled. */
module JobQueue {

  /** A job: a copy of its `worker ...` line and the time it was read. */
  datatype Job = Job(line: string, readTime: int)

  /** One list cell: the job it holds and the link to the next cell. */
  class Node {
    const job: Job
    var next: Node?

    constructor (job: Job)
      ensures this.job == job && next == null
    {
      this.job := job;
      next := null;
    }
  }

  class Queue {
    var head: Node?
    var tail: Node?
    /** The cells from head to tail. */
    ghost var nodes: seq<Node>
    /** The jobs in the queue, oldest first. */
    ghost var Contents: seq<Job>
    ghost var Repr: set<object>

    /** The links run from `head` through every cell to `tail`, whose link is
        null; no cell appears twice; the cells hold `Contents` in order. */
    ghost predicate Valid()
      reads this, Repr
    {
      this in Repr &&
      (forall i :: 0 <= i < |nodes| ==> nodes[i] in Repr) &&
      Repr == {this} + (set n: Node | n in nodes) &&
      |nodes| == |Contents| &&
      (forall i :: 0 <= i < |nodes| ==> nodes[i].job == Contents[i]) &&
      (nodes == [] ==> head == null && tail == null) &&
      (nodes != [] ==> head == nodes[0] && tail == nodes[|nodes| - 1] && tail.next == null) &&
      (forall i :: 0 <= i < |nodes| - 1 ==> nodes[i].next == nodes[i + 1]) &&
      (forall i, j :: 0 <= i < j < |nodes| ==> nodes[i] != nodes[j])
    }

    /** An empty queue: `head = tail = NULL`. */
    constructor ()
      ensures Valid() && fresh(Repr) && Contents == []
      ensures head == null && tail == null
    {
      head, tail := null, null;
      nodes, Contents := [], [];
      Repr := {this};
    }

    /** `head = tail = NULL` in `init_system`: the queue is emptied. */
    method Clear()
      modifies this
      ensures Valid() && Repr == {this} && Contents == []
      ensures head == null && tail == null
    {
      head, tail := null, null;
      nodes, Contents := [], [];
      Repr := {this};
    }

    /** `head` is null exactly when `tail` is, and exactly when the queue is
        empty. */
    lemma EmptyIff()
      requires Valid()
      ensures (head == null) == (tail == null)
      ensures (head == null) == (Contents == [])
    {
    }

    /** The linking part of `enqueue_job`: a new cell with `next = NULL` goes
        after the tail, or becomes head and tail of an empty queue. */
    method Enqueue(job: Job)
      requires Valid()
      modifies Repr
      ensures Valid() && fresh(Repr - old(Repr))
      ensures Contents == old(Contents) + [job]
    {
      var n := new Node(job);
      if tail == null {
        head, tail := n, n;
      } else {
        tail.next := n;
        tail := n;
      }
      nodes := nodes + [n];
      Contents := Contents + [job];
      Repr := Repr + {n};
    }

    /** The removal part of a worker's dequeue: the head cell is unlinked,
        and `tail` is cleared when that empties the queue. */
    method Dequeue() returns (job: Job)
      requires Valid() && head != null
      modifies this
      ensures Valid() && Repr <= old(Repr)
      ensures job == old(Contents)[0]
      ensures Contents == old(Contents)[1..]
    {
      var n := head;
      job := n.job;
      head := n.next;
      if head == null {
        tail := null;
      }
      assert n == nodes[0];
      nodes := nodes[1..];
      Contents := Contents[1..];
      Repr := Repr - {n};
    }
  }
}
