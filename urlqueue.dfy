/**
 * The crawl frontier of submit/url.c (url_queue_new, url_enqueue,
 * url_dequeue, url_get_queue_count): a singly linked FIFO of
 * queue_element nodes with head, tail, count and maxcount. The mutex that
 * guards every operation is left out: each call is one atomic step.
 */
module UrlQueues {

  /** What a queue_element carries: the URL, the page it was found on, its depth. */
  datatype Entry = Entry(url: seq<char>, referer: seq<char>, depth: int)

  /** struct queue_element. */
  class QueueElement {
    var url: seq<char>
    var referer: seq<char>
    var depth: int
    var next: QueueElement?

    constructor (url: seq<char>, referer: seq<char>, depth: int)
      ensures this.url == url && this.referer == referer && this.depth == depth
      ensures next == null
    {
      this.url := url;
      this.referer := referer;
      this.depth := depth;
      next := null;
    }

    function Payload(): Entry
      reads this
    {
      Entry(url, referer, depth)
    }
  }

  /** struct url_queue. */
  class UrlQueue {
    var head: QueueElement?
    var tail: QueueElement?
    var count: int
    var maxcount: int

    /** The nodes from head to tail, in list order. */
    ghost var nodes: seq<QueueElement>
    /** Every entry ever enqueued, in enqueue order. */
    ghost var history: seq<Entry>
    /** How many entries have been dequeued. */
    ghost var dequeued: nat
    ghost var Repr: set<object>

    /** head and tail bracket the chain of next pointers through nodes. */
    ghost predicate Linked()
      reads this, Repr
    {
      (forall i :: 0 <= i < |nodes| ==> nodes[i] in Repr) &&
      (forall i, j :: 0 <= i < j < |nodes| ==> nodes[i] != nodes[j]) &&
      (nodes == [] ==> head == null && tail == null) &&
      (nodes != [] ==> head == nodes[0] && tail == nodes[|nodes| - 1] && tail.next == null) &&
      (forall i :: 0 <= i < |nodes| - 1 ==> nodes[i].next == nodes[i + 1])
    }

    /** The nodes hold, in order, the entries enqueued and not yet dequeued. */
    ghost predicate Tracked()
      reads this, Repr
    {
      dequeued + |nodes| == |history| &&
      (forall i :: 0 <= i < |nodes| ==> nodes[i] in Repr && nodes[i].Payload() == history[dequeued + i])
    }

    ghost predicate Valid()
      reads this, Repr
    {
      this in Repr && Linked() && Tracked() &&
      count == |nodes| && count <= maxcount
    }

    /** The entries waiting in the queue, oldest first. */
    ghost function Contents(): seq<Entry>
      reads this
      requires dequeued <= |history|
    {
      history[dequeued..]
    }

    /** url_queue_new: an empty queue (calloc zeroes every field). */
    constructor ()
      ensures Valid() && fresh(Repr)
      ensures Contents() == [] && history == [] && dequeued == 0
      ensures count == 0 && maxcount == 0
    {
      head := null;
      tail := null;
      count := 0;
      maxcount := 0;
      nodes := [];
      history := [];
      dequeued := 0;
      Repr := {this};
    }

    /**
     * url_enqueue: link a new element after the tail; count grows by one
     * and maxcount follows it up.
     */
    method Enqueue(url: seq<char>, referer: seq<char>, depth: int)
      requires Valid()
      modifies Repr
      ensures Valid() && fresh(Repr - old(Repr))
      ensures Contents() == old(Contents()) + [Entry(url, referer, depth)]
      ensures history == old(history) + [Entry(url, referer, depth)] && dequeued == old(dequeued)
      ensures count == old(count) + 1
      ensures maxcount == if count > old(maxcount) then count else old(maxcount)
    {
      var qel := new QueueElement(url, referer, depth);
      count := count + 1;
      if count > maxcount {
        maxcount := count;
      }
      Append(qel);
    }

    /** The list surgery of url_enqueue: qel becomes the new tail (and head of an empty list). */
    method Append(qel: QueueElement)
      requires this in Repr && Linked() && Tracked() && qel !in Repr && qel.next == null
      modifies this, tail
      ensures Repr == old(Repr) + {qel} && nodes == old(nodes) + [qel]
      ensures history == old(history) + [qel.Payload()] && dequeued == old(dequeued)
      ensures count == old(count) && maxcount == old(maxcount)
      ensures this in Repr && Linked() && Tracked()
    {
      if tail != null {
        tail.next := qel;
      }
      tail := qel;
      if head == null {
        head := tail;
      }
      nodes := nodes + [qel];
      history := history + [qel.Payload()];
      Repr := Repr + {qel};
    }

    /**
     * url_dequeue: on an empty queue, report 0 and change nothing;
     * otherwise unlink the head and hand out its entry.
     */
    method Dequeue() returns (ok: bool, url: seq<char>, referer: seq<char>, depth: int)
      requires Valid()
      modifies this
      ensures Valid() && Repr == old(Repr) && history == old(history)
      ensures ok <==> old(Contents()) != []
      ensures !ok ==> (count == old(count) && dequeued == old(dequeued) &&
        head == old(head) && tail == old(tail) && Contents() == old(Contents()))
      ensures ok ==> (Entry(url, referer, depth) == old(Contents())[0] &&
        Contents() == old(Contents())[1..] && dequeued == old(dequeued) + 1 &&
        count == old(count) - 1)
      ensures maxcount == old(maxcount)
    {
      var qel := head;
      if qel == null {
        return false, [], [], 0;
      }
      head := head.next;
      if head == null {
        tail := null;
      }
      url, referer, depth := qel.url, qel.referer, qel.depth;
      count := count - 1;
      nodes := nodes[1..];
      dequeued := dequeued + 1;
      ok := true;
    }

    /** head is NULL exactly when tail is, exactly when nothing waits. */
    lemma EndsAgree()
      requires Valid()
      ensures (head == null <==> tail == null) && (head == null <==> Contents() == [])
    {
    }

    /** url_get_queue_count: the number of waiting entries. */
    method GetCount() returns (n: int)
      requires Valid()
      ensures n == |Contents()| && n >= 0
    {
      n := count;
    }
  }

  /** Entries leave the queue in the order they came in. */
  method FifoOrder(a: Entry, b: Entry) returns (first: Entry, second: Entry, drained: bool)
    ensures first == a && second == b && drained
  {
    var q := new UrlQueue();
    q.Enqueue(a.url, a.referer, a.depth);
    q.Enqueue(b.url, b.referer, b.depth);
    var ok1, u1, r1, d1 := q.Dequeue();
    var ok2, u2, r2, d2 := q.Dequeue();
    var ok3, u3, r3, d3 := q.Dequeue();
    first, second := Entry(u1, r1, d1), Entry(u2, r2, d2);
    drained := ok1 && ok2 && !ok3;
  }
}
