/**
  `ManualQueue`: a singly-linked FIFO with `front` and `rear` pointers and an
  explicit `count`. The node chain is a sequence (front first); `rear` is kept as
  its own field so that the pointer maintenance of every operation is checked.
  The payload is generic: the traffic module queues (plate, type) pairs and the
  breadth-first traversal queues vertex ids.
 */
module Queue {
  import opened Wrappers

  /** `QueueNode`: a payload and a priority (lower is more urgent; 1 by default). */
  datatype QueueNode<T> = QueueNode(data: T, priority: int)

  const DefaultPriority: int := 1

  datatype Queue<T> = Queue(items: seq<QueueNode<T>>, rear: Option<QueueNode<T>>, count: int)
  {
    /** `rear` is the last node (NULL exactly when the chain is empty) and
        `count` is the number of nodes. */
    ghost predicate Valid() {
      && count == |items|
      && rear == (if |items| == 0 then None else Some(items[|items| - 1]))
    }

    /** `isEmpty` tests `front == NULL`. */
    predicate IsEmpty() {
      |items| == 0
    }

    /** `peek`: the front node, or NULL. */
    function Front(): (r: Option<QueueNode<T>>)
      ensures r.None? <==> IsEmpty()
      ensures r.Some? ==> r.value == items[0]
    {
      if |items| == 0 then None else Some(items[0])
    }
  }

  function EmptyQueue<T>(): (q: Queue<T>)
    ensures q.Valid() && q.IsEmpty() && q.count == 0
  {
    Queue([], None, 0)
  }

  /** In a valid queue, front and rear are NULL together. */
  lemma FrontNullIffRearNull<T>(q: Queue<T>)
    requires q.Valid()
    ensures q.Front().None? <==> q.rear.None?
    ensures q.IsEmpty() <==> q.count == 0
  {
  }

  /** `enqueue`: link a default-priority node after `rear`. */
  function Enqueue<T>(q: Queue<T>, x: T): (r: Queue<T>)
    requires q.Valid()
    ensures r.Valid()
    ensures r.items == q.items + [QueueNode(x, DefaultPriority)]
    ensures r.count == q.count + 1
    ensures !q.IsEmpty() ==> r.Front() == q.Front()
  {
    var node := QueueNode(x, DefaultPriority);
    if q.IsEmpty() then Queue([node], Some(node), q.count + 1)
    else Queue(q.items + [node], Some(node), q.count + 1)
  }

  /** `dequeue`: unlink and return the front node; an empty queue yields NULL and
      is left as it is. */
  function Dequeue<T>(q: Queue<T>): (r: (Option<QueueNode<T>>, Queue<T>))
    requires q.Valid()
    ensures r.1.Valid()
    ensures q.IsEmpty() ==> r == (None, q)
    ensures !q.IsEmpty() ==> r.0 == Some(q.items[0]) && r.1.items == q.items[1..]
    ensures !q.IsEmpty() ==> r.1.count == q.count - 1
  {
    if q.IsEmpty() then (None, q)
    else
      var rest := q.items[1..];
      (Some(q.items[0]), Queue(rest, if |rest| == 0 then None else q.rear, q.count - 1))
  }

  /** FIFO law: on a non-empty queue, enqueueing then dequeueing is the same as
      dequeueing then enqueueing. */
  lemma EnqueueDequeueCommute<T>(q: Queue<T>, x: T)
    requires q.Valid() && !q.IsEmpty()
    ensures Dequeue(Enqueue(q, x)).0 == Dequeue(q).0
    ensures Dequeue(Enqueue(q, x)).1 == Enqueue(Dequeue(q).1, x)
  {
    assert (q.items + [QueueNode(x, DefaultPriority)])[1..] == q.items[1..] + [QueueNode(x, DefaultPriority)];
  }

  /** Items come out in the order they went in. */
  lemma {:induction false} FifoOrder<T>(q: Queue<T>, xs: seq<T>)
    requires q.Valid() && q.IsEmpty()
    ensures DrainAll(EnqueueAll(q, xs)) == xs
    decreases |xs|
  {
    if |xs| > 0 {
      var last := xs[|xs| - 1];
      var init := xs[..|xs| - 1];
      assert xs == init + [last];
      var p := EnqueueAll(q, init);
      EnqueueAllItems(q, init);
      EnqueueAllItems(q, xs);
      FifoOrder(q, init);
      DrainAppend(p, last);
    }
  }

  /** Enqueue each element of `xs` in turn. */
  function EnqueueAll<T>(q: Queue<T>, xs: seq<T>): (r: Queue<T>)
    requires q.Valid()
    ensures r.Valid()
    decreases |xs|
  {
    if |xs| == 0 then q else Enqueue(EnqueueAll(q, xs[..|xs| - 1]), xs[|xs| - 1])
  }

  lemma {:induction false} EnqueueAllItems<T>(q: Queue<T>, xs: seq<T>)
    requires q.Valid()
    ensures |EnqueueAll(q, xs).items| == |q.items| + |xs|
    ensures forall i :: 0 <= i < |xs| ==> EnqueueAll(q, xs).items[|q.items| + i].data == xs[i]
    ensures EnqueueAll(q, xs).items[..|q.items|] == q.items
    decreases |xs|
  {
    if |xs| > 0 {
      EnqueueAllItems(q, xs[..|xs| - 1]);
    }
  }

  /** Dequeue until empty, collecting the payloads. */
  function DrainAll<T>(q: Queue<T>): (xs: seq<T>)
    requires q.Valid()
    ensures |xs| == |q.items|
    ensures forall i :: 0 <= i < |xs| ==> xs[i] == q.items[i].data
    decreases |q.items|
  {
    if q.IsEmpty() then []
    else
      var (front, rest) := Dequeue(q);
      [front.value.data] + DrainAll(rest)
  }

  lemma DrainAppend<T>(q: Queue<T>, x: T)
    requires q.Valid()
    ensures DrainAll(Enqueue(q, x)) == DrainAll(q) + [x]
  {
  }

  /** Number of leading nodes whose priority is not above `prio`: where a stable
      insertion of priority `prio` goes. */
  function StablePoint<T>(items: seq<QueueNode<T>>, prio: int): (k: nat)
    ensures k <= |items|
    ensures forall i :: 0 <= i < k ==> items[i].priority <= prio
    ensures k < |items| ==> items[k].priority > prio
  {
    if |items| == 0 || items[0].priority > prio then 0
    else 1 + StablePoint(items[1..], prio)
  }

  /** The `current` cursor of `priorityEnqueue`: starting at `cur`, advance while
      the next node's priority is at most `prio`. */
  function Scan<T>(items: seq<QueueNode<T>>, cur: nat, prio: int): (c: nat)
    requires cur < |items|
    ensures cur <= c < |items|
    decreases |items| - cur
  {
    if cur + 1 < |items| && items[cur + 1].priority <= prio then Scan(items, cur + 1, prio)
    else cur
  }

  /** `priorityEnqueue`: bump `count`; a new front when the queue is empty or the
      newcomer is strictly more urgent than the front (setting `rear` if it was
      NULL); otherwise splice after the cursor, becoming `rear` when nothing follows. */
  function PriorityEnqueue<T>(q: Queue<T>, x: T, prio: int): (r: Queue<T>)
    requires q.Valid()
    ensures r.Valid()
    ensures r.count == q.count + 1
    ensures var k := StablePoint(q.items, prio);
      r.items == q.items[..k] + [QueueNode(x, prio)] + q.items[k..]
  {
    var node := QueueNode(x, prio);
    if q.IsEmpty() || prio < q.items[0].priority then
      Splice(q, 0, node);
      Queue([node] + q.items, if q.rear.None? then Some(node) else q.rear, q.count + 1)
    else
      var current := Scan(q.items, 0, prio);
      ScanIsStablePoint(q.items, 0, prio);
      Splice(q, current + 1, node);
      Queue(q.items[..current + 1] + [node] + q.items[current + 1..],
            if current + 1 == |q.items| then Some(node) else q.rear, q.count + 1)
  }

  /** Splicing `node` in at the stable point `k` of a valid queue, with `rear`
      moved to it exactly when it goes at the end, gives a valid queue. */
  lemma Splice<T>(q: Queue<T>, k: nat, node: QueueNode<T>)
    requires q.Valid() && k == StablePoint(q.items, node.priority)
    ensures k == 0 ==> [node] + q.items == q.items[..k] + [node] + q.items[k..]
    ensures k == 0 ==> Queue([node] + q.items, if q.rear.None? then Some(node) else q.rear, q.count + 1).Valid()
    ensures Queue(q.items[..k] + [node] + q.items[k..], if k == |q.items| then Some(node) else q.rear, q.count + 1).Valid()
  {
    if k == 0 {
      assert q.items[..0] == [] && q.items[0..] == q.items;
    }
  }

  /** When every node up to the cursor is at most `prio`, the place after the
      final cursor is the stable insertion point. */
  lemma {:induction false} ScanIsStablePoint<T>(items: seq<QueueNode<T>>, cur: nat, prio: int)
    requires cur < |items|
    requires forall i :: 0 <= i <= cur ==> items[i].priority <= prio
    ensures Scan(items, cur, prio) + 1 == StablePoint(items, prio)
    decreases |items| - cur
  {
    if cur + 1 < |items| && items[cur + 1].priority <= prio {
      ScanIsStablePoint(items, cur + 1, prio);
    } else {
      StablePointUnique(items, prio, cur + 1);
    }
  }

  lemma {:induction false} StablePointUnique<T>(items: seq<QueueNode<T>>, prio: int, k: nat)
    requires k <= |items|
    requires forall i :: 0 <= i < k ==> items[i].priority <= prio
    requires k < |items| ==> items[k].priority > prio
    ensures StablePoint(items, prio) == k
  {
    if k > 0 {
      StablePointUnique(items[1..], prio, k - 1);
    }
  }

  /** Non-decreasing by priority, front to rear. */
  ghost predicate PrioritySorted<T>(items: seq<QueueNode<T>>) {
    forall i, j :: 0 <= i < j < |items| ==> items[i].priority <= items[j].priority
  }

  /** On a priority-sorted queue the insertion keeps the order, and it is stable:
      the newcomer follows every node of priority at most its own and precedes
      every node of greater priority. */
  lemma PriorityEnqueueStable<T>(q: Queue<T>, x: T, prio: int)
    requires q.Valid() && PrioritySorted(q.items)
    ensures var r := PriorityEnqueue(q, x, prio);
      var k := StablePoint(q.items, prio);
      && PrioritySorted(r.items)
      && r.items[k] == QueueNode(x, prio)
      && (forall i :: 0 <= i < k ==> r.items[i].priority <= prio)
      && (forall i :: k < i < |r.items| ==> r.items[i].priority > prio)
  {
    var k := StablePoint(q.items, prio);
    SpliceSorted(q.items, k, QueueNode(x, prio));
  }

  /** Splicing a node in at its stable point: the nodes before it are at most
      its priority, those after it are above, and the order is kept. */
  lemma SpliceSorted<T>(items: seq<QueueNode<T>>, k: nat, node: QueueNode<T>)
    requires PrioritySorted(items) && k <= |items|
    requires forall i :: 0 <= i < k ==> items[i].priority <= node.priority
    requires k < |items| ==> items[k].priority > node.priority
    ensures var r := items[..k] + [node] + items[k..];
      && PrioritySorted(r)
      && r[k] == node
      && (forall i :: 0 <= i < k ==> r[i].priority <= node.priority)
      && (forall i :: k < i < |r| ==> r[i].priority > node.priority)
  {
    var r := items[..k] + [node] + items[k..];
    forall i | 0 <= i < |r|
      ensures r[i] == if i < k then items[i] else if i == k then node else items[i - 1]
    {
      if i < k {
        assert r[i] == items[..k][i];
      } else if i > k {
        assert r[i] == items[k..][i - k - 1];
      }
    }
    forall i, j | 0 <= i < j < |r|
      ensures r[i].priority <= r[j].priority
    {
      if j < k || i > k {
      } else if j == k || i == k {
      } else {
        assert r[i].priority <= node.priority;
      }
    }
  }
}
