/** The circular queue of upcoming pieces (`Fila`): five slots addressed by a
    front index, a rear index and a count. */
module CircularQueue {
  import opened Pieces

  const Capacity: int := 5

  /** `rear` is the slot of the last piece, and starts at -1 on an empty queue. */
  datatype Queue = Queue(slots: seq<Piece>, front: int, rear: int, count: int)

  /** The representation invariant every operation keeps. The rear index is
      not kept in [0, 5): it starts at -1, so what holds is that the slot
      after the rear is the slot after the last piece. */
  predicate Valid(q: Queue) {
    && |q.slots| == Capacity
    && 0 <= q.count <= Capacity
    && 0 <= q.front < Capacity
    && -1 <= q.rear < Capacity
    && (q.rear + 1) % Capacity == (q.front + q.count) % Capacity
  }

  /** The slot holding logical position `i` (position 0 is the front). */
  function Slot(q: Queue, i: nat): (k: nat)
    requires Valid(q)
    ensures k < Capacity
  {
    (q.front + i) % Capacity
  }

  /** The pieces in the queue, front first: the abstraction function. */
  function Contents(q: Queue): (r: seq<Piece>)
    requires Valid(q)
    ensures |r| == q.count
  {
    seq(q.count, i requires 0 <= i < q.count => q.slots[Slot(q, i)])
  }

  /** The slots of logical positions 0 to 4 are pairwise distinct. */
  lemma SlotsDistinct(q: Queue, i: nat, j: nat)
    requires Valid(q)
    requires i < Capacity && j < Capacity && i != j
    ensures Slot(q, i) != Slot(q, j)
  {
    var a, b := q.front + i, q.front + j;
    assert a % Capacity == if a < Capacity then a else a - Capacity;
    assert b % Capacity == if b < Capacity then b else b - Capacity;
  }

  /** Advancing an index already reduced mod 5 is the same as reducing the sum. */
  lemma ModShift(a: nat, b: nat)
    ensures (a % Capacity + b) % Capacity == (a + b) % Capacity
  {
  }

  /** Moving the front on by one slot renumbers every position by one. */
  lemma AdvanceFront(q: Queue, r: Queue)
    requires Valid(q) && q.count > 0
    requires r == Queue(q.slots, (q.front + 1) % Capacity, q.rear, q.count - 1)
    ensures Valid(r)
    ensures forall i :: 0 <= i < r.count ==> Slot(r, i) == Slot(q, i + 1)
  {
    ModShift(q.front + 1, q.count - 1);
    forall i | 0 <= i < r.count
      ensures Slot(r, i) == Slot(q, i + 1)
    {
      ModShift(q.front + 1, i);
    }
  }

  /** Moving the rear on by one slot lands on the slot after the last piece. */
  lemma AdvanceRear(q: Queue, r: Queue)
    requires Valid(q) && q.count < Capacity
    requires |r.slots| == Capacity
    requires r.front == q.front && r.rear == (q.rear + 1) % Capacity && r.count == q.count + 1
    ensures Valid(r)
    ensures Slot(q, q.count) == r.rear
    ensures forall i :: 0 <= i < r.count ==> Slot(r, i) == Slot(q, i)
  {
    ModShift(q.rear + 1, 1);
  }

  function Init(slots: seq<Piece>): (r: Queue)
    requires |slots| == Capacity
    ensures Valid(r)
    ensures Contents(r) == []
    ensures r.slots == slots
  {
    Queue(slots, 0, -1, 0)
  }

  function IsFull(q: Queue): (b: bool)
    requires Valid(q)
    ensures b <==> |Contents(q)| == Capacity
  {
    q.count == Capacity
  }

  function IsEmpty(q: Queue): (b: bool)
    requires Valid(q)
    ensures b <==> Contents(q) == []
  {
    q.count == 0
  }

  /** Adds a piece at the rear; a full queue is left as it is. */
  function Enqueue(q: Queue, p: Piece): (r: Queue)
    requires Valid(q)
    ensures Valid(r)
    ensures IsFull(q) ==> r == q
    ensures !IsFull(q) ==> Contents(r) == Contents(q) + [p]
    ensures r.front == q.front
    ensures forall k :: 0 <= k < Capacity && k != Slot(q, q.count) ==> r.slots[k] == q.slots[k]
  {
    if IsFull(q) then q
    else
      var rear := (q.rear + 1) % Capacity;
      var r := Queue(q.slots[rear := p], q.front, rear, q.count + 1);
      AdvanceRear(q, r);
      assert Contents(r) == Contents(q) + [p] by {
        forall i | 0 <= i < q.count
          ensures Contents(r)[i] == Contents(q)[i]
        {
          SlotsDistinct(q, i, q.count);
        }
      }
      r
  }

  datatype Dequeued = Dequeued(piece: Piece, queue: Queue)

  /** Removes the front piece; an empty queue hands back `Invalid`. */
  function Dequeue(q: Queue): (r: Dequeued)
    requires Valid(q)
    ensures Valid(r.queue)
    ensures IsEmpty(q) ==> r == Dequeued(Invalid, q)
    ensures !IsEmpty(q) ==> r.piece == Contents(q)[0] && Contents(r.queue) == Contents(q)[1..]
    ensures r.queue.slots == q.slots && r.queue.rear == q.rear
  {
    if IsEmpty(q) then Dequeued(Invalid, q)
    else
      var r := Queue(q.slots, (q.front + 1) % Capacity, q.rear, q.count - 1);
      AdvanceFront(q, r);
      assert Contents(r) == Contents(q)[1..];
      Dequeued(q.slots[q.front], r)
  }

  /** First in, first out: on a queue with room, a piece enqueued behind
      others comes out only after them, and on an empty queue it comes
      straight back out. */
  lemma EnqueueThenDequeue(q: Queue, p: Piece)
    requires Valid(q) && !IsFull(q)
    ensures IsEmpty(q) ==> Dequeue(Enqueue(q, p)).piece == p
    ensures IsEmpty(q) ==> Contents(Dequeue(Enqueue(q, p)).queue) == []
    ensures !IsEmpty(q) ==> Dequeue(Enqueue(q, p)).piece == Dequeue(q).piece
    ensures !IsEmpty(q) ==>
      Contents(Dequeue(Enqueue(q, p)).queue) == Contents(Enqueue(Dequeue(q).queue, p))
  {
  }

  /** Enqueues the pieces in order; those that meet a full queue are dropped. */
  function EnqueueAll(q: Queue, ps: seq<Piece>): (r: Queue)
    requires Valid(q)
    ensures Valid(r)
    ensures |Contents(q)| + |ps| <= Capacity ==> Contents(r) == Contents(q) + ps
    decreases |ps|
  {
    if ps == [] then q else EnqueueAll(Enqueue(q, ps[0]), ps[1..])
  }

  /** Dequeues until the queue is empty and lists the pieces in the order
      they came out. */
  function Drain(q: Queue): (ps: seq<Piece>)
    requires Valid(q)
    ensures ps == Contents(q)
    decreases q.count
  {
    if IsEmpty(q) then []
    else
      var d := Dequeue(q);
      [d.piece] + Drain(d.queue)
  }

  /** First in, first out over a whole run: pieces enqueued on a fresh queue,
      up to its capacity, come out in the order they went in. */
  lemma {:induction false} FifoOrder(slots: seq<Piece>, ps: seq<Piece>)
    requires |slots| == Capacity && |ps| <= Capacity
    ensures Drain(EnqueueAll(Init(slots), ps)) == ps
  {
    var q := EnqueueAll(Init(slots), ps);
    assert Contents(q) == [] + ps;
  }
}
