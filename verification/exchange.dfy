/** The two operations that move pieces between the queue and the reserve
    stack. Each one either performs the whole exchange or refuses and changes
    nothing; the refusal is reported by `done == false`. */
module Exchange {
  import Q = CircularQueue
  import S = ReserveStack

  datatype Exchanged = Exchanged(done: bool, queue: Q.Queue, stack: S.Stack)

  /** Exchanges the front of the queue with the top of the stack
      (`trocarFilaComPilha`). Only the two slots change; no index moves. */
  function SwapFrontWithTop(q: Q.Queue, s: S.Stack): (r: Exchanged)
    requires Q.Valid(q) && S.Valid(s)
    ensures Q.Valid(r.queue) && S.Valid(r.stack)
    ensures r.done <==> !Q.IsEmpty(q) && !S.IsEmpty(s)
    ensures !r.done ==> r.queue == q && r.stack == s
    ensures r.done ==>
      && Q.Contents(r.queue) == [S.Contents(s)[0]] + Q.Contents(q)[1..]
      && S.Contents(r.stack) == [Q.Contents(q)[0]] + S.Contents(s)[1..]
    ensures r.queue.front == q.front && r.queue.rear == q.rear && r.queue.count == q.count
    ensures r.stack.top == s.top
    ensures forall k :: 0 <= k < Q.Capacity && k != q.front ==> r.queue.slots[k] == q.slots[k]
    ensures forall k :: 0 <= k < S.Capacity && k != s.top ==> r.stack.slots[k] == s.slots[k]
  {
    if Q.IsEmpty(q) || S.IsEmpty(s) then Exchanged(false, q, s)
    else
      var temp := q.slots[q.front];
      var q' := q.(slots := q.slots[q.front := s.slots[s.top]]);
      var s' := s.(slots := s.slots[s.top := temp]);
      assert Q.Contents(q') == [S.Contents(s)[0]] + Q.Contents(q)[1..] by {
        forall i | 1 <= i < q.count
          ensures Q.Contents(q')[i] == Q.Contents(q)[i]
        {
          Q.SlotsDistinct(q, 0, i);
        }
      }
      assert S.Contents(s') == [Q.Contents(q)[0]] + S.Contents(s)[1..];
      Exchanged(true, q', s')
  }

  /** Exchanges the first three pieces of the queue with the three pieces of a
      full stack (`trocar3Com3`), by the same loop of three pairwise swaps:
      queue position i with stack position i counted from the top. */
  method SwapThree(q: Q.Queue, s: S.Stack) returns (r: Exchanged)
    requires Q.Valid(q) && S.Valid(s)
    ensures Q.Valid(r.queue) && S.Valid(r.stack)
    ensures r.queue.front == q.front && r.queue.rear == q.rear && r.queue.count == q.count
    ensures r.stack.top == s.top
    ensures r.done <==> S.IsFull(s) && |Q.Contents(q)| >= 3
    ensures !r.done ==> r.queue == q && r.stack == s
    ensures r.done ==>
      && Q.Contents(r.queue)[..3] == S.Contents(s)
      && S.Contents(r.stack) == Q.Contents(q)[..3]
      && Q.Contents(r.queue)[3..] == Q.Contents(q)[3..]
    ensures forall j :: 3 <= j < Q.Capacity ==> r.queue.slots[Q.Slot(q, j)] == q.slots[Q.Slot(q, j)]
  {
    if s.top != 2 || q.count < 3 {
      return Exchanged(false, q, s);
    }
    var qs := q.slots;
    var ss := s.slots;
    var i := 0;
    while i < 3
      invariant 0 <= i <= 3
      invariant |qs| == Q.Capacity && |ss| == S.Capacity
      invariant forall j :: 0 <= j < i ==> qs[Q.Slot(q, j)] == s.slots[S.Slot(s, j)]
      invariant forall j :: i <= j < Q.Capacity ==> qs[Q.Slot(q, j)] == q.slots[Q.Slot(q, j)]
      invariant forall j :: 0 <= j < i ==> ss[S.Slot(s, j)] == q.slots[Q.Slot(q, j)]
      invariant forall j :: i <= j < S.Capacity ==> ss[S.Slot(s, j)] == s.slots[S.Slot(s, j)]
    {
      forall j | 0 <= j < Q.Capacity && j != i
        ensures Q.Slot(q, j) != Q.Slot(q, i)
      {
        Q.SlotsDistinct(q, i, j);
      }
      var k := Q.Slot(q, i);
      var temp := qs[k];
      qs := qs[k := ss[S.Slot(s, i)]];
      ss := ss[S.Slot(s, i) := temp];
      i := i + 1;
    }
    var q', s' := q.(slots := qs), s.(slots := ss);
    assert Q.Contents(q')[..3] == S.Contents(s) by {
      forall j | 0 <= j < 3
        ensures Q.Contents(q')[j] == S.Contents(s)[j]
      {
        assert Q.Slot(q', j) == Q.Slot(q, j);
      }
    }
    assert S.Contents(s') == Q.Contents(q)[..3] by {
      forall j | 0 <= j < 3
        ensures S.Contents(s')[j] == Q.Contents(q)[j]
      {
      }
    }
    r := Exchanged(true, q', s');
  }
}
