/** The linear stack of reserved pieces (`Pilha`): three slots and a top index. */
module ReserveStack {
  import opened Pieces

  const Capacity: int := 3

  /** `top` is the slot of the top piece, -1 when the stack is empty. */
  datatype Stack = Stack(slots: seq<Piece>, top: int)

  predicate Valid(s: Stack) {
    |s.slots| == Capacity && -1 <= s.top < Capacity
  }

  /** The slot holding logical position `i` (position 0 is the top). */
  function Slot(s: Stack, i: nat): (k: nat)
    requires Valid(s) && i <= s.top
    ensures k < Capacity
  {
    s.top - i
  }

  /** The pieces in the stack read from the top down: the abstraction function. */
  function Contents(s: Stack): (r: seq<Piece>)
    requires Valid(s)
    ensures |r| == s.top + 1
  {
    seq(s.top + 1, i requires 0 <= i <= s.top => s.slots[Slot(s, i)])
  }

  function Init(slots: seq<Piece>): (r: Stack)
    requires |slots| == Capacity
    ensures Valid(r)
    ensures Contents(r) == []
    ensures r.slots == slots
  {
    Stack(slots, -1)
  }

  function IsFull(s: Stack): (b: bool)
    requires Valid(s)
    ensures b <==> |Contents(s)| == Capacity
  {
    s.top == Capacity - 1
  }

  function IsEmpty(s: Stack): (b: bool)
    requires Valid(s)
    ensures b <==> Contents(s) == []
  {
    s.top == -1
  }

  /** Puts a piece on top; a full stack is left as it is. */
  function Push(s: Stack, p: Piece): (r: Stack)
    requires Valid(s)
    ensures Valid(r)
    ensures IsFull(s) ==> r == s
    ensures !IsFull(s) ==> r.top == s.top + 1 && Contents(r) == [p] + Contents(s)
    ensures forall k :: 0 <= k <= s.top ==> r.slots[k] == s.slots[k]
  {
    if IsFull(s) then s
    else
      var r := Stack(s.slots[s.top + 1 := p], s.top + 1);
      assert Contents(r) == [p] + Contents(s) by {
        forall i | 1 <= i <= r.top
          ensures Contents(r)[i] == Contents(s)[i - 1]
        {
        }
      }
      r
  }

  datatype Popped = Popped(piece: Piece, stack: Stack)

  /** Takes the top piece off; an empty stack hands back `Invalid`. */
  function Pop(s: Stack): (r: Popped)
    requires Valid(s)
    ensures Valid(r.stack)
    ensures IsEmpty(s) ==> r == Popped(Invalid, s)
    ensures !IsEmpty(s) ==>
      && r.piece == Contents(s)[0]
      && r.stack.top == s.top - 1
      && Contents(r.stack) == Contents(s)[1..]
    ensures r.stack.slots == s.slots
  {
    if IsEmpty(s) then Popped(Invalid, s)
    else Popped(s.slots[s.top], Stack(s.slots, s.top - 1))
  }

  /** Last in, first out: popping right after a push returns the pushed piece
      and the pieces that were there before, in the same order. */
  lemma PushThenPop(s: Stack, p: Piece)
    requires Valid(s) && !IsFull(s)
    ensures Pop(Push(s, p)).piece == p
    ensures Pop(Push(s, p)).stack.top == s.top
    ensures Contents(Pop(Push(s, p)).stack) == Contents(s)
  {
  }

  /** Pushes the pieces in order; those that meet a full stack are dropped. */
  function PushAll(s: Stack, ps: seq<Piece>): (r: Stack)
    requires Valid(s)
    ensures Valid(r)
    ensures |Contents(s)| + |ps| <= Capacity ==> Contents(r) == Reversed(ps) + Contents(s)
    decreases |ps|
  {
    if ps == [] then s
    else
      var r := PushAll(Push(s, ps[0]), ps[1..]);
      assert Reversed(ps) == Reversed(ps[1..]) + [ps[0]];
      r
  }

  /** Pops until the stack is empty and lists the pieces in the order they
      came off. */
  function PopAll(s: Stack): (ps: seq<Piece>)
    requires Valid(s)
    ensures ps == Contents(s)
    decreases s.top
  {
    if IsEmpty(s) then []
    else
      var d := Pop(s);
      [d.piece] + PopAll(d.stack)
  }

  /** The pieces of a sequence, last first. */
  function Reversed(ps: seq<Piece>): (r: seq<Piece>)
    ensures |r| == |ps|
  {
    seq(|ps|, i requires 0 <= i < |ps| => ps[|ps| - 1 - i])
  }

  /** Last in, first out over a whole run: pieces pushed on a fresh stack, up
      to its capacity, come off in the reverse of the order they went on. */
  lemma {:induction false} LifoOrder(slots: seq<Piece>, ps: seq<Piece>)
    requires |slots| == Capacity && |ps| <= Capacity
    ensures PopAll(PushAll(Init(slots), ps)) == Reversed(ps)
  {
    var s := PushAll(Init(slots), ps);
    assert Contents(s) == Reversed(ps) + [];
  }
}
