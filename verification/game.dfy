/** The state changes of the game's main program: the setup that fills the
    queue, and one turn of the menu. Console input and output are left out;
    each turn reports whether it did anything and which piece it moved. */
module Game {
  import opened Pieces
  import Q = CircularQueue
  import S = ReserveStack
  import X = Exchange

  datatype State = State(queue: Q.Queue, stack: S.Stack, gen: Generator)

  predicate Valid(g: State) {
    Q.Valid(g.queue) && S.Valid(g.stack)
  }

  /** The ids of every piece held, upcoming or in reserve. */
  function Pool(g: State): multiset<int>
    requires Valid(g)
  {
    multiset(Ids(Q.Contents(g.queue))) + multiset(Ids(S.Contents(g.stack)))
  }

  /** What normal play keeps: the queue is full, and every piece held has
      its own id, drawn earlier from the counter. */
  predicate Invariant(g: State) {
    && Valid(g)
    && Q.IsFull(g.queue)
    && 0 <= g.gen.nextId
    && UniqueBelow(Pool(g), g.gen.nextId)
  }

  /** The pieces a run of draws produces, one per roll: the reference for
      what the setup loop puts in the queue. */
  function Drawn(gen: Generator, rolls: seq<nat>): (ps: seq<Piece>)
    ensures |ps| == |rolls|
    ensures forall i :: 0 <= i < |ps| ==> ps[i].id == gen.nextId + i && IsKind(ps[i].kind)
    decreases |rolls|
  {
    if rolls == [] then []
    else
      var d := NextPiece(gen, rolls[0]);
      [d.piece] + Drawn(d.gen, rolls[1..])
  }

  /** Draws one piece per roll and enqueues it, as the setup loop does. The
      piece is drawn before the enqueue, so an id is used up even when the
      queue is already full. */
  function Fill(q: Q.Queue, gen: Generator, rolls: seq<nat>): (r: (Q.Queue, Generator))
    requires Q.Valid(q)
    ensures Q.Valid(r.0)
    ensures r.1.nextId == gen.nextId + |rolls|
    ensures |Q.Contents(q)| + |rolls| <= Q.Capacity ==>
      Q.Contents(r.0) == Q.Contents(q) + Drawn(gen, rolls)
    decreases |rolls|
  {
    if rolls == [] then (q, gen)
    else
      var d := NextPiece(gen, rolls[0]);
      Fill(Q.Enqueue(q, d.piece), d.gen, rolls[1..])
  }

  /** The start of the program: empty containers over whatever the slot
      arrays held, then five drawn pieces enqueued with the counter at 0. */
  function Setup(queueSlots: seq<Piece>, stackSlots: seq<Piece>, rolls: seq<nat>): (r: State)
    requires |queueSlots| == Q.Capacity && |stackSlots| == S.Capacity
    requires |rolls| == Q.Capacity
    ensures Invariant(r)
    ensures Q.Contents(r.queue) == Drawn(Start, rolls)
    ensures Ids(Q.Contents(r.queue)) == [0, 1, 2, 3, 4]
    ensures S.Contents(r.stack) == []
    ensures r.gen.nextId == Q.Capacity
  {
    var filled := Fill(Q.Init(queueSlots), Start, rolls);
    var r := State(filled.0, S.Init(stackSlots), filled.1);
    assert Q.Contents(r.queue) == Drawn(Start, rolls);
    FirstIds(rolls);
    FirstIdsUnique();
    r
  }

  lemma FirstIds(rolls: seq<nat>)
    requires |rolls| == Q.Capacity
    ensures Ids(Drawn(Start, rolls)) == [0, 1, 2, 3, 4]
  {
    var ids := Ids(Drawn(Start, rolls));
    assert forall i | 0 <= i < |ids| :: ids[i] == i;
  }

  lemma FirstIdsUnique()
    ensures UniqueBelow(multiset([0, 1, 2, 3, 4]), Q.Capacity)
  {
  }

  /** The outcome of one turn: whether it acted, the piece it played,
      reserved or used (`Invalid` when none), and the new state. */
  datatype Step = Step(done: bool, piece: Piece, game: State)

  /** Menu option 1: play the front piece, then refill the queue. */
  function PlayFront(g: State, roll: nat): (r: Step)
    requires Valid(g)
    ensures Valid(r.game)
    ensures r.done <==> !Q.IsEmpty(g.queue)
    ensures !r.done ==> r.piece == Invalid && r.game == g
    ensures r.done ==>
      && r.piece == Q.Contents(g.queue)[0]
      && Q.Contents(r.game.queue) == Q.Contents(g.queue)[1..] + [NextPiece(g.gen, roll).piece]
      && r.game.stack == g.stack
      && r.game.gen.nextId == g.gen.nextId + 1
  {
    if Q.IsEmpty(g.queue) then Step(false, Invalid, g)
    else
      var out := Q.Dequeue(g.queue);
      var d := NextPiece(g.gen, roll);
      Step(true, out.piece, State(Q.Enqueue(out.queue, d.piece), g.stack, d.gen))
  }

  /** Menu option 2: move the front piece onto the reserve stack, then
      refill the queue. Refused when the queue is empty or the stack full. */
  function Reserve(g: State, roll: nat): (r: Step)
    requires Valid(g)
    ensures Valid(r.game)
    ensures r.done <==> !Q.IsEmpty(g.queue) && !S.IsFull(g.stack)
    ensures !r.done ==> r.piece == Invalid && r.game == g
    ensures r.done ==>
      && r.piece == Q.Contents(g.queue)[0]
      && Q.Contents(r.game.queue) == Q.Contents(g.queue)[1..] + [NextPiece(g.gen, roll).piece]
      && S.Contents(r.game.stack) == [Q.Contents(g.queue)[0]] + S.Contents(g.stack)
      && r.game.gen.nextId == g.gen.nextId + 1
  {
    if !Q.IsEmpty(g.queue) && !S.IsFull(g.stack) then
      var out := Q.Dequeue(g.queue);
      var d := NextPiece(g.gen, roll);
      Step(true, out.piece, State(Q.Enqueue(out.queue, d.piece), S.Push(g.stack, out.piece), d.gen))
    else Step(false, Invalid, g)
  }

  /** Menu option 3: use the top reserved piece. */
  function UseReserve(g: State): (r: Step)
    requires Valid(g)
    ensures Valid(r.game)
    ensures r.done <==> !S.IsEmpty(g.stack)
    ensures !r.done ==> r.piece == Invalid && r.game == g
    ensures r.done ==>
      && r.piece == S.Contents(g.stack)[0]
      && S.Contents(r.game.stack) == S.Contents(g.stack)[1..]
      && r.game.queue == g.queue
      && r.game.gen == g.gen
  {
    if S.IsEmpty(g.stack) then Step(false, Invalid, g)
    else
      var out := S.Pop(g.stack);
      Step(true, out.piece, g.(stack := out.stack))
  }

  lemma IdsCons(a: Piece, rest: seq<Piece>)
    ensures multiset(Ids([a] + rest)) == multiset{a.id} + multiset(Ids(rest))
  {
    IdsConcat([a], rest);
  }

  lemma IdsAppend(a: seq<Piece>, b: seq<Piece>)
    ensures multiset(Ids(a + b)) == multiset(Ids(a)) + multiset(Ids(b))
  {
    IdsConcat(a, b);
  }

  /** Adding the counter's current value to a pool of ids drawn before it
      keeps every id unique. */
  lemma AddFresh(pool: multiset<int>, bound: int)
    requires UniqueBelow(pool, bound) && 0 <= bound
    ensures UniqueBelow(pool + multiset{bound}, bound + 1)
  {
    var pool' := pool + multiset{bound};
    forall x | x in pool'
      ensures pool'[x] == 1 && 0 <= x < bound + 1
    {
      if x == bound {
        assert bound !in pool;
      } else {
        assert x in pool;
      }
    }
  }

  /** Dropping ids from a pool keeps the rest unique. */
  lemma DropIds(pool: multiset<int>, sub: multiset<int>, bound: int)
    requires UniqueBelow(pool, bound) && sub <= pool
    ensures UniqueBelow(sub, bound)
  {
    forall x | x in sub
      ensures sub[x] == 1 && 0 <= x < bound
    {
      assert x in pool;
    }
  }

  /** Playing the front piece and enqueueing a fresh one swaps one id of
      the pool for the fresh id. */
  lemma PlayFrontPool(qc: seq<Piece>, sc: seq<Piece>, p: Piece)
    requires |qc| > 0
    ensures multiset(Ids(qc[1..] + [p])) + multiset(Ids(sc)) ==
            multiset(Ids(qc)) + multiset(Ids(sc)) - multiset{qc[0].id} + multiset{p.id}
  {
    assert qc == [qc[0]] + qc[1..];
    IdsCons(qc[0], qc[1..]);
    IdsAppend(qc[1..], [p]);
  }

  /** Swapping one id of a unique pool for the counter's current value keeps
      every id unique. */
  lemma ReplaceWithFresh(pool: multiset<int>, gone: int, bound: int)
    requires UniqueBelow(pool, bound) && 0 <= bound && gone in pool
    ensures UniqueBelow(pool - multiset{gone} + multiset{bound}, bound + 1)
  {
    DropIds(pool, pool - multiset{gone}, bound);
    AddFresh(pool - multiset{gone}, bound);
  }

  lemma {:induction false} PlayFrontKeepsInvariant(g: State, roll: nat)
    requires Invariant(g)
    ensures Invariant(PlayFront(g, roll).game)
  {
    var qc := Q.Contents(g.queue);
    PlayFrontPool(qc, S.Contents(g.stack), NextPiece(g.gen, roll).piece);
    assert Ids(qc)[0] == qc[0].id;
    ReplaceWithFresh(Pool(g), qc[0].id, g.gen.nextId);
  }

  lemma {:induction false} ReserveKeepsInvariant(g: State, roll: nat)
    requires Invariant(g)
    ensures Invariant(Reserve(g, roll).game)
  {
    var r := Reserve(g, roll);
    if r.done {
      var qc := Q.Contents(g.queue);
      var sc := S.Contents(g.stack);
      var p := NextPiece(g.gen, roll).piece;
      var front := multiset{qc[0].id};
      var rest := multiset(Ids(qc[1..]));
      var held := multiset(Ids(sc));
      assert qc == [qc[0]] + qc[1..];
      IdsCons(qc[0], qc[1..]);
      assert Pool(g) == front + rest + held;
      IdsAppend(qc[1..], [p]);
      assert multiset(Ids(Q.Contents(r.game.queue))) == rest + multiset{p.id};
      IdsCons(qc[0], sc);
      assert multiset(Ids(S.Contents(r.game.stack))) == front + held;
      assert Pool(r.game) == Pool(g) + multiset{g.gen.nextId};
      AddFresh(Pool(g), g.gen.nextId);
    }
  }

  lemma {:induction false} UseReserveKeepsInvariant(g: State)
    requires Invariant(g)
    ensures Invariant(UseReserve(g).game)
  {
    var r := UseReserve(g);
    if r.done {
      var sc := S.Contents(g.stack);
      assert sc == [sc[0]] + sc[1..];
      IdsCons(sc[0], sc[1..]);
      assert Pool(r.game) <= Pool(g);
      DropIds(Pool(g), Pool(r.game), g.gen.nextId);
    }
  }

  lemma {:induction false} SwapFrontKeepsInvariant(g: State)
    requires Invariant(g)
    ensures Invariant(SwapFront(g).game)
  {
    var x := SwapFront(g);
    if x.done {
      var qc := Q.Contents(g.queue);
      var sc := S.Contents(g.stack);
      assert qc == [qc[0]] + qc[1..];
      assert sc == [sc[0]] + sc[1..];
      IdsCons(qc[0], qc[1..]);
      IdsCons(sc[0], sc[1..]);
      IdsCons(qc[0], sc[1..]);
      IdsCons(sc[0], qc[1..]);
      assert Pool(x.game) == Pool(g);
    }
  }

  /** Exchanging the first three queue pieces with the stack only moves
      pieces between the containers: the ids held stay the same. */
  lemma {:induction false} SwapThreeKeepsPool(qc: seq<Piece>, sc: seq<Piece>)
    requires |qc| >= 3
    ensures multiset(Ids(sc + qc[3..])) + multiset(Ids(qc[..3])) ==
            multiset(Ids(qc)) + multiset(Ids(sc))
  {
    assert qc == qc[..3] + qc[3..];
    IdsAppend(qc[..3], qc[3..]);
    IdsAppend(sc, qc[3..]);
  }

  lemma {:induction false} SwapThreeKeepsInvariant(g: State, x: X.Exchanged)
    requires Invariant(g) && Q.Valid(x.queue) && S.Valid(x.stack)
    requires x.queue.count == g.queue.count
    requires Q.Contents(x.queue) == S.Contents(g.stack) + Q.Contents(g.queue)[3..]
    requires S.Contents(x.stack) == Q.Contents(g.queue)[..3]
    ensures Invariant(State(x.queue, x.stack, g.gen))
  {
    SwapThreeKeepsPool(Q.Contents(g.queue), S.Contents(g.stack));
  }

  /** Menu option 4: exchange the front of the queue with the top of the
      stack. */
  function SwapFront(g: State): (r: Step)
    requires Valid(g)
    ensures Valid(r.game)
    ensures r.done <==> !Q.IsEmpty(g.queue) && !S.IsEmpty(g.stack)
    ensures !r.done ==> r.game == g
    ensures r.done ==>
      && Q.Contents(r.game.queue) == [S.Contents(g.stack)[0]] + Q.Contents(g.queue)[1..]
      && S.Contents(r.game.stack) == [Q.Contents(g.queue)[0]] + S.Contents(g.stack)[1..]
    ensures r.piece == Invalid && r.game.gen == g.gen
  {
    var x := X.SwapFrontWithTop(g.queue, g.stack);
    Step(x.done, Invalid, State(x.queue, x.stack, g.gen))
  }

  /** Menu option 5: exchange the first three queue pieces with the three
      reserved pieces. */
  method SwapTriple(g: State) returns (r: Step)
    requires Valid(g)
    ensures Valid(r.game)
    ensures r.done <==> S.IsFull(g.stack) && |Q.Contents(g.queue)| >= 3
    ensures !r.done ==> r.game == g
    ensures |Q.Contents(r.game.queue)| == |Q.Contents(g.queue)|
    ensures r.done ==>
      && Q.Contents(r.game.queue) == S.Contents(g.stack) + Q.Contents(g.queue)[3..]
      && S.Contents(r.game.stack) == Q.Contents(g.queue)[..3]
    ensures r.piece == Invalid && r.game.gen == g.gen
    ensures Invariant(g) ==> Invariant(r.game)
  {
    var x := X.SwapThree(g.queue, g.stack);
    r := Step(x.done, Invalid, State(x.queue, x.stack, g.gen));
    if x.done {
      var qc' := Q.Contents(x.queue);
      assert qc' == qc'[..3] + qc'[3..];
      if Invariant(g) {
        SwapThreeKeepsInvariant(g, x);
      }
    }
  }

  /** One turn of the menu loop: the option read from the console and the
      roll used if a piece is drawn. Options 0 (quit) and any unknown
      option leave the state as it is. */
  method Turn(g: State, option: int, roll: nat) returns (r: Step)
    requires Valid(g)
    ensures Valid(r.game)
    ensures Invariant(g) ==> Invariant(r.game)
    ensures option == 1 ==> r == PlayFront(g, roll)
    ensures option == 2 ==> r == Reserve(g, roll)
    ensures option == 3 ==> r == UseReserve(g)
    ensures option == 4 ==> r == SwapFront(g)
    ensures option == 5 ==> (r.done <==> S.IsFull(g.stack) && |Q.Contents(g.queue)| >= 3)
    ensures option == 5 ==> r.piece == Invalid && r.game.gen == g.gen
    ensures option == 5 && !r.done ==> r.game == g
    ensures option == 5 && r.done ==>
      && Q.Contents(r.game.queue) == S.Contents(g.stack) + Q.Contents(g.queue)[3..]
      && S.Contents(r.game.stack) == Q.Contents(g.queue)[..3]
    ensures !(1 <= option <= 5) ==> !r.done && r.game == g
  {
    if option == 1 {
      r := PlayFront(g, roll);
      if Invariant(g) { PlayFrontKeepsInvariant(g, roll); }
    } else if option == 2 {
      r := Reserve(g, roll);
      if Invariant(g) { ReserveKeepsInvariant(g, roll); }
    } else if option == 3 {
      r := UseReserve(g);
      if Invariant(g) { UseReserveKeepsInvariant(g); }
    } else if option == 4 {
      r := SwapFront(g);
      if Invariant(g) { SwapFrontKeepsInvariant(g); }
    } else if option == 5 {
      r := SwapTriple(g);
    } else {
      r := Step(false, Invalid, g);
    }
  }
}
