/** Pieces and the id generator that feeds the queue of upcoming pieces. */
module Pieces {

  /** A game piece: a shape tag and a sequence id. */
  datatype Piece = Piece(kind: char, id: int)

  /** The piece a removal from an empty container hands back instead of failing. */
  const Invalid: Piece := Piece('\0', -1)

  /** The generator's shape table, in the order it is indexed. */
  const Kinds: seq<char> := ['I', 'O', 'T', 'L']

  predicate IsKind(c: char) {
    c in Kinds
  }

  /** The process-wide id counter, passed in and returned instead of a global. */
  datatype Generator = Generator(nextId: int)

  /** The counter as the program starts. */
  const Start: Generator := Generator(0)

  datatype Generated = Generated(piece: Piece, gen: Generator)

  /** Draws one piece. `roll` stands for the C library's `rand()`, which is
      never negative; the shape is `roll % 4` into the table. */
  function NextPiece(g: Generator, roll: nat): (r: Generated)
    ensures IsKind(r.piece.kind)
    ensures r.piece.id == g.nextId
    ensures r.gen.nextId == g.nextId + 1
  {
    Generated(Piece(Kinds[roll % |Kinds|], g.nextId), Generator(g.nextId + 1))
  }

  /** The ids of a sequence of pieces, position by position. */
  function Ids(ps: seq<Piece>): (r: seq<int>)
    ensures |r| == |ps|
  {
    seq(|ps|, i requires 0 <= i < |ps| => ps[i].id)
  }

  lemma IdsConcat(a: seq<Piece>, b: seq<Piece>)
    ensures Ids(a + b) == Ids(a) + Ids(b)
  {
  }

  /** Every id occurs at most once and every id is below `bound`. */
  predicate UniqueBelow(ids: multiset<int>, bound: int) {
    forall x :: x in ids ==> ids[x] == 1 && 0 <= x < bound
  }

  /** Two draws in a row give strictly increasing ids. */
  lemma DrawsIncrease(g: Generator, roll1: nat, roll2: nat)
    ensures NextPiece(g, roll1).piece.id < NextPiece(NextPiece(g, roll1).gen, roll2).piece.id
  {
  }
}
