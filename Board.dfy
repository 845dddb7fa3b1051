/** Boards of the 8-puzzle and the moves between them.

    A board is the 3x3 grid flattened in row-major order: cell i sits in
    row i / 3 and column i % 3; the value 0 is the blank. A move swaps the
    blank with one orthogonally adjacent cell. */
module Board {

  /** Side of the square grid (the bound hard-coded in get_neighbors). */
  const Size: int := 3
  /** Number of cells of a board. */
  const Cells: int := 9

  type Board = seq<int>

  function Row(i: int): int { i / Size }
  function Col(i: int): int { i % Size }
  function Index(r: int, c: int): int { r * Size + c }

  /** Every value of the board occurs once (the blank included). */
  predicate Distinct(s: Board)
  {
    forall i, j :: 0 <= i < j < |s| ==> s[i] != s[j]
  }

  /** The board holds exactly one blank. */
  predicate SingleBlank(s: Board)
  {
    multiset(s)[0] == 1
  }

  /** The first blank in row-major order, as the generator expression of get_neighbors finds it. */
  function BlankIndex(s: Board): (b: nat)
    requires 0 in s
    ensures b < |s| && s[b] == 0
    ensures forall j :: 0 <= j < b ==> s[j] != 0
  {
    if s[0] == 0 then 0 else 1 + BlankIndex(s[1..])
  }

  /** The board with cells i and j exchanged. */
  function Swap(s: Board, i: nat, j: nat): Board
    requires i < |s| && j < |s|
  {
    s[i := s[j]][j := s[i]]
  }

  /** Two cells of the grid that share a side. */
  predicate Adjacent(p: int, q: int)
  {
    0 <= p < Cells && 0 <= q < Cells &&
    ((Row(p) == Row(q) && (Col(p) - Col(q) == 1 || Col(q) - Col(p) == 1)) ||
     (Col(p) == Col(q) && (Row(p) - Row(q) == 1 || Row(q) - Row(p) == 1)))
  }

  /** t results from s by sliding one tile into the blank: the blank of s is
      swapped with one cell adjacent to it. */
  predicate IsMove(s: Board, t: Board)
  {
    |s| == Cells && 0 in s &&
    exists q :: 0 <= q < Cells && Adjacent(BlankIndex(s), q) && t == Swap(s, BlankIndex(s), q)
  }

  /** A sequence of boards, each one move away from the previous one. */
  predicate IsWalk(p: seq<Board>)
  {
    |p| >= 1 && forall i :: 0 <= i < |p| - 1 ==> IsMove(p[i], p[i + 1])
  }

  /** Candidate blank destinations, in the order up, down, left, right. */
  function Moves(r: int, c: int): seq<(int, int)>
  {
    [(r - 1, c), (r + 1, c), (r, c - 1), (r, c + 1)]
  }

  predicate InBounds(m: (int, int))
  {
    0 <= m.0 < Size && 0 <= m.1 < Size
  }

  /** The boards produced by the candidates ms, keeping only those in bounds. */
  function NeighborsVia(s: Board, b: nat, ms: seq<(int, int)>): seq<Board>
    requires b < |s| == Cells
  {
    if ms == [] then []
    else
      var m := ms[|ms| - 1];
      NeighborsVia(s, b, ms[..|ms| - 1]) +
      (if InBounds(m) then [Swap(s, b, Index(m.0, m.1))] else [])
  }

  /** The successor boards of s, in the order get_neighbors emits them. */
  function Neighbors(s: Board): seq<Board>
    requires |s| == Cells && 0 in s
  {
    var b := BlankIndex(s);
    NeighborsVia(s, b, Moves(Row(b), Col(b)))
  }

  /** The single-direction successors, each empty when the destination is off the grid. */
  function Step(s: Board, dr: int, dc: int): seq<Board>
    requires |s| == Cells && 0 in s
  {
    var b := BlankIndex(s);
    var r, c := Row(b) + dr, Col(b) + dc;
    if 0 <= r < Size && 0 <= c < Size then [Swap(s, b, Index(r, c))] else []
  }

  //--------------------------------------------------------------------------
  // Properties of moves
  //--------------------------------------------------------------------------

  /** The successors come in the fixed order up, down, left, right, each present
      exactly when its destination lies on the grid. */
  lemma NeighborsInOrder(s: Board)
    requires |s| == Cells && 0 in s
    ensures Neighbors(s) == Step(s, -1, 0) + Step(s, 1, 0) + Step(s, 0, -1) + Step(s, 0, 1)
  {
    var b := BlankIndex(s);
    var r, c := Row(b), Col(b);
    var ms := Moves(r, c);
    assert ms[..1][..0] == [];
    assert NeighborsVia(s, b, ms[..1]) == Step(s, -1, 0);
    assert ms[..2][..1] == ms[..1];
    assert NeighborsVia(s, b, ms[..2]) == Step(s, -1, 0) + Step(s, 1, 0);
    assert ms[..3][..2] == ms[..2];
    assert NeighborsVia(s, b, ms[..3]) == Step(s, -1, 0) + Step(s, 1, 0) + Step(s, 0, -1);
    assert ms[..3] == ms[..|ms| - 1];
  }

  /** A corner blank has two successors, an edge blank three, the centre four. */
  lemma NeighborCount(s: Board)
    requires |s| == Cells && 0 in s
    ensures var b := BlankIndex(s);
      |Neighbors(s)| == (if Row(b) == 1 then 2 else 1) + (if Col(b) == 1 then 2 else 1)
    ensures BlankIndex(s) in {0, 2, 6, 8} ==> |Neighbors(s)| == 2
    ensures BlankIndex(s) in {1, 3, 5, 7} ==> |Neighbors(s)| == 3
    ensures BlankIndex(s) == 4 ==> |Neighbors(s)| == 4
  {
    NeighborsInOrder(s);
  }

  /** Row and column of a cell given by its row and column. */
  lemma CellOfIndex(r: int, c: int)
    requires 0 <= r < Size && 0 <= c < Size
    ensures 0 <= Index(r, c) < Cells && Row(Index(r, c)) == r && Col(Index(r, c)) == c
  {
  }

  /** A cell is given by its row and column. */
  lemma IndexOfCell(p: int)
    requires 0 <= p < Cells
    ensures Index(Row(p), Col(p)) == p && 0 <= Row(p) < Size && 0 <= Col(p) < Size
  {
  }

  /** A single-direction successor is a move. */
  lemma StepIsMove(s: Board, dr: int, dc: int, t: Board)
    requires |s| == Cells && 0 in s
    requires (dr == 0 && (dc == 1 || dc == -1)) || (dc == 0 && (dr == 1 || dr == -1))
    requires t in Step(s, dr, dc)
    ensures IsMove(s, t)
  {
    var b := BlankIndex(s);
    var r, c := Row(b) + dr, Col(b) + dc;
    CellOfIndex(r, c);
    IndexOfCell(b);
    assert Adjacent(b, Index(r, c));
  }

  /** A move is a single-direction successor. */
  lemma MoveIsStep(s: Board, t: Board)
    requires IsMove(s, t)
    ensures t in Step(s, -1, 0) || t in Step(s, 1, 0) || t in Step(s, 0, -1) || t in Step(s, 0, 1)
  {
    var b := BlankIndex(s);
    var q :| 0 <= q < Cells && Adjacent(b, q) && t == Swap(s, b, q);
    IndexOfCell(b);
    IndexOfCell(q);
    var r, c := Row(b), Col(b);
    if Row(q) == r - 1 {
      assert t in Step(s, -1, 0);
    } else if Row(q) == r + 1 {
      assert t in Step(s, 1, 0);
    } else if Col(q) == c - 1 {
      assert t in Step(s, 0, -1);
    } else {
      assert t in Step(s, 0, 1);
    }
  }

  /** Every successor is a move, and every move is a successor. */
  lemma NeighborsAreMoves(s: Board, t: Board)
    requires |s| == Cells && 0 in s
    ensures t in Neighbors(s) <==> IsMove(s, t)
  {
    NeighborsInOrder(s);
    if t in Step(s, -1, 0) {
      StepIsMove(s, -1, 0, t);
    } else if t in Step(s, 1, 0) {
      StepIsMove(s, 1, 0, t);
    } else if t in Step(s, 0, -1) {
      StepIsMove(s, 0, -1, t);
    } else if t in Step(s, 0, 1) {
      StepIsMove(s, 0, 1, t);
    }
    if IsMove(s, t) {
      MoveIsStep(s, t);
    }
  }

  /** A move exchanges the blank with the adjacent cell q, leaves every other
      cell alone and keeps the multiset of tiles, hence the number of blanks. */
  lemma MoveShape(s: Board, t: Board)
    requires IsMove(s, t)
    ensures |t| == |s| && multiset(t) == multiset(s)
    ensures multiset(t)[0] == multiset(s)[0] && 0 in t
    ensures var b := BlankIndex(s);
      exists q :: 0 <= q < Cells && Adjacent(b, q) && t[b] == s[q] && t[q] == 0 &&
        forall i :: 0 <= i < Cells && i != b && i != q ==> t[i] == s[i]
  {
    var b := BlankIndex(s);
    var q :| 0 <= q < Cells && Adjacent(b, q) && t == Swap(s, b, q);
    SwapCells(s, b, q);
    SwapMultiset(s, b, q);
  }

  /** What exchanging cells i and j does to each cell. */
  lemma SwapCells(s: Board, i: nat, j: nat)
    requires i < |s| && j < |s|
    ensures |Swap(s, i, j)| == |s| && Swap(s, i, j)[i] == s[j] && Swap(s, i, j)[j] == s[i]
    ensures forall k :: 0 <= k < |s| && k != i && k != j ==> Swap(s, i, j)[k] == s[k]
  {
  }

  /** Exchanging two cells permutes the board. */
  lemma SwapMultiset(s: Board, i: nat, j: nat)
    requires i < |s| && j < |s|
    ensures multiset(Swap(s, i, j)) == multiset(s)
  {
    if i != j {
      calc {
        multiset(Swap(s, i, j));
        multiset(s[i := s[j]]) - multiset{s[j]} + multiset{s[i]};
        multiset(s) - multiset{s[i]} + multiset{s[j]} - multiset{s[j]} + multiset{s[i]};
      }
    }
  }

  /** Exchanging two cells does not depend on their order. */
  lemma SwapSymmetric(s: Board, i: nat, j: nat)
    requires i < |s| && j < |s|
    ensures Swap(s, i, j) == Swap(s, j, i)
  {
  }

  /** The cell the blank moves to is one of its four grid neighbours. */
  lemma AdjacentCases(p: int, q: int)
    requires Adjacent(p, q)
    ensures q == p - Size || q == p + Size || q == p - 1 || q == p + 1
  {
  }

  /** A value found at two different cells occurs at least twice. */
  lemma TwiceCounted(s: Board, i: nat, j: nat)
    requires i < j < |s| && s[i] == s[j]
    ensures multiset(s)[s[i]] >= 2
  {
    assert s == s[..j] + [s[j]] + s[j + 1..];
    assert s[i] in s[..j];
  }

  /** On a board with a single blank, the blank found first is the only one. */
  lemma SingleBlankAt(s: Board, i: nat)
    requires 0 in s && SingleBlank(s) && i < |s| && s[i] == 0
    ensures i == BlankIndex(s)
  {
    var b := BlankIndex(s);
    if b < i { TwiceCounted(s, b, i); }
  }

  /** Every board of a walk has the tiles of the first one. */
  lemma {:induction false} WalkMultiset(p: seq<Board>, k: nat)
    requires IsWalk(p) && k < |p|
    ensures multiset(p[k]) == multiset(p[0]) && |p[k]| == |p[0]|
  {
    if k > 0 {
      WalkMultiset(p, k - 1);
      MoveShape(p[k - 1], p[k]);
    }
  }
}
