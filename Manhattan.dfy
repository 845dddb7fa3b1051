/** The heuristic: the goal index and the Manhattan distance to the goal.

    The goal index maps every non-blank tile of the goal to its (row, column)
    (_get_goal_positions). The distance of a board is the sum, over its
    non-blank tiles, of the row and column offsets between the tile's cell
    and its goal cell (calculate_manhattan_distance). */
module Manhattan {
  import opened Board

  type Cell = (int, int)

  function CellOf(i: int): Cell { (Row(i), Col(i)) }

  function Abs(x: int): int { if x < 0 then -x else x }

  /** The goal index built from the first n cells of the goal, a later cell
      overwriting an earlier one holding the same tile. */
  function GoalIndexUpTo(goal: Board, n: nat): map<int, Cell>
    requires n <= |goal|
  {
    if n == 0 then map[]
    else
      var m := GoalIndexUpTo(goal, n - 1);
      if goal[n - 1] != 0 then m[goal[n - 1] := CellOf(n - 1)] else m
  }

  function GoalIndex(goal: Board): map<int, Cell>
  {
    GoalIndexUpTo(goal, |goal|)
  }

  /** Every non-blank tile of s has a goal cell. */
  predicate Known(pos: map<int, Cell>, s: Board)
  {
    forall t :: t in s && t != 0 ==> t in pos
  }

  /** How far the tile t standing on cell i is from its goal cell; the blank costs nothing. */
  function TileDistance(pos: map<int, Cell>, i: int, t: int): int
    requires t == 0 || t in pos
  {
    if t == 0 then 0 else Abs(Row(i) - pos[t].0) + Abs(Col(i) - pos[t].1)
  }

  /** The distance summed over the first n cells of s. */
  function ManhattanUpTo(pos: map<int, Cell>, s: Board, n: nat): int
    requires n <= |s| && Known(pos, s)
  {
    if n == 0 then 0
    else ManhattanUpTo(pos, s, n - 1) + TileDistance(pos, n - 1, s[n - 1])
  }

  function Manhattan(pos: map<int, Cell>, s: Board): int
    requires Known(pos, s)
  {
    ManhattanUpTo(pos, s, |s|)
  }

  //--------------------------------------------------------------------------
  // The goal index
  //--------------------------------------------------------------------------

  /** The index built from the first n cells holds exactly their non-blank tiles. */
  lemma {:induction false} GoalIndexUpToKeys(goal: Board, n: nat)
    requires n <= |goal|
    ensures forall t :: t in GoalIndexUpTo(goal, n) <==> t != 0 && t in goal[..n]
  {
    if n > 0 {
      GoalIndexUpToKeys(goal, n - 1);
      assert goal[..n] == goal[..n - 1] + [goal[n - 1]];
      forall t ensures t in GoalIndexUpTo(goal, n) <==> t != 0 && t in goal[..n] {
        assert t in goal[..n] <==> t in goal[..n - 1] || t == goal[n - 1];
      }
    }
  }

  /** A tile not repeated later among the first n cells is indexed at its own cell. */
  lemma {:induction false} GoalIndexUpToLast(goal: Board, n: nat, i: nat)
    requires n <= |goal| && i < n && goal[i] != 0
    requires forall j :: i < j < n ==> goal[j] != goal[i]
    ensures goal[i] in GoalIndexUpTo(goal, n) && GoalIndexUpTo(goal, n)[goal[i]] == CellOf(i)
  {
    if i < n - 1 {
      GoalIndexUpToLast(goal, n - 1, i);
    }
  }

  /** The goal index holds exactly the goal's non-blank tiles, each at its last cell. */
  lemma GoalIndexSpec(goal: Board)
    ensures forall t :: t in GoalIndex(goal) <==> t != 0 && t in goal
    ensures forall i :: 0 <= i < |goal| && goal[i] != 0 && (forall j :: i < j < |goal| ==> goal[j] != goal[i]) ==>
      GoalIndex(goal)[goal[i]] == CellOf(i)
  {
    GoalIndexUpToKeys(goal, |goal|);
    assert goal[..|goal|] == goal;
    forall i | 0 <= i < |goal| && goal[i] != 0 && (forall j :: i < j < |goal| ==> goal[j] != goal[i])
      ensures GoalIndex(goal)[goal[i]] == CellOf(i)
    {
      GoalIndexUpToLast(goal, |goal|, i);
    }
  }

  /** When the goal's tiles are distinct, every tile sits at its own cell. */
  lemma GoalIndexDistinct(goal: Board)
    requires Distinct(goal)
    ensures forall i :: 0 <= i < |goal| && goal[i] != 0 ==> goal[i] in GoalIndex(goal) && GoalIndex(goal)[goal[i]] == CellOf(i)
  {
    GoalIndexSpec(goal);
  }

  //--------------------------------------------------------------------------
  // The distance
  //--------------------------------------------------------------------------

  lemma {:induction false} ManhattanUpToNonNegative(pos: map<int, Cell>, s: Board, n: nat)
    requires n <= |s| && Known(pos, s)
    ensures ManhattanUpTo(pos, s, n) >= 0
    ensures ManhattanUpTo(pos, s, n) == 0 <==> forall i :: 0 <= i < n && s[i] != 0 ==> pos[s[i]] == CellOf(i)
  {
    if n > 0 {
      ManhattanUpToNonNegative(pos, s, n - 1);
    }
  }

  /** The distance is never negative, and it is zero exactly when every
      non-blank tile stands on its goal cell, wherever the blank is. */
  lemma ManhattanZeroIff(pos: map<int, Cell>, s: Board)
    requires Known(pos, s)
    ensures Manhattan(pos, s) >= 0
    ensures Manhattan(pos, s) == 0 <==> forall i :: 0 <= i < |s| && s[i] != 0 ==> pos[s[i]] == CellOf(i)
  {
    ManhattanUpToNonNegative(pos, s, |s|);
  }

  /** Distinct cells of the grid have distinct (row, column). */
  lemma CellOfInjective(i: int, j: int)
    requires 0 <= i < Cells && 0 <= j < Cells && CellOf(i) == CellOf(j)
    ensures i == j
  {
  }

  /** Against a goal with distinct tiles, the distance is zero exactly when the
      board agrees with the goal on every non-blank tile; so it is zero on the goal. */
  lemma ManhattanZeroAtGoal(goal: Board, s: Board)
    requires |goal| == |s| == Cells && Distinct(goal) && Known(GoalIndex(goal), s)
    ensures Manhattan(GoalIndex(goal), s) == 0 <==> forall i :: 0 <= i < Cells && s[i] != 0 ==> s[i] == goal[i]
    ensures Known(GoalIndex(goal), goal) && Manhattan(GoalIndex(goal), goal) == 0
  {
    var pos := GoalIndex(goal);
    GoalIndexSpec(goal);
    GoalIndexDistinct(goal);
    ManhattanZeroIff(pos, s);
    ManhattanZeroIff(pos, goal);
    forall i | 0 <= i < Cells && s[i] != 0
      ensures pos[s[i]] == CellOf(i) <==> s[i] == goal[i]
    {
      assert s[i] in s;
      var j :| 0 <= j < |goal| && goal[j] == s[i];
      if pos[s[i]] == CellOf(i) {
        CellOfInjective(i, j);
      }
    }
  }

  /** Changing s only at cells b and q changes the partial sums only by those cells' terms. */
  lemma {:induction false} ManhattanUpToTwoCells(pos: map<int, Cell>, s: Board, t: Board, b: nat, q: nat, n: nat)
    requires |s| == |t| && b < |s| && q < |s| && b != q && n <= |s|
    requires Known(pos, s) && Known(pos, t)
    requires forall i :: 0 <= i < |s| && i != b && i != q ==> t[i] == s[i]
    ensures ManhattanUpTo(pos, t, n) - ManhattanUpTo(pos, s, n) ==
      (if b < n then TileDistance(pos, b, t[b]) - TileDistance(pos, b, s[b]) else 0) +
      (if q < n then TileDistance(pos, q, t[q]) - TileDistance(pos, q, s[q]) else 0)
  {
    if n > 0 {
      ManhattanUpToTwoCells(pos, s, t, b, q, n - 1);
    }
  }

  /** A move keeps every tile's goal cell known. */
  lemma MoveKeepsKnown(pos: map<int, Cell>, s: Board, t: Board)
    requires IsMove(s, t) && Known(pos, s)
    ensures Known(pos, t)
  {
    MoveShape(s, t);
    forall x | x in t && x != 0 ensures x in pos {
      assert x in multiset(t);
      assert x in s;
    }
  }

  /** A tile that slides to an adjacent cell gets exactly one step nearer or farther. */
  lemma SlideDistance(pos: map<int, Cell>, p: int, q: int, x: int)
    requires Adjacent(p, q) && x != 0 && x in pos
    ensures TileDistance(pos, p, x) - TileDistance(pos, q, x) == 1 ||
            TileDistance(pos, q, x) - TileDistance(pos, p, x) == 1
  {
  }

  /** A move changes the distance by exactly one: one tile slides one cell. */
  lemma MoveDistance(pos: map<int, Cell>, s: Board, t: Board)
    requires IsMove(s, t) && SingleBlank(s) && Known(pos, s)
    ensures Known(pos, t) && SingleBlank(t)
    ensures Manhattan(pos, t) - Manhattan(pos, s) == 1 || Manhattan(pos, s) - Manhattan(pos, t) == 1
  {
    MoveShape(s, t);
    MoveKeepsKnown(pos, s, t);
    var b := BlankIndex(s);
    var q :| 0 <= q < Cells && Adjacent(b, q) && t[b] == s[q] && t[q] == 0 &&
      forall i :: 0 <= i < Cells && i != b && i != q ==> t[i] == s[i];
    if s[q] == 0 {
      SingleBlankAt(s, q);
    }
    assert s[q] in s;
    ManhattanUpToTwoCells(pos, s, t, b, q, |s|);
    SlideDistance(pos, b, q, s[q]);
  }

  /** Along a walk of single-blank boards the distance drops by at most one per move. */
  lemma {:induction false} WalkDistance(pos: map<int, Cell>, p: seq<Board>)
    requires IsWalk(p) && SingleBlank(p[0]) && Known(pos, p[0])
    ensures Known(pos, p[|p| - 1])
    ensures Manhattan(pos, p[0]) <= |p| - 1 + Manhattan(pos, p[|p| - 1])
  {
    if |p| > 1 {
      MoveDistance(pos, p[0], p[1]);
      assert IsWalk(p[1..]);
      WalkDistance(pos, p[1..]);
    }
  }

  /** Admissibility: the distance never exceeds the number of moves of any walk
      that reaches a goal with distinct tiles. */
  lemma Admissible(goal: Board, p: seq<Board>)
    requires |goal| == Cells && Distinct(goal)
    requires IsWalk(p) && p[|p| - 1] == goal
    requires SingleBlank(p[0]) && Known(GoalIndex(goal), p[0])
    ensures Manhattan(GoalIndex(goal), p[0]) <= |p| - 1
  {
    WalkDistance(GoalIndex(goal), p);
    ManhattanZeroAtGoal(goal, goal);
  }

  /** The goal index knows a board's tiles exactly when each of its tiles occurs in the goal. */
  lemma KnownFromGoal(goal: Board, s: Board)
    ensures Known(GoalIndex(goal), s) <==> forall t :: t in s && t != 0 ==> t in goal
  {
    GoalIndexSpec(goal);
  }
}
