/** The parity gate: inversions of the row-major list of non-blank tiles.

    The solver compares the parity of the inversion count of the initial
    board with that of the goal board and searches only when they agree
    (is_solvable). On a 3x3 board a move keeps that parity, which is why a
    mismatch proves the goal unreachable. */
module Inversions {
  import opened Board

  /** The non-blank tiles of a board in row-major order. */
  function NonBlank(s: seq<int>): (a: seq<int>)
    ensures 0 !in a && |a| <= |s|
  {
    if s == [] then [] else (if s[0] != 0 then [s[0]] else []) + NonBlank(s[1..])
  }

  /** The list keeps every non-blank tile as often as the board holds it, and
      nothing else: k non-blank tiles on the board give a list of length k. */
  lemma {:induction false} NonBlankTiles(s: seq<int>)
    ensures |NonBlank(s)| == |s| - multiset(s)[0]
    ensures forall x :: x != 0 ==> multiset(NonBlank(s))[x] == multiset(s)[x]
  {
    if s != [] {
      assert s == [s[0]] + s[1..];
      NonBlankTiles(s[1..]);
    }
  }

  /** How many elements of b are smaller than x. */
  function Count(x: int, b: seq<int>): (n: nat)
    ensures n <= |b|
    ensures (forall j :: 0 <= j < |b| ==> b[j] >= x) ==> n == 0
  {
    if b == [] then 0 else (if x > b[0] then 1 else 0) + Count(x, b[1..])
  }

  /** The number of inversions of a: each element counted against the smaller ones after it. */
  function Inversions(a: seq<int>): nat
  {
    if a == [] then 0 else Count(a[0], a[1..]) + Inversions(a[1..])
  }

  /** The index pairs i < j with a[i] > a[j]. */
  ghost function InversionPairs(a: seq<int>): set<(int, int)>
  {
    set i, j | 0 <= i < j < |a| && a[i] > a[j] :: (i, j)
  }

  /** The initial and goal boards have inversion counts of the same parity. */
  predicate Solvable(initial: Board, goal: Board)
  {
    Inversions(NonBlank(initial)) % 2 == Inversions(NonBlank(goal)) % 2
  }

  //--------------------------------------------------------------------------
  // The count itself
  //--------------------------------------------------------------------------

  /** The count over the suffix of b from j splits off b[j]. */
  lemma CountFrom(x: int, b: seq<int>, j: nat)
    requires j < |b|
    ensures Count(x, b[j..]) == (if x > b[j] then 1 else 0) + Count(x, b[j + 1..])
  {
    assert b[j..][1..] == b[j + 1..];
  }

  /** The suffix of a from i splits into row i and the suffix after it. */
  lemma InversionsFrom(a: seq<int>, i: nat)
    requires i < |a|
    ensures Inversions(a[i..]) == Count(a[i], a[i + 1..]) + Inversions(a[i + 1..])
  {
    assert a[i..][1..] == a[i + 1..];
  }

  /** The pairs whose first index is p and second index is at least j. */
  ghost function RowPairs(a: seq<int>, p: nat, j: nat): set<(int, int)>
    requires p < |a|
  {
    set q | j <= q < |a| && a[p] > a[q] :: (p, q)
  }

  /** The pairs whose first index is at least i. */
  ghost function PairsFrom(a: seq<int>, i: nat): set<(int, int)>
  {
    set p, q | i <= p < q < |a| && a[p] > a[q] :: (p, q)
  }

  lemma {:induction false} RowPairsCount(a: seq<int>, p: nat, j: nat)
    requires p < |a| && j <= |a|
    ensures |RowPairs(a, p, j)| == Count(a[p], a[j..])
    decreases |a| - j
  {
    if j < |a| {
      RowPairsCount(a, p, j + 1);
      CountFrom(a[p], a, j);
      var r, r' := RowPairs(a, p, j), RowPairs(a, p, j + 1);
      var here := if a[p] > a[j] then {(p, j)} else {};
      forall x | x in r ensures x in r' + here {
        var k :| j <= k < |a| && a[p] > a[k] && x == (p, k);
        if k > j {
          assert x in r';
        }
      }
      forall x | x in r' + here ensures x in r {
        if x in r' {
          var k :| j + 1 <= k < |a| && a[p] > a[k] && x == (p, k);
        }
      }
      assert r == r' + here;
      assert (p, j) !in r';
    } else {
      assert RowPairs(a, p, j) == {};
    }
  }

  lemma {:induction false} PairsFromCount(a: seq<int>, i: nat)
    requires i <= |a|
    ensures |PairsFrom(a, i)| == Inversions(a[i..])
    decreases |a| - i
  {
    if i < |a| {
      PairsFromCount(a, i + 1);
      RowPairsCount(a, i, i + 1);
      InversionsFrom(a, i);
      assert PairsFrom(a, i) == RowPairs(a, i, i + 1) + PairsFrom(a, i + 1);
      assert RowPairs(a, i, i + 1) !! PairsFrom(a, i + 1);
    } else {
      assert PairsFrom(a, i) == {};
    }
  }

  /** The count is exactly the number of inverted index pairs. */
  lemma InversionsArePairs(a: seq<int>)
    ensures Inversions(a) == |InversionPairs(a)|
  {
    PairsFromCount(a, 0);
    assert a[0..] == a;
    assert PairsFrom(a, 0) == InversionPairs(a);
  }

  /** The number of pairs among n items, counted one item at a time. */
  function MaxPairs(n: nat): nat
  {
    if n == 0 then 0 else n - 1 + MaxPairs(n - 1)
  }

  /** Twice the number of pairs among n items is n(n-1). */
  lemma {:induction false} MaxPairsClosed(n: nat)
    ensures 2 * MaxPairs(n) == n * (n - 1)
  {
    if n > 0 {
      MaxPairsClosed(n - 1);
      assert (n - 1) * (n - 2) + 2 * (n - 1) == n * (n - 1);
    }
  }

  /** At most every pair is inverted: k tiles have at most k(k-1)/2 inversions. */
  lemma {:induction false} InversionsBound(a: seq<int>)
    ensures Inversions(a) <= MaxPairs(|a|)
    ensures 2 * Inversions(a) <= |a| * (|a| - 1)
  {
    if a != [] {
      InversionsBound(a[1..]);
      assert |a[1..]| == |a| - 1;
    }
    MaxPairsClosed(|a|);
  }

  /** No inversions exactly when the list is in ascending order. */
  lemma InversionsZeroIffAscending(a: seq<int>)
    ensures Inversions(a) == 0 <==> forall i, j :: 0 <= i < j < |a| ==> a[i] <= a[j]
  {
    InversionsArePairs(a);
    if exists i, j :: 0 <= i < j < |a| && a[i] > a[j] {
      var i, j :| 0 <= i < j < |a| && a[i] > a[j];
      assert (i, j) in InversionPairs(a);
    } else {
      assert InversionPairs(a) == {};
    }
  }

  //--------------------------------------------------------------------------
  // The gate
  //--------------------------------------------------------------------------

  /** Swapping the roles of initial and goal does not change the verdict. */
  lemma SolvableSymmetric(initial: Board, goal: Board)
    ensures Solvable(initial, goal) <==> Solvable(goal, initial)
  {
  }

  /** A board is always solvable towards itself. */
  lemma SolvableReflexive(b: Board)
    ensures Solvable(b, b)
  {
  }

  //--------------------------------------------------------------------------
  // Why the gate is sound: a move keeps the parity
  //--------------------------------------------------------------------------

  /** The "greater than" pairs between the elements of a and those of b. */
  function Cross(a: seq<int>, b: seq<int>): nat
  {
    if a == [] then 0 else Count(a[0], b) + Cross(a[1..], b)
  }

  lemma {:induction false} CountAppend(x: int, b: seq<int>, c: seq<int>)
    ensures Count(x, b + c) == Count(x, b) + Count(x, c)
  {
    if b != [] {
      assert (b + c)[1..] == b[1..] + c;
      CountAppend(x, b[1..], c);
    } else {
      assert b + c == c;
    }
  }

  lemma {:induction false} CrossAppendLeft(a: seq<int>, b: seq<int>, c: seq<int>)
    ensures Cross(a + b, c) == Cross(a, c) + Cross(b, c)
  {
    if a != [] {
      assert (a + b)[1..] == a[1..] + b;
      CrossAppendLeft(a[1..], b, c);
    } else {
      assert a + b == b;
    }
  }

  lemma {:induction false} InversionsAppend(a: seq<int>, b: seq<int>)
    ensures Inversions(a + b) == Inversions(a) + Inversions(b) + Cross(a, b)
  {
    if a != [] {
      assert (a + b)[1..] == a[1..] + b;
      CountAppend(a[0], a[1..], b);
      InversionsAppend(a[1..], b);
    } else {
      assert a + b == b;
    }
  }

  lemma {:induction false} NonBlankAppend(a: seq<int>, b: seq<int>)
    ensures NonBlank(a + b) == NonBlank(a) + NonBlank(b)
  {
    if a != [] {
      assert (a + b)[1..] == a[1..] + b;
      NonBlankAppend(a[1..], b);
    } else {
      assert a + b == b;
    }
  }

  lemma Count3(x: int, u: int, v: int, w: int)
    ensures Count(x, [u, v, w]) ==
      (if x > u then 1 else 0) + (if x > v then 1 else 0) + (if x > w then 1 else 0)
  {
    assert [u, v, w][1..] == [v, w] && [v, w][1..] == [w] && [w][1..] == [];
    assert Count(x, [w]) == (if x > w then 1 else 0) + Count(x, []);
    assert Count(x, [v, w]) == (if x > v then 1 else 0) + Count(x, [w]);
    assert Count(x, [u, v, w]) == (if x > u then 1 else 0) + Count(x, [v, w]);
  }

  lemma Inversions3(u: int, v: int, w: int)
    ensures Inversions([u, v, w]) ==
      (if u > v then 1 else 0) + (if u > w then 1 else 0) + (if v > w then 1 else 0)
  {
    assert [u, v, w][1..] == [v, w] && [v, w][1..] == [w] && [w][1..] == [];
    assert Inversions([w]) == Count(w, []) + Inversions([]);
    assert Inversions([v, w]) == Count(v, [w]) + Inversions([w]);
    assert Inversions([u, v, w]) == Count(u, [v, w]) + Inversions([v, w]);
    assert Count(v, [w]) == (if v > w then 1 else 0) + Count(v, []);
    assert Count(u, [w]) == (if u > w then 1 else 0) + Count(u, []);
    assert Count(u, [v, w]) == (if u > v then 1 else 0) + Count(u, [w]);
  }

  lemma Cross3(u: int, v: int, w: int, q: seq<int>)
    ensures Cross([u, v, w], q) == Count(u, q) + Count(v, q) + Count(w, q)
  {
    assert [u, v, w][1..] == [v, w] && [v, w][1..] == [w] && [w][1..] == [];
    assert Cross([w], q) == Count(w, q) + Cross([], q);
    assert Cross([v, w], q) == Count(v, q) + Cross([w], q);
    assert Cross([u, v, w], q) == Count(u, q) + Cross([v, w], q);
  }

  lemma {:induction false} CrossRotate(p: seq<int>, x1: int, x2: int, y: int)
    ensures Cross(p, [x1, x2, y]) == Cross(p, [y, x1, x2])
  {
    if p != [] {
      CrossRotate(p[1..], x1, x2, y);
      Count3(p[0], x1, x2, y);
      Count3(p[0], y, x1, x2);
    }
  }

  /** The inversions of three concatenated lists: those inside each list and
      those across each pair of lists. */
  lemma InversionsSplit3(p: seq<int>, m: seq<int>, q: seq<int>)
    ensures Inversions(p + m + q) ==
      Inversions(p) + Inversions(m) + Inversions(q) + Cross(p, m) + Cross(p, q) + Cross(m, q)
  {
    InversionsAppend(p + m, q);
    InversionsAppend(p, m);
    CrossAppendLeft(p, m, q);
  }

  /** Moving a tile over two others in the row-major list keeps the parity,
      provided the three are distinct. */
  lemma RotateParity(p: seq<int>, x1: int, x2: int, y: int, q: seq<int>)
    requires y != x1 && y != x2
    ensures Inversions(p + [x1, x2, y] + q) % 2 == Inversions(p + [y, x1, x2] + q) % 2
  {
    var m, m' := [x1, x2, y], [y, x1, x2];
    var common := Inversions(p) + Inversions(q) + Cross(p, m) + Cross(p, q) + Cross(m, q);
    assert Inversions(p + m + q) == common + Inversions(m) by {
      InversionsSplit3(p, m, q);
    }
    assert Inversions(p + m' + q) == common + Inversions(m') by {
      InversionsSplit3(p, m', q);
      CrossRotate(p, x1, x2, y);
      Cross3(x1, x2, y, q);
      Cross3(y, x1, x2, q);
    }
    var d := Inversions(m) - Inversions(m');
    assert d == -2 || d == 0 || d == 2 by {
      Inversions3(x1, x2, y);
      Inversions3(y, x1, x2);
    }
    ShiftByEven(common + Inversions(m'), d);
  }

  /** Adding -2, 0 or 2 keeps the parity. */
  lemma ShiftByEven(a: int, d: int)
    requires d == -2 || d == 0 || d == 2
    ensures (a + d) % 2 == a % 2
  {
  }

  lemma NonBlankCell(u: int)
    ensures NonBlank([u]) == if u == 0 then [] else [u]
  {
    assert [u][1..] == [];
  }

  lemma NonBlankCells(x1: int, x2: int, v: int)
    requires x1 != 0 && x2 != 0
    ensures NonBlank([x1, x2, v]) == [x1, x2] + (if v == 0 then [] else [v])
  {
    assert [x1, x2, v][1..] == [x2, v] && [x2, v][1..] == [v];
    NonBlankCell(v);
    assert NonBlank([x2, v]) == [x2] + NonBlank([v]);
  }

  /** The non-blank list of a board cut into four pieces. */
  lemma SplitNonBlank(a: seq<int>, u: seq<int>, m: seq<int>, z: seq<int>)
    ensures NonBlank(a + u + (m + z)) == NonBlank(a) + NonBlank(u) + (NonBlank(m) + NonBlank(z))
  {
    NonBlankAppend(a + u, m + z);
    NonBlankAppend(a, u);
    NonBlankAppend(m, z);
  }

  /** RotateParity in the shape the vertical move produces. */
  lemma RotateCase(na: seq<int>, nz: seq<int>, x1: int, x2: int, y: int)
    requires y != x1 && y != x2
    ensures Inversions(na + [] + ([x1, x2, y] + nz)) % 2 == Inversions(na + [y] + ([x1, x2] + nz)) % 2
  {
    assert na + [] + ([x1, x2, y] + nz) == na + [x1, x2, y] + nz;
    assert na + [y] + ([x1, x2] + nz) == na + [y, x1, x2] + nz;
    RotateParity(na, x1, x2, y, nz);
  }

  /** A board cut around the four cells i .. i + 3, before and after exchanging cells i and i + 3. */
  lemma CutFour(s: Board, i: nat)
    requires i + 3 < |s|
    ensures s == s[..i] + [s[i]] + ([s[i + 1], s[i + 2], s[i + 3]] + s[i + 4..])
    ensures Swap(s, i, i + 3) == s[..i] + [s[i + 3]] + ([s[i + 1], s[i + 2], s[i]] + s[i + 4..])
  {
  }

  /** Exchanging the blank with the cell three places away (a vertical move)
      keeps the parity, when the two cells passed over are tiles distinct
      from the one that moves. */
  lemma VerticalParity(s: Board, i: nat)
    requires i + 3 < |s| && (s[i] == 0) != (s[i + 3] == 0)
    requires s[i + 1] != 0 && s[i + 2] != 0
    requires s[i] != s[i + 1] && s[i] != s[i + 2] && s[i + 3] != s[i + 1] && s[i + 3] != s[i + 2]
    ensures Inversions(NonBlank(Swap(s, i, i + 3))) % 2 == Inversions(NonBlank(s)) % 2
  {
    var a, z := s[..i], s[i + 4..];
    var u, x1, x2, v := s[i], s[i + 1], s[i + 2], s[i + 3];
    var t := Swap(s, i, i + 3);
    CutFour(s, i);
    SplitNonBlank(a, [u], [x1, x2, v], z);
    SplitNonBlank(a, [v], [x1, x2, u], z);
    NonBlankCell(u);
    NonBlankCell(v);
    NonBlankCells(x1, x2, u);
    NonBlankCells(x1, x2, v);
    var na, nz := NonBlank(a), NonBlank(z);
    if u == 0 {
      assert NonBlank([u]) == [] && NonBlank([x1, x2, v]) == [x1, x2, v];
      assert NonBlank([v]) == [v] && NonBlank([x1, x2, u]) == [x1, x2];
      RotateCase(na, nz, x1, x2, v);
    } else {
      assert NonBlank([u]) == [u] && NonBlank([x1, x2, v]) == [x1, x2];
      assert NonBlank([v]) == [] && NonBlank([x1, x2, u]) == [x1, x2, u];
      RotateCase(na, nz, x1, x2, u);
    }
  }

  /** Two neighbouring cells, one of them the blank, contribute the same
      non-blank list in either order. */
  lemma NonBlankPair(u: int, v: int)
    requires u == 0 || v == 0
    ensures NonBlank([u, v]) == NonBlank([v, u])
  {
    assert [u, v][1..] == [v] && [v, u][1..] == [u];
    NonBlankCell(u);
    NonBlankCell(v);
  }

  lemma NonBlankThree(a: seq<int>, m: seq<int>, z: seq<int>)
    ensures NonBlank(a + m + z) == NonBlank(a) + NonBlank(m) + NonBlank(z)
  {
    NonBlankAppend(a + m, z);
    NonBlankAppend(a, m);
  }

  /** Exchanging two neighbouring cells, one of them the blank (a horizontal
      move), leaves the non-blank list unchanged. */
  lemma HorizontalNonBlank(s: Board, i: nat)
    requires i + 1 < |s| && (s[i] == 0 || s[i + 1] == 0)
    ensures NonBlank(Swap(s, i, i + 1)) == NonBlank(s)
  {
    var a, z := s[..i], s[i + 2..];
    var u, v := s[i], s[i + 1];
    assert s == a + [u, v] + z;
    SwapCells(s, i, i + 1);
    assert Swap(s, i, i + 1) == a + [v, u] + z;
    NonBlankThree(a, [u, v], z);
    NonBlankThree(a, [v, u], z);
    NonBlankPair(u, v);
  }

  /** A move on a board whose tiles are all distinct keeps the parity of
      the inversion count of its non-blank tiles. */
  lemma MoveKeepsParity(s: Board, t: Board)
    requires IsMove(s, t) && Distinct(s)
    ensures Inversions(NonBlank(t)) % 2 == Inversions(NonBlank(s)) % 2
  {
    var b := BlankIndex(s);
    var q :| 0 <= q < Cells && Adjacent(b, q) && t == Swap(s, b, q);
    AdjacentCases(b, q);
    SwapSymmetric(s, b, q);
    if q == b + Size {
      assert s[b + 1] != s[b] && s[b + 2] != s[b] && s[q] != s[b + 1] && s[q] != s[b + 2];
      VerticalParity(s, b);
    } else if q == b - Size {
      assert s[q + 1] != s[b] && s[q + 2] != s[b] && s[q] != s[q + 1] && s[q] != s[q + 2];
      VerticalParity(s, q);
    } else if q == b + 1 {
      HorizontalNonBlank(s, b);
    } else {
      HorizontalNonBlank(s, q);
    }
  }

  /** A move keeps the tiles of a board distinct. */
  lemma MoveKeepsDistinct(s: Board, t: Board)
    requires IsMove(s, t) && Distinct(s)
    ensures Distinct(t)
  {
    var b := BlankIndex(s);
    var q :| 0 <= q < Cells && Adjacent(b, q) && t == Swap(s, b, q);
    forall i, j | 0 <= i < j < |t| ensures t[i] != t[j] {
      var pi := if i == b then q else if i == q then b else i;
      var pj := if j == b then q else if j == q then b else j;
      assert t[i] == s[pi] && t[j] == s[pj] && pi != pj;
    }
  }

  /** Along a walk from a board with distinct tiles the parity never changes. */
  lemma {:induction false} WalkKeepsParity(p: seq<Board>, k: nat)
    requires IsWalk(p) && Distinct(p[0]) && k < |p|
    ensures Distinct(p[k])
    ensures Inversions(NonBlank(p[k])) % 2 == Inversions(NonBlank(p[0])) % 2
  {
    if k > 0 {
      WalkKeepsParity(p, k - 1);
      MoveKeepsParity(p[k - 1], p[k]);
      MoveKeepsDistinct(p[k - 1], p[k]);
    }
  }

  /** When the gate fails, no sequence of moves leads from the initial board
      (with distinct tiles) to the goal. */
  lemma UnsolvableIsUnreachable(initial: Board, goal: Board, p: seq<Board>)
    requires Distinct(initial) && !Solvable(initial, goal)
    requires IsWalk(p) && p[0] == initial
    ensures p[|p| - 1] != goal
  {
    WalkKeepsParity(p, |p| - 1);
  }
}
