/** The A* solver of the 8-puzzle (class PuzzleSolver).

    The solver is built from an initial and a goal board and keeps, besides
    them, the goal index. solve() first applies the parity gate, then runs A*
    with unit move cost and the Manhattan heuristic: it pops the least
    (f, g, board) entry, stops when that board is the goal, and otherwise
    relaxes its successors, recording a better g and a back-pointer for each
    one it improves. There is no closed set and stale entries are not
    skipped. The path is rebuilt by following the back-pointers from the goal. */
module Solver {
  import opened Board
  import opened Inversions
  import opened Manhattan
  import opened Frontier

  /** What solve() returns: a path, or one of the two failures of the source.
      OutOfFuel is the model's own: the search loop is bounded by a fuel count. */
  datatype Outcome = Solved(path: seq<Board>) | ParityMismatch | Exhausted | OutOfFuel

  /** No board occurs twice. */
  predicate NoRepeats(path: seq<Board>)
  {
    forall i, j :: 0 <= i < j < |path| ==> path[i] != path[j]
  }

  /** A solution: a walk from initial to goal that visits no board twice. */
  predicate IsSolution(path: seq<Board>, initial: Board, goal: Board)
  {
    IsWalk(path) && path[0] == initial && path[|path| - 1] == goal && NoRepeats(path)
  }

  /** path ends at current, starts at a board without back-pointer, and each
      later board's back-pointer is the board before it. */
  predicate BackChain(cameFrom: map<Board, Board>, current: Board, path: seq<Board>)
  {
    |path| >= 1 && path[|path| - 1] == current && path[0] !in cameFrom &&
    forall i :: 1 <= i < |path| ==> path[i] in cameFrom && cameFrom[path[i]] == path[i - 1]
  }

  /** Two back-pointer chains to the same board agree from their ends backwards. */
  lemma {:induction false} ChainsAgree(cameFrom: map<Board, Board>, current: Board,
                                       p: seq<Board>, p': seq<Board>, m: nat)
    requires BackChain(cameFrom, current, p) && BackChain(cameFrom, current, p')
    requires m < |p| && m < |p'|
    ensures p[|p| - 1 - m] == p'[|p'| - 1 - m]
  {
    if m > 0 {
      ChainsAgree(cameFrom, current, p, p', m - 1);
      var i, i' := |p| - m, |p'| - m;
      assert p[i] == p'[i'];
      assert cameFrom[p[i]] == p[i - 1] && cameFrom[p'[i']] == p'[i' - 1];
    }
  }

  /** The back-pointers determine the chain: there is only one. */
  lemma PathIsDetermined(cameFrom: map<Board, Board>, current: Board, p: seq<Board>, p': seq<Board>)
    requires BackChain(cameFrom, current, p) && BackChain(cameFrom, current, p')
    ensures p == p'
  {
    if |p| < |p'| {
      ChainsAgree(cameFrom, current, p, p', |p| - 1);
      assert false;
    } else if |p'| < |p| {
      ChainsAgree(cameFrom, current, p, p', |p'| - 1);
      assert false;
    }
    forall i | 0 <= i < |p| ensures p[i] == p'[i] {
      ChainsAgree(cameFrom, current, p, p', |p| - 1 - i);
    }
  }

  /** Along the back-pointers g strictly drops. */
  ghost predicate Descending(gScore: map<Board, nat>, cameFrom: map<Board, Board>)
  {
    forall x :: x in cameFrom ==> x in gScore && cameFrom[x] in gScore && gScore[cameFrom[x]] < gScore[x]
  }

  /** Some entry of the open set holds board x. */
  ghost predicate InOpen(open: seq<Entry>, x: Board)
  {
    exists e :: e in open && e.board == x
  }

  /** Every successor of x has been discovered. */
  ghost predicate Expanded(gScore: map<Board, nat>, x: Board)
  {
    |x| == Cells && 0 in x && forall y :: y in Neighbors(x) ==> y in gScore
  }

  /** Every discovered board is still open or has been expanded. */
  ghost predicate Covered(gScore: map<Board, nat>, open: seq<Entry>)
  {
    forall x {:trigger Settled(gScore, open, x)} :: x in gScore ==> Settled(gScore, open, x)
  }

  /** x is still open or has been expanded. */
  ghost predicate Settled(gScore: map<Board, nat>, open: seq<Entry>, x: Board)
  {
    InOpen(open, x) || Expanded(gScore, x)
  }

  /** The start has g 0 and no back-pointer; every other discovered board has one. */
  ghost predicate Rooted(initial: Board, gScore: map<Board, nat>, cameFrom: map<Board, Board>)
  {
    initial in gScore && gScore[initial] == 0 && initial !in cameFrom &&
    gScore.Keys == cameFrom.Keys + {initial}
  }

  /** x has a back-pointer, and it is one move away. */
  ghost predicate Linked(cameFrom: map<Board, Board>, x: Board)
  {
    x in cameFrom && IsMove(cameFrom[x], x)
  }

  /** Every back-pointer is one move away. The trigger keeps the moves out of
      sight until a proof asks about one. */
  ghost predicate MovesBack(cameFrom: map<Board, Board>)
  {
    forall x {:trigger Linked(cameFrom, x)} :: x in cameFrom ==> Linked(cameFrom, x)
  }

  /** Every discovered board has the tiles of the start. */
  ghost predicate SameTiles(initial: Board, gScore: map<Board, nat>)
  {
    forall x {:trigger Tiled(initial, x)} :: x in gScore ==> Tiled(initial, x)
  }

  /** x is a board with the tiles of the start. */
  ghost predicate Tiled(initial: Board, x: Board)
  {
    |x| == Cells && multiset(x) == multiset(initial)
  }

  /** No open entry promises less than the g recorded for its board. */
  ghost predicate Consistent(gScore: map<Board, nat>, open: seq<Entry>)
  {
    forall e :: e in open ==> e.board in gScore && gScore[e.board] <= e.g
  }

  /** What the search keeps true of its score map, back-pointers and open set. */
  ghost predicate SearchInv(initial: Board, gScore: map<Board, nat>, cameFrom: map<Board, Board>,
                            open: seq<Entry>)
  {
    Rooted(initial, gScore, cameFrom) && Descending(gScore, cameFrom) && MovesBack(cameFrom) &&
    SameTiles(initial, gScore) && Consistent(gScore, open)
  }

  /** What is left after a pop is part of the open set. */
  lemma RestInOpen(open: seq<Entry>, e: Entry, rest: seq<Entry>, x: Entry)
    requires multiset(rest) + multiset{e} == multiset(open) && x in rest
    ensures x in open
  {
    assert x in multiset(rest);
    assert x in multiset(open);
  }

  /** A pop keeps the invariant, and the popped g is at least the g recorded
      for its board (it exceeds it when the entry is stale). */
  lemma PopKeepsInv(initial: Board, gScore: map<Board, nat>, cameFrom: map<Board, Board>,
                    open: seq<Entry>, e: Entry, rest: seq<Entry>)
    requires SearchInv(initial, gScore, cameFrom, open)
    requires multiset(rest) + multiset{e} == multiset(open)
    ensures e.board in gScore && gScore[e.board] <= e.g
    ensures SearchInv(initial, gScore, cameFrom, rest)
  {
    assert e in multiset(open);
    forall x | x in rest ensures x.board in gScore && gScore[x.board] <= x.g {
      RestInOpen(open, e, rest, x);
    }
  }

  /** Relaxing a successor n of a discovered board keeps the back-pointers rooted at the start. */
  lemma RelaxKeepsRooted(initial: Board, gScore: map<Board, nat>, cameFrom: map<Board, Board>,
                         current: Board, n: Board, g: nat)
    requires Rooted(initial, gScore, cameFrom) && current in gScore && 0 < g
    ensures Rooted(initial, gScore[n := g], cameFrom[n := current]) <==> n != initial
  {
    if n != initial {
      assert gScore[n := g].Keys == cameFrom[n := current].Keys + {initial};
    }
  }

  /** A better g for n keeps g dropping along the back-pointers. */
  lemma RelaxKeepsDescending(gScore: map<Board, nat>, cameFrom: map<Board, Board>,
                             current: Board, n: Board, g: nat)
    requires Descending(gScore, cameFrom)
    requires current in gScore && current != n && gScore[current] < g
    requires n !in gScore || g < gScore[n]
    ensures Descending(gScore[n := g], cameFrom[n := current])
  {
    var gScore', cameFrom' := gScore[n := g], cameFrom[n := current];
    forall x | x in cameFrom'
      ensures x in gScore' && cameFrom'[x] in gScore' && gScore'[cameFrom'[x]] < gScore'[x]
    {
      if x != n {
        assert cameFrom'[x] == cameFrom[x] && gScore'[x] == gScore[x];
      }
    }
  }

  /** A back-pointer from a successor to its predecessor is one move long. */
  lemma RelaxKeepsMovesBack(cameFrom: map<Board, Board>, current: Board, n: Board)
    requires MovesBack(cameFrom) && IsMove(current, n)
    ensures MovesBack(cameFrom[n := current])
  {
    var cameFrom' := cameFrom[n := current];
    forall x | x in cameFrom' ensures Linked(cameFrom', x) {
      if x != n {
        assert Linked(cameFrom, x);
      }
    }
  }

  /** A successor of a discovered board has the tiles of the start. */
  lemma RelaxKeepsSameTiles(initial: Board, gScore: map<Board, nat>, current: Board, n: Board, g: nat)
    requires SameTiles(initial, gScore) && current in gScore && IsMove(current, n)
    ensures SameTiles(initial, gScore[n := g])
  {
    MoveShape(current, n);
    assert Tiled(initial, current);
    forall x | x in gScore[n := g] ensures Tiled(initial, x) {
      if x != n {
        assert Tiled(initial, x);
      }
    }
  }

  /** A better g for n together with its new entry keeps the open set consistent. */
  lemma RelaxKeepsConsistent(gScore: map<Board, nat>, open: seq<Entry>, n: Board, g: nat, f: int)
    requires Consistent(gScore, open)
    requires n !in gScore || g < gScore[n]
    ensures Consistent(gScore[n := g], open + [Entry(f, g, n)])
  {
    var gScore', open' := gScore[n := g], open + [Entry(f, g, n)];
    forall e | e in open' ensures e.board in gScore' && gScore'[e.board] <= e.g {
      if e in open {
        assert e.board in gScore;
      }
    }
  }

  /** Recording a better g and a back-pointer for a successor, and pushing its
      entry, keeps the invariant. */
  lemma RelaxKeepsInv(initial: Board, gScore: map<Board, nat>, cameFrom: map<Board, Board>,
                      open: seq<Entry>, current: Board, n: Board, g: nat, f: int)
    requires SearchInv(initial, gScore, cameFrom, open)
    requires current in gScore && gScore[current] < g
    requires IsMove(current, n)
    requires n !in gScore || g < gScore[n]
    ensures SearchInv(initial, gScore[n := g], cameFrom[n := current], open + [Entry(f, g, n)])
  {
    RelaxKeepsRooted(initial, gScore, cameFrom, current, n, g);
    RelaxKeepsDescending(gScore, cameFrom, current, n, g);
    RelaxKeepsMovesBack(cameFrom, current, n);
    RelaxKeepsSameTiles(initial, gScore, current, n, g);
    RelaxKeepsConsistent(gScore, open, n, g, f);
  }

  /** What relaxing the successors of current keeps, relative to the state
      gScore0, open0 before the first of them. */
  ghost predicate RelaxInv(initial: Board, current: Board, currentG: nat,
                           gScore0: map<Board, nat>, open0: seq<Entry>,
                           gScore: map<Board, nat>, cameFrom: map<Board, Board>, open: seq<Entry>)
  {
    SearchInv(initial, gScore, cameFrom, open) && gScore0.Keys <= gScore.Keys &&
    current in gScore && gScore[current] <= currentG &&
    (forall e :: e in open0 ==> e in open) &&
    (forall x :: x in gScore && x !in gScore0 ==> InOpen(open, x))
  }

  /** Relaxing one more successor keeps RelaxInv. */
  lemma RelaxKeepsRelaxInv(initial: Board, current: Board, currentG: nat,
                           gScore0: map<Board, nat>, open0: seq<Entry>,
                           gScore: map<Board, nat>, cameFrom: map<Board, Board>, open: seq<Entry>,
                           n: Board, f: int)
    requires RelaxInv(initial, current, currentG, gScore0, open0, gScore, cameFrom, open)
    requires IsMove(current, n) && (n !in gScore || currentG + 1 < gScore[n])
    ensures RelaxInv(initial, current, currentG, gScore0, open0,
                     gScore[n := currentG + 1], cameFrom[n := current], open + [Entry(f, currentG + 1, n)])
  {
    RelaxKeepsInv(initial, gScore, cameFrom, open, current, n, currentG + 1, f);
    var open' := open + [Entry(f, currentG + 1, n)];
    assert open'[|open'| - 1] in open';
    forall x | InOpen(open, x) ensures InOpen(open', x) {
      var e :| e in open && e.board == x;
      assert e in open';
    }
  }

  /** Relaxing successor y of a board popped with g currentG improves on the
      recorded score: y has none yet, or a larger one than currentG + 1. */
  predicate Improves(gScore: map<Board, nat>, currentG: nat, y: Board)
  {
    y !in gScore || currentG + 1 < gScore[y]
  }

  /** Every entry's f is its g plus the heuristic of its board. */
  ghost predicate Scored(pos: map<int, Cell>, open: seq<Entry>)
  {
    forall e :: e in open ==> Known(pos, e.board) && e.f == e.g + Manhattan.Manhattan(pos, e.board)
  }

  /** The entries the relaxation of the successors ns pushes, measured against
      the scores gScore0 before the first of them: one for each successor that
      improves on its score, at its first occurrence, with g = currentG + 1 and
      f = g + heuristic. */
  function Pushes(pos: map<int, Cell>, currentG: nat, gScore0: map<Board, nat>, ns: seq<Board>): (r: seq<Entry>)
    requires forall y :: y in ns ==> Known(pos, y)
    ensures |r| <= |ns|
  {
    if ns == [] then []
    else
      var p, y := ns[..|ns| - 1], ns[|ns| - 1];
      assert forall x :: x in p ==> x in ns;
      Pushes(pos, currentG, gScore0, p) +
      (if Improves(gScore0, currentG, y) && y !in p
       then [Entry(currentG + 1 + Manhattan.Manhattan(pos, y), currentG + 1, y)] else [])
  }

  /** Every pushed entry is scored. */
  lemma {:induction false} PushesScored(pos: map<int, Cell>, currentG: nat, gScore0: map<Board, nat>, ns: seq<Board>)
    requires forall y :: y in ns ==> Known(pos, y)
    ensures Scored(pos, Pushes(pos, currentG, gScore0, ns))
  {
    if ns != [] {
      var p := ns[..|ns| - 1];
      assert forall x :: x in p ==> x in ns;
      PushesScored(pos, currentG, gScore0, p);
    }
  }

  /** Every pushed entry belongs to a successor that improves on its score,
      and carries g = currentG + 1. */
  lemma {:induction false} PushesImprove(pos: map<int, Cell>, currentG: nat, gScore0: map<Board, nat>, ns: seq<Board>)
    requires forall y :: y in ns ==> Known(pos, y)
    ensures forall e :: e in Pushes(pos, currentG, gScore0, ns) ==>
      e.board in ns && Improves(gScore0, currentG, e.board) && e.g == currentG + 1
  {
    if ns != [] {
      var p := ns[..|ns| - 1];
      assert forall x :: x in p ==> x in ns;
      PushesImprove(pos, currentG, gScore0, p);
    }
  }

  /** Every successor that improves on its score is pushed. */
  lemma {:induction false} PushesComplete(pos: map<int, Cell>, currentG: nat, gScore0: map<Board, nat>, ns: seq<Board>)
    requires forall y :: y in ns ==> Known(pos, y)
    ensures forall y :: y in ns && Improves(gScore0, currentG, y) ==> InOpen(Pushes(pos, currentG, gScore0, ns), y)
  {
    if ns != [] {
      var p, y := ns[..|ns| - 1], ns[|ns| - 1];
      assert forall x :: x in ns <==> x in p || x == y by {
        assert ns == p + [y];
      }
      PushesComplete(pos, currentG, gScore0, p);
      var r, rp := Pushes(pos, currentG, gScore0, ns), Pushes(pos, currentG, gScore0, p);
      forall x | x in p && Improves(gScore0, currentG, x) ensures InOpen(r, x) {
        var e :| e in rp && e.board == x;
        assert e in r;
      }
      if Improves(gScore0, currentG, y) && y !in p {
        assert r[|r| - 1] in r;
      }
    }
  }

  /** The scores after relaxing the successors ns, against gScore0 before the
      first of them: each successor ends with the smaller of its old score and
      currentG + 1, and every other board keeps its score. */
  ghost predicate ScoresRelaxed(currentG: nat, ns: seq<Board>, gScore0: map<Board, nat>, gScore: map<Board, nat>)
  {
    (forall y :: y in ns ==>
       y in gScore && gScore[y] == (if Improves(gScore0, currentG, y) then currentG + 1 else gScore0[y])) &&
    (forall x :: x in gScore ==> x in gScore0 || x in ns) &&
    (forall x :: x in gScore0 && x !in ns ==> x in gScore && gScore[x] == gScore0[x])
  }

  /** The back-pointers after relaxing the successors ns of current, against
      gScore0 and cameFrom0 before the first of them: each successor that
      improved on its score points back to current, and every other board keeps
      its back-pointer. */
  ghost predicate PointersRelaxed(current: Board, currentG: nat, ns: seq<Board>, gScore0: map<Board, nat>,
                                  cameFrom0: map<Board, Board>, cameFrom: map<Board, Board>)
  {
    (forall y :: y in ns && Improves(gScore0, currentG, y) ==> y in cameFrom && cameFrom[y] == current) &&
    (forall x :: x in cameFrom ==> x in cameFrom0 || (x in ns && Improves(gScore0, currentG, x))) &&
    (forall x :: x in cameFrom0 && !(x in ns && Improves(gScore0, currentG, x)) ==>
       x in cameFrom && cameFrom[x] == cameFrom0[x])
  }

  /** The scores and back-pointers after relaxing the successors ns of current. */
  ghost predicate Relaxed(current: Board, currentG: nat, ns: seq<Board>,
                          gScore0: map<Board, nat>, cameFrom0: map<Board, Board>,
                          gScore: map<Board, nat>, cameFrom: map<Board, Board>)
  {
    ScoresRelaxed(currentG, ns, gScore0, gScore) && PointersRelaxed(current, currentG, ns, gScore0, cameFrom0, cameFrom)
  }

  /** Relaxing one more successor y: the score test of the loop is the test
      against the scores before the first successor, for a y not seen yet. */
  lemma ScoreTest(currentG: nat, ns: seq<Board>, y: Board, gScore0: map<Board, nat>, gScore: map<Board, nat>)
    requires ScoresRelaxed(currentG, ns, gScore0, gScore)
    ensures Improves(gScore, currentG, y) <==> Improves(gScore0, currentG, y) && y !in ns
  {
    if y !in ns {
      assert y in gScore0 ==> y in gScore && gScore[y] == gScore0[y];
    }
  }

  /** Recording currentG + 1 for an improving successor y keeps ScoresRelaxed. */
  lemma ScoresImproved(currentG: nat, ns: seq<Board>, y: Board, gScore0: map<Board, nat>, gScore: map<Board, nat>)
    requires ScoresRelaxed(currentG, ns, gScore0, gScore)
    requires Improves(gScore0, currentG, y) && y !in ns
    ensures ScoresRelaxed(currentG, ns + [y], gScore0, gScore[y := currentG + 1])
  {
    assert forall x :: x in ns + [y] <==> x in ns || x == y;
  }

  /** Leaving the scores alone for a successor y that does not improve keeps ScoresRelaxed. */
  lemma ScoresKept(currentG: nat, ns: seq<Board>, y: Board, gScore0: map<Board, nat>, gScore: map<Board, nat>)
    requires ScoresRelaxed(currentG, ns, gScore0, gScore)
    requires !(Improves(gScore0, currentG, y) && y !in ns)
    ensures ScoresRelaxed(currentG, ns + [y], gScore0, gScore)
  {
    assert forall x :: x in ns + [y] <==> x in ns || x == y;
    if y !in ns {
      assert y in gScore0 && y in gScore && gScore[y] == gScore0[y];
    }
  }

  /** One more successor y keeps PointersRelaxed: an improving one gets its
      back-pointer to current, any other leaves the back-pointers alone. */
  lemma PointersStep(current: Board, currentG: nat, ns: seq<Board>, y: Board, gScore0: map<Board, nat>,
                     cameFrom0: map<Board, Board>, cameFrom: map<Board, Board>)
    requires PointersRelaxed(current, currentG, ns, gScore0, cameFrom0, cameFrom)
    ensures Improves(gScore0, currentG, y) && y !in ns ==>
      PointersRelaxed(current, currentG, ns + [y], gScore0, cameFrom0, cameFrom[y := current])
    ensures !(Improves(gScore0, currentG, y) && y !in ns) ==>
      PointersRelaxed(current, currentG, ns + [y], gScore0, cameFrom0, cameFrom)
  {
    assert forall x :: x in ns + [y] <==> x in ns || x == y;
  }

  /** One more successor adds at most its own entry to the pushes. */
  lemma PushesSnoc(pos: map<int, Cell>, currentG: nat, gScore0: map<Board, nat>, ns: seq<Board>, y: Board)
    requires forall x :: x in ns + [y] ==> Known(pos, x)
    ensures Pushes(pos, currentG, gScore0, ns + [y]) ==
      Pushes(pos, currentG, gScore0, ns) +
      (if Improves(gScore0, currentG, y) && y !in ns
       then [Entry(currentG + 1 + Manhattan.Manhattan(pos, y), currentG + 1, y)] else [])
  {
    assert (ns + [y])[..|ns|] == ns;
  }

  /** What the relaxation loop keeps after the successors ns of current:
      the invariant, the scores and back-pointers Relaxed describes, and the
      open set extended by exactly the pushes. */
  ghost predicate ExpandInv(initial: Board, pos: map<int, Cell>, current: Board, currentG: nat, ns: seq<Board>,
                            gScore0: map<Board, nat>, cameFrom0: map<Board, Board>, open0: seq<Entry>,
                            gScore: map<Board, nat>, cameFrom: map<Board, Board>, open: seq<Entry>)
  {
    (forall y :: y in ns ==> Known(pos, y)) &&
    RelaxInv(initial, current, currentG, gScore0, open0, gScore, cameFrom, open) &&
    Relaxed(current, currentG, ns, gScore0, cameFrom0, gScore, cameFrom) &&
    open == open0 + Pushes(pos, currentG, gScore0, ns)
  }

  /** Before the first successor, ExpandInv holds of the unchanged state. */
  lemma ExpandStarts(initial: Board, pos: map<int, Cell>, current: Board, currentG: nat,
                     gScore0: map<Board, nat>, cameFrom0: map<Board, Board>, open0: seq<Entry>)
    requires SearchInv(initial, gScore0, cameFrom0, open0)
    requires current in gScore0 && gScore0[current] <= currentG
    ensures ExpandInv(initial, pos, current, currentG, [], gScore0, cameFrom0, open0, gScore0, cameFrom0, open0)
  {
    assert open0 + [] == open0;
  }

  /** Pushing the entry of an improving successor y not seen before extends
      the open set by exactly its push. */
  lemma OpenGrows(pos: map<int, Cell>, currentG: nat, gScore0: map<Board, nat>, ns: seq<Board>, y: Board,
                  open0: seq<Entry>, open: seq<Entry>, f: int)
    requires forall x :: x in ns + [y] ==> Known(pos, x)
    requires open == open0 + Pushes(pos, currentG, gScore0, ns)
    requires Improves(gScore0, currentG, y) && y !in ns && f == currentG + 1 + Manhattan.Manhattan(pos, y)
    ensures open + [Entry(f, currentG + 1, y)] == open0 + Pushes(pos, currentG, gScore0, ns + [y])
  {
    PushesSnoc(pos, currentG, gScore0, ns, y);
    assert open + [Entry(f, currentG + 1, y)] ==
      open0 + (Pushes(pos, currentG, gScore0, ns) + [Entry(f, currentG + 1, y)]);
  }

  /** Relaxing an improving successor y keeps ExpandInv. */
  lemma ExpandImproves(initial: Board, pos: map<int, Cell>, current: Board, currentG: nat, ns: seq<Board>,
                       gScore0: map<Board, nat>, cameFrom0: map<Board, Board>, open0: seq<Entry>,
                       gScore: map<Board, nat>, cameFrom: map<Board, Board>, open: seq<Entry>,
                       y: Board, f: int)
    requires ExpandInv(initial, pos, current, currentG, ns, gScore0, cameFrom0, open0, gScore, cameFrom, open)
    requires IsMove(current, y) && Known(pos, y) && f == currentG + 1 + Manhattan.Manhattan(pos, y)
    requires Improves(gScore, currentG, y)
    ensures ExpandInv(initial, pos, current, currentG, ns + [y], gScore0, cameFrom0, open0,
                      gScore[y := currentG + 1], cameFrom[y := current], open + [Entry(f, currentG + 1, y)])
  {
    ScoreTest(currentG, ns, y, gScore0, gScore);
    ScoresImproved(currentG, ns, y, gScore0, gScore);
    PointersStep(current, currentG, ns, y, gScore0, cameFrom0, cameFrom);
    OpenGrows(pos, currentG, gScore0, ns, y, open0, open, f);
    RelaxKeepsRelaxInv(initial, current, currentG, gScore0, open0, gScore, cameFrom, open, y, f);
  }

  /** Passing over a successor y that does not improve keeps ExpandInv. */
  lemma ExpandSkips(initial: Board, pos: map<int, Cell>, current: Board, currentG: nat, ns: seq<Board>,
                    gScore0: map<Board, nat>, cameFrom0: map<Board, Board>, open0: seq<Entry>,
                    gScore: map<Board, nat>, cameFrom: map<Board, Board>, open: seq<Entry>,
                    y: Board)
    requires ExpandInv(initial, pos, current, currentG, ns, gScore0, cameFrom0, open0, gScore, cameFrom, open)
    requires Known(pos, y) && !Improves(gScore, currentG, y)
    ensures ExpandInv(initial, pos, current, currentG, ns + [y], gScore0, cameFrom0, open0, gScore, cameFrom, open)
  {
    ScoreTest(currentG, ns, y, gScore0, gScore);
    ScoresKept(currentG, ns, y, gScore0, gScore);
    PointersStep(current, currentG, ns, y, gScore0, cameFrom0, cameFrom);
    PushesSnoc(pos, currentG, gScore0, ns, y);
  }

  /** What is left after a pop, followed by scored entries, is scored. */
  lemma PushKeepsScored(pos: map<int, Cell>, open: seq<Entry>, e: Entry, rest: seq<Entry>, pushed: seq<Entry>)
    requires Scored(pos, open) && Scored(pos, pushed)
    requires multiset(rest) + multiset{e} == multiset(open)
    ensures Scored(pos, rest + pushed)
  {
    forall x | x in rest + pushed ensures Known(pos, x.board) && x.f == x.g + Manhattan.Manhattan(pos, x.board) {
      if x in rest {
        RestInOpen(open, e, rest, x);
      }
    }
  }

  /** A successor of a discovered board is a full board whose tiles have goal cells. */
  lemma SuccessorKnown(initial: Board, pos: map<int, Cell>, gScore: map<Board, nat>, current: Board, n: Board)
    requires SameTiles(initial, gScore) && current in gScore && IsMove(current, n) && Known(pos, initial)
    ensures |n| == Cells && Known(pos, n)
  {
    assert Tiled(initial, current);
    MoveShape(current, n);
    SameTilesKnown(pos, initial, n);
  }

  /** All successors of a discovered board are full boards whose tiles have goal cells. */
  lemma SuccessorsKnown(initial: Board, pos: map<int, Cell>, gScore: map<Board, nat>, current: Board, ns: seq<Board>)
    requires SameTiles(initial, gScore) && current in gScore && Known(pos, initial)
    requires forall y :: y in ns ==> IsMove(current, y)
    ensures forall y :: y in ns ==> |y| == Cells && Known(pos, y)
  {
    forall y | y in ns ensures |y| == Cells && Known(pos, y) {
      SuccessorKnown(initial, pos, gScore, current, y);
    }
  }

  /** After a pop and the expansion of the popped board, every discovered board
      is still open or expanded, and every other open board is still open. */
  lemma ExpandKeepsCoverage(gScore0: map<Board, nat>, open0: seq<Entry>, e: Entry, rest: seq<Entry>,
                            gScore: map<Board, nat>, open: seq<Entry>)
    requires Covered(gScore0, open0)
    requires multiset(rest) + multiset{e} == multiset(open0)
    requires gScore0.Keys <= gScore.Keys
    requires Expanded(gScore, e.board)
    requires forall x :: x in rest ==> x in open
    requires forall x :: x in gScore && x !in gScore0 ==> InOpen(open, x)
    ensures Covered(gScore, open)
    ensures forall x :: InOpen(open0, x) && x != e.board ==> InOpen(open, x)
  {
    forall x | InOpen(open0, x) && x != e.board ensures InOpen(open, x) {
      var y :| y in open0 && y.board == x;
      assert y in multiset(open0);
      assert y in multiset(rest);
      assert y in open;
    }
    forall x | x in gScore ensures Settled(gScore, open, x) {
      if x in gScore0 && x != e.board && !InOpen(open0, x) {
        assert Settled(gScore0, open0, x);
      }
    }
  }

  /** What the search loop keeps: the invariant, coverage, and an open entry
      for the goal as soon as the goal is discovered. */
  ghost predicate Progress(initial: Board, goal: Board, gScore: map<Board, nat>,
                           cameFrom: map<Board, Board>, open: seq<Entry>)
  {
    SearchInv(initial, gScore, cameFrom, open) && Covered(gScore, open) &&
    (goal in gScore ==> InOpen(open, goal))
  }

  /** Popping a board other than the goal and expanding it keeps the loop's progress. */
  lemma StepKeepsProgress(initial: Board, goal: Board, gScore0: map<Board, nat>,
                          cameFrom0: map<Board, Board>, open0: seq<Entry>, e: Entry, rest: seq<Entry>,
                          neighbors: seq<Board>,
                          gScore: map<Board, nat>, cameFrom: map<Board, Board>, open: seq<Entry>)
    requires Progress(initial, goal, gScore0, cameFrom0, open0)
    requires multiset(rest) + multiset{e} == multiset(open0) && e.board != goal
    requires |e.board| == Cells && 0 in e.board && neighbors == Neighbors(e.board)
    requires SearchInv(initial, gScore, cameFrom, open)
    requires gScore0.Keys <= gScore.Keys && forall y :: y in neighbors ==> y in gScore
    requires forall x :: x in rest ==> x in open
    requires forall x :: x in gScore && x !in gScore0 ==> InOpen(open, x)
    ensures Progress(initial, goal, gScore, cameFrom, open)
  {
    assert Expanded(gScore, e.board);
    ExpandKeepsCoverage(gScore0, open0, e, rest, gScore, open);
  }

  /** The chain of back-pointers from a discovered board is a walk from the
      start without repeated boards. */
  lemma ChainIsWalk(initial: Board, gScore: map<Board, nat>, cameFrom: map<Board, Board>,
                    open: seq<Entry>, current: Board, path: seq<Board>)
    requires SearchInv(initial, gScore, cameFrom, open)
    requires BackChain(cameFrom, current, path)
    requires forall i :: 0 <= i < |path| ==> path[i] in gScore
    requires forall i, j :: 0 <= i < j < |path| ==> gScore[path[i]] < gScore[path[j]]
    ensures IsWalk(path) && path[0] == initial && path[|path| - 1] == current && NoRepeats(path)
  {
    assert path[0] in gScore;
    forall i | 0 <= i < |path| - 1 ensures IsMove(path[i], path[i + 1]) {
      assert Linked(cameFrom, path[i + 1]);
    }
  }

  /** When the goal is popped, the chain of back-pointers is a solution: a walk
      from the start to the goal with no repeated board, no shorter than the
      Manhattan distance, and just the start when no back-pointer exists yet. */
  lemma FoundGoal(initial: Board, goal: Board, gScore: map<Board, nat>, cameFrom: map<Board, Board>,
                  open: seq<Entry>, path: seq<Board>)
    requires |goal| == Cells && Known(GoalIndex(goal), initial)
    requires SearchInv(initial, gScore, cameFrom, open)
    requires BackChain(cameFrom, goal, path)
    requires forall i :: 0 <= i < |path| ==> path[i] in gScore
    requires forall i, j :: 0 <= i < j < |path| ==> gScore[path[i]] < gScore[path[j]]
    ensures IsSolution(path, initial, goal)
    ensures Distinct(goal) && SingleBlank(initial) ==>
      |path| - 1 >= Manhattan.Manhattan(GoalIndex(goal), initial)
    ensures cameFrom == map[] ==> path == [goal]
  {
    ChainIsWalk(initial, gScore, cameFrom, open, goal, path);
    if Distinct(goal) && SingleBlank(initial) {
      Admissible(goal, path);
    }
    if cameFrom == map[] {
      PathIsDetermined(cameFrom, goal, path, [goal]);
    }
  }

  /** A board with the tiles of the start holding a blank holds a blank. */
  lemma MultisetKeepsBlank(s: Board, t: Board)
    requires 0 in s && multiset(s) == multiset(t)
    ensures 0 in t
  {
    assert 0 in multiset(s);
  }

  /** A board whose tiles are those of a board with known goal cells has known goal cells too. */
  lemma SameTilesKnown(pos: map<int, Cell>, s: Board, t: Board)
    requires multiset(s) == multiset(t) && Known(pos, s)
    ensures Known(pos, t)
  {
    forall x | x in t && x != 0 ensures x in pos {
      assert x in multiset(t);
      assert x in s;
    }
  }

  /** Once every discovered board is expanded, every walk from a discovered board stays among them. */
  lemma {:induction false} ClosedSetTrapsWalks(gScore: map<Board, nat>, p: seq<Board>, k: nat)
    requires IsWalk(p) && p[0] in gScore && k < |p|
    requires forall x :: x in gScore ==> Expanded(gScore, x)
    ensures p[k] in gScore
  {
    if k > 0 {
      ClosedSetTrapsWalks(gScore, p, k - 1);
      NeighborsAreMoves(p[k - 1], p[k]);
    }
  }

  /** An empty open set means the goal cannot be reached from the start. */
  lemma EmptyOpenTrapsWalks(initial: Board, goal: Board, gScore: map<Board, nat>,
                            cameFrom: map<Board, Board>, open: seq<Entry>)
    requires Progress(initial, goal, gScore, cameFrom, open) && open == []
    ensures forall p :: IsWalk(p) && p[0] == initial ==> p[|p| - 1] != goal
  {
    forall x | x in gScore ensures Expanded(gScore, x) {
      assert Settled(gScore, open, x);
    }
    forall p | IsWalk(p) && p[0] == initial ensures p[|p| - 1] != goal {
      ClosedSetTrapsWalks(gScore, p, |p| - 1);
    }
  }

  class PuzzleSolver {
    const initial: Board
    const goal: Board
    /** The goal index, computed once by the constructor. */
    const goalPos: map<int, Cell>

    ghost predicate Valid()
    {
      |initial| == Cells && |goal| == Cells && goalPos == GoalIndex(goal)
    }

    constructor (initialState: Board, goalState: Board)
      requires |initialState| == Cells && |goalState| == Cells
      ensures initial == initialState && goal == goalState && Valid()
    {
      initial := initialState;
      goal := goalState;
      var positions := GoalPositions(goalState);
      goalPos := positions;
    }

    /** _get_goal_positions: every non-blank tile of the goal mapped to its cell. */
    static method GoalPositions(goal: Board) returns (positions: map<int, Cell>)
      requires |goal| == Cells
      ensures positions == GoalIndex(goal)
      ensures forall t :: t in positions <==> t != 0 && t in goal
    {
      positions := map[];
      for r := 0 to Size
        invariant positions == GoalIndexUpTo(goal, r * Size)
      {
        for c := 0 to Size
          invariant positions == GoalIndexUpTo(goal, r * Size + c)
        {
          var tile := goal[Index(r, c)];
          assert Index(r, c) == r * Size + c && CellOf(Index(r, c)) == (r, c);
          if tile != 0 {
            positions := positions[tile := (r, c)];
          }
        }
      }
      GoalIndexSpec(goal);
    }

    /** _count_inversions: the nested loops over the non-blank tiles. */
    method CountInversions(state: Board) returns (inversions: nat)
      ensures inversions == Inversions.Inversions(NonBlank(state))
    {
      var flat := NonBlank(state);
      inversions := 0;
      for i := 0 to |flat|
        invariant inversions + Inversions.Inversions(flat[i..]) == Inversions.Inversions(flat)
      {
        InversionsFrom(flat, i);
        for j := i + 1 to |flat|
          invariant inversions + Count(flat[i], flat[j..]) + Inversions.Inversions(flat[i + 1..]) == Inversions.Inversions(flat)
        {
          CountFrom(flat[i], flat, j);
          if flat[i] > flat[j] {
            inversions := inversions + 1;
          }
        }
        assert flat[|flat|..] == [];
      }
      assert flat[|flat|..] == [];
    }

    /** is_solvable: the two inversion counts have the same parity. */
    method IsSolvable() returns (solvable: bool)
      ensures solvable == Solvable(initial, goal)
    {
      var initialInversions := CountInversions(initial);
      var goalInversions := CountInversions(goal);
      solvable := initialInversions % 2 == goalInversions % 2;
    }

    /** calculate_manhattan_distance: the loop accumulating the tiles' offsets. */
    method ManhattanDistance(state: Board) returns (distance: int)
      requires Valid() && |state| == Cells && Known(goalPos, state)
      ensures distance == Manhattan.Manhattan(goalPos, state)
    {
      distance := 0;
      for r := 0 to Size
        invariant distance == ManhattanUpTo(goalPos, state, r * Size)
      {
        for c := 0 to Size
          invariant distance == ManhattanUpTo(goalPos, state, r * Size + c)
        {
          var tile := state[Index(r, c)];
          assert Index(r, c) == r * Size + c && Row(Index(r, c)) == r && Col(Index(r, c)) == c;
          if tile != 0 {
            assert tile in state;
            var (goalR, goalC) := goalPos[tile];
            distance := distance + Abs(r - goalR) + Abs(c - goalC);
          }
        }
      }
    }

    /** get_neighbors: for each in-bounds candidate, a copy of the board with
        the blank and that cell swapped. */
    method GetNeighbors(state: Board) returns (neighbors: seq<Board>)
      requires |state| == Cells && 0 in state
      ensures neighbors == Neighbors(state)
      ensures forall t :: t in neighbors <==> IsMove(state, t)
    {
      neighbors := [];
      var blank := BlankIndex(state);
      var r, c := Row(blank), Col(blank);
      var moves := Moves(r, c);
      for k := 0 to |moves|
        invariant neighbors == NeighborsVia(state, blank, moves[..k])
      {
        assert moves[..k + 1][..k] == moves[..k];
        var (moveR, moveC) := moves[k];
        if 0 <= moveR < Size && 0 <= moveC < Size {
          var target := Index(moveR, moveC);
          var cells := new int[Cells];
          forall i | 0 <= i < Cells {
            cells[i] := state[i];
          }
          cells[blank], cells[target] := cells[target], cells[blank];
          assert cells[..] == Swap(state, blank, target);
          neighbors := neighbors + [cells[..]];
        }
      }
      assert moves[..|moves|] == moves;
      forall t ensures t in neighbors <==> IsMove(state, t) {
        NeighborsAreMoves(state, t);
      }
    }

    /** _reconstruct_path: follow the back-pointers from current, then reverse.
        The walk ends because g strictly drops along the back-pointers. */
    method ReconstructPath(cameFrom: map<Board, Board>, current: Board, ghost gScore: map<Board, nat>)
      returns (path: seq<Board>)
      requires current in gScore && Descending(gScore, cameFrom)
      ensures BackChain(cameFrom, current, path)
      ensures forall i :: 0 <= i < |path| ==> path[i] in gScore
      ensures forall i, j :: 0 <= i < j < |path| ==> gScore[path[i]] < gScore[path[j]]
    {
      var node := current;
      var reversed := [node];
      while node in cameFrom
        invariant |reversed| >= 1 && reversed[0] == current && reversed[|reversed| - 1] == node
        invariant forall i :: 0 <= i < |reversed| ==> reversed[i] in gScore
        invariant forall i :: 0 <= i < |reversed| - 1 ==>
          reversed[i] in cameFrom && cameFrom[reversed[i]] == reversed[i + 1]
        invariant forall i, j :: 0 <= i < j < |reversed| ==> gScore[reversed[j]] < gScore[reversed[i]]
        decreases gScore[node]
      {
        node := cameFrom[node];
        reversed := reversed + [node];
      }
      path := seq(|reversed|, i requires 0 <= i < |reversed| => reversed[|reversed| - 1 - i]);
    }

    /** The relaxation step of solve: for each successor of the popped board,
        a smaller g than the recorded one (or a first g) is recorded with a
        back-pointer to the popped board and pushed with f = g + heuristic. */
    method ExpandNeighbors(current: Board, currentG: nat, neighbors: seq<Board>,
                           gScore0: map<Board, nat>, cameFrom0: map<Board, Board>, open0: seq<Entry>)
      returns (gScore: map<Board, nat>, cameFrom: map<Board, Board>, open: seq<Entry>)
      requires Valid() && Known(goalPos, initial)
      requires SearchInv(initial, gScore0, cameFrom0, open0)
      requires current in gScore0 && gScore0[current] <= currentG
      requires forall y :: y in neighbors ==> IsMove(current, y)
      ensures forall y :: y in neighbors ==> Known(goalPos, y)
      ensures Relaxed(current, currentG, neighbors, gScore0, cameFrom0, gScore, cameFrom)
      ensures open == open0 + Pushes(goalPos, currentG, gScore0, neighbors)
      ensures SearchInv(initial, gScore, cameFrom, open)
      ensures forall x :: x in gScore && x !in gScore0 ==> InOpen(open, x)
    {
      SuccessorsKnown(initial, goalPos, gScore0, current, neighbors);
      ExpandStarts(initial, goalPos, current, currentG, gScore0, cameFrom0, open0);
      gScore, cameFrom, open := gScore0, cameFrom0, open0;
      for k := 0 to |neighbors|
        invariant forall y :: y in neighbors ==> |y| == Cells && Known(goalPos, y)
        invariant ExpandInv(initial, goalPos, current, currentG, neighbors[..k],
                            gScore0, cameFrom0, open0, gScore, cameFrom, open)
      {
        var neighbor := neighbors[k];
        assert neighbors[..k + 1] == neighbors[..k] + [neighbor];
        var tentativeG := currentG + 1;
        if neighbor !in gScore || tentativeG < gScore[neighbor] {
          var h := ManhattanDistance(neighbor);
          var f := tentativeG + h;
          ExpandImproves(initial, goalPos, current, currentG, neighbors[..k], gScore0, cameFrom0, open0,
                         gScore, cameFrom, open, neighbor, f);
          cameFrom := cameFrom[neighbor := current];
          gScore := gScore[neighbor := tentativeG];
          open := open + [Entry(f, tentativeG, neighbor)];
        } else {
          ExpandSkips(initial, goalPos, current, currentG, neighbors[..k], gScore0, cameFrom0, open0,
                      gScore, cameFrom, open, neighbor);
        }
      }
      assert neighbors[..|neighbors|] == neighbors;
    }

    /** solve: the parity gate, then the search. */
    method Solve(fuel: nat) returns (outcome: Outcome)
      requires Valid()
      requires Solvable(initial, goal) ==>
        (forall t :: t in initial && t != 0 ==> t in goal) && (0 in initial || initial == goal)
      ensures outcome.ParityMismatch? <==> !Solvable(initial, goal)
      ensures outcome.ParityMismatch? && Distinct(initial) ==>
        forall p :: IsWalk(p) && p[0] == initial ==> p[|p| - 1] != goal
      ensures outcome.Solved? ==> IsSolution(outcome.path, initial, goal)
      ensures outcome.Solved? && Distinct(goal) && SingleBlank(initial) ==>
        Known(goalPos, initial) && |outcome.path| - 1 >= Manhattan.Manhattan(goalPos, initial)
      ensures outcome.Exhausted? ==>
        forall p :: IsWalk(p) && p[0] == initial ==> p[|p| - 1] != goal
      ensures initial == goal && fuel > 0 ==> outcome == Solved([initial])
    {
      var solvable := IsSolvable();
      if !solvable {
        forall p | IsWalk(p) && p[0] == initial && Distinct(initial)
          ensures p[|p| - 1] != goal
        {
          UnsolvableIsUnreachable(initial, goal, p);
        }
        return ParityMismatch;
      }
      KnownFromGoal(goal, initial);
      outcome := Search(fuel);
    }

    /** The A* loop of solve: pop the least entry, stop at the goal, otherwise
        expand; report exhaustion when the open set runs empty. */
    method Search(fuel: nat) returns (outcome: Outcome)
      requires Valid() && Known(goalPos, initial) && (0 in initial || initial == goal)
      ensures !outcome.ParityMismatch?
      ensures outcome.Solved? ==> IsSolution(outcome.path, initial, goal)
      ensures outcome.Solved? && Distinct(goal) && SingleBlank(initial) ==>
        |outcome.path| - 1 >= Manhattan.Manhattan(goalPos, initial)
      ensures outcome.Exhausted? ==>
        forall p :: IsWalk(p) && p[0] == initial ==> p[|p| - 1] != goal
      ensures initial == goal && fuel > 0 ==> outcome == Solved([initial])
    {
      var open: seq<Entry> := [];
      var initialH := ManhattanDistance(initial);
      open := open + [Entry(initialH, 0, initial)];
      var cameFrom: map<Board, Board> := map[];
      var gScore: map<Board, nat> := map[initial := 0];
      var steps := 0;
      assert open[0] in open;
      while open != [] && steps < fuel
        invariant Progress(initial, goal, gScore, cameFrom, open)
        invariant Scored(goalPos, open)
        invariant steps == 0 ==> open == [Entry(initialH, 0, initial)] && cameFrom == map[]
        invariant steps > 0 ==> initial != goal && 0 in initial
        decreases fuel - steps
      {
        var current, rest := PopMin(open);
        var currentG, currentState := current.g, current.board;
        if currentState == goal {
          var path := ReconstructPath(cameFrom, currentState, gScore);
          FoundGoal(initial, goal, gScore, cameFrom, open, path);
          return Solved(path);
        }
        assert 0 in initial;
        assert Tiled(initial, currentState);
        MultisetKeepsBlank(initial, currentState);
        var neighbors := GetNeighbors(currentState);
        PopKeepsInv(initial, gScore, cameFrom, open, current, rest);
        ghost var open0, gScore0, cameFrom0 := open, gScore, cameFrom;
        gScore, cameFrom, open := ExpandNeighbors(currentState, currentG, neighbors, gScore, cameFrom, rest);
        PushesScored(goalPos, currentG, gScore0, neighbors);
        PushKeepsScored(goalPos, open0, current, rest, Pushes(goalPos, currentG, gScore0, neighbors));
        StepKeepsProgress(initial, goal, gScore0, cameFrom0, open0, current, rest, neighbors,
                          gScore, cameFrom, open);
        steps := steps + 1;
      }
      if open == [] {
        EmptyOpenTrapsWalks(initial, goal, gScore, cameFrom, open);
        return Exhausted;
      }
      return OutOfFuel;
    }
  }
}
