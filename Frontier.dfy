/** The open set of the search: entries (f, g, board) popped smallest first.

    The source keeps them in a binary heap of tuples; here the heap is a
    sequence whose order does not matter, and popping takes an entry that is
    least under the tuple order Python uses: f first, then g, then the board
    compared cell by cell. */
module Frontier {
  import opened Board

  /** f = g + heuristic, g = moves from the initial board. */
  datatype Entry = Entry(f: int, g: nat, board: Board)

  /** Lexicographic order on sequences, a proper prefix first (Python's tuple order). */
  predicate SeqLe(a: seq<int>, b: seq<int>)
  {
    a == [] || (b != [] && (a[0] < b[0] || (a[0] == b[0] && SeqLe(a[1..], b[1..]))))
  }

  /** Python's order on (f, g, board) tuples. */
  predicate EntryLe(x: Entry, y: Entry)
  {
    x.f < y.f || (x.f == y.f && (x.g < y.g || (x.g == y.g && SeqLe(x.board, y.board))))
  }

  lemma {:induction false} SeqLeTotal(a: seq<int>, b: seq<int>)
    ensures SeqLe(a, b) || SeqLe(b, a)
  {
    if a != [] && b != [] && a[0] == b[0] {
      SeqLeTotal(a[1..], b[1..]);
    }
  }

  lemma {:induction false} SeqLeTransitive(a: seq<int>, b: seq<int>, c: seq<int>)
    requires SeqLe(a, b) && SeqLe(b, c)
    ensures SeqLe(a, c)
  {
    if a != [] && a[0] == b[0] && b[0] == c[0] {
      SeqLeTransitive(a[1..], b[1..], c[1..]);
    }
  }

  lemma {:induction false} SeqLeAntisymmetric(a: seq<int>, b: seq<int>)
    requires SeqLe(a, b) && SeqLe(b, a)
    ensures a == b
  {
    if a != [] {
      SeqLeAntisymmetric(a[1..], b[1..]);
      assert a == [a[0]] + a[1..] && b == [b[0]] + b[1..];
    }
  }

  /** The entry order is a total order. */
  lemma EntryLeTotalOrder(x: Entry, y: Entry, z: Entry)
    ensures EntryLe(x, y) || EntryLe(y, x)
    ensures EntryLe(x, y) && EntryLe(y, z) ==> EntryLe(x, z)
    ensures EntryLe(x, y) && EntryLe(y, x) ==> x == y
  {
    SeqLeTotal(x.board, y.board);
    if EntryLe(x, y) && EntryLe(y, z) && x.f == y.f == z.f && x.g == y.g == z.g {
      SeqLeTransitive(x.board, y.board, z.board);
    }
    if EntryLe(x, y) && EntryLe(y, x) {
      SeqLeAntisymmetric(x.board, y.board);
    }
  }

  /** The entry heappop returns: a least one, removed once; the rest keeps every other entry. */
  method PopMin(open: seq<Entry>) returns (e: Entry, rest: seq<Entry>)
    requires open != []
    ensures e in open && forall x :: x in open ==> EntryLe(e, x)
    ensures multiset(rest) + multiset{e} == multiset(open)
  {
    var k := 0;
    EntryLeTotalOrder(open[0], open[0], open[0]);
    for i := 1 to |open|
      invariant 0 <= k < |open|
      invariant forall j :: 0 <= j < i ==> EntryLe(open[k], open[j])
    {
      EntryLeTotalOrder(open[k], open[i], open[i]);
      if !EntryLe(open[k], open[i]) {
        forall j | 0 <= j < i ensures EntryLe(open[i], open[j]) {
          EntryLeTotalOrder(open[i], open[k], open[j]);
        }
        EntryLeTotalOrder(open[i], open[i], open[i]);
        k := i;
      }
    }
    e := open[k];
    rest := open[..k] + open[k + 1..];
    assert open == open[..k] + [e] + open[k + 1..];
  }

  /** Whatever order the heap keeps its entries in, the least entry is one value:
      the pop is deterministic. */
  lemma LeastIsUnique(open: seq<Entry>, e1: Entry, e2: Entry)
    requires e1 in open && forall x :: x in open ==> EntryLe(e1, x)
    requires e2 in open && forall x :: x in open ==> EntryLe(e2, x)
    ensures e1 == e2
  {
    EntryLeTotalOrder(e1, e2, e2);
  }
}
