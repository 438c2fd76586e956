/**
 * The placement order of section 7.7.3 of ISO/IEC 18004:2015: two-module wide
 * columns from the right, alternately upwards and downwards, skipping the
 * vertical timing pattern in column 6.
 */
module Zigzag {

  type Cell = (int, int)

  predicate IsSize(n: int) {
    n >= 21 && n % 2 == 1
  }

  function Pairs(n: nat): nat {
    n / 2
  }

  /** Right-hand column of column pair p. */
  function RightColumn(n: int, p: int): int {
    if n - 1 - 2 * p > 6 then n - 1 - 2 * p else n - 2 - 2 * p
  }

  /** Row reached after s steps in column pair p: even pairs go up, odd pairs go down. */
  function RowAt(n: int, p: int, s: int): int {
    if p % 2 == 0 then n - 1 - s else s
  }

  /** The cells visited in the first p column pairs and the first s rows of the next. */
  function Walk(n: nat, p: nat, s: nat): (cells: seq<Cell>)
    decreases p, s
  {
    if s > 0 then Walk(n, p, s - 1) + [(RowAt(n, p, s - 1), RightColumn(n, p)), (RowAt(n, p, s - 1), RightColumn(n, p) - 1)]
    else if p > 0 then Walk(n, p - 1, n)
    else []
  }

  function FullWalk(n: nat): seq<Cell> {
    Walk(n, Pairs(n), 0)
  }

  /** The column pair of a column other than 6. */
  function PairOf(n: int, c: int): int {
    if c > 6 then (n - 1 - c) / 2 else (n - 2 - c) / 2
  }

  predicate Earlier(n: int, cell: Cell, p: int, s: int) {
    && 0 <= cell.0 < n && 0 <= cell.1 < n && cell.1 != 6
    && var q := PairOf(n, cell.1);
       q < p || (q == p && RowAt(n, p, cell.0) < s)
  }

  /** The walk has visited exactly the cells that come earlier in the order. */
  lemma {:induction false} WalkVisits(n: nat, p: nat, s: nat, cell: Cell)
    requires IsSize(n) && p <= Pairs(n) && s <= n && (p == Pairs(n) ==> s == 0)
    ensures cell in Walk(n, p, s) <==> Earlier(n, cell, p, s)
    decreases p, s
  {
    if s > 0 {
      WalkVisits(n, p, s - 1, cell);
    } else if p > 0 {
      WalkVisits(n, p - 1, n, cell);
    }
  }

  predicate Distinct(cells: seq<Cell>) {
    forall i, j | 0 <= i < j < |cells| :: cells[i] != cells[j]
  }

  lemma {:induction false} WalkDistinct(n: nat, p: nat, s: nat)
    requires IsSize(n) && p <= Pairs(n) && s <= n && (p == Pairs(n) ==> s == 0)
    ensures Distinct(Walk(n, p, s))
    decreases p, s
  {
    if s > 0 {
      var right: Cell := (RowAt(n, p, s - 1), RightColumn(n, p));
      var left: Cell := (right.0, right.1 - 1);
      var before := Walk(n, p, s - 1);
      WalkDistinct(n, p, s - 1);
      WalkVisits(n, p, s - 1, right);
      WalkVisits(n, p, s - 1, left);
      AppendDistinct(before, right);
      AppendDistinct(before + [right], left);
      assert Walk(n, p, s) == before + [right] + [left];
    } else if p > 0 {
      WalkDistinct(n, p - 1, n);
    }
  }

  lemma AppendDistinct(cells: seq<Cell>, cell: Cell)
    requires Distinct(cells) && cell !in cells
    ensures Distinct(cells + [cell])
  {
  }

  /** Every cell outside column 6 is visited exactly once. */
  lemma FullWalkIsBijection(n: nat, cell: Cell)
    requires IsSize(n)
    ensures Distinct(FullWalk(n))
    ensures cell in FullWalk(n) <==> 0 <= cell.0 < n && 0 <= cell.1 < n && cell.1 != 6
  {
    WalkVisits(n, Pairs(n), 0, cell);
    WalkDistinct(n, Pairs(n), 0);
  }

  lemma {:induction false} WalkLength(n: nat, p: nat, s: nat)
    requires s <= n
    ensures |Walk(n, p, s)| == 2 * (p * n + s)
    decreases p, s
  {
    if s > 0 {
      WalkLength(n, p, s - 1);
    } else if p > 0 {
      WalkLength(n, p - 1, n);
      assert (p - 1) * n + n == p * n;
    }
  }

  lemma {:induction false} WalkPrefix(n: nat, p: nat, s: nat, q: nat, t: nat)
    requires s <= n && t <= n && (p < q || (p == q && s <= t))
    ensures Walk(n, p, s) <= Walk(n, q, t)
    decreases q, t
  {
    if p == q && s == t {
    } else if t > 0 {
      WalkPrefix(n, p, s, q, t - 1);
    } else {
      WalkPrefix(n, p, s, q - 1, n);
    }
  }

  /**
   * The order cell by cell: pair p of columns starts at the bottom for even p and at
   * the top for odd p, the right column first, and the pairs left of column 7 lie
   * one column further left.
   */
  lemma WalkOrder(n: nat, p: nat, s: nat)
    requires IsSize(n) && p < n / 2 && s < n
    ensures 2 * (p * n + s) + 1 < |FullWalk(n)|
    ensures var row := if p % 2 == 0 then n - 1 - s else s;
            var right := if n - 1 - 2 * p > 6 then n - 1 - 2 * p else n - 2 - 2 * p;
            && FullWalk(n)[2 * (p * n + s)] == (row, right)
            && FullWalk(n)[2 * (p * n + s) + 1] == (row, right - 1)
  {
    WalkLength(n, p, s);
    WalkLength(n, p, s + 1);
    WalkPrefix(n, p, s + 1, Pairs(n), 0);
  }

  // The free cells of a walk, in visiting order.

  function Filter(cells: seq<Cell>, free: set<Cell>): (r: seq<Cell>)
    ensures |r| <= |cells|
  {
    if cells == [] then []
    else
      var last := cells[|cells| - 1];
      Filter(cells[..|cells| - 1], free) + if last in free then [last] else []
  }

  lemma FilterAppend(cells: seq<Cell>, cell: Cell, free: set<Cell>)
    ensures Filter(cells + [cell], free) == Filter(cells, free) + if cell in free then [cell] else []
  {
    assert (cells + [cell])[..|cells|] == cells;
  }

  lemma {:induction false} FilterKeeps(cells: seq<Cell>, free: set<Cell>)
    ensures forall cell :: cell in Filter(cells, free) <==> cell in cells && cell in free
  {
    if cells != [] {
      FilterKeeps(cells[..|cells| - 1], free);
    }
  }

  lemma {:induction false} FilterDistinct(cells: seq<Cell>, free: set<Cell>)
    requires Distinct(cells)
    ensures Distinct(Filter(cells, free))
  {
    if cells != [] {
      var n := |cells| - 1;
      FilterDistinct(cells[..n], free);
      FilterKeeps(cells[..n], free);
      if cells[n] in free {
        AppendDistinct(Filter(cells[..n], free), cells[n]);
      }
    }
  }

  lemma {:induction false} DistinctSize(cells: seq<Cell>, all: set<Cell>)
    requires Distinct(cells)
    requires forall cell :: cell in cells <==> cell in all
    ensures |cells| == |all|
  {
    if cells != [] {
      var n := |cells| - 1;
      var rest := all - {cells[n]};
      forall cell ensures cell in cells[..n] <==> cell in rest {
        if cell in cells[..n] {
          var i :| 0 <= i < n && cells[i] == cell;
          assert cells[i] != cells[n];
        }
      }
      DistinctSize(cells[..n], rest);
    }
  }

  /** Free cells outside column 6 are counted exactly by the filtered walk. */
  lemma FreeCellCount(n: nat, free: set<Cell>)
    requires IsSize(n)
    requires forall cell :: cell in free ==> 0 <= cell.0 < n && 0 <= cell.1 < n && cell.1 != 6
    ensures Distinct(Filter(FullWalk(n), free))
    ensures forall cell :: cell in Filter(FullWalk(n), free) <==> cell in free
    ensures |Filter(FullWalk(n), free)| == |free|
  {
    hide Walk, FullWalk, Filter, Distinct;
    var walk := FullWalk(n);
    forall cell ensures cell in walk <==> 0 <= cell.0 < n && 0 <= cell.1 < n && cell.1 != 6 {
      FullWalkIsBijection(n, cell);
    }
    FullWalkIsBijection(n, (0, 0));
    FilterKeeps(walk, free);
    FilterDistinct(walk, free);
    DistinctSize(Filter(walk, free), free);
  }
}
