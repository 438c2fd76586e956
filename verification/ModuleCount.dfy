/**
 * How many modules of a symbol carry data: the function modules are cut into
 * disjoint products of row sets and column sets and counted.
 */
module ModuleCount {
  import opened Sets
  import opened Versions
  import opened Zigzag
  import opened Layout

  function FreeCells(n: nat, pos: seq<nat>): (s: set<Cell>)
    ensures forall cell :: cell in s <==> cell in Square(n) && !IsFunction(n, pos, cell)
  {
    set cell | cell in Square(n) && !IsFunction(n, pos, cell)
  }

  function Product(rows: set<int>, columns: set<int>): (s: set<Cell>)
    ensures forall cell :: cell in s <==> cell.0 in rows && cell.1 in columns
  {
    var s := set r, c | r in rows && c in columns :: (r, c);
    assert forall r, c :: (r, c) in s <==> r in rows && c in columns;
    assert forall cell: Cell :: cell == (cell.0, cell.1);
    s
  }

  lemma {:induction false} ProductSize(rows: set<int>, columns: set<int>)
    ensures |Product(rows, columns)| == |rows| * |columns|
  {
    if rows == {} {
      assert Product(rows, columns) == {};
    } else {
      var r := Member(rows);
      var rest := rows - {r};
      ProductSize(rest, columns);
      RowSize(r, columns);
      DisjointSize(Product({r}, columns), Product(rest, columns));
      assert Product(rows, columns) == Product({r}, columns) + Product(rest, columns);
      assert |rows| == 1 + |rest|;
      ProductStep(|rest| + 1, |columns|);
    }
  }

  lemma {:induction false} RowSize(r: int, columns: set<int>)
    ensures |Product({r}, columns)| == |columns|
  {
    if columns == {} {
      assert Product({r}, columns) == {};
    } else {
      var c := Member(columns);
      RowSize(r, columns - {c});
      assert Product({r}, columns) == {(r, c)} + Product({r}, columns - {c});
    }
  }

  function Block(p: int): set<int> {
    Interval(p - 2, p + 3)
  }

  predicate Close(p: int, x: int) {
    -2 <= x - p <= 2
  }

  /** The coordinates within distance 2 of the centres lo to hi - 1. */
  function Around(pos: seq<nat>, lo: nat, hi: nat): set<int>
    requires hi <= |pos|
    decreases hi
  {
    if lo < hi then Around(pos, lo, hi - 1) + Block(pos[hi - 1]) else {}
  }

  lemma {:induction false} AroundIs(pos: seq<nat>, lo: nat, hi: nat, x: int)
    requires hi <= |pos|
    ensures x in Around(pos, lo, hi) <==> exists i :: lo <= i < hi && Close(pos[i], x)
    decreases hi
  {
    if lo < hi {
      AroundIs(pos, lo, hi - 1, x);
      assert x in Block(pos[hi - 1]) <==> Close(pos[hi - 1], x);
    }
  }

  lemma BlockSize(p: int)
    ensures |Block(p)| == 5
  {
    IntervalSize(p - 2, p + 3);
  }

  lemma {:induction false} AroundSize(pos: seq<nat>, lo: nat, hi: nat)
    requires Spaced(pos) && lo <= hi <= |pos|
    ensures |Around(pos, lo, hi)| == 5 * (hi - lo)
  {
    hide Spaced, Block;
    if lo < hi {
      AroundSize(pos, lo, hi - 1);
      BlockSize(pos[hi - 1]);
      var before := Around(pos, lo, hi - 1);
      forall x: int | x in before ensures x !in Block(pos[hi - 1]) {
        BlocksApart(pos, lo, hi - 1, x);
      }
      DisjointSize(before, Block(pos[hi - 1]));
    }
  }

  lemma BlocksApart(pos: seq<nat>, lo: nat, k: nat, x: int)
    requires Spaced(pos) && lo <= k < |pos| && x in Around(pos, lo, k)
    ensures x !in Block(pos[k])
  {
    hide Around;
    AroundIs(pos, lo, k, x);
    var i :| lo <= i < k && Close(pos[i], x);
    assert pos[i] + 12 <= pos[k];
  }

  lemma AroundNear(pos: seq<nat>, lo: nat, hi: nat, x: int)
    requires Spaced(pos) && hi <= |pos|
    ensures x in Around(pos, lo, hi) <==> lo <= Near(pos, x) < hi
  {
    AroundIs(pos, lo, hi, x);
    if x in Around(pos, lo, hi) {
      var i :| lo <= i < hi && Close(pos[i], x);
      NearIs(pos, x, i);
    }
  }

  // The function modules as ten disjoint products.

  function Corners(n: nat): set<Cell> {
    Product(Interval(0, 9), Interval(0, 9))
    + Product(Interval(0, 9), Interval(n - 8, n))
    + Product(Interval(n - 8, n), Interval(0, 9))
  }

  function Timings(n: nat): set<Cell> {
    Product({6}, Interval(9, n - 8)) + Product(Interval(9, n - 8), {6})
  }

  function VersionAreas(n: nat): set<Cell> {
    Product(Interval(0, 6), Interval(n - 11, n - 8)) + Product(Interval(n - 11, n - 8), Interval(0, 6))
  }

  /** Alignment modules off the timing patterns: whole patterns, and those split by a timing pattern. */
  function InnerAlignments(pos: seq<nat>): set<Cell>
    requires pos != []
  {
    Product(Around(pos, 1, |pos|), Around(pos, 1, |pos|))
  }

  function EdgeAlignments(pos: seq<nat>): set<Cell>
    requires pos != []
  {
    Product({4, 5, 7, 8}, Around(pos, 1, |pos| - 1)) + Product(Around(pos, 1, |pos| - 1), {4, 5, 7, 8})
  }

  lemma CornersSize(n: nat)
    requires n >= 21
    ensures |Corners(n)| == 225
  {
    hide Interval, Product;
    IntervalSize(0, 9);
    IntervalSize(n - 8, n);
    ProductSize(Interval(0, 9), Interval(0, 9));
    ProductSize(Interval(0, 9), Interval(n - 8, n));
    ProductSize(Interval(n - 8, n), Interval(0, 9));
    var a, b, c := Product(Interval(0, 9), Interval(0, 9)), Product(Interval(0, 9), Interval(n - 8, n)),
                   Product(Interval(n - 8, n), Interval(0, 9));
    assert a * b == {};
    assert (a + b) * c == {};
  }

  lemma TimingsSize(n: nat)
    requires n >= 21
    ensures |Timings(n)| == 2 * (n - 17)
  {
    hide Interval, Product;
    IntervalSize(9, n - 8);
    ProductSize({6}, Interval(9, n - 8));
    ProductSize(Interval(9, n - 8), {6});
    assert Product({6}, Interval(9, n - 8)) * Product(Interval(9, n - 8), {6}) == {};
  }

  lemma VersionAreasSize(n: nat)
    requires n >= 45
    ensures |VersionAreas(n)| == 36
  {
    hide Interval, Product;
    IntervalSize(0, 6);
    IntervalSize(n - 11, n - 8);
    ProductSize(Interval(0, 6), Interval(n - 11, n - 8));
    ProductSize(Interval(n - 11, n - 8), Interval(0, 6));
    assert Product(Interval(0, 6), Interval(n - 11, n - 8)) * Product(Interval(n - 11, n - 8), Interval(0, 6)) == {};
  }

  lemma InnerSize(n: nat, pos: seq<nat>)
    requires GoodCentres(n, pos) && pos != []
    ensures |InnerAlignments(pos)| == 25 * (|pos| - 1) * (|pos| - 1)
  {
    hide Product, Around;
    var k := |pos| - 1;
    AroundSize(pos, 1, |pos|);
    ProductSize(Around(pos, 1, |pos|), Around(pos, 1, |pos|));
    assert (5 * k) * (5 * k) == 25 * k * k;
  }

  lemma EdgeSize(n: nat, pos: seq<nat>)
    requires GoodCentres(n, pos) && pos != []
    ensures |EdgeAlignments(pos)| == 40 * (|pos| - 2)
  {
    hide Product, Around;
    var middle := Around(pos, 1, |pos| - 1);
    AroundSize(pos, 1, |pos| - 1);
    ProductSize({4, 5, 7, 8}, middle);
    ProductSize(middle, {4, 5, 7, 8});
    forall x: int | x in middle ensures x >= 16 {
      AroundIs(pos, 1, |pos| - 1, x);
      var i :| 1 <= i < |pos| - 1 && Close(pos[i], x);
      MiddleCentre(n, pos, i);
    }
    var four: set<int> := {4, 5, 7, 8};
    assert |four| == 4;
    DisjointSize(Product(four, middle), Product(middle, four));
    var size := |middle|;
    assert 4 * size + size * 4 == 40 * (|pos| - 2);
  }

  function FunctionSets(n: nat, pos: seq<nat>): set<Cell> {
    Corners(n) + Timings(n)
    + (if pos == [] then {} else InnerAlignments(pos) + EdgeAlignments(pos))
    + (if n >= 45 then VersionAreas(n) else {})
  }

  lemma InAlignmentSets(n: nat, pos: seq<nat>, cell: Cell)
    requires GoodCentres(n, pos) && pos != []
    ensures cell in InnerAlignments(pos) ==> InAlignment(pos, cell) && cell.0 != 6 && cell.1 != 6
    ensures cell in EdgeAlignments(pos) ==> InAlignment(pos, cell) && cell.0 != 6 && cell.1 != 6
    ensures InAlignment(pos, cell) ==>
      cell in InnerAlignments(pos) || cell in EdgeAlignments(pos) || cell.0 == 6 || cell.1 == 6
    ensures !(cell in InnerAlignments(pos) && cell in EdgeAlignments(pos))
  {
    hide Around, Interval;
    var m := |pos|;
    var i, j := Near(pos, cell.0), Near(pos, cell.1);
    AroundNear(pos, 1, m, cell.0);
    AroundNear(pos, 1, m, cell.1);
    AroundNear(pos, 1, m - 1, cell.0);
    AroundNear(pos, 1, m - 1, cell.1);
    MiddleCentre(n, pos, 0);
    if i > 0 {
      MiddleCentre(n, pos, i);
    }
    if j > 0 {
      MiddleCentre(n, pos, j);
    }
    if 4 <= cell.0 <= 8 {
      NearIs(pos, cell.0, 0);
    }
    if 4 <= cell.1 <= 8 {
      NearIs(pos, cell.1, 0);
    }
  }

  lemma InFixedSets(n: nat, cell: Cell)
    requires n >= 21 && cell in Square(n)
    ensures cell in Corners(n) + Timings(n) <==> InCorner(n, cell) || cell.0 == 6 || cell.1 == 6
    ensures !(cell in Corners(n) && cell in Timings(n))
    ensures cell in Timings(n) ==> cell.0 == 6 || cell.1 == 6
    ensures cell in Corners(n) ==> InCorner(n, cell)
    ensures cell in VersionAreas(n) ==> cell.0 < 6 || cell.1 < 6
    ensures n >= 45 ==> (cell in VersionAreas(n) <==> InVersionArea(n, cell))
    ensures n >= 45 && cell in VersionAreas(n) ==> !InCorner(n, cell) && cell.0 != 6 && cell.1 != 6
  {
  }

  /** The ten products are the function modules of the layout. */
  lemma FunctionSetsAre(n: nat, pos: seq<nat>, cell: Cell)
    requires GoodCentres(n, pos) && cell in Square(n)
    ensures cell in FunctionSets(n, pos) <==> IsFunction(n, pos, cell)
  {
    hide Corners, Timings, VersionAreas, InnerAlignments, EdgeAlignments, Square, InCorner, InVersionArea, InAlignment;
    InFixedSets(n, cell);
    if pos != [] {
      InAlignmentSets(n, pos, cell);
    } else {
      NoCentres(cell);
    }
  }

  lemma NoCentres(cell: Cell)
    ensures !InAlignment([], cell)
  {
  }

  lemma AllInSquare(n: nat, pos: seq<nat>)
    requires GoodCentres(n, pos)
    ensures FunctionSets(n, pos) <= Square(n)
  {
    hide Interval, Around, InAlignment, InCorner, Square;
    if pos != [] {
      forall cell | cell in InnerAlignments(pos) + EdgeAlignments(pos) ensures cell in Square(n) {
        InAlignmentSets(n, pos, cell);
        AlignmentClear(n, pos, cell);
      }
    }
  }

  function FunctionCount(n: nat, m: nat): int {
    225 + 2 * (n - 17)
    + (if m == 0 then 0 else 25 * (m - 1) * (m - 1) + 40 * (m - 2))
    + (if n >= 45 then 36 else 0)
  }

  lemma FunctionSetsSize(n: nat, pos: seq<nat>)
    requires GoodCentres(n, pos)
    ensures |FunctionSets(n, pos)| == FunctionCount(n, |pos|)
  {
    hide Corners, Timings, VersionAreas, InnerAlignments, EdgeAlignments, Square, InCorner, InVersionArea, InAlignment;
    AllInSquare(n, pos);
    CornersSize(n);
    TimingsSize(n);
    var fixed := Corners(n) + Timings(n);
    var align := if pos == [] then {} else InnerAlignments(pos) + EdgeAlignments(pos);
    var areas := if n >= 45 then VersionAreas(n) else {};
    forall cell | cell in FunctionSets(n, pos)
      ensures !(cell in Corners(n) && cell in Timings(n))
      ensures !(cell in fixed && cell in align)
      ensures !(cell in fixed + align && cell in areas)
      ensures pos != [] ==> !(cell in InnerAlignments(pos) && cell in EdgeAlignments(pos))
    {
      InFixedSets(n, cell);
      if pos != [] {
        InAlignmentSets(n, pos, cell);
        if cell in align {
          AlignmentClear(n, pos, cell);
        }
      }
    }
    DisjointSize(Corners(n), Timings(n));
    if pos != [] {
      InnerSize(n, pos);
      EdgeSize(n, pos);
      DisjointSize(InnerAlignments(pos), EdgeAlignments(pos));
    }
    if n >= 45 {
      VersionAreasSize(n);
    }
    DisjointSize(fixed, align);
    DisjointSize(fixed + align, areas);
  }

  lemma SquareSize(n: nat)
    ensures |Square(n)| == n * n
  {
    IntervalSize(0, n);
    ProductSize(Interval(0, n), Interval(0, n));
    assert Square(n) == Product(Interval(0, n), Interval(0, n));
  }

  lemma FreeCellsSize(n: nat, pos: seq<nat>)
    requires GoodCentres(n, pos)
    ensures |FreeCells(n, pos)| == n * n - FunctionCount(n, |pos|)
  {
    hide FunctionSets, IsFunction, Square;
    SquareSize(n);
    FunctionSetsSize(n, pos);
    AllInSquare(n, pos);
    forall cell | cell in Square(n) ensures cell in FunctionSets(n, pos) <==> IsFunction(n, pos, cell) {
      FunctionSetsAre(n, pos, cell);
    }
    assert FreeCells(n, pos) == Square(n) - FunctionSets(n, pos);
  }

  lemma LowVersionArithmetic(v: nat)
    requires 1 <= v < 14
    ensures var n := Size(v);
            8 * TotalCount(v) <= n * n - FunctionCount(n, if v == 1 then 0 else v / 7 + 2) <= 8 * TotalCount(v) + 7
  {
  }

  lemma MiddleVersionArithmetic(v: nat)
    requires 14 <= v < 28
    ensures var n := Size(v);
            8 * TotalCount(v) <= n * n - FunctionCount(n, v / 7 + 2) <= 8 * TotalCount(v) + 7
  {
  }

  lemma HighVersionArithmetic(v: nat)
    requires 28 <= v <= 40
    ensures var n := Size(v);
            8 * TotalCount(v) <= n * n - FunctionCount(n, v / 7 + 2) <= 8 * TotalCount(v) + 7
  {
  }

  /** The data modules hold every codeword bit, with at most seven modules to spare. */
  lemma CodewordsFillSymbol(v: nat)
    requires IsVersion(v)
    ensures 8 * TotalCount(v) <= |FreeCells(Size(v), PatternPosition(v))| <= 8 * TotalCount(v) + 7
  {
    hide PatternPosition, TotalCount, FunctionCount, FreeCells;
    VersionCentres(v);
    PositionCount(v);
    FreeCellsSize(Size(v), PatternPosition(v));
    if v < 14 {
      LowVersionArithmetic(v);
    } else if v < 28 {
      MiddleVersionArithmetic(v);
    } else {
      HighVersionArithmetic(v);
    }
  }
}
