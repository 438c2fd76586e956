/**
 * Data placement: the mask patterns and the bits written into the free modules.
 */
module Placement {
  import opened Wrappers
  import opened Gf2
  import opened Galois
  import opened Zigzag
  import opened Layout

  /** Whether mask pattern `mask` inverts the module at (b, c). */
  function GetMask(mask: nat, b: nat, c: nat): bool
    requires mask < 8
  {
    match mask
    case 0 => (b + c) % 2 == 0
    case 1 => b % 2 == 0
    case 2 => c % 3 == 0
    case 3 => (b + c) % 3 == 0
    case 4 => (b / 2 + c / 3) % 2 == 0
    case 5 => b * c % 2 + b * c % 3 == 0
    case 6 => (b * c % 2 + b * c % 3) % 2 == 0
    case _ => (b * c % 3 + (b + c) % 2) % 2 == 0
  }

  /** What each pattern means in residues; x is the product of row and column. */
  lemma MaskClasses(b: nat, c: nat, x: nat)
    requires x == b * c
    ensures GetMask(0, b, c) <==> b % 2 == c % 2
    ensures GetMask(1, b, c) <==> b % 2 == 0
    ensures GetMask(2, b, c) <==> c % 3 == 0
    ensures GetMask(3, b, c) <==> b % 3 + c % 3 == 0 || b % 3 + c % 3 == 3
    ensures GetMask(4, b, c) <==> (b % 4 < 2 <==> c % 6 < 3)
    ensures GetMask(5, b, c) <==> x % 6 == 0
    ensures GetMask(6, b, c) <==> x % 6 < 3
    ensures GetMask(7, b, c) <==> (b + c) % 2 == x % 3 % 2
  {
    hide GetMask;
    SumMasks(b, c);
    BlockMask(b, c);
    ProductMasks(b, c, x);
    Residues(x);
    ParityOfSum(x % 3, (b + c) % 2);
  }

  lemma SumMasks(b: nat, c: nat)
    ensures GetMask(0, b, c) <==> b % 2 == c % 2
    ensures GetMask(1, b, c) <==> b % 2 == 0
    ensures GetMask(2, b, c) <==> c % 3 == 0
    ensures GetMask(3, b, c) <==> b % 3 + c % 3 == 0 || b % 3 + c % 3 == 3
  {
    ParityOfSum(b, c);
  }

  lemma BlockMask(b: nat, c: nat)
    ensures GetMask(4, b, c) <==> (b % 4 < 2 <==> c % 6 < 3)
  {
    ParityOfSum(b / 2, c / 3);
    assert b / 2 % 2 == 0 <==> b % 4 < 2;
    assert c / 3 % 2 == 0 <==> c % 6 < 3;
  }

  lemma ProductMasks(b: nat, c: nat, x: nat)
    requires x == b * c
    ensures GetMask(5, b, c) <==> x % 2 + x % 3 == 0
    ensures GetMask(6, b, c) <==> (x % 2 + x % 3) % 2 == 0
    ensures GetMask(7, b, c) <==> (x % 3 + (b + c) % 2) % 2 == 0
  {
  }

  lemma Residues(x: nat)
    ensures x % 2 + x % 3 == 0 <==> x % 6 == 0
    ensures (x % 2 + x % 3) % 2 == 0 <==> x % 6 < 3
  {
    var q, r := x / 6, x % 6;
    assert x == 2 * (3 * q) + r && x == 3 * (2 * q) + r;
    assert x % 2 == r % 2 && x % 3 == r % 3;
  }

  lemma ParityOfSum(b: nat, c: nat)
    ensures (b + c) % 2 == 0 <==> b % 2 == c % 2
  {
  }

  function Masks(mask: nat, cell: Cell): bool
    requires mask < 8
  {
    cell.0 >= 0 && cell.1 >= 0 && GetMask(mask, cell.0, cell.1)
  }

  /** Bit k of the codewords, most significant first; light past the end. */
  function DataBit(data: seq<Byte>, k: nat): bool {
    k / 8 < |data| && Bit(data[k / 8], 7 - k % 8)
  }

  /** Modules past the last codeword are light before masking. */
  lemma LightPastTheEnd(data: seq<Byte>, k: nat)
    requires k >= 8 * |data|
    ensures !DataBit(data, k)
  {
  }

  /** The grid with bit k of the data, masked, in the k-th of the given cells. */
  function Placed(g: Grid, data: seq<Byte>, mask: nat, cells: seq<Cell>): Grid
    requires mask < 8
  {
    if cells == [] then g
    else
      var k := |cells| - 1;
      Placed(g, data, mask, cells[..k])[cells[k] := Some(DataBit(data, k) != Masks(mask, cells[k]))]
  }

  lemma PlacedAppend(g: Grid, data: seq<Byte>, mask: nat, cells: seq<Cell>, cell: Cell)
    requires mask < 8
    ensures Placed(g, data, mask, cells + [cell])
         == Placed(g, data, mask, cells)[cell := Some(DataBit(data, |cells|) != Masks(mask, cell))]
  {
    assert (cells + [cell])[..|cells|] == cells;
  }

  lemma {:induction false} PlacedElsewhere(g: Grid, data: seq<Byte>, mask: nat, cells: seq<Cell>, cell: Cell)
    requires mask < 8 && cell !in cells
    ensures cell in Placed(g, data, mask, cells) <==> cell in g
    ensures cell in g ==> Placed(g, data, mask, cells)[cell] == g[cell]
  {
    if cells != [] {
      PlacedElsewhere(g, data, mask, cells[..|cells| - 1], cell);
    }
  }

  lemma {:induction false} PlacedKeys(g: Grid, data: seq<Byte>, mask: nat, cells: seq<Cell>)
    requires mask < 8 && forall cell | cell in cells :: cell in g
    ensures Placed(g, data, mask, cells).Keys == g.Keys
  {
    if cells != [] {
      PlacedKeys(g, data, mask, cells[..|cells| - 1]);
    }
  }

  /** The k-th cell holds bit k, xor the mask. */
  lemma {:induction false} PlacedAt(g: Grid, data: seq<Byte>, mask: nat, cells: seq<Cell>, k: nat)
    requires mask < 8 && Distinct(cells) && k < |cells|
    ensures cells[k] in Placed(g, data, mask, cells)
    ensures Placed(g, data, mask, cells)[cells[k]] == Some(DataBit(data, k) != Masks(mask, cells[k]))
  {
    hide DataBit, Masks;
    if k < |cells| - 1 {
      PlacedAt(g, data, mask, cells[..|cells| - 1], k);
    }
  }

  // The placement loop, step by step.

  function NullCells(g: Grid): (s: set<Cell>)
    ensures forall cell :: cell in s <==> cell in g && g[cell] == None
  {
    set cell | cell in g && g[cell] == None
  }

  /** After the walk, bit e of byte g is next. */
  ghost predicate DataPlaced(base: Grid, data: seq<Byte>, mask: nat, walk: seq<Cell>, grid: Grid, e: int, g: int) {
    var cells := Filter(walk, NullCells(base));
    mask < 8 && 0 <= e <= 7 && g >= 0 && 8 * g + 7 - e == |cells| && grid == Placed(base, data, mask, cells)
  }

  lemma PlaceStart(base: Grid, data: seq<Byte>, mask: nat, n: nat)
    requires mask < 8
    ensures DataPlaced(base, data, mask, Walk(n, 0, 0), base, 7, 0)
    ensures IsSize(n) ==> ColumnState(n, 0, -1, n - 1, n - 1)
  {
  }

  lemma NextBit(data: seq<Byte>, e: nat, g: nat)
    requires e <= 7
    ensures DataBit(data, 8 * g + 7 - e) == (g < |data| && Bit(data[g], e))
  {
    hide Bit;
  }

  /** A module not visited yet is null exactly when it was null before the placement. */
  lemma PlaceStep(base: Grid, data: seq<Byte>, mask: nat, walk: seq<Cell>, grid: Grid, e: nat, g: nat, cell: Cell)
    requires DataPlaced(base, data, mask, walk, grid, e, g)
    requires cell in base && cell !in walk && cell.0 >= 0 && cell.1 >= 0
    ensures mask < 8 && e <= 7 && cell in grid
    ensures grid[cell] != None ==> DataPlaced(base, data, mask, walk + [cell], grid, e, g)
    ensures grid[cell] == None ==>
      var next := grid[cell := Some((g < |data| && Bit(data[g], e)) != GetMask(mask, cell.0, cell.1))];
      if e == 0 then DataPlaced(base, data, mask, walk + [cell], next, 7, g + 1)
      else DataPlaced(base, data, mask, walk + [cell], next, e - 1, g)
  {
    hide Bit, GetMask, Filter, Placed, DataBit;
    var free := NullCells(base);
    var cells := Filter(walk, free);
    FilterKeeps(walk, free);
    FilterAppend(walk, cell, free);
    PlacedElsewhere(base, data, mask, cells, cell);
    PlacedAppend(base, data, mask, cells, cell);
    NextBit(data, e, g);
    assert cells + [] == cells;
  }

  lemma WalkStep(n: nat, p: nat, s: nat, right: Cell, left: Cell)
    requires IsSize(n) && p < Pairs(n) && s < n
    requires right == (RowAt(n, p, s), RightColumn(n, p)) && left == (right.0, right.1 - 1)
    ensures right in Square(n) && left in Square(n)
    ensures right !in Walk(n, p, s) && left !in Walk(n, p, s) + [right]
    ensures Walk(n, p, s + 1) == Walk(n, p, s) + [right] + [left]
  {
    hide Square;
    WalkVisits(n, p, s, right);
    WalkVisits(n, p, s, left);
  }

  /** Loop variables at the head of the column loop: direction, row, column. */
  ghost predicate ColumnState(n: nat, p: int, c: int, d: int, h: int) {
    && 0 <= p <= Pairs(n)
    && c == (if p % 2 == 0 then -1 else 1)
    && d == (if p % 2 == 0 then n - 1 else 0)
    && h == (if n - 1 - 2 * p >= 6 then n - 1 - 2 * p else n - 2 - 2 * p)
  }

  ghost predicate RowState(n: int, p: int, s: int, c: int, d: int, h: int) {
    && c == (if p % 2 == 0 then -1 else 1)
    && d == RowAt(n, p, s)
    && h == RightColumn(n, p)
  }

  lemma ColumnBegins(n: nat, p: int, c: int, d: int, h: int)
    requires IsSize(n) && ColumnState(n, p, c, d, h) && h > 0
    ensures 0 <= p < Pairs(n) && 0 < n && RowState(n, p, 0, c, d, if h == 6 then h - 1 else h)
  {
  }

  lemma RowStep(n: nat, p: nat, s: nat, c: int, d: int, h: int)
    requires IsSize(n) && p < Pairs(n) && s < n && RowState(n, p, s, c, d, h)
    ensures d == RowAt(n, p, s) && h == RightColumn(n, p)
    ensures 0 <= d + c < n ==> s + 1 < n && RowState(n, p, s + 1, c, d + c, h)
    ensures !(0 <= d + c < n) ==> s + 1 == n && ColumnState(n, p + 1, -c, d, h - 2)
    ensures h - 2 < h
    ensures Walk(n, p + 1, 0) == Walk(n, p, n)
  {
  }

  lemma PlaceDone(base: Grid, data: seq<Byte>, mask: nat, n: nat, p: nat, c: int, d: int, h: int, grid: Grid, e: int, g: int)
    requires IsSize(n) && ColumnState(n, p, c, d, h) && h <= 0 && mask < 8
    requires DataPlaced(base, data, mask, Walk(n, p, 0), grid, e, g)
    ensures grid == Placed(base, data, mask, Filter(FullWalk(n), NullCells(base)))
  {
    hide Placed, Filter, Walk;
    assert p == Pairs(n);
  }
}
