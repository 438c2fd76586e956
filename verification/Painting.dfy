/**
 * The painting loops of the setup routines, step by step: how one more cell,
 * row or pattern changes the grid.
 */
module Painting {
  import opened Wrappers
  import opened Gf2
  import opened Zigzag
  import opened Layout

  lemma InSquare(n: nat, r: int, c: int)
    requires 0 <= r < n && 0 <= c < n
    ensures (r, c) in Square(n)
  {
  }

  /** The finder window up to offset (c, d) in row order. */
  function PaintFinderTo(g: Grid, a: int, b: int, c: int, d: int): (r: Grid)
    ensures r.Keys == g.Keys
  {
    map cell | cell in g ::
      if InWindow(a, b, cell) && (cell.0 - a < c || (cell.0 - a == c && cell.1 - b < d))
      then Some(FinderDark(cell.0 - a, cell.1 - b)) else g[cell]
  }

  lemma FinderStep(g: Grid, a: int, b: int, c: int, d: int, n: nat)
    requires g.Keys == Square(n) && -1 <= c <= 7 && -1 <= d <= 7 && 0 <= a + c < n
    ensures var now := PaintFinderTo(g, a, b, c, d);
            PaintFinderTo(g, a, b, c, d + 1)
            == if 0 <= b + d < n then now[(a + c, b + d) := Some(FinderDark(c, d))] else now
  {
    hide FinderDark;
  }

  lemma FinderRow(g: Grid, a: int, b: int, c: int, n: nat)
    requires g.Keys == Square(n) && -1 <= c <= 7
    ensures PaintFinderTo(g, a, b, c + 1, -1)
         == if 0 <= a + c < n then PaintFinderTo(g, a, b, c, 8) else PaintFinderTo(g, a, b, c, -1)
  {
    hide FinderDark;
  }

  lemma FinderDone(g: Grid, a: int, b: int)
    ensures PaintFinderTo(g, a, b, 8, -1) == PaintFinder(g, a, b)
    ensures PaintFinderTo(g, a, b, -1, -1) == g
  {
    hide FinderDark;
  }

  function PaintPatternTo(base: Grid, d: int, e: int, g: int, h: int): (r: Grid)
    ensures r.Keys == base.Keys
  {
    map cell | cell in base ::
      var x, y := cell.0 - d, cell.1 - e;
      if -2 <= x <= 2 && -2 <= y <= 2 && (x < g || (x == g && y < h)) then Some(AlignmentDark(x, y)) else base[cell]
  }

  lemma PatternStep(base: Grid, d: int, e: int, g: int, h: int, n: nat)
    requires base.Keys == Square(n) && -2 <= g <= 2 && -2 <= h <= 2 && (d + g, e + h) in Square(n)
    ensures PaintPatternTo(base, d, e, g, h + 1)
         == PaintPatternTo(base, d, e, g, h)[(d + g, e + h) := Some(AlignmentDark(g, h))]
  {
    hide AlignmentDark;
  }

  lemma PatternRow(base: Grid, d: int, e: int, g: int)
    ensures PaintPatternTo(base, d, e, g + 1, -2) == PaintPatternTo(base, d, e, g, 3)
  {
    hide AlignmentDark;
  }

  lemma PatternDone(base: Grid, d: int, e: int)
    ensures PaintPatternTo(base, d, e, 3, -2) == PaintPattern(base, d, e)
    ensures PaintPatternTo(base, d, e, -2, -2) == base
  {
    hide AlignmentDark;
  }

  lemma CentreInside(n: nat, pos: seq<nat>, i: nat)
    requires GoodCentres(n, pos) && i < |pos|
    ensures 2 <= pos[i] < n - 2
  {
    MiddleCentre(n, pos, i);
  }

  lemma AlignmentsEnds(base: Grid, pos: seq<nat>)
    ensures PaintAlignmentsTo(base, pos, 0, 0) == base
    ensures PaintAlignmentsTo(base, pos, |pos|, 0) == PaintAlignments(base, pos)
  {
  }

  lemma AlignmentsRow(base: Grid, pos: seq<nat>, b: int)
    ensures PaintAlignmentsTo(base, pos, b + 1, 0) == PaintAlignmentsTo(base, pos, b, |pos|)
  {
    hide AlignmentDark;
  }

  /** The test at a centre sees the grid before any alignment pattern. */
  lemma CentreUntouched(base: Grid, pos: seq<nat>, b: nat, c: nat)
    requires Spaced(pos) && b < |pos| && c < |pos| && (pos[b] as int, pos[c] as int) in base
    ensures PaintAlignmentsTo(base, pos, b, c)[(pos[b], pos[c])] == base[(pos[b], pos[c])]
  {
    hide AlignmentDark, Near;
    NearIs(pos, pos[b], b);
    NearIs(pos, pos[c], c);
  }

  predicate AroundCentre(pos: seq<nat>, b: nat, c: nat, cell: Cell)
    requires b < |pos| && c < |pos|
  {
    -2 <= cell.0 - pos[b] <= 2 && -2 <= cell.1 - pos[c] <= 2
  }

  lemma AroundIsNear(pos: seq<nat>, b: nat, c: nat, cell: Cell)
    requires Spaced(pos) && b < |pos| && c < |pos|
    ensures AroundCentre(pos, b, c, cell) <==> Near(pos, cell.0) == b && Near(pos, cell.1) == c
  {
    if AroundCentre(pos, b, c, cell) {
      NearIs(pos, cell.0, b);
      NearIs(pos, cell.1, c);
    }
  }

  lemma AlignmentCell(base: Grid, pos: seq<nat>, b: nat, c: nat, cell: Cell)
    requires Spaced(pos) && b < |pos| && c < |pos| && cell in base && (pos[b] as int, pos[c] as int) in base
    ensures PaintAlignmentsTo(base, pos, b, c + 1)[cell]
         == if base[(pos[b], pos[c])] == None && AroundCentre(pos, b, c, cell)
            then Some(AlignmentDark(cell.0 - pos[b], cell.1 - pos[c]))
            else PaintAlignmentsTo(base, pos, b, c)[cell]
  {
    hide AlignmentDark, Near, AroundCentre, Spaced, Square, PaintPattern;
    AroundIsNear(pos, b, c, cell);
  }

  lemma AlignmentsStep(base: Grid, pos: seq<nat>, b: nat, c: nat, n: nat)
    requires GoodCentres(n, pos) && b < |pos| && c < |pos| && (pos[b] as int, pos[c] as int) in base
    ensures var now := PaintAlignmentsTo(base, pos, b, c);
            PaintAlignmentsTo(base, pos, b, c + 1)
            == if now[(pos[b], pos[c])] == None then PaintPattern(now, pos[b], pos[c]) else now
  {
    hide AlignmentDark, PaintAlignmentsTo;
    CentreUntouched(base, pos, b, c);
    var now, next := PaintAlignmentsTo(base, pos, b, c), PaintAlignmentsTo(base, pos, b, c + 1);
    forall cell | cell in base
      ensures next[cell] == (if base[(pos[b], pos[c])] == None then PaintPattern(now, pos[b], pos[c]) else now)[cell]
    {
      AlignmentCell(base, pos, b, c, cell);
    }
  }

  /** The vertical timing pattern up to row a, the horizontal one up to column b. */
  function PaintTimingTo(g: Grid, a: int, b: int): (r: Grid)
    ensures r.Keys == g.Keys
  {
    map cell | cell in g ::
      if g[cell] == None && ((cell.1 == 6 && 8 <= cell.0 < a) || (cell.0 == 6 && 8 <= cell.1 < b))
      then Some((cell.0 + cell.1) % 2 == 0) else g[cell]
  }

  lemma TimingDown(g: Grid, n: nat, a: nat)
    requires g.Keys == Square(n) && 8 <= a < n
    ensures var now := PaintTimingTo(g, a, 8);
            PaintTimingTo(g, a + 1, 8) == if now[(a, 6)] == None then now[(a, 6) := Some(a % 2 == 0)] else now
  {
    hide Square;
  }

  lemma TimingAcross(g: Grid, n: nat, b: nat)
    requires g.Keys == Square(n) && 8 <= b < n
    ensures var now := PaintTimingTo(g, n - 8, b);
            PaintTimingTo(g, n - 8, b + 1) == if now[(6, b)] == None then now[(6, b) := Some(b % 2 == 0)] else now
  {
    hide Square;
  }

  lemma TimingDone(g: Grid, n: int)
    ensures PaintTimingTo(g, n - 8, n - 8) == PaintTiming(g, n)
  {
  }

  lemma NothingPainted(base: Grid, n: nat, test: bool, word: nat)
    ensures PaintTypeInfoTo(base, n, test, word, 0, 0, false) == base
    ensures PaintTypeNumberTo(base, n, test, word, 0, 0) == base
    ensures PaintTypeNumberTo(base, n, test, word, 18, 18) == PaintTypeNumber(base, n, test, word)
    ensures PaintTimingTo(base, 8, 8) == base
  {
    hide Bit, Square;
  }

  lemma TypeInfoVertical(base: Grid, n: nat, test: bool, word: nat, e: nat)
    requires base.Keys == Square(n) && n >= 21 && e < 15
    ensures VerticalRow(n, e) == if 6 > e then e else if 8 > e then e + 1 else n - 15 + e
    ensures TypeBit(test, word, e) == (!test && Bit(word, e))
    ensures PaintTypeInfoTo(base, n, test, word, e + 1, 0, false)
         == PaintTypeInfoTo(base, n, test, word, e, 0, false)[(VerticalRow(n, e), 8) := Some(TypeBit(test, word, e))]
  {
    hide Bit;
  }

  lemma TypeInfoHorizontal(base: Grid, n: nat, test: bool, word: nat, e: nat)
    requires base.Keys == Square(n) && n >= 21 && e < 15
    ensures HorizontalColumn(n, e) == if 8 > e then n - e - 1 else if 9 > e then 15 - e - 1 + 1 else 15 - e - 1
    ensures TypeBit(test, word, e) == (!test && Bit(word, e))
    ensures PaintTypeInfoTo(base, n, test, word, 15, e + 1, false)
         == PaintTypeInfoTo(base, n, test, word, 15, e, false)[(8, HorizontalColumn(n, e)) := Some(TypeBit(test, word, e))]
  {
    hide Bit;
  }

  lemma TypeInfoDark(base: Grid, n: nat, test: bool, word: nat)
    requires base.Keys == Square(n) && n >= 21
    ensures PaintTypeInfo(base, n, test, word)
         == PaintTypeInfoTo(base, n, test, word, 15, 15, false)[(n - 8, 8) := Some(!test)]
  {
    hide Bit;
  }

  lemma TypeNumberUpper(base: Grid, n: nat, test: bool, word: nat, c: nat)
    requires base.Keys == Square(n) && n >= 45 && c < 18
    ensures TypeBit(test, word, c) == (!test && Bit(word, c))
    ensures PaintTypeNumberTo(base, n, test, word, c + 1, 0)
         == PaintTypeNumberTo(base, n, test, word, c, 0)[(c / 3, c % 3 + n - 11) := Some(TypeBit(test, word, c))]
  {
    hide Bit;
  }

  lemma TypeNumberLower(base: Grid, n: nat, test: bool, word: nat, c: nat)
    requires base.Keys == Square(n) && n >= 45 && c < 18
    ensures TypeBit(test, word, c) == (!test && Bit(word, c))
    ensures PaintTypeNumberTo(base, n, test, word, 18, c + 1)
         == PaintTypeNumberTo(base, n, test, word, 18, c)[(c % 3 + n - 11, c / 3) := Some(TypeBit(test, word, c))]
  {
    hide Bit;
  }
}
