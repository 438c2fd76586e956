/**
 * The function modules of a symbol: what every setup routine paints, as
 * functions on grids, and the resulting layout.
 */
module Layout {
  import opened Wrappers
  import opened Gf2
  import opened Versions
  import opened Zigzag
  import Bch

  /** A module is dark, light, or still null. */
  type Module = Option<bool>
  type Grid = map<Cell, Module>

  function Square(n: nat): (s: set<Cell>)
    ensures forall cell :: cell in s <==> 0 <= cell.0 < n && 0 <= cell.1 < n
  {
    set r, c | 0 <= r < n && 0 <= c < n :: (r, c)
  }

  function Blank(n: nat): (g: Grid)
    ensures g.Keys == Square(n)
  {
    map cell | cell in Square(n) :: None
  }

  // Finder patterns with their separators.

  predicate InWindow(a: int, b: int, cell: Cell) {
    -1 <= cell.0 - a <= 7 && -1 <= cell.1 - b <= 7
  }

  predicate FinderDark(c: int, d: int) {
    || (0 <= c <= 6 && (d == 0 || d == 6))
    || (0 <= d <= 6 && (c == 0 || c == 6))
    || (2 <= c <= 4 && 2 <= d <= 4)
  }

  function Distance(x: int, y: int): (d: nat)
    ensures d >= x && d >= -x && d >= y && d >= -y
    ensures d in {x, -x, y, -y}
  {
    var a, b := if x < 0 then -x else x, if y < 0 then -y else y;
    if a < b then b else a
  }

  /** A finder pattern: concentric squares dark at the distances 0, 1 and 3 from the centre, light at 2 and 4. */
  lemma FinderIsConcentric(c: int, d: int)
    requires -1 <= c <= 7 && -1 <= d <= 7
    ensures FinderDark(c, d) <==> Distance(c - 3, d - 3) in {0, 1, 3}
  {
  }

  function PaintFinder(g: Grid, a: int, b: int): (r: Grid)
    ensures r.Keys == g.Keys
  {
    map cell | cell in g ::
      if InWindow(a, b, cell) then Some(FinderDark(cell.0 - a, cell.1 - b)) else g[cell]
  }

  // Alignment patterns.

  /** The centre within distance 2 of x, or -1. */
  function Near(pos: seq<nat>, x: int): (i: int)
    ensures -1 <= i < |pos|
    ensures i >= 0 ==> -2 <= x - pos[i] <= 2
  {
    if pos == [] then -1
    else if -2 <= x - pos[|pos| - 1] <= 2 then |pos| - 1
    else Near(pos[..|pos| - 1], x)
  }

  predicate Spaced(pos: seq<nat>) {
    forall i, j | 0 <= i < j < |pos| :: pos[i] + 12 <= pos[j]
  }

  lemma {:induction false} NearIs(pos: seq<nat>, x: int, i: nat)
    requires Spaced(pos) && i < |pos| && -2 <= x - pos[i] <= 2
    ensures Near(pos, x) == i
  {
    if i < |pos| - 1 {
      NearIs(pos[..|pos| - 1], x, i);
    }
  }

  predicate AlignmentDark(g: int, h: int) {
    g == -2 || g == 2 || h == -2 || h == 2 || (g == 0 && h == 0)
  }

  /** An alignment pattern: dark at the distances 0 and 2 from the centre, light at 1. */
  lemma AlignmentIsConcentric(g: int, h: int)
    requires -2 <= g <= 2 && -2 <= h <= 2
    ensures AlignmentDark(g, h) <==> Distance(g, h) in {0, 2}
  {
  }

  /** The 5 by 5 pattern around one centre. */
  function PaintPattern(g: Grid, d: int, e: int): (r: Grid)
    ensures r.Keys == g.Keys
  {
    map cell | cell in g ::
      if -2 <= cell.0 - d <= 2 && -2 <= cell.1 - e <= 2
      then Some(AlignmentDark(cell.0 - d, cell.1 - e)) else g[cell]
  }

  predicate NullAt(g: Grid, cell: Cell) {
    cell in g && g[cell] == None
  }

  /** Patterns around the centres before (b, c) in row order, wherever the centre was null. */
  function PaintAlignmentsTo(g: Grid, pos: seq<nat>, b: int, c: int): (r: Grid)
    ensures r.Keys == g.Keys
  {
    map cell | cell in g ::
      var i, j := Near(pos, cell.0), Near(pos, cell.1);
      if i >= 0 && j >= 0 && (i < b || (i == b && j < c)) && NullAt(g, (pos[i], pos[j]))
      then Some(AlignmentDark(cell.0 - pos[i], cell.1 - pos[j])) else g[cell]
  }

  function PaintAlignments(g: Grid, pos: seq<nat>): (r: Grid)
    ensures r.Keys == g.Keys
  {
    PaintAlignmentsTo(g, pos, |pos|, 0)
  }

  // Timing patterns.

  predicate OnTiming(n: int, cell: Cell) {
    (cell.1 == 6 && 8 <= cell.0 < n - 8) || (cell.0 == 6 && 8 <= cell.1 < n - 8)
  }

  function PaintTiming(g: Grid, n: int): (r: Grid)
    ensures r.Keys == g.Keys
  {
    map cell | cell in g ::
      if OnTiming(n, cell) && g[cell] == None then Some((cell.0 + cell.1) % 2 == 0) else g[cell]
  }

  // Format information.

  /** Row of bit e of the vertical copy, column of bit e of the horizontal copy. */
  function VerticalRow(n: int, e: int): int {
    if e < 6 then e else if e < 8 then e + 1 else n - 15 + e
  }

  function HorizontalColumn(n: int, e: int): int {
    if e < 8 then n - e - 1 else if e < 9 then 15 - e else 14 - e
  }

  function VerticalBit(n: int, r: int): int {
    if 0 <= r < 6 then r else if 7 <= r <= 8 then r - 1 else if r >= n - 7 then r - n + 15 else -1
  }

  function HorizontalBit(n: int, c: int): int {
    if n - 8 <= c < n then n - 1 - c else if c == 7 then 8 else if 0 <= c < 6 then 14 - c else -1
  }

  lemma FormatPlaces(n: int, e: int)
    requires n >= 21 && 0 <= e < 15
    ensures VerticalBit(n, VerticalRow(n, e)) == e && HorizontalBit(n, HorizontalColumn(n, e)) == e
    ensures 0 <= VerticalRow(n, e) < n && 0 <= HorizontalColumn(n, e) < n
    ensures VerticalRow(n, e) != n - 8 && VerticalRow(n, e) != 6 && HorizontalColumn(n, e) !in {6, 8}
  {
  }

  predicate TypeBit(test: bool, word: nat, e: int)
    requires e >= 0
  {
    !test && Bit(word, e)
  }

  /** The vertical copy up to bit i, the horizontal copy up to bit j, then the dark module. */
  function PaintTypeInfoTo(g: Grid, n: int, test: bool, word: nat, i: int, j: int, dark: bool): (r: Grid)
    ensures r.Keys == g.Keys
  {
    map cell | cell in g ::
      var e, f := VerticalBit(n, cell.0), HorizontalBit(n, cell.1);
      if dark && cell == (n - 8, 8) then Some(!test)
      else if cell.0 == 8 && 0 <= f < j then Some(TypeBit(test, word, f))
      else if cell.1 == 8 && 0 <= e < i then Some(TypeBit(test, word, e))
      else g[cell]
  }

  function PaintTypeInfo(g: Grid, n: int, test: bool, word: nat): (r: Grid)
    ensures r.Keys == g.Keys
  {
    PaintTypeInfoTo(g, n, test, word, 15, 15, true)
  }

  // Version information.

  /** Bit of the version word stored at a cell of its upper right copy, or -1. */
  function VersionBit(n: int, r: int, c: int): int {
    if 0 <= r < 6 && n - 11 <= c <= n - 9 then 3 * r + c - (n - 11) else -1
  }

  function PaintTypeNumberTo(g: Grid, n: int, test: bool, word: nat, i: int, j: int): (r: Grid)
    ensures r.Keys == g.Keys
  {
    map cell | cell in g ::
      var e, f := VersionBit(n, cell.0, cell.1), VersionBit(n, cell.1, cell.0);
      if 0 <= f < j then Some(TypeBit(test, word, f))
      else if 0 <= e < i then Some(TypeBit(test, word, e))
      else g[cell]
  }

  function PaintTypeNumber(g: Grid, n: int, test: bool, word: nat): (r: Grid)
    ensures r.Keys == g.Keys
  {
    PaintTypeNumberTo(g, n, test, word, 18, 18)
  }

  // The whole setup, stage by stage.

  function Finders(n: nat): (g: Grid)
    ensures g.Keys == Square(n)
  {
    PaintFinder(PaintFinder(PaintFinder(Blank(n), 0, 0), n - 7, 0), 0, n - 7)
  }

  function Timed(n: nat, pos: seq<nat>): (g: Grid)
    ensures g.Keys == Square(n)
  {
    PaintTiming(PaintAlignments(Finders(n), pos), n)
  }

  /** The grid before any data is placed. Level M has the code 0, so `mask` is the format data. */
  function Setup(v: nat, test: bool, mask: nat): (g: Grid)
    requires IsVersion(v)
    ensures g.Keys == Square(Size(v))
  {
    var n := Size(v);
    var g := PaintTypeInfo(Timed(n, PatternPosition(v)), n, test, Bch.TypeInfo(mask));
    if v >= 7 then PaintTypeNumber(g, n, test, Bch.TypeNumber(v)) else g
  }

  // The layout a reader assumes, from the size alone.

  predicate InCorner(n: int, cell: Cell) {
    || (cell.0 <= 8 && cell.1 <= 8)
    || (cell.0 <= 8 && cell.1 >= n - 8)
    || (cell.0 >= n - 8 && cell.1 <= 8)
  }

  /** Indices of the three would-be centres that fall on the finder patterns. */
  predicate AtFinder(m: int, i: int, j: int) {
    (i == 0 && j == 0) || (i == 0 && j == m - 1) || (i == m - 1 && j == 0)
  }

  predicate InAlignment(pos: seq<nat>, cell: Cell) {
    var i, j := Near(pos, cell.0), Near(pos, cell.1);
    i >= 0 && j >= 0 && !AtFinder(|pos|, i, j)
  }

  predicate InVersionArea(n: int, cell: Cell) {
    || (cell.0 <= 5 && n - 11 <= cell.1 <= n - 9)
    || (cell.1 <= 5 && n - 11 <= cell.0 <= n - 9)
  }

  /** A cell that carries no data. */
  predicate IsFunction(n: int, pos: seq<nat>, cell: Cell) {
    || InCorner(n, cell)
    || cell.0 == 6 || cell.1 == 6
    || InAlignment(pos, cell)
    || (n >= 45 && InVersionArea(n, cell))
  }

  /** What the table of alignment centres guarantees for a symbol of size n. */
  predicate GoodCentres(n: int, pos: seq<nat>) {
    && Spaced(pos)
    && n >= 21 && n % 2 == 1
    && (pos != [] ==> |pos| >= 2 && pos[0] == 6 && pos[|pos| - 1] == n - 7 && n >= 25)
    && (n >= 45 ==> |pos| >= 3 && pos[|pos| - 2] + 16 <= n - 7)
    && (n < 45 ==> |pos| <= 2)
  }

  lemma LastGap(v: nat)
    requires 7 <= v <= 40
    ensures |PatternPosition(v)| >= 3
    ensures PatternPosition(v)[|PatternPosition(v)| - 2] + 16 <= Size(v) - 7
  {
  }

  lemma VersionCentres(v: nat)
    requires IsVersion(v)
    ensures GoodCentres(Size(v), PatternPosition(v))
  {
    hide PatternPosition;
    PositionCount(v);
    if v > 1 {
      PositionEnds(v);
    }
    if v >= 7 {
      LastGap(v);
    }
    forall i, j | 0 <= i < j < |PatternPosition(v)|
      ensures PatternPosition(v)[i] + 12 <= PatternPosition(v)[j]
    {
      PositionOrder(v, i, j);
    }
  }

  /** A centre between the first and the last keeps 12 modules from both. */
  lemma MiddleCentre(n: int, pos: seq<nat>, i: nat)
    requires GoodCentres(n, pos) && i < |pos|
    ensures pos[i] == 6 || 18 <= pos[i] <= n - 7
    ensures pos[i] == 6 <==> i == 0
    ensures pos[i] == n - 7 <==> i == |pos| - 1
    ensures i < |pos| - 1 ==> pos[i] <= n - 19
    ensures n >= 45 && i < |pos| - 1 ==> pos[i] <= n - 23
  {
    if 0 < i {
      assert pos[0] + 12 <= pos[i];
    }
    if i < |pos| - 1 {
      assert pos[i] + 12 <= pos[|pos| - 1];
      if i < |pos| - 2 {
        assert pos[i] + 12 <= pos[|pos| - 2];
      }
    }
  }

  lemma FindersAt(n: nat, cell: Cell)
    requires n >= 21 && cell in Square(n)
    ensures Finders(n)[cell]
         == if cell.0 <= 7 && cell.1 <= 7 then Some(FinderDark(cell.0, cell.1))
            else if cell.0 >= n - 8 && cell.1 <= 7 then Some(FinderDark(cell.0 - (n - 7), cell.1))
            else if cell.0 <= 7 && cell.1 >= n - 8 then Some(FinderDark(cell.0, cell.1 - (n - 7)))
            else None
  {
    hide FinderDark, Square;
  }

  /** A centre is null after the finder patterns exactly when it is not one of the three on them. */
  lemma CentreIsNull(n: nat, pos: seq<nat>, i: nat, j: nat)
    requires GoodCentres(n, pos) && i < |pos| && j < |pos|
    ensures NullAt(Finders(n), (pos[i], pos[j])) <==> !AtFinder(|pos|, i, j)
  {
    hide Finders, Square, FinderDark;
    MiddleCentre(n, pos, i);
    MiddleCentre(n, pos, j);
    assert (pos[i] as int, pos[j] as int) in Square(n);
    FindersAt(n, (pos[i], pos[j]));
  }

  /** An alignment pattern stays clear of the corners and of the version areas. */
  lemma AlignmentClear(n: nat, pos: seq<nat>, cell: Cell)
    requires GoodCentres(n, pos) && InAlignment(pos, cell)
    ensures !InCorner(n, cell)
    ensures n >= 45 ==> !InVersionArea(n, cell)
    ensures 4 <= cell.0 < n && 4 <= cell.1 < n
  {
    var i, j := Near(pos, cell.0), Near(pos, cell.1);
    MiddleCentre(n, pos, i);
    MiddleCentre(n, pos, j);
  }

  // The layout of the finished setup.

  predicate InFinderArea(n: int, cell: Cell) {
    || (cell.0 <= 7 && cell.1 <= 7)
    || (cell.0 >= n - 8 && cell.1 <= 7)
    || (cell.0 <= 7 && cell.1 >= n - 8)
  }

  lemma AlignedNull(n: nat, pos: seq<nat>, cell: Cell)
    requires GoodCentres(n, pos) && cell in Square(n)
    ensures PaintAlignments(Finders(n), pos)[cell] == None <==> !InFinderArea(n, cell) && !InAlignment(pos, cell)
    ensures InAlignment(pos, cell) ==> Finders(n)[cell] == None
    ensures !InAlignment(pos, cell) ==> PaintAlignments(Finders(n), pos)[cell] == Finders(n)[cell]
  {
    hide Finders, Square, FinderDark, AlignmentDark;
    FindersAt(n, cell);
    var i, j := Near(pos, cell.0), Near(pos, cell.1);
    if i >= 0 && j >= 0 {
      CentreIsNull(n, pos, i, j);
    }
    if InAlignment(pos, cell) {
      AlignmentClear(n, pos, cell);
    }
  }

  lemma TimedNull(n: nat, pos: seq<nat>, cell: Cell)
    requires GoodCentres(n, pos) && cell in Square(n)
    ensures Timed(n, pos)[cell] == None
        <==> !InFinderArea(n, cell) && !InAlignment(pos, cell) && !OnTiming(n, cell)
  {
    hide Finders, Square, PaintAlignments, InAlignment;
    AlignedNull(n, pos, cell);
  }

  predicate InFormatArea(n: int, cell: Cell) {
    || cell == (n - 8, 8)
    || (cell.0 == 8 && HorizontalBit(n, cell.1) >= 0)
    || (cell.1 == 8 && VerticalBit(n, cell.0) >= 0)
  }

  lemma CornerParts(n: nat, cell: Cell)
    requires n >= 21 && cell in Square(n)
    ensures InCorner(n, cell) || cell.0 == 6 || cell.1 == 6
        <==> InFinderArea(n, cell) || InFormatArea(n, cell) || OnTiming(n, cell)
    ensures InFormatArea(n, cell) ==> InCorner(n, cell) && !InFinderArea(n, cell) && !OnTiming(n, cell)
    ensures HorizontalBit(n, cell.1) < 15 && VerticalBit(n, cell.0) < 15
  {
  }

  /** Format information is written over null modules only. */
  lemma FormatNull(n: nat, pos: seq<nat>, test: bool, word: nat, cell: Cell)
    requires GoodCentres(n, pos) && cell in Square(n)
    ensures InFormatArea(n, cell) ==> Timed(n, pos)[cell] == None
    ensures !InFormatArea(n, cell) ==> PaintTypeInfo(Timed(n, pos), n, test, word)[cell] == Timed(n, pos)[cell]
    ensures PaintTypeInfo(Timed(n, pos), n, test, word)[cell] == None
        <==> !InCorner(n, cell) && cell.0 != 6 && cell.1 != 6 && !InAlignment(pos, cell)
  {
    hide Timed, Square, InAlignment;
    TimedNull(n, pos, cell);
    CornerParts(n, cell);
    if InAlignment(pos, cell) {
      AlignmentClear(n, pos, cell);
    }
  }

  /** Version information is written over null modules only. */
  lemma VersionNull(n: nat, pos: seq<nat>, test: bool, word: nat, word': nat, cell: Cell)
    requires GoodCentres(n, pos) && n >= 45 && cell in Square(n)
    ensures var g := PaintTypeInfo(Timed(n, pos), n, test, word);
            && (InVersionArea(n, cell) ==> g[cell] == None)
            && (!InVersionArea(n, cell) ==> PaintTypeNumber(g, n, test, word')[cell] == g[cell])
            && (PaintTypeNumber(g, n, test, word')[cell] == None
                <==> g[cell] == None && !InVersionArea(n, cell))
  {
    hide PaintTypeInfo, Timed, Square, InAlignment;
    FormatNull(n, pos, test, word, cell);
    if InAlignment(pos, cell) {
      AlignmentClear(n, pos, cell);
    }
  }

  /** The null modules after the setup are those a reader expects to carry data, for every mask and test flag. */
  lemma SetupLayout(v: nat, test: bool, mask: nat, cell: Cell)
    requires IsVersion(v) && cell in Square(Size(v))
    ensures Setup(v, test, mask)[cell] == None <==> !IsFunction(Size(v), PatternPosition(v), cell)
  {
    hide PatternPosition, PaintTypeInfo, PaintTypeNumber, Timed, Square, InAlignment;
    var n, pos := Size(v), PatternPosition(v);
    VersionCentres(v);
    FormatNull(n, pos, test, Bch.TypeInfo(mask), cell);
    if v >= 7 {
      VersionNull(n, pos, test, Bch.TypeInfo(mask), Bch.TypeNumber(v), cell);
    }
  }

  /** No setup stage changes a module that an earlier stage has painted. */
  lemma NeverOverwritten(v: nat, test: bool, mask: nat, cell: Cell)
    requires IsVersion(v) && cell in Square(Size(v))
    ensures var n := Size(v);
            var aligned := PaintAlignments(Finders(n), PatternPosition(v));
            && (Finders(n)[cell] != None ==> aligned[cell] == Finders(n)[cell])
            && (aligned[cell] != None ==> Timed(n, PatternPosition(v))[cell] == aligned[cell])
            && (Timed(n, PatternPosition(v))[cell] != None
                ==> Setup(v, test, mask)[cell] == Timed(n, PatternPosition(v))[cell])
            && var informed := PaintTypeInfo(Timed(n, PatternPosition(v)), n, test, Bch.TypeInfo(mask));
               (informed[cell] != None ==> Setup(v, test, mask)[cell] == informed[cell])
  {
    hide PatternPosition, PaintTypeInfo, PaintTypeNumber, Square, InAlignment, PaintAlignments, Finders;
    var n, pos := Size(v), PatternPosition(v);
    VersionCentres(v);
    AlignedNull(n, pos, cell);
    FormatNull(n, pos, test, Bch.TypeInfo(mask), cell);
    if v >= 7 {
      VersionNull(n, pos, test, Bch.TypeInfo(mask), Bch.TypeNumber(v), cell);
    }
  }

  /** A module is painted, dark or light. */
  predicate Holds(g: Grid, cell: Cell, dark: bool) {
    cell in g && g[cell] == Some(dark)
  }

  /** Both copies of the format information read back to the word; in a test symbol they are light. */
  lemma FormatReadBack(v: nat, test: bool, mask: nat, e: int)
    requires IsVersion(v) && 0 <= e < 15
    ensures var n := Size(v);
            && (VerticalRow(n, e), 8) in Square(n) && (8, HorizontalColumn(n, e)) in Square(n)
            && Setup(v, test, mask)[(VerticalRow(n, e), 8)] == Some(!test && Bit(Bch.TypeInfo(mask), e))
            && Setup(v, test, mask)[(8, HorizontalColumn(n, e))] == Some(!test && Bit(Bch.TypeInfo(mask), e))
  {
    hide PatternPosition, Timed, Square, Bch.TypeInfo, Bit;
    var n, pos := Size(v), PatternPosition(v);
    FormatPlaces(n, e);
    FormatAt(Timed(n, pos), n, test, Bch.TypeInfo(mask), e);
  }

  lemma FormatAt(g: Grid, n: nat, test: bool, word: nat, e: int)
    requires n >= 21 && g.Keys == Square(n) && 0 <= e < 15
    ensures (VerticalRow(n, e), 8) in g && (8, HorizontalColumn(n, e)) in g
    ensures PaintTypeInfo(g, n, test, word)[(VerticalRow(n, e), 8)] == Some(!test && Bit(word, e))
    ensures PaintTypeInfo(g, n, test, word)[(8, HorizontalColumn(n, e))] == Some(!test && Bit(word, e))
  {
    hide Bit;
    FormatPlaces(n, e);
  }

  /** Both copies of the version information read back to the word; in a test symbol they are light. */
  lemma VersionReadBack(v: nat, test: bool, mask: nat, e: int)
    requires 7 <= v <= 40 && 0 <= e < 18
    ensures Holds(Setup(v, test, mask), (e / 3, e % 3 + 4 * v + 6), !test && Bit(Bch.TypeNumber(v), e))
    ensures Holds(Setup(v, test, mask), (e % 3 + 4 * v + 6, e / 3), !test && Bit(Bch.TypeNumber(v), e))
  {
    hide PatternPosition, Timed, Bch.TypeInfo, Bch.TypeNumber, Bit, PaintTypeInfo, PaintTypeNumber, Square;
    var n := Size(v);
    var g := PaintTypeInfo(Timed(n, PatternPosition(v)), n, test, Bch.TypeInfo(mask));
    NumberAt(g, n, test, Bch.TypeNumber(v), e);
  }

  lemma NumberAt(g: Grid, n: nat, test: bool, word: nat, e: int)
    requires n >= 45 && g.Keys == Square(n) && 0 <= e < 18
    ensures (e / 3, e % 3 + n - 11) in g && (e % 3 + n - 11, e / 3) in g
    ensures PaintTypeNumber(g, n, test, word)[(e / 3, e % 3 + n - 11)] == Some(!test && Bit(word, e))
    ensures PaintTypeNumber(g, n, test, word)[(e % 3 + n - 11, e / 3)] == Some(!test && Bit(word, e))
  {
    hide Bit;
    NumberPlaces(n, e);
    InBothAreas(n, e);
  }

  lemma NumberPlaces(n: int, e: int)
    requires n >= 45 && 0 <= e < 18
    ensures VersionBit(n, e / 3, e % 3 + n - 11) == e && VersionBit(n, e % 3 + n - 11, e / 3) == -1
  {
  }

  lemma InBothAreas(n: nat, e: int)
    requires n >= 45 && 0 <= e < 18
    ensures (e / 3, e % 3 + n - 11) in Square(n) && (e % 3 + n - 11, e / 3) in Square(n)
  {
  }

  // The finished setup, module by module, in the standard's own terms.

  /** Row of bit e beside the upper left finder pattern, column of bit e in row 8: figure 25 of ISO/IEC 18004:2015. */
  function FormatRow(n: int, e: nat): int
    requires e < 15
  {
    [0, 1, 2, 3, 4, 5, 7, 8, n - 7, n - 6, n - 5, n - 4, n - 3, n - 2, n - 1][e]
  }

  function FormatColumn(n: int, e: nat): int
    requires e < 15
  {
    [n - 1, n - 2, n - 3, n - 4, n - 5, n - 6, n - 7, n - 8, 7, 5, 4, 3, 2, 1, 0][e]
  }

  lemma FormatPlacesAre(n: int, e: nat)
    requires e < 15
    ensures VerticalRow(n, e) == FormatRow(n, e) && HorizontalColumn(n, e) == FormatColumn(n, e)
  {
  }

  /** The format information stands where the standard puts it, twice, beside a dark module; a test symbol has light modules there. */
  lemma FormatModules(v: nat, test: bool, mask: nat, e: nat)
    requires IsVersion(v) && e < 15
    ensures Holds(Setup(v, test, mask), (FormatRow(4 * v + 17, e), 8), !test && Bit(Bch.TypeInfo(mask), e))
    ensures Holds(Setup(v, test, mask), (8, FormatColumn(4 * v + 17, e)), !test && Bit(Bch.TypeInfo(mask), e))
    ensures Holds(Setup(v, test, mask), (4 * v + 17 - 8, 8), !test)
  {
    hide PatternPosition, Timed, Square, Bch.TypeInfo, Bch.TypeNumber, Bit, PaintTypeNumber, FormatRow, FormatColumn,
         VerticalRow, HorizontalColumn, Setup;
    FormatPlacesAre(Size(v), e);
    FormatReadBack(v, test, mask, e);
    DarkModule(v, test, mask);
  }

  lemma DarkModule(v: nat, test: bool, mask: nat)
    requires IsVersion(v)
    ensures Holds(Setup(v, test, mask), (Size(v) - 8, 8), !test)
  {
    hide PatternPosition, Timed, Bch.TypeInfo, Bch.TypeNumber, Bit;
  }

  /** The three finder patterns, by the distance from their centres. */
  lemma FinderModules(v: nat, test: bool, mask: nat, cell: Cell)
    requires IsVersion(v) && cell in Square(Size(v))
    ensures var n := 4 * v + 17;
            var g := Setup(v, test, mask);
            && (cell.0 <= 7 && cell.1 <= 7 ==>
                  g[cell] == Some(Distance(cell.0 - 3, cell.1 - 3) in {0, 1, 3}))
            && (cell.0 >= n - 8 && cell.1 <= 7 ==>
                  g[cell] == Some(Distance(cell.0 - (n - 4), cell.1 - 3) in {0, 1, 3}))
            && (cell.0 <= 7 && cell.1 >= n - 8 ==>
                  g[cell] == Some(Distance(cell.0 - 3, cell.1 - (n - 4)) in {0, 1, 3}))
  {
    hide PatternPosition, Setup, Square, FinderDark, Finders, Timed, PaintAlignments, PaintTypeInfo, Distance;
    var n := Size(v);
    FindersAt(n, cell);
    NeverOverwritten(v, test, mask, cell);
    if cell.0 <= 7 && cell.1 <= 7 {
      FinderIsConcentric(cell.0, cell.1);
    } else if cell.0 >= n - 8 && cell.1 <= 7 {
      FinderIsConcentric(cell.0 - (n - 7), cell.1);
    } else if cell.0 <= 7 && cell.1 >= n - 8 {
      FinderIsConcentric(cell.0, cell.1 - (n - 7));
    }
  }

  lemma PaintedAt(g: Grid, pos: seq<nat>, i: nat, j: nat, cell: Cell)
    requires cell in g && i < |pos| && j < |pos| && Near(pos, cell.0) == i && Near(pos, cell.1) == j
    requires NullAt(g, (pos[i], pos[j]))
    ensures PaintAlignments(g, pos)[cell] == Some(AlignmentDark(cell.0 - pos[i], cell.1 - pos[j]))
  {
    hide AlignmentDark, Near, NullAt;
  }

  lemma AlignedAt(n: nat, pos: seq<nat>, i: nat, j: nat, cell: Cell)
    requires GoodCentres(n, pos) && cell in Square(n) && i < |pos| && j < |pos| && !AtFinder(|pos|, i, j)
    requires -2 <= cell.0 - pos[i] <= 2 && -2 <= cell.1 - pos[j] <= 2
    ensures PaintAlignments(Finders(n), pos)[cell] == Some(AlignmentDark(cell.0 - pos[i], cell.1 - pos[j]))
  {
    hide Finders, Square, AlignmentDark, Near, NullAt, AtFinder, PaintAlignments;
    NearIs(pos, cell.0, i);
    NearIs(pos, cell.1, j);
    CentreIsNull(n, pos, i, j);
    PaintedAt(Finders(n), pos, i, j, cell);
  }

  /** An alignment pattern around every centre but the three on finder patterns. */
  lemma AlignmentModules(v: nat, test: bool, mask: nat, i: nat, j: nat, cell: Cell)
    requires IsVersion(v) && cell in Square(Size(v))
    requires i < |PatternPosition(v)| && j < |PatternPosition(v)| && !AtFinder(|PatternPosition(v)|, i, j)
    requires -2 <= cell.0 - PatternPosition(v)[i] <= 2 && -2 <= cell.1 - PatternPosition(v)[j] <= 2
    ensures Setup(v, test, mask)[cell]
         == Some(Distance(cell.0 - PatternPosition(v)[i], cell.1 - PatternPosition(v)[j]) in {0, 2})
  {
    hide PatternPosition, Setup, Square, AlignmentDark, Finders, Timed, PaintAlignments, PaintTypeInfo, Distance, AtFinder;
    var pos := PatternPosition(v);
    VersionCentres(v);
    AlignedAt(Size(v), pos, i, j, cell);
    AlignmentIsConcentric(cell.0 - pos[i], cell.1 - pos[j]);
    NeverOverwritten(v, test, mask, cell);
  }

  lemma CentreEven(v: nat, i: nat)
    requires IsVersion(v) && i < |PatternPosition(v)|
    ensures PatternPosition(v)[i] % 2 == 0
  {
    hide PatternPosition, CentreStep;
    PositionCount(v);
    PositionLaw(v, i);
    StepEven(v);
    EvenTimes(CentreStep(v), v / 7 + 1 - i);
  }

  lemma StepEven(v: nat)
    requires 2 <= v <= 40
    ensures CentreStep(v) % 2 == 0
  {
  }

  lemma EvenTimes(a: nat, k: int)
    requires a % 2 == 0
    ensures a * k % 2 == 0
  {
    var h := a / 2;
    assert a == 2 * h;
    assert 2 * h * k == 2 * (h * k);
  }

  /** Both timing lines alternate, dark on even places, also where an alignment pattern crosses them. */
  lemma TimingAlternates(v: nat, test: bool, mask: nat, c: int)
    requires IsVersion(v) && 8 <= c < 4 * v + 17 - 8
    ensures Holds(Setup(v, test, mask), (6, c), c % 2 == 0) && Holds(Setup(v, test, mask), (c, 6), c % 2 == 0)
  {
    hide PatternPosition, Setup, Square, Finders, PaintTypeInfo;
    var n, pos := Size(v), PatternPosition(v);
    VersionCentres(v);
    TimedAlternates(v, c);
    NeverOverwritten(v, test, mask, (6, c));
    NeverOverwritten(v, test, mask, (c, 6));
  }

  lemma TimedAlternates(v: nat, c: int)
    requires IsVersion(v) && 8 <= c < Size(v) - 8
    ensures (6, c) in Square(Size(v)) && (c, 6) in Square(Size(v))
    ensures Timed(Size(v), PatternPosition(v))[(6, c)] == Some(c % 2 == 0)
    ensures Timed(Size(v), PatternPosition(v))[(c, 6)] == Some(c % 2 == 0)
  {
    hide PatternPosition, Finders, PaintAlignments, FinderDark, InAlignment;
    var n, pos := Size(v), PatternPosition(v);
    VersionCentres(v);
    FindersAt(n, (6, c));
    FindersAt(n, (c, 6));
    AlignedNull(n, pos, (6, c));
    AlignedNull(n, pos, (c, 6));
    if InAlignment(pos, (6, c)) {
      CrossingAlternates(v, (6, c));
    }
    if InAlignment(pos, (c, 6)) {
      CrossingAlternates(v, (c, 6));
    }
  }

  /** Where an alignment pattern lies over a timing line, its middle row or column alternates as well. */
  lemma CrossingAlternates(v: nat, cell: Cell)
    requires IsVersion(v) && cell in Square(Size(v)) && InAlignment(PatternPosition(v), cell)
    requires (cell.0 == 6 && cell.1 >= 8) || (cell.1 == 6 && cell.0 >= 8)
    ensures PaintAlignments(Finders(Size(v)), PatternPosition(v))[cell]
         == Some((if cell.0 == 6 then cell.1 else cell.0) % 2 == 0)
  {
    hide PatternPosition, Finders, PaintAlignments, Square;
    var pos := PatternPosition(v);
    VersionCentres(v);
    var i, j := Near(pos, cell.0), Near(pos, cell.1);
    MiddleCentre(Size(v), pos, i);
    MiddleCentre(Size(v), pos, j);
    CentreEven(v, i);
    CentreEven(v, j);
    AlignedAt(Size(v), pos, i, j, cell);
  }
}
