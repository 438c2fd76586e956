/**
 * The QR model object: the module matrix is filled in place, first the
 * function patterns, then the masked codewords.
 */
module QrCode {
  import opened Wrappers
  import opened Gf2
  import opened Galois
  import opened GaloisTables
  import opened Versions
  import opened DataStream
  import opened Zigzag
  import opened Layout
  import opened Painting
  import opened Placement
  import opened Symbols
  import Bch

  class QRCode {
    const typeNumber: nat
    var modules: array2<Module>
    var moduleCount: nat
    var dataCache: Option<seq<Byte>>
    var dataList: seq<Segment>
    ghost var grid: Grid

    /** The ghost grid mirrors the matrix. */
    ghost predicate Valid()
      reads this`modules, this`moduleCount, this`grid, modules
    {
      && modules.Length0 == modules.Length1 == moduleCount
      && grid.Keys == Square(moduleCount)
      && forall r, c | 0 <= r < moduleCount && 0 <= c < moduleCount :: grid[(r, c)] == modules[r, c]
    }

    constructor (typeNumber: nat)
      ensures this.typeNumber == typeNumber && dataCache == None && dataList == []
      ensures Valid() && fresh(modules) && moduleCount == 0
    {
      this.typeNumber := typeNumber;
      modules := new Module[0, 0];
      moduleCount := 0;
      dataCache := None;
      dataList := [];
      grid := map[];
    }

    method AddData(text: string)
      requires IsAscii(text)
      modifies this`dataList, this`dataCache
      ensures dataList == old(dataList) + [TextSegment(text)] && dataCache == None
    {
      var c := NewSegment(text);
      dataList, dataCache := dataList + [c], None;
    }

    lemma Shape()
      requires Valid()
      ensures grid.Keys == Square(moduleCount)
    {
    }

    /** The module at (r, c), as `isDark` reads it. */
    function ModuleAt(r: int, c: int): (x: Module)
      requires Valid() && (r, c) in Square(moduleCount)
      reads this, modules
      ensures (r, c) in grid && x == grid[(r, c)]
    {
      modules[r, c]
    }

    method SetModule(r: int, c: int, x: Module)
      requires Valid() && (r, c) in Square(moduleCount)
      modifies modules, this`grid
      ensures Valid() && grid == old(grid)[(r, c) := x]
    {
      modules[r, c] := x;
      grid := grid[(r, c) := x];
    }

    method ClearModules()
      modifies this`modules, this`moduleCount, this`grid
      ensures Valid() && fresh(modules)
      ensures moduleCount == Size(typeNumber) && grid == Blank(moduleCount)
    {
      moduleCount := 4 * typeNumber + 17;
      modules := new Module[moduleCount, moduleCount]((r, c) => None);
      grid := Blank(moduleCount);
    }

    method SetupPositionProbePattern(a: int, b: int)
      requires Valid()
      modifies modules, this`grid
      ensures Valid() && grid == PaintFinder(old(grid), a, b)
    {
      hide *;
      ghost var g := grid;
      Shape();
      FinderDone(g, a, b);
      for c := -1 to 8
        invariant Valid() && grid == PaintFinderTo(g, a, b, c, -1)
      {
        if !(-1 >= a + c || moduleCount <= a + c) {
          for d := -1 to 8
            invariant Valid() && grid == PaintFinderTo(g, a, b, c, d)
          {
            FinderStep(g, a, b, c, d, moduleCount);
            if !(-1 >= b + d || moduleCount <= b + d) {
              InSquare(moduleCount, a + c, b + d);
              SetModule(a + c, b + d, Some(FinderDark(c, d)));
            }
          }
        }
        FinderRow(g, a, b, c, moduleCount);
      }
    }

    method PaintPatternAt(d: int, e: int)
      requires Valid() && 2 <= d < moduleCount - 2 && 2 <= e < moduleCount - 2
      modifies modules, this`grid
      ensures Valid() && grid == PaintPattern(old(grid), d, e)
    {
      hide *;
      ghost var base := grid;
      Shape();
      PatternDone(base, d, e);
      for g := -2 to 3
        invariant Valid() && grid == PaintPatternTo(base, d, e, g, -2)
      {
        for h := -2 to 3
          invariant Valid() && grid == PaintPatternTo(base, d, e, g, h)
        {
          InSquare(moduleCount, d + g, e + h);
          PatternStep(base, d, e, g, h, moduleCount);
          SetModule(d + g, e + h, Some(AlignmentDark(g, h)));
        }
        PatternRow(base, d, e, g);
      }
    }

    method SetupPositionAdjustPattern(pos: seq<nat>)
      requires Valid() && GoodCentres(moduleCount, pos)
      modifies modules, this`grid
      ensures Valid() && grid == PaintAlignments(old(grid), pos)
    {
      hide *;
      ghost var base := grid;
      Shape();
      AlignmentsEnds(base, pos);
      for b := 0 to |pos|
        invariant Valid() && grid == PaintAlignmentsTo(base, pos, b, 0)
      {
        for c := 0 to |pos|
          invariant Valid() && grid == PaintAlignmentsTo(base, pos, b, c)
        {
          var d, e := pos[b], pos[c];
          CentreInside(moduleCount, pos, b);
          CentreInside(moduleCount, pos, c);
          InSquare(moduleCount, d, e);
          AlignmentsStep(base, pos, b, c, moduleCount);
          if ModuleAt(d, e) == None {
            PaintPatternAt(d, e);
          }
        }
        AlignmentsRow(base, pos, b);
      }
    }

    method SetupTimingPattern()
      requires Valid() && moduleCount >= 21
      modifies modules, this`grid
      ensures Valid() && grid == PaintTiming(old(grid), moduleCount)
    {
      hide *;
      ghost var g := grid;
      Shape();
      NothingPainted(g, moduleCount, false, 0);
      for a := 8 to moduleCount - 8
        invariant Valid() && grid == PaintTimingTo(g, a, 8)
      {
        InSquare(moduleCount, a, 6);
        TimingDown(g, moduleCount, a);
        if ModuleAt(a, 6) == None {
          SetModule(a, 6, Some(a % 2 == 0));
        }
      }
      for b := 8 to moduleCount - 8
        invariant Valid() && grid == PaintTimingTo(g, moduleCount - 8, b)
      {
        InSquare(moduleCount, 6, b);
        TimingAcross(g, moduleCount, b);
        if ModuleAt(6, b) == None {
          SetModule(6, b, Some(b % 2 == 0));
        }
      }
      TimingDone(g, moduleCount);
    }

    method SetupTypeInfoVertical(test: bool, d: nat)
      requires Valid() && moduleCount >= 21
      modifies modules, this`grid
      ensures Valid() && grid == PaintTypeInfoTo(old(grid), moduleCount, test, d, 15, 0, false)
    {
      hide *;
      ghost var base := grid;
      Shape();
      NothingPainted(base, moduleCount, test, d);
      for e := 0 to 15
        invariant Valid() && grid == PaintTypeInfoTo(base, moduleCount, test, d, e, 0, false)
      {
        var g := !test && Bit(d, e);
        TypeInfoVertical(base, moduleCount, test, d, e);
        if 6 > e {
          InSquare(moduleCount, e, 8);
          SetModule(e, 8, Some(g));
        } else if 8 > e {
          InSquare(moduleCount, e + 1, 8);
          SetModule(e + 1, 8, Some(g));
        } else {
          InSquare(moduleCount, moduleCount - 15 + e, 8);
          SetModule(moduleCount - 15 + e, 8, Some(g));
        }
      }
    }

    method SetupTypeInfoHorizontal(test: bool, d: nat, ghost base: Grid)
      requires Valid() && moduleCount >= 21
      requires base.Keys == Square(moduleCount)
      requires grid == PaintTypeInfoTo(base, moduleCount, test, d, 15, 0, false)
      modifies modules, this`grid
      ensures Valid() && grid == PaintTypeInfoTo(base, moduleCount, test, d, 15, 15, false)
    {
      hide *;
      for e := 0 to 15
        invariant Valid() && grid == PaintTypeInfoTo(base, moduleCount, test, d, 15, e, false)
      {
        var g := !test && Bit(d, e);
        TypeInfoHorizontal(base, moduleCount, test, d, e);
        if 8 > e {
          InSquare(moduleCount, 8, moduleCount - e - 1);
          SetModule(8, moduleCount - e - 1, Some(g));
        } else if 9 > e {
          InSquare(moduleCount, 8, 15 - e - 1 + 1);
          SetModule(8, 15 - e - 1 + 1, Some(g));
        } else {
          InSquare(moduleCount, 8, 15 - e - 1);
          SetModule(8, 15 - e - 1, Some(g));
        }
      }
    }

    /** Level M has the code 0, so the format data are the mask alone. */
    method SetupTypeInfo(test: bool, mask: nat)
      requires Valid() && moduleCount >= 21 && mask < 8
      modifies modules, this`grid
      ensures Valid() && grid == PaintTypeInfo(old(grid), moduleCount, test, Bch.TypeInfo(mask))
    {
      hide *;
      var d := Bch.GetBCHTypeInfo(mask);
      ghost var base := grid;
      Shape();
      SetupTypeInfoVertical(test, d);
      SetupTypeInfoHorizontal(test, d, base);
      InSquare(moduleCount, moduleCount - 8, 8);
      TypeInfoDark(base, moduleCount, test, d);
      SetModule(moduleCount - 8, 8, Some(!test));
    }

    method SetupTypeNumber(test: bool)
      requires Valid() && moduleCount >= 45 && typeNumber <= 40
      modifies modules, this`grid
      ensures Valid() && grid == PaintTypeNumber(old(grid), moduleCount, test, Bch.TypeNumber(typeNumber))
    {
      hide *;
      var b := Bch.GetBCHTypeNumber(typeNumber);
      ghost var base := grid;
      Shape();
      NothingPainted(base, moduleCount, test, b);
      for c := 0 to 18
        invariant Valid() && grid == PaintTypeNumberTo(base, moduleCount, test, b, c, 0)
      {
        var d := !test && Bit(b, c);
        InSquare(moduleCount, c / 3, c % 3 + moduleCount - 8 - 3);
        TypeNumberUpper(base, moduleCount, test, b, c);
        SetModule(c / 3, c % 3 + moduleCount - 8 - 3, Some(d));
      }
      for c := 0 to 18
        invariant Valid() && grid == PaintTypeNumberTo(base, moduleCount, test, b, 18, c)
      {
        var d := !test && Bit(b, c);
        InSquare(moduleCount, c % 3 + moduleCount - 8 - 3, c / 3);
        TypeNumberLower(base, moduleCount, test, b, c);
        SetModule(c % 3 + moduleCount - 8 - 3, c / 3, Some(d));
      }
    }

    /** One module of the zigzag: a null module takes the next data bit, any other is left alone. */
    method PlaceCell(data: seq<Byte>, mask: nat, r: int, c: int, e: nat, g: nat, ghost base: Grid, ghost walk: seq<Cell>)
      returns (e': nat, g': nat)
      requires Valid() && (r, c) in Square(moduleCount) && (r, c) !in walk
      requires base.Keys == Square(moduleCount) && DataPlaced(base, data, mask, walk, grid, e, g)
      modifies modules, this`grid
      ensures Valid() && DataPlaced(base, data, mask, walk + [(r, c)], grid, e', g')
    {
      hide *;
      e', g' := e, g;
      PlaceStep(base, data, mask, walk, grid, e, g, (r, c));
      if ModuleAt(r, c) == None {
        var j := false;
        if g < |data| {
          j := Bit(data[g], e);
        }
        if GetMask(mask, r, c) {
          j := !j;
        }
        SetModule(r, c, Some(j));
        if e == 0 {
          e', g' := 7, g + 1;
        } else {
          e' := e - 1;
        }
      }
    }

    /** The two modules of row d in a column pair. */
    method PlacePair(data: seq<Byte>, mask: nat, d: int, h: int, e: nat, g: nat, ghost base: Grid, ghost p: nat, ghost s: nat)
      returns (e': nat, g': nat)
      requires Valid() && IsSize(moduleCount) && p < Pairs(moduleCount) && s < moduleCount
      requires d == RowAt(moduleCount, p, s) && h == RightColumn(moduleCount, p)
      requires base.Keys == Square(moduleCount) && DataPlaced(base, data, mask, Walk(moduleCount, p, s), grid, e, g)
      modifies modules, this`grid
      ensures Valid() && DataPlaced(base, data, mask, Walk(moduleCount, p, s + 1), grid, e', g')
    {
      hide *;
      ghost var walk := Walk(moduleCount, p, s);
      WalkStep(moduleCount, p, s, (d, h), (d, h - 1));
      e', g' := PlaceCell(data, mask, d, h, e, g, base, walk);
      e', g' := PlaceCell(data, mask, d, h - 1, e', g', base, walk + [(d, h)]);
    }

    method MapData(data: seq<Byte>, mask: nat)
      requires Valid() && IsSize(moduleCount) && mask < 8
      modifies modules, this`grid
      ensures Valid()
      ensures grid == Placed(old(grid), data, mask, Filter(FullWalk(moduleCount), NullCells(old(grid))))
    {
      hide *;
      ghost var base := grid;
      Shape();
      PlaceStart(base, data, mask, moduleCount);
      var c, d, e, g := -1, moduleCount - 1, 7, 0;
      var h := moduleCount - 1;
      ghost var p := 0;
      while h > 0
        invariant Valid() && IsSize(moduleCount)
        invariant ColumnState(moduleCount, p, c, d, h)
        invariant DataPlaced(base, data, mask, Walk(moduleCount, p, 0), grid, e, g)
        decreases h
      {
        ColumnBegins(moduleCount, p, c, d, h);
        if 6 == h {
          h := h - 1;
        }
        ghost var s := 0;
        while true
          invariant Valid() && IsSize(moduleCount)
          invariant s < moduleCount && p < Pairs(moduleCount)
          invariant RowState(moduleCount, p, s, c, d, h)
          invariant DataPlaced(base, data, mask, Walk(moduleCount, p, s), grid, e, g)
          decreases moduleCount - s
        {
          RowStep(moduleCount, p, s, c, d, h);
          e, g := PlacePair(data, mask, d, h, e, g, base, p, s);
          d := d + c;
          if 0 > d || moduleCount <= d {
            d, c := d - c, -c;
            break;
          }
          s := s + 1;
        }
        p := p + 1;
        h := h - 2;
      }
      PlaceDone(base, data, mask, moduleCount, p, c, d, h, grid, e, g);
    }

    /** The symbol for `mask` has been drawn, or `createData` has failed. */
    ghost predicate Drawn(test: bool, mask: nat, r: Outcome)
      requires IsVersion(typeNumber) && mask < 8
      reads this, modules
    {
      && Cached(typeNumber, dataList, dataCache)
      && match EncodeList(typeNumber, dataList)
         case Success(data) =>
           && r == Pass && dataCache == Some(data)
           && Valid() && moduleCount == Size(typeNumber) && grid == Symbol(typeNumber, test, mask, data)
         case Failure(e) => r == Fail(e)
    }

    method SetupPatterns()
      requires IsVersion(typeNumber)
      modifies this`modules, this`moduleCount, this`grid
      ensures Valid() && fresh(modules)
      ensures moduleCount == Size(typeNumber) && grid == Timed(moduleCount, PatternPosition(typeNumber))
    {
      hide *;
      PatternStages(typeNumber);
      ClearModules();
      SetupPositionProbePattern(0, 0);
      SetupPositionProbePattern(moduleCount - 7, 0);
      SetupPositionProbePattern(0, moduleCount - 7);
      SetupPositionAdjustPattern(PatternPosition(typeNumber));
      SetupTimingPattern();
    }

    method SetupModules(test: bool, mask: nat)
      requires IsVersion(typeNumber) && mask < 8
      modifies this`modules, this`moduleCount, this`grid
      ensures Valid() && fresh(modules)
      ensures moduleCount == Size(typeNumber) && grid == Setup(typeNumber, test, mask)
    {
      hide *;
      InformationStages(typeNumber, test, mask);
      SetupPatterns();
      SetupTypeInfo(test, mask);
      if typeNumber >= 7 {
        SetupTypeNumber(test);
      }
    }

    method FillCache(t: Tables) returns (r: Outcome)
      requires t.Valid() && IsVersion(typeNumber) && Cached(typeNumber, dataList, dataCache)
      modifies this`dataCache
      ensures Cached(typeNumber, dataList, dataCache)
      ensures match EncodeList(typeNumber, dataList)
              case Success(data) => r == Pass && dataCache == Some(data)
              case Failure(e) => r == Fail(e)
    {
      hide EncodeList, Encode, RSBlocks, Tables.Valid;
      r := Pass;
      if dataCache == None {
        var data := CreateData(t, typeNumber, dataList);
        EncodeListIs(typeNumber, dataList);
        match data
        case Success(bytes) => dataCache := Some(bytes);
        case Failure(e) => r := Fail(e);
      }
    }

    method MakeImpl(t: Tables, test: bool, mask: nat) returns (r: Outcome)
      requires t.Valid() && IsVersion(typeNumber) && mask < 8 && Cached(typeNumber, dataList, dataCache)
      modifies this`modules, this`moduleCount, this`grid, this`dataCache
      ensures fresh(modules)
      ensures Drawn(test, mask, r)
    {
      hide GoodCentres, PatternPosition, Timed, PaintTypeInfo, PaintTypeNumber, Bch.TypeInfo, Bch.TypeNumber;
      hide Valid, EncodeList, Cached, Symbol, Setup, Size, IsSize, IsVersion, Tables.Valid, Placed, Filter, FullWalk, NullCells;
      SetupModules(test, mask);
      r := FillCache(t);
      if r.Pass? {
        InformationStages(typeNumber, test, mask);
        MapData(dataCache.value, mask);
        MappedIsSymbol(typeNumber, test, mask, dataCache.value);
      }
    }

    /** The modules as a value, for whoever scores the symbol. */
    function Snapshot(): (g: Grid)
      requires Valid()
      reads this`modules, this`moduleCount, this`grid, modules
      ensures g == grid
    {
      map cell | cell in Square(moduleCount) :: modules[cell.0, cell.1]
    }

    /**
     * Draws the symbol for every mask as a test and keeps the first with the fewest
     * lost points. `lostPoint` stands for `getLostPoint`, a function of the modules.
     */
    method GetBestMaskPattern(t: Tables, lostPoint: Grid -> int) returns (r: Outcome, b: nat)
      requires t.Valid() && IsVersion(typeNumber) && Cached(typeNumber, dataList, dataCache)
      modifies this`modules, this`moduleCount, this`grid, this`dataCache
      ensures fresh(modules)
      ensures b < 8 && Drawn(true, 7, r)
      ensures r.Pass? ==> dataCache.Some? && BestMask(typeNumber, dataCache.value, lostPoint, b)
    {
      hide Symbol, EncodeList, IsVersion, Tables.Valid, Valid, Size, Square;
      var a := 0;
      r, b := Pass, 0;
      for c := 0 to 8
        invariant r == Pass && (0 < c ==> fresh(modules) && Drawn(true, c - 1, r))
        invariant Cached(typeNumber, dataList, dataCache)
        invariant b < 8
        invariant 0 < c ==>
          && dataCache.Some? && BestBefore(typeNumber, dataCache.value, lostPoint, b, c)
          && a == Loss(typeNumber, dataCache.value, lostPoint, b)
      {
        r := MakeImpl(t, true, c);
        if r.Fail? {
          return;
        }
        var d := lostPoint(Snapshot());
        if 0 == c || a > d {
          a, b := d, c;
        }
      }
    }

    /** Draws the symbol with the chosen mask. */
    method Make(t: Tables, lostPoint: Grid -> int) returns (r: Outcome, ghost mask: nat)
      requires t.Valid() && IsVersion(typeNumber) && Cached(typeNumber, dataList, dataCache)
      modifies this`modules, this`moduleCount, this`grid, this`dataCache
      ensures mask < 8
      ensures r.Pass? ==>
        && Drawn(false, mask, r)
        && dataCache.Some? && BestMask(typeNumber, dataCache.value, lostPoint, mask)
      ensures r == match EncodeList(typeNumber, dataList) case Success(_) => Pass case Failure(e) => Fail(e)
    {
      hide Symbol, EncodeList, IsVersion, Tables.Valid, Valid, Size, Square, BestMask;
      var outcome, best := GetBestMaskPattern(t, lostPoint);
      r, mask := outcome, best;
      if r.Pass? {
        r := MakeImpl(t, false, best);
      }
    }
  }

  /** The lost points of the test symbol drawn with one mask. */
  function Loss(v: nat, data: seq<Byte>, lostPoint: Grid -> int, mask: nat): int
    requires IsVersion(v) && mask < 8
  {
    lostPoint(Symbol(v, true, mask, data))
  }

  ghost predicate BestBefore(v: nat, data: seq<Byte>, lostPoint: Grid -> int, b: nat, n: nat)
    requires IsVersion(v) && n <= 8
  {
    && b < n
    && (forall c: nat | c < n :: Loss(v, data, lostPoint, b) <= Loss(v, data, lostPoint, c))
    && (forall c: nat | c < b :: Loss(v, data, lostPoint, b) < Loss(v, data, lostPoint, c))
  }

  /** b is the first of the eight masks whose symbol has the fewest lost points. */
  ghost predicate BestMask(v: nat, data: seq<Byte>, lostPoint: Grid -> int, b: nat)
    requires IsVersion(v)
  {
    BestBefore(v, data, lostPoint, b, 8)
  }
}
