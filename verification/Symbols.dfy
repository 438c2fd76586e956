/**
 * The finished symbol as a value: the setup for a version and mask with the
 * codewords placed along the zigzag.
 */
module Symbols {
  import opened Wrappers
  import opened Galois
  import opened Versions
  import opened Codewords
  import opened DataStream
  import opened Zigzag
  import opened Layout
  import opened ModuleCount
  import opened Placement
  import Bch

  /** The codewords of the segments in a symbol of version v, or the overflow error. */
  ghost function EncodeList(v: nat, list: seq<Segment>): Result<seq<Byte>>
    requires IsVersion(v)
  {
    BlocksProper(v);
    Encode(v, RSBlocks(v), list)
  }

  lemma EncodeListIs(v: nat, list: seq<Segment>)
    requires IsVersion(v) && Proper(RSBlocks(v))
    ensures EncodeList(v, list) == Encode(v, RSBlocks(v), list)
  {
  }

  /** A cached stream of codewords is the one for the current segments. */
  ghost predicate Cached(v: nat, list: seq<Segment>, cache: Option<seq<Byte>>)
    requires IsVersion(v)
  {
    cache.Some? ==> EncodeList(v, list) == Success(cache.value)
  }

  /** The cells that carry data, in placement order. */
  function DataCells(v: nat): seq<Cell>
    requires IsVersion(v)
  {
    Filter(FullWalk(Size(v)), FreeCells(Size(v), PatternPosition(v)))
  }

  function Symbol(v: nat, test: bool, mask: nat, data: seq<Byte>): Grid
    requires IsVersion(v) && mask < 8
  {
    Placed(Setup(v, test, mask), data, mask, DataCells(v))
  }

  /** The modules left null by the setup do not depend on the mask or the test flag. */
  lemma SetupNullCells(v: nat, test: bool, mask: nat)
    requires IsVersion(v)
    ensures NullCells(Setup(v, test, mask)) == FreeCells(Size(v), PatternPosition(v))
  {
    hide *;
    var nulls, free := NullCells(Setup(v, test, mask)), FreeCells(Size(v), PatternPosition(v));
    forall cell ensures cell in nulls <==> cell in free {
      if cell in Square(Size(v)) {
        SetupLayout(v, test, mask, cell);
      }
    }
  }

  lemma DataCellsAre(v: nat)
    requires IsVersion(v)
    ensures Distinct(DataCells(v))
    ensures forall cell :: cell in DataCells(v) <==> cell in Square(Size(v)) && !IsFunction(Size(v), PatternPosition(v), cell)
    ensures 8 * TotalCount(v) <= |DataCells(v)| <= 8 * TotalCount(v) + 7
  {
    hide PatternPosition, Filter, FullWalk, Distinct, FreeCells, Square, InCorner, InAlignment, InVersionArea, TotalCount;
    var free := FreeCells(Size(v), PatternPosition(v));
    FreeCellCount(Size(v), free);
    CodewordsFillSymbol(v);
  }

  /** Every function module keeps its value, no module is null, and data cell k holds bit k xor the mask. */
  lemma SymbolModules(v: nat, test: bool, mask: nat, data: seq<Byte>, cell: Cell)
    requires IsVersion(v) && mask < 8 && cell in Square(Size(v))
    ensures cell in Symbol(v, test, mask, data) && Symbol(v, test, mask, data)[cell] != None
    ensures IsFunction(Size(v), PatternPosition(v), cell)
        ==> Symbol(v, test, mask, data)[cell] == Setup(v, test, mask)[cell]
  {
    hide PatternPosition, Setup, IsFunction, Square, DataCells, Placed, TotalCount, Distinct;
    DataCellsAre(v);
    SetupLayout(v, test, mask, cell);
    var cells := DataCells(v);
    if cell in cells {
      var k :| 0 <= k < |cells| && cells[k] == cell;
      PlacedAt(Setup(v, test, mask), data, mask, cells, k);
    } else {
      PlacedElsewhere(Setup(v, test, mask), data, mask, cells, cell);
    }
  }

  lemma SymbolData(v: nat, test: bool, mask: nat, data: seq<Byte>, k: nat)
    requires IsVersion(v) && mask < 8 && k < |DataCells(v)|
    ensures DataCells(v)[k] in Symbol(v, test, mask, data)
    ensures Symbol(v, test, mask, data)[DataCells(v)[k]] == Some(DataBit(data, k) != Masks(mask, DataCells(v)[k]))
    ensures k >= 8 * |data| ==> !DataBit(data, k)
  {
    hide PatternPosition, Setup, IsFunction, Square, DataCells, Placed, TotalCount, Distinct, DataBit, Masks;
    DataCellsAre(v);
    PlacedAt(Setup(v, test, mask), data, mask, DataCells(v), k);
    if k >= 8 * |data| {
      LightPastTheEnd(data, k);
    }
  }

  // The steps of `makeImpl`.

  lemma PatternStages(v: nat)
    requires IsVersion(v)
    ensures GoodCentres(Size(v), PatternPosition(v)) && Size(v) >= 21
    ensures var n := Size(v);
            var finders := PaintFinder(PaintFinder(PaintFinder(Blank(n), 0, 0), n - 7, 0), 0, n - 7);
            PaintTiming(PaintAlignments(finders, PatternPosition(v)), n) == Timed(n, PatternPosition(v))
  {
    hide PatternPosition, PaintFinder, PaintTiming, PaintAlignments, GoodCentres;
    VersionCentres(v);
  }

  lemma InformationStages(v: nat, test: bool, mask: nat)
    requires IsVersion(v)
    ensures v <= 40 && IsSize(Size(v)) && Size(v) >= 21
    ensures v >= 7 ==> Size(v) >= 45
    ensures var n := Size(v);
            var g := PaintTypeInfo(Timed(n, PatternPosition(v)), n, test, Bch.TypeInfo(mask));
            Setup(v, test, mask) == if v >= 7 then PaintTypeNumber(g, n, test, Bch.TypeNumber(v)) else g
  {
    hide PatternPosition, Timed, PaintTypeInfo, PaintTypeNumber;
  }

  lemma MappedIsSymbol(v: nat, test: bool, mask: nat, data: seq<Byte>)
    requires IsVersion(v) && mask < 8
    ensures Placed(Setup(v, test, mask), data, mask, Filter(FullWalk(Size(v)), NullCells(Setup(v, test, mask))))
         == Symbol(v, test, mask, data)
  {
    hide PatternPosition, Setup, Placed, Filter, FullWalk, NullCells, FreeCells;
    SetupNullCells(v, test, mask);
  }
}
