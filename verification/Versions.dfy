/**
 * Symbol sizes: the error-correction blocks, the positions of the alignment
 * patterns and the character capacities, per version 1 to 40 at level M.
 */
module Versions {
  predicate IsVersion(v: int) {
    1 <= v <= 40
  }

  /** Modules per side. */
  function Size(v: nat): nat {
    4 * v + 17
  }

  datatype RSBlock = RSBlock(totalCount: nat, dataCount: nat)

  /** The level M rows of RS_BLOCK_TABLE: triples of block count, total codewords, data codewords. */
  function RsBlockTable(v: nat): seq<nat>
    requires IsVersion(v)
  {
    match v
    case 1 => [1, 26, 16]
    case 2 => [1, 44, 28]
    case 3 => [1, 70, 44]
    case 4 => [2, 50, 32]
    case 5 => [2, 67, 43]
    case 6 => [4, 43, 27]
    case 7 => [4, 49, 31]
    case 8 => [2, 60, 38, 2, 61, 39]
    case 9 => [3, 58, 36, 2, 59, 37]
    case 10 => [4, 69, 43, 1, 70, 44]
    case 11 => [1, 80, 50, 4, 81, 51]
    case 12 => [6, 58, 36, 2, 59, 37]
    case 13 => [8, 59, 37, 1, 60, 38]
    case 14 => [4, 64, 40, 5, 65, 41]
    case 15 => [5, 65, 41, 5, 66, 42]
    case 16 => [7, 73, 45, 3, 74, 46]
    case 17 => [10, 74, 46, 1, 75, 47]
    case 18 => [9, 69, 43, 4, 70, 44]
    case 19 => [3, 70, 44, 11, 71, 45]
    case 20 => [3, 67, 41, 13, 68, 42]
    case 21 => [17, 68, 42]
    case 22 => [17, 74, 46]
    case 23 => [4, 75, 47, 14, 76, 48]
    case 24 => [6, 73, 45, 14, 74, 46]
    case 25 => [8, 75, 47, 13, 76, 48]
    case 26 => [19, 74, 46, 4, 75, 47]
    case 27 => [22, 73, 45, 3, 74, 46]
    case 28 => [3, 73, 45, 23, 74, 46]
    case 29 => [21, 73, 45, 7, 74, 46]
    case 30 => [19, 75, 47, 10, 76, 48]
    case 31 => [2, 74, 46, 29, 75, 47]
    case 32 => [10, 74, 46, 23, 75, 47]
    case 33 => [14, 74, 46, 21, 75, 47]
    case 34 => [14, 74, 46, 23, 75, 47]
    case 35 => [12, 75, 47, 26, 76, 48]
    case 36 => [6, 75, 47, 34, 76, 48]
    case 37 => [29, 74, 46, 14, 75, 47]
    case 38 => [13, 74, 46, 32, 75, 47]
    case 39 => [40, 75, 47, 7, 76, 48]
    case 40 => [18, 75, 47, 31, 76, 48]
  }

  /** The level M column of the capacity table: longest text in bytes. */
  function Capacity(v: nat): nat
    requires IsVersion(v)
  {
    match v
    case 1 => 14
    case 2 => 26
    case 3 => 42
    case 4 => 62
    case 5 => 84
    case 6 => 106
    case 7 => 122
    case 8 => 152
    case 9 => 180
    case 10 => 213
    case 11 => 251
    case 12 => 287
    case 13 => 331
    case 14 => 362
    case 15 => 412
    case 16 => 450
    case 17 => 504
    case 18 => 560
    case 19 => 624
    case 20 => 666
    case 21 => 711
    case 22 => 779
    case 23 => 857
    case 24 => 911
    case 25 => 997
    case 26 => 1059
    case 27 => 1125
    case 28 => 1190
    case 29 => 1264
    case 30 => 1370
    case 31 => 1452
    case 32 => 1538
    case 33 => 1628
    case 34 => 1722
    case 35 => 1809
    case 36 => 1911
    case 37 => 1989
    case 38 => 2099
    case 39 => 2213
    case 40 => 2331
  }

  /** PATTERN_POSITION_TABLE: centre coordinates of the alignment patterns. */
  function PatternPosition(v: nat): seq<nat>
    requires IsVersion(v)
  {
    match v
    case 1 => []
    case 2 => [6, 18]
    case 3 => [6, 22]
    case 4 => [6, 26]
    case 5 => [6, 30]
    case 6 => [6, 34]
    case 7 => [6, 22, 38]
    case 8 => [6, 24, 42]
    case 9 => [6, 26, 46]
    case 10 => [6, 28, 50]
    case 11 => [6, 30, 54]
    case 12 => [6, 32, 58]
    case 13 => [6, 34, 62]
    case 14 => [6, 26, 46, 66]
    case 15 => [6, 26, 48, 70]
    case 16 => [6, 26, 50, 74]
    case 17 => [6, 30, 54, 78]
    case 18 => [6, 30, 56, 82]
    case 19 => [6, 30, 58, 86]
    case 20 => [6, 34, 62, 90]
    case 21 => [6, 28, 50, 72, 94]
    case 22 => [6, 26, 50, 74, 98]
    case 23 => [6, 30, 54, 78, 102]
    case 24 => [6, 28, 54, 80, 106]
    case 25 => [6, 32, 58, 84, 110]
    case 26 => [6, 30, 58, 86, 114]
    case 27 => [6, 34, 62, 90, 118]
    case 28 => [6, 26, 50, 74, 98, 122]
    case 29 => [6, 30, 54, 78, 102, 126]
    case 30 => [6, 26, 52, 78, 104, 130]
    case 31 => [6, 30, 56, 82, 108, 134]
    case 32 => [6, 34, 60, 86, 112, 138]
    case 33 => [6, 30, 58, 86, 114, 142]
    case 34 => [6, 34, 62, 90, 118, 146]
    case 35 => [6, 30, 54, 78, 102, 126, 150]
    case 36 => [6, 24, 50, 76, 102, 128, 154]
    case 37 => [6, 28, 54, 80, 106, 132, 158]
    case 38 => [6, 32, 58, 84, 110, 136, 162]
    case 39 => [6, 26, 54, 82, 110, 138, 166]
    case 40 => [6, 30, 58, 86, 114, 142, 170]
  }

  lemma RowShape(v: nat)
    requires IsVersion(v)
    ensures |RsBlockTable(v)| in {3, 6}
  {
  }

  // Sums over the block table.

  function TotalBefore(blocks: seq<RSBlock>, j: nat): nat
    requires j <= |blocks|
  {
    if j == 0 then 0 else TotalBefore(blocks, j - 1) + blocks[j - 1].totalCount
  }

  function DataBefore(blocks: seq<RSBlock>, j: nat): nat
    requires j <= |blocks|
  {
    if j == 0 then 0 else DataBefore(blocks, j - 1) + blocks[j - 1].dataCount
  }

  function SumTotal(blocks: seq<RSBlock>): nat {
    TotalBefore(blocks, |blocks|)
  }

  function SumData(blocks: seq<RSBlock>): nat {
    DataBefore(blocks, |blocks|)
  }

  lemma {:induction false} BeforeGrows(blocks: seq<RSBlock>, i: nat, j: nat)
    requires i <= j <= |blocks|
    ensures DataBefore(blocks, i) <= DataBefore(blocks, j)
  {
    if i < j {
      BeforeGrows(blocks, i, j - 1);
    }
  }

  lemma {:induction false} BeforeIgnoresTail(blocks: seq<RSBlock>, b: RSBlock, j: nat)
    requires j <= |blocks|
    ensures TotalBefore(blocks + [b], j) == TotalBefore(blocks, j)
    ensures DataBefore(blocks + [b], j) == DataBefore(blocks, j)
  {
    if j > 0 {
      BeforeIgnoresTail(blocks, b, j - 1);
    }
  }

  function Repeat(n: nat, b: RSBlock): (s: seq<RSBlock>)
    ensures |s| == n && forall i | 0 <= i < n :: s[i] == b
  {
    seq(n, i => b)
  }

  /** The blocks a row of triples stands for. */
  function Expand(row: seq<nat>): seq<RSBlock> {
    var n := |row|;
    if n < 3 then [] else
      Expand(row[..n - 3]) + Repeat(row[n - 3], RSBlock(row[n - 2], row[n - 1]))
  }

  function RSBlocks(v: nat): seq<RSBlock>
    requires IsVersion(v)
  {
    Expand(RsBlockTable(v))
  }

  method GetRSBlocks(v: nat) returns (e: seq<RSBlock>)
    requires IsVersion(v)
    ensures e == RSBlocks(v) && HasShape(v, e)
  {
    hide RsBlockTable, HasShape;
    BlocksHaveShape(v);
    var c := RsBlockTable(v);
    RowShape(v);
    e := [];
    for f := 0 to |c| / 3
      invariant e == Expand(c[..3 * f])
    {
      var g, h, i := c[3 * f], c[3 * f + 1], c[3 * f + 2];
      var before := e;
      for k := 0 to g
        invariant e == before + Repeat(k, RSBlock(h, i))
      {
        e := e + [RSBlock(h, i)];
      }
      assert c[..3 * f + 3][..3 * f] == c[..3 * f];
    }
    assert c[..|c|] == c;
  }

  lemma SumAppend(blocks: seq<RSBlock>, b: RSBlock)
    ensures SumTotal(blocks + [b]) == SumTotal(blocks) + b.totalCount
    ensures SumData(blocks + [b]) == SumData(blocks) + b.dataCount
  {
    BeforeIgnoresTail(blocks, b, |blocks|);
  }

  lemma {:induction false} SumOfRepeat(blocks: seq<RSBlock>, n: nat, b: RSBlock)
    ensures SumTotal(blocks + Repeat(n, b)) == SumTotal(blocks) + n * b.totalCount
    ensures SumData(blocks + Repeat(n, b)) == SumData(blocks) + n * b.dataCount
  {
    hide SumTotal, SumData;
    if n == 0 {
      assert blocks + Repeat(0, b) == blocks;
    } else {
      SumOfRepeat(blocks, n - 1, b);
      assert blocks + Repeat(n, b) == blocks + Repeat(n - 1, b) + [b];
      SumAppend(blocks + Repeat(n - 1, b), b);
      ProductStep(n, b.totalCount);
      ProductStep(n, b.dataCount);
    }
  }

  lemma ProductStep(n: nat, x: nat)
    requires n > 0
    ensures n * x == (n - 1) * x + x
  {
  }

  /** Codewords of a symbol, and the data codewords among them. */
  function TotalCount(v: nat): nat
    requires IsVersion(v)
  {
    RowShape(v);
    var row := RsBlockTable(v);
    row[0] * row[1] + if |row| == 6 then row[3] * row[4] else 0
  }

  function DataCount(v: nat): nat
    requires IsVersion(v)
  {
    RowShape(v);
    var row := RsBlockTable(v);
    row[0] * row[2] + if |row| == 6 then row[3] * row[5] else 0
  }

  lemma BlockSums(v: nat)
    requires IsVersion(v)
    ensures SumTotal(RSBlocks(v)) == TotalCount(v)
    ensures SumData(RSBlocks(v)) == DataCount(v)
  {
    hide RsBlockTable;
    RowShape(v);
    var row := RsBlockTable(v);
    var first := RSBlock(row[1], row[2]);
    SumOfRepeat([], row[0], first);
    assert [] + Repeat(row[0], first) == Expand(row[..3]) by {
      assert row[..3][..0] == [];
      assert Expand([]) == [];
    }
    if |row| == 6 {
      SumOfRepeat(Expand(row[..3]), row[3], RSBlock(row[4], row[5]));
    } else {
      assert row[..3] == row;
    }
  }

  /** Bits of the character count in byte mode. */
  function LengthBits(v: nat): nat {
    if v < 10 then 8 else 16
  }

  lemma CapacityEntry(v: nat)
    requires IsVersion(v)
    ensures DataCount(v) == DataRoom(v)
  {
    hide RsBlockTable, BlockCount, BlockErrorCount, EcCount, DataRoom;
    RowErrorBytes(v);
  }

  /** Every capacity entry is what the data codewords leave after the header and terminator. */
  lemma CapacityAgrees(v: nat)
    requires IsVersion(v)
    ensures 4 + LengthBits(v) + 8 * Capacity(v) + 4 <= 8 * DataCount(v)
    ensures 8 * DataCount(v) < 4 + LengthBits(v) + 8 * (Capacity(v) + 1)
  {
    hide DataCount, Capacity;
    CapacityEntry(v);
  }

  lemma CapacityBound(v: nat)
    requires IsVersion(v)
    ensures Capacity(v) <= 2331
    ensures v < 10 ==> Capacity(v) < 256
  {
  }

  /** The error-correction bytes of every block of a version. */
  function EcCount(v: nat): nat
    requires IsVersion(v)
  {
    RowShape(v);
    var row := RsBlockTable(v);
    if row[1] > row[2] then row[1] - row[2] else 0
  }

  // What the standard demands of the blocks, apart from the table.

  /** Error-correction blocks of a level M symbol: table 9 of ISO/IEC 18004:2015. */
  function BlockCount(v: nat): (n: nat)
    requires IsVersion(v)
    ensures n > 0
  {
    match v
    case 1 => 1
    case 2 => 1
    case 3 => 1
    case 4 => 2
    case 5 => 2
    case 6 => 4
    case 7 => 4
    case 8 => 4
    case 9 => 5
    case 10 => 5
    case 11 => 5
    case 12 => 8
    case 13 => 9
    case 14 => 9
    case 15 => 10
    case 16 => 10
    case 17 => 11
    case 18 => 13
    case 19 => 14
    case 20 => 16
    case 21 => 17
    case 22 => 17
    case 23 => 18
    case 24 => 20
    case 25 => 21
    case 26 => 23
    case 27 => 25
    case 28 => 26
    case 29 => 28
    case 30 => 29
    case 31 => 31
    case 32 => 33
    case 33 => 35
    case 34 => 37
    case 35 => 38
    case 36 => 40
    case 37 => 43
    case 38 => 45
    case 39 => 47
    case _ => 49
  }

  /** Error-correction codewords per block: the same table. */
  function BlockErrorCount(v: nat): nat
    requires IsVersion(v)
  {
    match v
    case 1 => 10
    case 2 => 16
    case 3 => 26
    case 4 => 18
    case 5 => 24
    case 6 => 16
    case 7 => 18
    case 8 => 22
    case 9 => 22
    case 10 => 26
    case 11 => 30
    case 12 => 22
    case 13 => 22
    case 14 => 24
    case 15 => 24
    case 16 => 28
    case 17 => 28
    case 18 => 26
    case 19 => 26
    case 20 => 26
    case 21 => 26
    case _ => 28
  }

  /** Data codewords: the capacity in bytes, mode, count and terminator. */
  function DataRoom(v: nat): nat
    requires IsVersion(v)
  {
    Capacity(v) + if v < 10 then 2 else 3
  }

  /** n blocks share d data codewords evenly, the longer blocks last; each has e for error correction. */
  predicate Spread(blocks: seq<RSBlock>, n: nat, d: nat, e: nat) {
    && |blocks| == n > 0
    && forall j | 0 <= j < n ::
         && blocks[j].dataCount == d / n + (if j < n - d % n then 0 else 1)
         && blocks[j].totalCount == blocks[j].dataCount + e
  }

  predicate HasShape(v: nat, blocks: seq<RSBlock>)
    requires IsVersion(v)
  {
    Spread(blocks, BlockCount(v), DataRoom(v), BlockErrorCount(v))
  }

  predicate RowBalanced(v: nat)
    requires IsVersion(v)
  {
    var row := RsBlockTable(v);
    && |row| in {3, 6}
    && EcCount(v) == BlockErrorCount(v) <= 30 && EcCount(v) >= 10
    && row[1] == row[2] + EcCount(v) <= 255
    && if |row| == 3 then
         row[0] == BlockCount(v) && DataRoom(v) == row[0] * row[2]
       else
         && row[5] == row[2] + 1 && row[4] == row[5] + EcCount(v) <= 255
         && row[0] > 0 && row[3] > 0 && row[0] + row[3] == BlockCount(v)
         && DataRoom(v) == row[0] * row[2] + row[3] * row[5]
  }

  lemma FirstRowsBalanced(v: nat)
    requires 1 <= v <= 5
    ensures RowBalanced(v)
  {
  }

  lemma SecondRowsBalanced(v: nat)
    requires 6 <= v <= 10
    ensures RowBalanced(v)
  {
  }

  lemma ThirdRowsBalanced(v: nat)
    requires 11 <= v <= 15
    ensures RowBalanced(v)
  {
  }

  lemma FourthRowsBalanced(v: nat)
    requires 16 <= v <= 20
    ensures RowBalanced(v)
  {
  }

  lemma FifthRowsBalanced(v: nat)
    requires 21 <= v <= 25
    ensures RowBalanced(v)
  {
  }

  lemma SixthRowsBalanced(v: nat)
    requires 26 <= v <= 30
    ensures RowBalanced(v)
  {
  }

  lemma SeventhRowsBalanced(v: nat)
    requires 31 <= v <= 35
    ensures RowBalanced(v)
  {
  }

  lemma LastRowsBalanced(v: nat)
    requires 36 <= v <= 40
    ensures RowBalanced(v)
  {
  }

  lemma RowErrorBytes(v: nat)
    requires IsVersion(v)
    ensures RowBalanced(v)
  {
    hide RowBalanced;
    if v <= 5 {
      FirstRowsBalanced(v);
    } else if v <= 10 {
      SecondRowsBalanced(v);
    } else if v <= 15 {
      ThirdRowsBalanced(v);
    } else if v <= 20 {
      FourthRowsBalanced(v);
    } else if v <= 25 {
      FifthRowsBalanced(v);
    } else if v <= 30 {
      SixthRowsBalanced(v);
    } else if v <= 35 {
      SeventhRowsBalanced(v);
    } else {
      LastRowsBalanced(v);
    }
  }

  lemma ExpandRow(row: seq<nat>)
    requires |row| in {3, 6}
    ensures |row| == 3 ==> Expand(row) == Repeat(row[0], RSBlock(row[1], row[2]))
    ensures |row| == 6 ==>
      Expand(row) == Repeat(row[0], RSBlock(row[1], row[2])) + Repeat(row[3], RSBlock(row[4], row[5]))
  {
    assert Expand(row[..3]) == Expand(row[..3][..0]) + Repeat(row[0], RSBlock(row[1], row[2]));
    assert row[..3][..0] == [];
    assert Expand([]) == [];
    if |row| == 3 {
      assert row[..3] == row;
    }
  }

  lemma EvenSpread(n: nat, d: nat, longer: nat, total: nat)
    requires longer < n && total == n * d + longer
    ensures total / n == d && total % n == longer
  {
    var q, r := total / n, total % n;
    assert total == n * q + r;
    assert n * (q - d) == longer - r;
    assert n * (d - q) == r - longer;
    if q > d {
      AtLeastOnce(n, q - d);
    } else if q < d {
      AtLeastOnce(n, d - q);
    }
  }

  lemma AtLeastOnce(n: nat, k: nat)
    requires k >= 1
    ensures n * k >= n
  {
  }

  lemma SpreadOfRow(a: nat, b: nat, d: nat)
    ensures a * d + b * (d + 1) == (a + b) * d + b
  {
  }

  /** The blocks of every version are the ones the standard names. */
  lemma BlocksHaveShape(v: nat)
    requires IsVersion(v)
    ensures HasShape(v, RSBlocks(v))
  {
    hide RsBlockTable, BlockCount, BlockErrorCount, EcCount, DataRoom, Expand, Repeat;
    RowErrorBytes(v);
    var row := RsBlockTable(v);
    ExpandRow(row);
    if |row| == 3 {
      EvenSpread(row[0], row[2], 0, DataRoom(v));
    } else {
      SpreadOfRow(row[0], row[3], row[2]);
      EvenSpread(row[0] + row[3], row[2], row[3], DataRoom(v));
    }
  }

  lemma BlockErrorBytes(v: nat, b: RSBlock)
    requires IsVersion(v) && b in RSBlocks(v)
    ensures b.totalCount == b.dataCount + EcCount(v) <= 255
    ensures 10 <= EcCount(v) == BlockErrorCount(v) <= 30
  {
    hide RsBlockTable, BlockCount, BlockErrorCount, EcCount, DataRoom, Expand, Repeat;
    RowErrorBytes(v);
    ExpandRow(RsBlockTable(v));
  }

  // Alignment pattern centres.

  lemma PositionCount(v: nat)
    requires IsVersion(v)
    ensures |PatternPosition(v)| == if v == 1 then 0 else v / 7 + 2
  {
  }

  lemma PositionEnds(v: nat)
    requires IsVersion(v) && v > 1
    ensures |PatternPosition(v)| >= 2
    ensures PatternPosition(v)[0] == 6
    ensures PatternPosition(v)[|PatternPosition(v)| - 1] == Size(v) - 7
  {
  }

  lemma PositionGap(v: nat, i: nat)
    requires IsVersion(v) && 0 < i < |PatternPosition(v)|
    ensures PatternPosition(v)[i] - PatternPosition(v)[i - 1] >= 12
  {
  }

  lemma {:induction false} PositionOrder(v: nat, i: nat, j: nat)
    requires IsVersion(v) && i < j < |PatternPosition(v)|
    ensures PatternPosition(v)[i] + 12 <= PatternPosition(v)[j]
  {
    hide PatternPosition;
    PositionGap(v, j);
    if i < j - 1 {
      PositionOrder(v, i, j - 1);
    }
  }

  /** The distance of neighbouring centres: the least even number that spans the symbol, except in version 32. */
  function CentreStep(v: nat): nat
    requires 2 <= v <= 40
  {
    var gaps := v / 7 + 1;
    if v == 32 then 26 else (4 * v + 4 + 2 * gaps - 1) / (2 * gaps) * 2
  }

  lemma FirstPositionLaw(v: nat, i: nat)
    requires 2 <= v <= 10 && 0 < i < v / 7 + 2
    ensures |PatternPosition(v)| == v / 7 + 2
    ensures PatternPosition(v)[i] == 4 * v + 10 - CentreStep(v) * (v / 7 + 1 - i)
  {
  }

  lemma SecondPositionLaw(v: nat, i: nat)
    requires 11 <= v <= 15 && 0 < i < v / 7 + 2
    ensures |PatternPosition(v)| == v / 7 + 2
    ensures PatternPosition(v)[i] == 4 * v + 10 - CentreStep(v) * (v / 7 + 1 - i)
  {
  }

  lemma ThirdPositionLaw(v: nat, i: nat)
    requires 16 <= v <= 20 && 0 < i < v / 7 + 2
    ensures |PatternPosition(v)| == v / 7 + 2
    ensures PatternPosition(v)[i] == 4 * v + 10 - CentreStep(v) * (v / 7 + 1 - i)
  {
  }

  lemma FourthPositionLaw(v: nat, i: nat)
    requires 21 <= v <= 25 && 0 < i < v / 7 + 2
    ensures |PatternPosition(v)| == v / 7 + 2
    ensures PatternPosition(v)[i] == 4 * v + 10 - CentreStep(v) * (v / 7 + 1 - i)
  {
  }

  lemma FifthPositionLaw(v: nat, i: nat)
    requires 26 <= v <= 30 && 0 < i < v / 7 + 2
    ensures |PatternPosition(v)| == v / 7 + 2
    ensures PatternPosition(v)[i] == 4 * v + 10 - CentreStep(v) * (v / 7 + 1 - i)
  {
  }

  lemma LastPositionLaw(v: nat, i: nat)
    requires 31 <= v <= 40 && 0 < i < v / 7 + 2
    ensures |PatternPosition(v)| == v / 7 + 2
    ensures PatternPosition(v)[i] == 4 * v + 10 - CentreStep(v) * (v / 7 + 1 - i)
  {
  }

  /** Every centre after the first is a whole number of steps from the last one, 7 modules before the edge. */
  lemma PositionLaw(v: nat, i: nat)
    requires 2 <= v <= 40 && i < v / 7 + 2
    ensures |PatternPosition(v)| == v / 7 + 2
    ensures PatternPosition(v)[i] == if i == 0 then 6 else 4 * v + 10 - CentreStep(v) * (v / 7 + 1 - i)
  {
    hide PatternPosition, CentreStep;
    PositionCount(v);
    PositionEnds(v);
    if i > 0 {
      if v <= 10 {
        FirstPositionLaw(v, i);
      } else if v <= 15 {
        SecondPositionLaw(v, i);
      } else if v <= 20 {
        ThirdPositionLaw(v, i);
      } else if v <= 25 {
        FourthPositionLaw(v, i);
      } else if v <= 30 {
        FifthPositionLaw(v, i);
      } else {
        LastPositionLaw(v, i);
      }
    }
  }
}
