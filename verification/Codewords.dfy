/**
 * From the data bytes of a symbol to its codewords: splitting into blocks,
 * error correction, interleaving; and the way back.
 */
module Codewords {
  import opened Galois
  import opened GaloisTables
  import opened ReedSolomon
  import opened Versions
  import opened Interleaving

  /** The data bytes of block j. */
  function DataBlock(buffer: seq<Byte>, blocks: seq<RSBlock>, j: nat): (d: seq<Byte>)
    requires SumData(blocks) <= |buffer| && j < |blocks|
    ensures |d| == blocks[j].dataCount
  {
    BeforeGrows(blocks, j + 1, |blocks|);
    buffer[DataBefore(blocks, j)..DataBefore(blocks, j + 1)]
  }

  function DataBlocks(buffer: seq<Byte>, blocks: seq<RSBlock>): (d: seq<seq<Byte>>)
    requires SumData(blocks) <= |buffer|
    ensures |d| == |blocks|
    ensures forall j | 0 <= j < |d| :: d[j] == DataBlock(buffer, blocks, j)
  {
    seq(|blocks|, j requires 0 <= j < |blocks| => DataBlock(buffer, blocks, j))
  }

  function EcLength(b: RSBlock): nat {
    if b.totalCount >= b.dataCount then b.totalCount - b.dataCount else 0
  }

  /** Every block has room for its data and for fewer than 255 error-correction bytes. */
  ghost predicate Proper(blocks: seq<RSBlock>) {
    forall j | 0 <= j < |blocks| :: blocks[j].totalCount == blocks[j].dataCount + EcLength(blocks[j]) && EcLength(blocks[j]) < 255
  }

  /** The error-correction bytes of every block. */
  ghost function EcBlocks(data: seq<seq<Byte>>, blocks: seq<RSBlock>): (e: seq<seq<Byte>>)
    requires |data| == |blocks| && Proper(blocks)
    ensures |e| == |blocks|
    ensures forall j | 0 <= j < |e| :: e[j] == ErrorWord(data[j], EcLength(blocks[j]))
  {
    seq(|blocks|, j requires 0 <= j < |blocks| => ErrorWord(data[j], EcLength(blocks[j])))
  }

  ghost function CodewordsOf(buffer: seq<Byte>, blocks: seq<RSBlock>): seq<Byte>
    requires SumData(blocks) <= |buffer| && Proper(blocks)
  {
    var data := DataBlocks(buffer, blocks);
    Interleave(data) + Interleave(EcBlocks(data, blocks))
  }

  lemma {:induction false} SumsSplit(blocks: seq<RSBlock>, data: seq<seq<Byte>>, ec: seq<seq<Byte>>, n: nat)
    requires |data| == |ec| == |blocks| >= n
    requires forall j | 0 <= j < |blocks| :: |data[j]| + |ec[j]| == blocks[j].totalCount
    ensures Total(Lengths(data)[..n]) + Total(Lengths(ec)[..n]) == TotalBefore(blocks, n)
  {
    if n > 0 {
      SumsSplit(blocks, data, ec, n - 1);
      assert Lengths(data)[..n][..n - 1] == Lengths(data)[..n - 1];
      assert Lengths(ec)[..n][..n - 1] == Lengths(ec)[..n - 1];
    }
  }

  lemma LengthsSum(blocks: seq<RSBlock>, data: seq<seq<Byte>>, ec: seq<seq<Byte>>)
    requires |data| == |ec| == |blocks|
    requires forall j | 0 <= j < |blocks| :: |data[j]| + |ec[j]| == blocks[j].totalCount
    ensures Total(Lengths(data)) + Total(Lengths(ec)) == SumTotal(blocks)
  {
    hide Total, Lengths;
    SumsSplit(blocks, data, ec, |blocks|);
    assert Lengths(data)[..|blocks|] == Lengths(data) && Lengths(ec)[..|blocks|] == Lengths(ec);
  }

  lemma CodewordsLength(buffer: seq<Byte>, blocks: seq<RSBlock>)
    requires SumData(blocks) <= |buffer| && Proper(blocks)
    ensures |CodewordsOf(buffer, blocks)| == SumTotal(blocks)
  {
    hide Interleave, ErrorWord, Total, Lengths, SumTotal, DataBlock;
    var data := DataBlocks(buffer, blocks);
    var ec := EcBlocks(data, blocks);
    InterleaveLength(data);
    InterleaveLength(ec);
    LengthsSum(blocks, data, ec);
  }

  /** The state of the loop over the blocks after j rounds. */
  ghost predicate SplitUpTo(buffer: seq<Byte>, blocks: seq<RSBlock>, j: nat,
                            g: seq<seq<Byte>>, h: seq<seq<Byte>>, d: nat, e: nat, c: nat)
    requires SumData(blocks) <= |buffer| && j <= |blocks|
  {
    && |g| == |h| == j
    && c == DataBefore(blocks, j)
    && d == MaxLength(g) && e == MaxLength(h)
    && (forall i | 0 <= i < j :: g[i] == DataBlock(buffer, blocks, i))
    && (forall i | 0 <= i < j :: h[i] == ErrorWord(g[i], EcLength(blocks[i])))
  }

  /** Splits the buffer into blocks and computes the error correction of each. */
  method SplitBlocks(t: Tables, buffer: seq<Byte>, blocks: seq<RSBlock>)
    returns (g: seq<seq<Byte>>, h: seq<seq<Byte>>, d: nat, e: nat)
    requires t.Valid() && SumData(blocks) <= |buffer| && Proper(blocks)
    ensures g == DataBlocks(buffer, blocks) && h == EcBlocks(g, blocks)
    ensures d == MaxLength(g) && e == MaxLength(h)
  {
    hide *;
    var c := 0;
    d, e, g, h := 0, 0, [], [];
    NothingYet(buffer, blocks);
    for j := 0 to |blocks|
      invariant SplitUpTo(buffer, blocks, j, g, h, d, e, c)
    {
      BlockBounds(buffer, blocks, j);
      SplitState(buffer, blocks, j, g, h, d, e, c);
      var k, l := blocks[j].dataCount, EcLength(blocks[j]);
      var block := CopyBlock(buffer, c, k);
      var w := ErrorBytes(t, block, l);
      SplitStep(buffer, blocks, j, g, h, d, e, c, block, w);
      d, e, c := Max(d, k), Max(e, l), c + k;
      g, h := g + [block], h + [w];
    }
    AllBlocks(buffer, blocks, g, h, d, e, c);
  }

  lemma NothingYet(buffer: seq<Byte>, blocks: seq<RSBlock>)
    requires SumData(blocks) <= |buffer|
    ensures SplitUpTo(buffer, blocks, 0, [], [], 0, 0, 0)
  {
  }

  lemma SplitState(buffer: seq<Byte>, blocks: seq<RSBlock>, j: nat,
                   g: seq<seq<Byte>>, h: seq<seq<Byte>>, d: nat, e: nat, c: nat)
    requires SumData(blocks) <= |buffer| && j <= |blocks| && SplitUpTo(buffer, blocks, j, g, h, d, e, c)
    ensures c == DataBefore(blocks, j)
  {
  }

  lemma SplitStep(buffer: seq<Byte>, blocks: seq<RSBlock>, j: nat,
                  g: seq<seq<Byte>>, h: seq<seq<Byte>>, d: nat, e: nat, c: nat, block: seq<Byte>, w: seq<Byte>)
    requires SumData(blocks) <= |buffer| && Proper(blocks) && j < |blocks|
    requires SplitUpTo(buffer, blocks, j, g, h, d, e, c)
    requires block == DataBlock(buffer, blocks, j) && w == ErrorWord(block, EcLength(blocks[j]))
    ensures SplitUpTo(buffer, blocks, j + 1, g + [block], h + [w],
                      Max(d, blocks[j].dataCount), Max(e, EcLength(blocks[j])), c + blocks[j].dataCount)
  {
    hide ErrorWord, DataBlock, MaxLength, Max, EcLength;
    BlockBounds(buffer, blocks, j);
    MaxLengthAppend(g, block);
    MaxLengthAppend(h, w);
  }

  lemma AllBlocks(buffer: seq<Byte>, blocks: seq<RSBlock>,
                  g: seq<seq<Byte>>, h: seq<seq<Byte>>, d: nat, e: nat, c: nat)
    requires SumData(blocks) <= |buffer| && Proper(blocks)
    requires SplitUpTo(buffer, blocks, |blocks|, g, h, d, e, c)
    ensures g == DataBlocks(buffer, blocks) && h == EcBlocks(g, blocks)
    ensures d == MaxLength(g) && e == MaxLength(h)
  {
    hide ErrorWord, DataBlock;
  }

  lemma BlockBounds(buffer: seq<Byte>, blocks: seq<RSBlock>, j: nat)
    requires SumData(blocks) <= |buffer| && Proper(blocks) && j < |blocks|
    ensures EcLength(blocks[j]) < 255
    ensures DataBefore(blocks, j + 1) == DataBefore(blocks, j) + blocks[j].dataCount <= |buffer|
    ensures DataBlock(buffer, blocks, j) == buffer[DataBefore(blocks, j)..DataBefore(blocks, j + 1)]
  {
    BeforeGrows(blocks, j + 1, |blocks|);
  }

  lemma MaxLengthAppend(blocks: seq<seq<Byte>>, b: seq<Byte>)
    ensures MaxLength(blocks + [b]) == Max(MaxLength(blocks), |b|)
  {
    assert (blocks + [b])[..|blocks|] == blocks;
  }

  method CopyBlock(buffer: seq<Byte>, c: nat, k: nat) returns (block: seq<Byte>)
    requires c + k <= |buffer|
    ensures block == buffer[c..c + k]
  {
    var g := new Byte[k](i => 0);
    for m := 0 to k
      invariant forall i | 0 <= i < m :: g[i] == buffer[c + i]
    {
      g[m] := buffer[m + c];
    }
    block := g[..];
  }

  method CreateBytes(t: Tables, buffer: seq<Byte>, blocks: seq<RSBlock>) returns (out: seq<Byte>)
    requires t.Valid() && SumData(blocks) <= |buffer| && Proper(blocks)
    ensures out == CodewordsOf(buffer, blocks)
  {
    hide ErrorWord, Interleave, SumTotal, DataBlocks, EcBlocks;
    var g, h, d, e := SplitBlocks(t, buffer, blocks);
    var r := CountTotal(blocks);
    CodewordsLength(buffer, blocks);
    var s := new Byte[r](i => 0);
    var n := EmitColumns(s, 0, g, d);
    n := EmitColumns(s, n, h, e);
    out := s[..];
  }

  method CountTotal(blocks: seq<RSBlock>) returns (r: nat)
    ensures r == SumTotal(blocks)
  {
    r := 0;
    for m := 0 to |blocks|
      invariant r == TotalBefore(blocks, m)
    {
      r := r + blocks[m].totalCount;
    }
  }

  /** The column loops that close `createBytes`: every column of the blocks, in order. */
  method EmitColumns(s: array<Byte>, start: nat, blocks: seq<seq<Byte>>, width: nat) returns (t: nat)
    requires width == MaxLength(blocks)
    requires start + |Interleave(blocks)| <= s.Length
    modifies s
    ensures t == start + |Interleave(blocks)|
    ensures s[..start] == old(s[..start]) && s[start..t] == Interleave(blocks)
  {
    hide Column;
    t := start;
    for m := 0 to width
      invariant t == start + |Columns(blocks, m)| <= s.Length
      invariant s[..start] == old(s[..start]) && s[start..t] == Columns(blocks, m)
    {
      ColumnsGrow(blocks, m + 1, width);
      ghost var before := s[..t];
      var t' := EmitColumn(s, t, blocks, m);
      assert s[..t'] == before + Column(blocks, m);
      assert before == old(s[..start]) + Columns(blocks, m);
      t := t';
    }
  }

  method EmitColumn(s: array<Byte>, start: nat, blocks: seq<seq<Byte>>, m: nat) returns (t: nat)
    requires start + |Column(blocks, m)| <= s.Length
    modifies s
    ensures t == start + |Column(blocks, m)|
    ensures s[..start] == old(s[..start]) && s[start..t] == Column(blocks, m)
  {
    t := start;
    assert blocks[..0] == [];
    hide Column, At;
    for j := 0 to |blocks|
      invariant t == start + |Column(blocks[..j], m)| <= s.Length
      invariant s[..start] == old(s[..start]) && s[start..t] == Column(blocks[..j], m)
    {
      ColumnNext(blocks, m, j);
      ColumnGrows(blocks, m, j + 1);
      if m < |blocks[j]| {
        ghost var done := s[start..t];
        s[t] := blocks[j][m];
        assert s[start..t + 1] == done + [blocks[j][m]];
        t := t + 1;
      }
    }
    assert blocks[..|blocks|] == blocks;
  }

  lemma ColumnNext(blocks: seq<seq<Byte>>, m: nat, j: nat)
    requires j < |blocks|
    ensures Column(blocks[..j + 1], m) == Column(blocks[..j], m) + if m < |blocks[j]| then [blocks[j][m]] else []
  {
    assert blocks[..j + 1][..j] == blocks[..j];
  }

  lemma {:induction false} ColumnsGrow(blocks: seq<seq<Byte>>, m: nat, n: nat)
    requires m <= n
    ensures |Columns(blocks, m)| <= |Columns(blocks, n)|
  {
    if m < n {
      ColumnsGrow(blocks, m, n - 1);
    }
  }

  lemma {:induction false} ColumnGrows(blocks: seq<seq<Byte>>, m: nat, j: nat)
    requires j <= |blocks|
    ensures |Column(blocks[..j], m)| <= |Column(blocks, m)|
    decreases |blocks| - j
  {
    if j == |blocks| {
      assert blocks[..j] == blocks;
    } else {
      ColumnGrows(blocks, m, j + 1);
      assert blocks[..j + 1][..j] == blocks[..j];
    }
  }

  // The way back.

  function Flatten(blocks: seq<seq<Byte>>, n: nat): seq<Byte>
    requires n <= |blocks|
  {
    if n == 0 then [] else Flatten(blocks, n - 1) + blocks[n - 1]
  }

  function DataLengths(blocks: seq<RSBlock>): (lens: seq<nat>)
    ensures |lens| == |blocks|
  {
    seq(|blocks|, j requires 0 <= j < |blocks| => blocks[j].dataCount)
  }

  function EcLengths(blocks: seq<RSBlock>): (lens: seq<nat>)
    ensures |lens| == |blocks|
  {
    seq(|blocks|, j requires 0 <= j < |blocks| => EcLength(blocks[j]))
  }

  /** The data bytes read from a stream of codewords: de-interleaved, error correction dropped. */
  function DataOf(blocks: seq<RSBlock>, stream: seq<Byte>): seq<Byte>
    requires Covers(DataLengths(blocks), stream)
  {
    Flatten(Deinterleave(DataLengths(blocks), stream), |blocks|)
  }

  lemma {:induction false} FlattenData(buffer: seq<Byte>, blocks: seq<RSBlock>, n: nat)
    requires SumData(blocks) <= |buffer| && n <= |blocks|
    ensures DataBefore(blocks, n) <= |buffer|
    ensures Flatten(DataBlocks(buffer, blocks), n) == buffer[..DataBefore(blocks, n)]
  {
    hide SumData;
    BeforeGrowsToSum(blocks, n);
    if n > 0 {
      FlattenData(buffer, blocks, n - 1);
    }
  }

  lemma BeforeGrowsToSum(blocks: seq<RSBlock>, n: nat)
    requires n <= |blocks|
    ensures DataBefore(blocks, n) <= SumData(blocks)
  {
    BeforeGrows(blocks, n, |blocks|);
  }

  /** Reading the codewords of a buffer, with anything after them, gives back its data. */
  lemma DataReadBack(buffer: seq<Byte>, blocks: seq<RSBlock>, tail: seq<Byte>)
    requires SumData(blocks) <= |buffer| && Proper(blocks)
    ensures Covers(DataLengths(blocks), CodewordsOf(buffer, blocks) + tail)
    ensures DataOf(blocks, CodewordsOf(buffer, blocks) + tail) == buffer[..SumData(blocks)]
  {
    hide Interleave, Deinterleave, Covers, DataBlock, ErrorWord, Flatten;
    var data := DataBlocks(buffer, blocks);
    var ec := EcBlocks(data, blocks);
    DataBlockLengths(buffer, blocks);
    assert Interleave(data) + (Interleave(ec) + tail) == CodewordsOf(buffer, blocks) + tail;
    DeinterleaveInterleave(data, Interleave(ec) + tail);
    FlattenData(buffer, blocks, |blocks|);
  }

  lemma DataBlockLengths(buffer: seq<Byte>, blocks: seq<RSBlock>)
    requires SumData(blocks) <= |buffer|
    ensures Lengths(DataBlocks(buffer, blocks)) == DataLengths(blocks)
  {
    hide DataBlock, SumData;
  }

  /** Every block de-interleaved from the symbol, data and error correction together, is a codeword. */
  lemma BlocksAreCodewords(buffer: seq<Byte>, blocks: seq<RSBlock>, j: nat)
    requires SumData(blocks) <= |buffer| && Proper(blocks) && j < |blocks|
    ensures var stream := CodewordsOf(buffer, blocks);
            && Covers(DataLengths(blocks), stream)
            && Total(DataLengths(blocks)) <= |stream|
            && Covers(EcLengths(blocks), stream[Total(DataLengths(blocks))..])
            && IsCodeword(Deinterleave(DataLengths(blocks), stream)[j]
                          + Deinterleave(EcLengths(blocks), stream[Total(DataLengths(blocks))..])[j],
                          EcLength(blocks[j]))
  {
    hide Interleave, Deinterleave, Covers, DataBlock, ErrorWord, IsCodeword;
    var data := DataBlocks(buffer, blocks);
    var ec := EcBlocks(data, blocks);
    DataBlockLengths(buffer, blocks);
    assert Lengths(ec) == EcLengths(blocks);
    DeinterleaveInterleave(data, Interleave(ec));
    DeinterleaveInterleave(ec, []);
    InterleaveLength(data);
    assert Interleave(ec) + [] == Interleave(ec);
    EncodedIsCodeword(data[j], EcLength(blocks[j]));
  }

  // The order of the codewords, spelled out for n blocks that share d data codewords.

  /** First data byte of block j. */
  function BlockStart(n: nat, d: nat, j: nat): nat
    requires n > 0
  {
    j * (d / n) + if j <= n - d % n then 0 else j - (n - d % n)
  }

  lemma {:induction false} StartLaw(blocks: seq<RSBlock>, n: nat, d: nat, e: nat, j: nat)
    requires Spread(blocks, n, d, e) && j <= n
    ensures DataBefore(blocks, j) == BlockStart(n, d, j)
  {
    if j > 0 {
      StartLaw(blocks, n, d, e, j - 1);
      OneRowMore(j, d / n);
    }
  }

  lemma SpreadSum(blocks: seq<RSBlock>, n: nat, d: nat, e: nat)
    requires Spread(blocks, n, d, e)
    ensures SumData(blocks) == d
  {
    StartLaw(blocks, n, d, e, n);
    assert n * (d / n) + d % n == d;
  }

  lemma {:induction false} LengthsTotal(blocks: seq<RSBlock>, n: nat)
    requires n <= |blocks|
    ensures Total(DataLengths(blocks)[..n]) == DataBefore(blocks, n)
  {
    if n > 0 {
      LengthsTotal(blocks, n - 1);
      assert DataLengths(blocks)[..n][..n - 1] == DataLengths(blocks)[..n - 1];
    }
  }

  lemma DataPartLength(buffer: seq<Byte>, blocks: seq<RSBlock>)
    requires SumData(blocks) <= |buffer|
    ensures |Interleave(DataBlocks(buffer, blocks))| == SumData(blocks)
  {
    hide Interleave, DataBlocks, DataBlock, Total;
    InterleaveLength(DataBlocks(buffer, blocks));
    DataBlockLengths(buffer, blocks);
    LengthsTotal(blocks, |blocks|);
    assert DataLengths(blocks)[..|blocks|] == DataLengths(blocks);
  }

  predicate SameByte(s: seq<Byte>, i: int, t: seq<Byte>, k: int) {
    0 <= i < |s| && 0 <= k < |t| && s[i] == t[k]
  }

  /** Byte m of data block j is codeword m * n + j, as long as every block has one. */
  lemma DataCodewordOrder(buffer: seq<Byte>, blocks: seq<RSBlock>, n: nat, d: nat, e: nat, j: nat, m: nat)
    requires Spread(blocks, n, d, e) && SumData(blocks) <= |buffer| && Proper(blocks)
    requires j < n && m < d / n
    ensures SameByte(CodewordsOf(buffer, blocks), m * n + j, buffer, BlockStart(n, d, j) + m)
  {
    hide Interleave, CodewordsOf, BlockStart, SumData, DataBlock, Proper, DataBefore, TotalBefore;
    var data := DataBlocks(buffer, blocks);
    StartLaw(blocks, n, d, e, j);
    BlockByte(buffer, blocks, j, m);
    TakesTurns(data, j, m);
    DataComesFirst(buffer, blocks, m * n + j);
  }

  lemma BlockByte(buffer: seq<Byte>, blocks: seq<RSBlock>, j: nat, m: nat)
    requires SumData(blocks) <= |buffer| && j < |blocks| && m < blocks[j].dataCount
    ensures SameByte(DataBlock(buffer, blocks, j), m, buffer, DataBefore(blocks, j) + m)
  {
    BeforeGrowsToSum(blocks, j + 1);
  }

  lemma DataComesFirst(buffer: seq<Byte>, blocks: seq<RSBlock>, i: nat)
    requires SumData(blocks) <= |buffer| && Proper(blocks) && i < |Interleave(DataBlocks(buffer, blocks))|
    ensures SameByte(CodewordsOf(buffer, blocks), i, Interleave(DataBlocks(buffer, blocks)), i)
  {
    hide Interleave, DataBlock, ErrorWord, SumData, Proper;
  }

  /** Byte m of error-correction block j is codeword d + m * n + j. */
  lemma ErrorCodewordOrder(buffer: seq<Byte>, blocks: seq<RSBlock>, n: nat, d: nat, e: nat, j: nat, m: nat)
    requires Spread(blocks, n, d, e) && SumData(blocks) <= |buffer| && Proper(blocks)
    requires j < n && j < |blocks| && m < e
    ensures SameByte(CodewordsOf(buffer, blocks), d + m * n + j, ErrorWord(DataBlock(buffer, blocks, j), e), m)
  {
    hide Interleave, SumData, ErrorWord, DataBlock;
    var data := DataBlocks(buffer, blocks);
    var ec := EcBlocks(data, blocks);
    SpreadSum(blocks, n, d, e);
    DataPartLength(buffer, blocks);
    TakesTurns(ec, j, m);
  }
}
