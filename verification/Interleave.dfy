/**
 * Column-wise interleaving of blocks of different lengths, and its inverse:
 * section 7.6 of ISO/IEC 18004:2015.
 */
module Interleaving {

  function Max(x: nat, y: nat): nat {
    if x >= y then x else y
  }

  /** The longest block. */
  function MaxLength<T>(blocks: seq<seq<T>>): (n: nat)
    ensures forall j | 0 <= j < |blocks| :: |blocks[j]| <= n
  {
    if blocks == [] then 0
    else Max(MaxLength(blocks[..|blocks| - 1]), |blocks[|blocks| - 1]|)
  }

  function At<T>(block: seq<T>, m: nat): seq<T> {
    if m < |block| then [block[m]] else []
  }

  /** Element m of every block that has one. */
  function Column<T>(blocks: seq<seq<T>>, m: nat): seq<T> {
    if blocks == [] then []
    else Column(blocks[..|blocks| - 1], m) + At(blocks[|blocks| - 1], m)
  }

  /** The first n columns, one after the other. */
  function Columns<T>(blocks: seq<seq<T>>, n: nat): seq<T> {
    if n == 0 then [] else Columns(blocks, n - 1) + Column(blocks, n - 1)
  }

  function Interleave<T>(blocks: seq<seq<T>>): seq<T> {
    Columns(blocks, MaxLength(blocks))
  }

  // The inverse, from the block lengths alone.

  function Lengths<T>(blocks: seq<seq<T>>): (lens: seq<nat>)
    ensures |lens| == |blocks| && forall j | 0 <= j < |blocks| :: lens[j] == |blocks[j]|
  {
    seq(|blocks|, j requires 0 <= j < |blocks| => |blocks[j]|)
  }

  function Total(lens: seq<nat>): nat {
    if lens == [] then 0 else Total(lens[..|lens| - 1]) + lens[|lens| - 1]
  }

  /** How many blocks reach column m. */
  function Width(lens: seq<nat>, m: nat): nat {
    if lens == [] then 0
    else Width(lens[..|lens| - 1], m) + if m < lens[|lens| - 1] then 1 else 0
  }

  function WidthBefore(lens: seq<nat>, n: nat): nat {
    if n == 0 then 0 else WidthBefore(lens, n - 1) + Width(lens, n - 1)
  }

  /** Where element m of block j stands in the interleaved stream. */
  function Position(lens: seq<nat>, j: nat, m: nat): nat
    requires j < |lens|
  {
    WidthBefore(lens, m) + Width(lens[..j], m)
  }

  predicate Covers<T>(lens: seq<nat>, stream: seq<T>) {
    forall j: nat, m: nat | j < |lens| && m < lens[j] :: Position(lens, j, m) < |stream|
  }

  function Deinterleave<T>(lens: seq<nat>, stream: seq<T>): (blocks: seq<seq<T>>)
    requires Covers(lens, stream)
  {
    seq(|lens|, j requires 0 <= j < |lens| =>
      seq(lens[j], m requires 0 <= m < lens[j] => stream[Position(lens, j, m)]))
  }

  lemma {:induction false} ColumnWidth<T>(blocks: seq<seq<T>>, m: nat)
    ensures |Column(blocks, m)| == Width(Lengths(blocks), m)
  {
    if blocks != [] {
      var rest := blocks[..|blocks| - 1];
      ColumnWidth(rest, m);
      assert Lengths(blocks)[..|blocks| - 1] == Lengths(rest);
    }
  }

  lemma {:induction false} ColumnsWidth<T>(blocks: seq<seq<T>>, n: nat)
    ensures |Columns(blocks, n)| == WidthBefore(Lengths(blocks), n)
  {
    hide Column, Width;
    if n > 0 {
      ColumnsWidth(blocks, n - 1);
      ColumnWidth(blocks, n - 1);
    }
  }

  /** Block j's element of column m follows the elements of the blocks before it. */
  lemma {:induction false} InColumn<T>(blocks: seq<seq<T>>, m: nat, j: nat)
    requires j < |blocks| && m < |blocks[j]|
    ensures Width(Lengths(blocks)[..j], m) < |Column(blocks, m)|
    ensures Column(blocks, m)[Width(Lengths(blocks)[..j], m)] == blocks[j][m]
  {
    var last := |blocks| - 1;
    var rest := blocks[..last];
    if j < last {
      InColumn(rest, m, j);
      assert Lengths(blocks)[..j] == Lengths(rest)[..j];
    } else {
      ColumnWidth(rest, m);
      assert Lengths(blocks)[..j] == Lengths(rest);
    }
  }

  lemma {:induction false} InColumns<T>(blocks: seq<seq<T>>, n: nat, j: nat, m: nat)
    requires j < |blocks| && m < |blocks[j]| && m < n
    ensures Position(Lengths(blocks), j, m) < |Columns(blocks, n)|
    ensures Columns(blocks, n)[Position(Lengths(blocks), j, m)] == blocks[j][m]
  {
    hide Column, Width;
    if m < n - 1 {
      InColumns(blocks, n - 1, j, m);
    } else {
      ColumnsWidth(blocks, n - 1);
      InColumn(blocks, m, j);
    }
  }

  /** De-interleaving recovers every block, whatever follows the stream. */
  lemma DeinterleaveInterleave<T>(blocks: seq<seq<T>>, tail: seq<T>)
    ensures Covers(Lengths(blocks), Interleave(blocks) + tail)
    ensures Deinterleave(Lengths(blocks), Interleave(blocks) + tail) == blocks
  {
    hide Columns, Position, MaxLength;
    var lens := Lengths(blocks);
    var stream := Interleave(blocks) + tail;
    forall j: nat, m: nat | j < |lens| && m < lens[j]
      ensures Position(lens, j, m) < |stream| && stream[Position(lens, j, m)] == blocks[j][m]
    {
      InColumns(blocks, MaxLength(blocks), j, m);
    }
    var out := Deinterleave(lens, stream);
    forall j | 0 <= j < |blocks| ensures out[j] == blocks[j] {
      forall m | 0 <= m < |blocks[j]| ensures out[j][m] == blocks[j][m] {
      }
    }
  }

  // The order of the stream, spelled out.

  lemma {:induction false} FullWidth(lens: seq<nat>, m: nat)
    requires forall j | 0 <= j < |lens| :: m < lens[j]
    ensures Width(lens, m) == |lens|
  {
    if lens != [] {
      FullWidth(lens[..|lens| - 1], m);
    }
  }

  lemma {:induction false} FullWidthsBefore(lens: seq<nat>, m: nat)
    requires forall j | 0 <= j < |lens| :: m <= lens[j]
    ensures WidthBefore(lens, m) == m * |lens|
  {
    if m > 0 {
      FullWidthsBefore(lens, m - 1);
      FullWidth(lens, m - 1);
      OneRowMore(m, |lens|);
    }
  }

  lemma OneRowMore(m: nat, n: nat)
    requires m > 0
    ensures (m - 1) * n + n == m * n
  {
  }

  /** While every block has an element m, the stream takes one from each block in turn. */
  lemma TakesTurns<T>(blocks: seq<seq<T>>, j: nat, m: nat)
    requires j < |blocks| && forall i | 0 <= i < |blocks| :: m < |blocks[i]|
    ensures m * |blocks| + j < |Interleave(blocks)|
    ensures Interleave(blocks)[m * |blocks| + j] == blocks[j][m]
  {
    hide Columns, MaxLength, Width, WidthBefore;
    var lens := Lengths(blocks);
    InColumns(blocks, MaxLength(blocks), j, m);
    FullWidthsBefore(lens, m);
    FullWidth(lens[..j], m);
  }

  // The stream is exactly as long as the blocks together.

  function Min(x: nat, y: nat): nat {
    if x <= y then x else y
  }

  /** Elements of the blocks within the first n columns. */
  function Clipped(lens: seq<nat>, n: nat): nat {
    if lens == [] then 0 else Clipped(lens[..|lens| - 1], n) + Min(lens[|lens| - 1], n)
  }

  lemma {:induction false} ClippedStep(lens: seq<nat>, n: nat)
    ensures Clipped(lens, n + 1) == Clipped(lens, n) + Width(lens, n)
  {
    if lens != [] {
      ClippedStep(lens[..|lens| - 1], n);
    }
  }

  lemma {:induction false} ClippedStart(lens: seq<nat>)
    ensures Clipped(lens, 0) == 0
  {
    if lens != [] {
      ClippedStart(lens[..|lens| - 1]);
    }
  }

  lemma {:induction false} WidthsAddUp(lens: seq<nat>, n: nat)
    ensures WidthBefore(lens, n) == Clipped(lens, n)
  {
    if n == 0 {
      ClippedStart(lens);
    } else {
      WidthsAddUp(lens, n - 1);
      ClippedStep(lens, n - 1);
    }
  }

  lemma {:induction false} ClippedTotal(lens: seq<nat>, n: nat)
    requires forall j | 0 <= j < |lens| :: lens[j] <= n
    ensures Clipped(lens, n) == Total(lens)
  {
    if lens != [] {
      ClippedTotal(lens[..|lens| - 1], n);
    }
  }

  lemma InterleaveLength<T>(blocks: seq<seq<T>>)
    ensures |Interleave(blocks)| == Total(Lengths(blocks))
  {
    ColumnsWidth(blocks, MaxLength(blocks));
    WidthsAddUp(Lengths(blocks), MaxLength(blocks));
    ClippedTotal(Lengths(blocks), MaxLength(blocks));
  }
}
