/**
 * A reader of finished symbols that sees nothing but the dark and light
 * modules, and the theorem that it recovers the text of every symbol drawn.
 */
module QrReader {
  import opened Wrappers
  import opened Gf2
  import opened Galois
  import opened BitBuffers
  import opened Versions
  import opened Interleaving
  import opened Codewords
  import opened DataStream
  import opened Zigzag
  import opened Layout
  import opened Placement
  import opened Symbols
  import Bch

  predicate Dark(g: Grid, cell: Cell) {
    cell in g && g[cell] == Some(true)
  }

  /** The format word of the copy beside the upper left finder pattern. */
  function FormatWord(n: nat, g: Grid): nat {
    BitsNum(seq(15, i requires 0 <= i < 15 => Dark(g, (FormatRow(n, 14 - i), 8))))
  }

  /** The mask number, for a format word of level M, whose code is 0. */
  function ReadMask(n: nat, g: Grid): Option<nat> {
    var data := Xor(FormatWord(n, g), 21522) / 1024;
    if data < 8 then Some(data) else None
  }

  /** Whether a mask pattern inverts a module, by the residues of its row and column. */
  predicate Inverts(mask: nat, cell: Cell)
    requires mask < 8
  {
    var b, c := cell.0, cell.1;
    match mask
    case 0 => b % 2 == c % 2
    case 1 => b % 2 == 0
    case 2 => c % 3 == 0
    case 3 => b % 3 + c % 3 == 0 || b % 3 + c % 3 == 3
    case 4 => b % 4 < 2 <==> c % 6 < 3
    case 5 => b * c % 6 == 0
    case 6 => b * c % 6 < 3
    case _ => (b + c) % 2 == b * c % 3 % 2
  }

  lemma InvertsIsMask(mask: nat, cell: Cell)
    requires mask < 8 && cell.0 >= 0 && cell.1 >= 0
    ensures Inverts(mask, cell) == Masks(mask, cell)
  {
    hide GetMask;
    MaskClasses(cell.0, cell.1, cell.0 * cell.1);
  }

  /** The unmasked data bits, in zigzag order. */
  function ReadBits(v: nat, mask: nat, g: Grid): (bits: seq<bool>)
    requires IsVersion(v) && mask < 8
    ensures |bits| == |DataCells(v)|
  {
    seq(|DataCells(v)|, k requires 0 <= k < |DataCells(v)| => Dark(g, DataCells(v)[k]) != Inverts(mask, DataCells(v)[k]))
  }

  /** Codewords to text: de-interleave, drop the error correction, parse. */
  function ReadCodewords(v: nat, codewords: seq<Byte>): Option<string>
    requires IsVersion(v)
  {
    if Covers(DataLengths(RSBlocks(v)), codewords) then ParseText(v, DataOf(RSBlocks(v), codewords)) else None
  }

  function CodewordBits(v: nat): (n: nat)
    requires IsVersion(v)
    ensures n % 8 == 0
  {
    8 * TotalCount(v)
  }

  function ReadModules(v: nat, mask: nat, g: Grid): Option<string>
    requires IsVersion(v) && mask < 8
  {
    var bits, n := ReadBits(v, mask, g), CodewordBits(v);
    if |bits| < n then None else ReadCodewords(v, Pack(bits[..n]))
  }

  /** Reads a symbol of n by n modules. */
  function ReadText(n: nat, g: Grid): Option<string> {
    if n < 17 || n % 4 != 1 || !IsVersion((n - 17) / 4) then None
    else
      match ReadMask(n, g)
      case None => None
      case Some(mask) => ReadModules((n - 17) / 4, mask, g)
  }

  lemma BitsOfWord(word: nat)
    requires word < Pow2(15)
    ensures BitsNum(seq(15, i requires 0 <= i < 15 => Bit(word, 14 - i))) == word
  {
    BitsNumInverse(word, 15);
    assert NumBits(word, 15) == seq(15, i requires 0 <= i < 15 => Bit(word, 14 - i));
  }

  /** The format information of the symbol names its mask. */
  lemma MaskReadBack(v: nat, mask: nat, data: seq<Byte>)
    requires IsVersion(v) && mask < 8
    ensures ReadMask(Size(v), Symbol(v, false, mask, data)) == Some(mask)
  {
    hide *;
    var n, g, word := Size(v), Symbol(v, false, mask, data), Bch.TypeInfo(mask);
    forall e: nat | e < 15 ensures Dark(g, (FormatRow(n, e), 8)) == Bit(word, e) {
      FormatBit(v, mask, data, e);
    }
    FormatWordIs(n, g, word);
    Bch.TypeInfoBound(mask);
    BitsOfWord(word);
    Bch.TypeInfoIsCode(mask);
    MaskIs(n, g, mask);
  }

  lemma FormatWordIs(n: nat, g: Grid, word: nat)
    requires forall e: nat | e < 15 :: Dark(g, (FormatRow(n, e), 8)) == Bit(word, e)
    ensures FormatWord(n, g) == BitsNum(seq(15, i requires 0 <= i < 15 => Bit(word, 14 - i)))
  {
    hide Bit, Dark, BitsNum, FormatRow;
    assert seq(15, i requires 0 <= i < 15 => Dark(g, (FormatRow(n, 14 - i), 8)))
        == seq(15, i requires 0 <= i < 15 => Bit(word, 14 - i));
  }

  lemma MaskIs(n: nat, g: Grid, mask: nat)
    requires mask < 8 && Xor(FormatWord(n, g), 21522) / 1024 == mask
    ensures ReadMask(n, g) == Some(mask)
  {
    hide FormatWord, Xor;
  }

  lemma FormatBit(v: nat, mask: nat, data: seq<Byte>, e: nat)
    requires IsVersion(v) && mask < 8 && e < 15
    ensures Dark(Symbol(v, false, mask, data), (FormatRow(Size(v), e), 8)) == Bit(Bch.TypeInfo(mask), e)
  {
    hide Symbol, PatternPosition, Setup, Bit, Bch.TypeInfo, IsFunction, Square;
    var cell: Cell := (FormatRow(Size(v), e), 8);
    FormatModules(v, false, mask, e);
    SetupLayout(v, false, mask, cell);
    SymbolModules(v, false, mask, data, cell);
  }

  /** Unmasked, the data modules hold the codewords bit by bit. */
  lemma BitsReadBack(v: nat, mask: nat, data: seq<Byte>)
    requires IsVersion(v) && mask < 8 && |data| == TotalCount(v)
    ensures |ReadBits(v, mask, Symbol(v, false, mask, data))| >= CodewordBits(v)
    ensures ReadBits(v, mask, Symbol(v, false, mask, data))[..CodewordBits(v)] == ByteBits(data)
  {
    hide Symbol, DataCells, Masks, Inverts, Bit, TotalCount, IsFunction, Distinct, PatternPosition;
    DataCellsAre(v);
    var g := Symbol(v, false, mask, data);
    forall k | 0 <= k < 8 * |data| ensures ReadBits(v, mask, g)[k] == ByteBits(data)[k] {
      SymbolData(v, false, mask, data, k);
      assert DataCells(v)[k] in DataCells(v);
      InvertsIsMask(mask, DataCells(v)[k]);
    }
  }

  lemma FittingLength(v: nat, text: string)
    requires IsVersion(v) && IsAscii(text)
    requires |SegmentBits(v, TextSegment(text))| <= 8 * SumData(RSBlocks(v))
    ensures |text| < Pow2(LengthBits(v))
  {
    hide RSBlocks, DataCount, Capacity, SumData;
    BlockSums(v);
    CapacityAgrees(v);
    CapacityBound(v);
    SmallPowers();
  }

  lemma SingleSegment(v: nat, s: Segment)
    ensures ListBits(v, [s], 1) == SegmentBits(v, s)
  {
    hide SegmentBits;
    assert ListBits(v, [s], 0) == [];
  }

  /** The segment of a text is within the data codewords of version v. */
  predicate Fits(v: nat, text: string)
    requires IsVersion(v)
  {
    4 + LengthBits(v) + 8 * |text| <= 8 * DataCount(v)
  }

  /** The codewords of a text parse back to it; there are none exactly when it does not fit. */
  lemma CodewordsReadBack(v: nat, text: string)
    requires IsVersion(v) && IsAscii(text)
    ensures EncodeList(v, [TextSegment(text)]).Success? <==> Fits(v, text)
    ensures Fits(v, text) ==>
      var data := EncodeList(v, [TextSegment(text)]).value;
      |data| == TotalCount(v) && ReadCodewords(v, data) == Some(text)
  {
    hide RSBlocks, TotalCount, DataCount, SegmentBits, CodewordsOf, DataOf, Covers, ParseText, Filled, ListBits, Pack, LengthBits;
    var blocks := RSBlocks(v);
    BlocksProper(v);
    SingleSegment(v, TextSegment(text));
    var bits := SegmentBits(v, TextSegment(text));
    var count := SumData(blocks);
    BlockSums(v);
    SegmentLength(v, text);
    if Fits(v, text) {
      var bytes := DataBytes(bits, count);
      var data := EncodeList(v, [TextSegment(text)]).value;
      FittingLength(v, text);
      CodewordsLength(bytes, blocks);
      DataReadBack(bytes, blocks, []);
      assert CodewordsOf(bytes, blocks) + [] == data;
      assert bytes[..count] == bytes;
      StreamReadBack(v, text, count);
    }
  }

  lemma SegmentLength(v: nat, text: string)
    requires IsAscii(text)
    ensures |SegmentBits(v, TextSegment(text))| == 4 + LengthBits(v) + 8 * |text|
  {
    hide NumBits, PayloadBits;
  }

  /**
   * Main theorem: whatever text fits, in whatever version and mask, the finished
   * symbol reads back to it; and there is a symbol exactly when the text fits.
   */
  lemma SymbolReadBack(v: nat, mask: nat, text: string)
    requires IsVersion(v) && mask < 8 && IsAscii(text)
    ensures match EncodeList(v, [TextSegment(text)])
            case Success(data) => Fits(v, text) && ReadText(Size(v), Symbol(v, false, mask, data)) == Some(text)
            case Failure(_) => !Fits(v, text)
  {
    hide ReadMask, ReadBits, Symbol, EncodeList, CodewordBits, ReadCodewords, DataCells, Pack, ByteBits, Fits;
    CodewordsReadBack(v, text);
    if Fits(v, text) {
      var data := EncodeList(v, [TextSegment(text)]).value;
      MaskReadBack(v, mask, data);
      BitsReadBack(v, mask, data);
      PackOfBits(data);
      assert (Size(v) - 17) / 4 == v;
    }
  }
}
