/**
 * The bit stream of a symbol: mode, character count, payload, terminator and
 * padding (section 7.4 of ISO/IEC 18004:2015), and its parser.
 */
module DataStream {
  import opened Wrappers
  import opened Gf2
  import opened Galois
  import opened GaloisTables
  import opened BitBuffers
  import opened Versions
  import opened Codewords

  const MODE_8BIT_BYTE: nat := 4
  const PAD0: nat := 236
  const PAD1: nat := 17

  /** A segment of byte-mode data. */
  datatype Segment = Segment(mode: nat, parsedData: seq<Byte>)

  predicate IsAscii(text: string) {
    forall i | 0 <= i < |text| :: text[i] < 128 as char
  }

  function Codes(text: string): (codes: seq<Byte>)
    requires IsAscii(text)
    ensures |codes| == |text|
  {
    seq(|text|, i requires 0 <= i < |text| => text[i] as int)
  }

  function TextSegment(text: string): Segment
    requires IsAscii(text)
  {
    Segment(MODE_8BIT_BYTE, Codes(text))
  }

  /** Below code 128 every character contributes its code as one byte. */
  method NewSegment(data: string) returns (s: Segment)
    requires IsAscii(data)
    ensures s == TextSegment(data)
  {
    var parsed: seq<Byte> := [];
    for d := 0 to |data|
      invariant parsed == Codes(data)[..d]
    {
      parsed := parsed + [data[d] as int];
    }
    s := Segment(MODE_8BIT_BYTE, parsed);
  }

  function PayloadBits(data: seq<Byte>, n: nat): (bits: seq<bool>)
    requires n <= |data|
    ensures |bits| == 8 * n
  {
    if n == 0 then [] else PayloadBits(data, n - 1) + NumBits(data[n - 1], 8)
  }

  function SegmentBits(v: nat, s: Segment): seq<bool> {
    NumBits(s.mode, 4) + NumBits(|s.parsedData|, LengthBits(v)) + PayloadBits(s.parsedData, |s.parsedData|)
  }

  function ListBits(v: nat, list: seq<Segment>, n: nat): seq<bool>
    requires n <= |list|
  {
    if n == 0 then [] else ListBits(v, list, n - 1) + SegmentBits(v, list[n - 1])
  }

  function ZeroBits(n: nat): (bits: seq<bool>)
    ensures |bits| == n
  {
    seq(n, i => false)
  }

  function Terminated(bits: seq<bool>, capacity: nat): seq<bool> {
    if |bits| + 4 <= capacity then bits + NumBits(0, 4) else bits
  }

  function Aligned(bits: seq<bool>): (r: seq<bool>)
    ensures |r| % 8 == 0 && |bits| <= |r| < |bits| + 8
  {
    bits + ZeroBits((8 - |bits| % 8) % 8)
  }

  /** n pad bytes, alternating from PAD0. */
  function PadBits(n: nat): (bits: seq<bool>)
    ensures |bits| == 8 * n
  {
    if n == 0 then [] else PadBits(n - 1) + NumBits(if n % 2 == 1 then PAD0 else PAD1, 8)
  }

  /** Header and payload completed to `count` bytes: terminator, byte boundary, padding. */
  function Filled(bits: seq<bool>, count: nat): (r: seq<bool>)
    requires |bits| <= 8 * count
    ensures |r| == 8 * count
  {
    var start := Aligned(Terminated(bits, 8 * count));
    start + PadBits((8 * count - |start|) / 8)
  }

  /** Bits grouped into bytes. */
  function Pack(bits: seq<bool>): (bytes: seq<Byte>)
    requires |bits| % 8 == 0
    ensures |bytes| == |bits| / 8
  {
    seq(|bits| / 8, k requires 0 <= k < |bits| / 8 => ByteOf(bits[8 * k..8 * k + 8]))
  }

  function ByteOf(bits: seq<bool>): Byte
    requires |bits| == 8
  {
    BytePowers();
    NumBitsInverse(bits);
    BitsNum(bits)
  }

  /** A full buffer is its bits packed. */
  lemma PackOfBits(bytes: seq<Byte>)
    ensures Pack(ByteBits(bytes)) == bytes
  {
    hide ByteBits, BitsNum;
    forall k | 0 <= k < |bytes| ensures Pack(ByteBits(bytes))[k] == bytes[k] {
      ByteSlice(bytes, k);
    }
  }

  lemma BitsOfPack(bits: seq<bool>)
    requires |bits| % 8 == 0
    ensures ByteBits(Pack(bits)) == bits
  {
    hide Pack;
    forall i | 0 <= i < |bits| ensures ByteBits(Pack(bits))[i] == bits[i] {
      PackedBit(bits, i);
    }
  }

  lemma PackedBit(bits: seq<bool>, i: nat)
    requires |bits| % 8 == 0 && i < |bits|
    ensures ByteBits(Pack(bits))[i] == bits[i]
  {
    hide Bit, BitsNum;
    var k := i / 8;
    var byte := bits[8 * k..8 * k + 8];
    NumBitsInverse(byte);
    assert byte[i % 8] == bits[i];
    assert NumBits(BitsNum(byte), 8)[i % 8] == bits[i];
  }

  /** The data bytes of a symbol. */
  function DataBytes(bits: seq<bool>, count: nat): (bytes: seq<Byte>)
    requires |bits| <= 8 * count
    ensures |bytes| == count
  {
    WholeBytes(count);
    Pack(Filled(bits, count))
  }

  lemma WholeBytes(count: nat)
    ensures 8 * count % 8 == 0 && 8 * count / 8 == count
  {
  }

  /** The codewords for the segments in the given blocks, or the overflow error. */
  ghost function Encode(v: nat, blocks: seq<RSBlock>, list: seq<Segment>): Result<seq<Byte>>
    requires Proper(blocks)
  {
    var bits := ListBits(v, list, |list|);
    var count := SumData(blocks);
    if |bits| > 8 * count then Failure("code length overflow.")
    else Success(CodewordsOf(DataBytes(bits, count), blocks))
  }

  method CreateData(t: Tables, v: nat, list: seq<Segment>) returns (r: Result<seq<Byte>>)
    requires t.Valid() && IsVersion(v)
    ensures Proper(RSBlocks(v)) && r == Encode(v, RSBlocks(v), list)
  {
    hide *;
    var e := GetRSBlocks(v);
    BlocksProper(v);
    var g := new BitBuffer();
    WriteList(g, v, list);
    var l := CountData(e);
    EncodeIs(v, e, list);
    ghost var bits := g.bits;
    var n := g.GetLengthInBits();
    if n > 8 * l {
      return Failure("code length overflow.");
    }
    FillBuffer(g, l);
    BufferIsPack(g, Filled(bits, l));
    var bytes := CreateBytes(t, g.buffer, e);
    r := Success(bytes);
  }

  lemma EncodeIs(v: nat, blocks: seq<RSBlock>, list: seq<Segment>)
    requires Proper(blocks)
    ensures var bits := ListBits(v, list, |list|);
            var count := SumData(blocks);
            if |bits| > 8 * count then Encode(v, blocks, list) == Failure("code length overflow.")
            else
              && Encode(v, blocks, list) == Success(CodewordsOf(DataBytes(bits, count), blocks))
              && DataBytes(bits, count) == Pack(Filled(bits, count))
  {
  }

  lemma BlocksProper(v: nat)
    requires IsVersion(v)
    ensures Proper(RSBlocks(v))
  {
    hide RSBlocks, EcCount;
    var blocks := RSBlocks(v);
    forall j | 0 <= j < |blocks|
      ensures blocks[j].totalCount == blocks[j].dataCount + EcLength(blocks[j]) && EcLength(blocks[j]) < 255
    {
      BlockErrorBytes(v, blocks[j]);
    }
  }

  lemma BufferIsPack(g: BitBuffer, bits: seq<bool>)
    requires g.Valid() && g.bits == bits && |bits| % 8 == 0
    ensures g.buffer == Pack(bits)
  {
    hide Pack, ByteBit;
    AlignedBytes(g.buffer, bits);
    PackOfBits(g.buffer);
  }

  method CountData(blocks: seq<RSBlock>) returns (l: nat)
    ensures l == SumData(blocks)
  {
    l := 0;
    for h := 0 to |blocks|
      invariant l == DataBefore(blocks, h)
    {
      l := l + blocks[h].dataCount;
    }
  }

  method WriteList(g: BitBuffer, v: nat, list: seq<Segment>)
    requires g.Valid() && g.bits == []
    modifies g
    ensures g.Valid() && g.bits == ListBits(v, list, |list|)
  {
    hide NumBits, PayloadBits, LengthBits, Pow2;
    for h := 0 to |list|
      invariant g.Valid() && g.bits == ListBits(v, list, h)
    {
      var i := list[h];
      g.Put(i.mode, 4);
      g.Put(|i.parsedData|, LengthBits(v));
      WritePayload(g, i.parsedData);
    }
  }

  method WritePayload(g: BitBuffer, data: seq<Byte>)
    requires g.Valid()
    modifies g
    ensures g.Valid() && g.bits == old(g.bits) + PayloadBits(data, |data|)
  {
    for b := 0 to |data|
      invariant g.Valid() && g.bits == old(g.bits) + PayloadBits(data, b)
    {
      g.Put(data[b], 8);
    }
  }

  /** The terminator, the zero bits up to a byte boundary, the alternating pad bytes. */
  method FillBuffer(g: BitBuffer, l: nat)
    requires g.Valid() && |g.bits| <= 8 * l
    modifies g
    ensures g.Valid() && g.bits == Filled(old(g.bits), l)
  {
    hide NumBits, Aligned, PadBits;
    ghost var start := Terminated(g.bits, 8 * l);
    if g.length + 4 <= 8 * l {
      g.Put(0, 4);
    }
    AlignBuffer(g);
    PadBuffer(g, l);
  }

  method AlignBuffer(g: BitBuffer)
    requires g.Valid()
    modifies g
    ensures g.Valid() && g.bits == Aligned(old(g.bits))
  {
    hide BitBuffer.Valid, ZeroBits;
    ghost var start := g.bits;
    ghost var total: nat := (8 - |start| % 8) % 8;
    ghost var k := 0;
    NoZeros(start);
    var length := g.GetLengthInBits();
    while length % 8 != 0
      invariant g.Valid() && g.bits == start + ZeroBits(k) && length == |g.bits|
      invariant k <= total
      decreases total - k
    {
      OneMoreZero(start, k);
      g.PutBit(false);
      k := k + 1;
      length := g.GetLengthInBits();
    }
  }

  lemma NoZeros(bits: seq<bool>)
    ensures bits + ZeroBits(0) == bits
  {
  }

  lemma OneMoreZero(bits: seq<bool>, k: nat)
    ensures bits + ZeroBits(k + 1) == bits + ZeroBits(k) + [false]
  {
  }

  method PadBuffer(g: BitBuffer, l: nat)
    requires g.Valid() && |g.bits| % 8 == 0 && |g.bits| <= 8 * l
    modifies g
    ensures g.Valid() && g.bits == old(g.bits) + PadBits((8 * l - |old(g.bits)|) / 8)
  {
    hide NumBits, PadBits, BitBuffer.Valid;
    ghost var start := g.bits;
    ghost var room: nat := l - |start| / 8;
    ghost var n := 0;
    NoPads(start);
    while true
      invariant g.Valid() && g.bits == start + PadBits(n)
      invariant n % 2 == 0 && n <= room
      decreases room - n
    {
      var length := g.GetLengthInBits();
      if length >= 8 * l {
        break;
      }
      OneMorePad(start, n);
      g.Put(PAD0, 8);
      n := n + 1;
      length := g.GetLengthInBits();
      if length >= 8 * l {
        break;
      }
      OneMorePad(start, n);
      g.Put(PAD1, 8);
      n := n + 1;
    }
    assert n == room;
  }

  lemma NoPads(bits: seq<bool>)
    ensures bits + PadBits(0) == bits
  {
  }

  lemma OneMorePad(bits: seq<bool>, n: nat)
    ensures bits + PadBits(n + 1) == bits + PadBits(n) + NumBits(if n % 2 == 0 then PAD0 else PAD1, 8)
  {
    hide NumBits;
  }

  // Reading the text back.

  /** The text in a symbol's data bytes: mode, count, then one byte per character. */
  function ParseText(v: nat, bytes: seq<Byte>): Option<string> {
    var bits := ByteBits(bytes);
    var header := 4 + LengthBits(v);
    if |bits| < header || BitsNum(bits[..4]) != 4 then None
    else
      var n := BitsNum(bits[4..header]);
      if header + 8 * n > |bits| then None
      else Some(seq(n, i requires 0 <= i < n =>
        ByteOf(bits[header + 8 * i..header + 8 * i + 8]) as char))
  }

  lemma {:induction false} PayloadSlice(data: seq<Byte>, n: nat, i: nat)
    requires i < n <= |data|
    ensures PayloadBits(data, n)[8 * i..8 * i + 8] == NumBits(data[i], 8)
  {
    hide NumBits;
    var before := PayloadBits(data, n - 1);
    assert PayloadBits(data, n) == before + NumBits(data[n - 1], 8);
    if i < n - 1 {
      PayloadSlice(data, n - 1, i);
      assert PayloadBits(data, n)[8 * i..8 * i + 8] == before[8 * i..8 * i + 8];
    } else {
      assert PayloadBits(data, n)[8 * i..8 * i + 8] == NumBits(data[n - 1], 8);
    }
  }

  lemma ByteOfNum(x: Byte)
    ensures ByteOf(NumBits(x, 8)) == x
  {
    BytePowers();
    BitsNumInverse(x, 8);
  }

  /** Whatever follows the segment, its text is read back. */
  lemma ParseSegment(v: nat, text: string, bytes: seq<Byte>)
    requires IsAscii(text) && |text| < Pow2(LengthBits(v))
    requires SegmentBits(v, TextSegment(text)) <= ByteBits(bytes)
    ensures ParseText(v, bytes) == Some(text)
  {
    hide NumBits, BitsNum, ByteBits, ByteOf, PayloadBits, LengthBits, Pow2, Codes;
    var bits := ByteBits(bytes);
    var data := Codes(text);
    var n := |text|;
    var segment := SegmentBits(v, TextSegment(text));
    var header := 4 + LengthBits(v);
    assert bits[..|segment|] == segment;
    assert bits[..4] == NumBits(MODE_8BIT_BYTE, 4);
    assert Pow2(4) == 16 by { SmallPowers(); }
    BitsNumInverse(MODE_8BIT_BYTE, 4);
    assert bits[4..header] == NumBits(n, LengthBits(v));
    BitsNumInverse(n, LengthBits(v));
    assert |bits| >= header + 8 * n;
    assert BitsNum(bits[..4]) == 4;
    assert BitsNum(bits[4..header]) == n;
    assert ParseText(v, bytes).Some?;
    var parsed := ParseText(v, bytes).value;
    forall i | 0 <= i < n ensures parsed[i] == text[i] {
      PayloadSlice(data, n, i);
      assert bits[header + 8 * i..header + 8 * i + 8] == PayloadBits(data, n)[8 * i..8 * i + 8];
      ByteOfNum(data[i]);
      CodeRoundTrip(text, i);
    }
    assert parsed == text;
  }

  lemma SmallPowers()
    ensures Pow2(4) == 16 && Pow2(8) == 256 && Pow2(16) == 65536
  {
    assert Pow2(12) == 4096;
  }

  lemma CodeRoundTrip(text: string, i: nat)
    requires IsAscii(text) && i < |text|
    ensures Codes(text)[i] as char == text[i]
  {
  }

  /** A segment starts with the bits 0100 and the number of characters in 8 or 16 bits, most significant first. */
  lemma HeaderBits(v: nat, text: string, k: nat)
    requires IsAscii(text) && k < if v < 10 then 8 else 16
    ensures var bits := SegmentBits(v, TextSegment(text));
            var width := if v < 10 then 8 else 16;
            && |bits| >= 4 + width
            && bits[..4] == [false, true, false, false]
            && bits[4 + k] == Bit(|text|, width - 1 - k)
  {
    hide Bit, PayloadBits;
    assert NumBits(4, 4) == [false, true, false, false] by { FourInBits(); }
  }

  lemma FourInBits()
    ensures NumBits(4, 4) == [false, true, false, false]
  {
    assert Bit(4, 3) == Bit(2, 2) == Bit(1, 1) == Bit(0, 0);
    assert Bit(4, 2) == Bit(2, 1) == Bit(1, 0);
    assert Bit(4, 1) == Bit(2, 0);
  }

  /** In byte mode the terminator always fits and ends on a byte boundary. */
  lemma TerminatorFits(v: nat, text: string, count: nat)
    requires IsAscii(text)
    requires |SegmentBits(v, TextSegment(text))| <= 8 * count
    ensures var bits := SegmentBits(v, TextSegment(text));
            && Terminated(bits, 8 * count) == bits + NumBits(0, 4)
            && Aligned(Terminated(bits, 8 * count)) == bits + NumBits(0, 4)
            && Filled(bits, count)
               == bits + NumBits(0, 4) + PadBits(count - (|bits| + 4) / 8)
  {
    hide NumBits, PayloadBits, PadBits;
    var bits := SegmentBits(v, TextSegment(text));
    var m := 1 + |text| + if v < 10 then 0 else 1;
    assert |bits| == 8 * m + 4;
    assert ZeroBits(0) == [];
  }

  lemma {:induction false} PadSlice(n: nat, k: nat)
    requires k < n
    ensures PadBits(n)[8 * k..8 * k + 8] == NumBits(if k % 2 == 0 then PAD0 else PAD1, 8)
  {
    hide NumBits;
    var before, last := PadBits(n - 1), NumBits(if n % 2 == 1 then PAD0 else PAD1, 8);
    assert PadBits(n) == before + last;
    if k < n - 1 {
      PadSlice(n - 1, k);
      assert PadBits(n)[8 * k..8 * k + 8] == before[8 * k..8 * k + 8];
    } else {
      assert PadBits(n)[8 * k..8 * k + 8] == last;
      assert n % 2 == 1 <==> k % 2 == 0;
    }
  }

  /** After the terminator the bytes alternate between the two pad values up to the end. */
  lemma PadBytesAlternate(v: nat, text: string, count: nat, k: nat)
    requires IsAscii(text)
    requires |SegmentBits(v, TextSegment(text))| <= 8 * count
    requires (|SegmentBits(v, TextSegment(text))| + 4) / 8 + k < count
    ensures DataBytes(SegmentBits(v, TextSegment(text)), count)[(|SegmentBits(v, TextSegment(text))| + 4) / 8 + k]
         == if k % 2 == 0 then 236 else 17
  {
    hide NumBits, SegmentBits, PadBits, ByteOf, Filled;
    var bits := SegmentBits(v, TextSegment(text));
    var m := (|bits| + 4) / 8;
    TerminatorFits(v, text, count);
    assert |bits + NumBits(0, 4)| == 8 * m;
    PadSlice(count - m, k);
    var all := Filled(bits, count);
    assert all[8 * (m + k)..8 * (m + k) + 8] == PadBits(count - m)[8 * k..8 * k + 8];
    ByteOfNum(if k % 2 == 0 then PAD0 else PAD1);
  }

  /** Parsing the data bytes of a symbol gives back the text. */
  lemma StreamReadBack(v: nat, text: string, count: nat)
    requires IsAscii(text) && |text| < Pow2(LengthBits(v))
    requires |SegmentBits(v, TextSegment(text))| <= 8 * count
    ensures ParseText(v, DataBytes(SegmentBits(v, TextSegment(text)), count)) == Some(text)
  {
    hide SegmentBits, ParseText, Filled, Pack, PadBits;
    var bits := SegmentBits(v, TextSegment(text));
    TerminatorFits(v, text, count);
    BitsOfPack(Filled(bits, count));
    ParseSegment(v, text, Pack(Filled(bits, count)));
  }
}
