/**
 * From a text to its finished symbol: version choice, segment, mask choice and
 * drawing, with the guarantee a caller relies on.
 */
module CodeMaker {
  import opened Wrappers
  import opened GaloisTables
  import opened Versions
  import opened Codewords
  import opened DataStream
  import opened VersionChoice
  import opened Layout
  import opened Symbols
  import opened QrCode
  import opened QrReader

  /** A text whose estimate an entry reaches never overflows the symbol. */
  lemma NeverOverflows(text: string, asNumber: Option<nat>, v: nat)
    requires IsAscii(text) && IsVersion(v) && Estimate(text, asNumber) <= Capacity(v)
    ensures EncodeList(v, [TextSegment(text)]).Success?
  {
    hide Capacity, RSBlocks, CodewordsOf, SegmentBits, ListBits, Estimate, LengthBits;
    BlocksProper(v);
    ChosenVersionFits(text, asNumber, v);
    SingleSegment(v, TextSegment(text));
  }

  /** v is the least version whose capacity entry reaches the estimate. */
  ghost predicate LeastVersion(text: string, asNumber: Option<nat>, v: nat)
    requires IsAscii(text) && IsVersion(v)
  {
    && Estimate(text, asNumber) <= Capacity(v)
    && forall u | 1 <= u < v :: Capacity(u) < Estimate(text, asNumber)
  }

  lemma DrawnReadsBack(qr: QRCode, text: string, mask: nat)
    requires IsVersion(qr.typeNumber) && mask < 8 && IsAscii(text)
    requires qr.dataList == [TextSegment(text)] && EncodeList(qr.typeNumber, qr.dataList).Success?
    requires qr.Drawn(false, mask, Pass)
    ensures qr.Valid() && qr.moduleCount == Size(qr.typeNumber)
    ensures ReadText(qr.moduleCount, qr.grid) == Some(text)
  {
    hide EncodeList, Symbol, ReadText, Size, IsAscii, TextSegment, QRCode.Valid;
    SymbolReadBack(qr.typeNumber, mask, text);
  }

  /**
   * A symbol is made exactly when the estimate is within the largest capacity;
   * it has the least sufficient version and reads back to the text.
   */
  method MakeCode(t: Tables, text: string, asNumber: Option<nat>, lostPoint: Grid -> int) returns (code: Option<QRCode>)
    requires t.Valid() && IsAscii(text)
    ensures code.Some? <==> Estimate(text, asNumber) <= 2331
    ensures code.Some? ==>
      var qr := code.value;
      && fresh(qr) && qr.Valid()
      && IsVersion(qr.typeNumber) && LeastVersion(text, asNumber, qr.typeNumber)
      && qr.moduleCount == Size(qr.typeNumber)
      && ReadText(qr.moduleCount, qr.grid) == Some(text)
  {
    hide Estimate, Capacity, EncodeList, Symbol, ReadText, Size, IsAscii, TextSegment, QRCode.Valid, QRCode.Drawn, Tables.Valid;
    var choice := ChooseVersion(text, asNumber);
    if !choice.Version? {
      return None;
    }
    var v := choice.number;
    NeverOverflows(text, asNumber, v);
    var qr := new QRCode(v);
    qr.AddData(text);
    var r, mask := qr.Make(t, lostPoint);
    DrawnReadsBack(qr, text, mask);
    code := Some(qr);
  }

  /** Any text but a numeral gets a symbol exactly up to 2328 bytes. */
  lemma LongestReadableText(text: string)
    requires IsAscii(text)
    ensures |text| <= 2328 <==>
      exists v :: IsVersion(v) && Estimate(text, None) <= Capacity(v) && EncodeList(v, [TextSegment(text)]).Success?
  {
    hide Capacity, EncodeList, Estimate, TextSegment;
    LongestText(text);
    if |text| <= 2328 {
      CapacityOf40();
      NeverOverflows(text, None, 40);
      assert IsVersion(40);
    }
    forall v | IsVersion(v) ensures Capacity(v) <= 2331 {
      CapacityBound(v);
    }
  }
}
