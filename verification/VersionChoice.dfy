/**
 * The choice of the symbol version from the length of the text.
 */
module VersionChoice {
  import opened Wrappers
  import Gf2
  import opened PercentEncoding
  import opened Versions
  import opened DataStream

  // The length estimate: percent-encode, then fold every escape back to one character.

  /** The characters `encodeURI` leaves alone. */
  predicate IsUriChar(c: char) {
    || IsAlphanumeric(c)
    || c in {';', ',', '/', '?', ':', '@', '&', '=', '+', '$', '-', '_', '.', '!', '~', '*', '\'', '(', ')', '#'}
  }

  function EncodeChar(c: char): string
    requires c < 128 as char
  {
    if IsUriChar(c) then [c] else Escape(c)
  }

  function EncodeURI(text: string): string
    requires IsAscii(text)
  {
    if text == "" then "" else EncodeChar(text[0]) + EncodeURI(text[1..])
  }

  /** Replaces every percent escape by one character. */
  function FoldEscapes(s: string): string {
    if s == "" then ""
    else if |s| >= 3 && s[0] == '%' && IsHex(s[1]) && IsHex(s[2]) then "a" + FoldEscapes(s[3..])
    else [s[0]] + FoldEscapes(s[1..])
  }

  lemma {:induction false} FoldedLength(text: string)
    requires IsAscii(text)
    ensures |FoldEscapes(EncodeURI(text))| == |text|
  {
    if text != "" {
      var c, rest := text[0], EncodeURI(text[1..]);
      var s := EncodeURI(text);
      FoldedLength(text[1..]);
      if IsUriChar(c) {
        assert s[1..] == rest;
      } else {
        assert s[3..] == rest;
      }
    }
  }

  /**
   * The estimate: three bytes are added unless the text, read as a number,
   * equals its own folded length. `asNumber` is that reading, when it is a
   * natural number; no URL has one.
   */
  function Estimate(text: string, asNumber: Option<nat>): nat
    requires IsAscii(text)
  {
    var b := FoldEscapes(EncodeURI(text));
    |b| + if asNumber == Some(|b|) then 0 else 3
  }

  datatype Choice = Version(number: nat) | TooLongData | TypeError

  method ChooseVersion(text: string, asNumber: Option<nat>) returns (r: Choice)
    requires IsAscii(text)
    ensures r.Version? <==> Estimate(text, asNumber) <= 2331
    ensures r.Version? ==>
      && IsVersion(r.number)
      && Estimate(text, asNumber) <= Capacity(r.number)
      && forall u | 1 <= u < r.number :: Capacity(u) < Estimate(text, asNumber)
    ensures !r.Version? ==> r.TypeError?
  {
    hide Capacity, Estimate;
    var c, e, f := 1, Estimate(text, asNumber), 0;
    CapacityOf40();
    while 40 >= f
      invariant f <= 40 && c == f + 1
      invariant forall u | 1 <= u < c && u <= 40 :: Capacity(u) < e
    {
      if f == 40 {
        // the table has no row 40: reading a column of it throws
        return TypeError;
      }
      var h := Capacity(f + 1);
      if h >= e {
        break;
      }
      c, f := c + 1, f + 1;
    }
    if c > 40 {
      return TooLongData;
    }
    CapacityBound(c);
    r := Version(c);
  }

  lemma CapacityOf40()
    ensures Capacity(40) == 2331
  {
  }

  /** A text whose length an entry reaches fits: header, payload and terminator. */
  lemma ChosenVersionFits(text: string, asNumber: Option<nat>, v: nat)
    requires IsAscii(text) && IsVersion(v) && Estimate(text, asNumber) <= Capacity(v)
    ensures |SegmentBits(v, TextSegment(text))| + 4 <= 8 * SumData(RSBlocks(v))
    ensures |text| < Gf2.Pow2(LengthBits(v))
  {
    hide Capacity, DataCount, RSBlocks;
    FoldedLength(text);
    CapacityAgrees(v);
    CapacityBound(v);
    BlockSums(v);
    SmallPowers();
  }

  /** A text that is not a numeral is given a symbol exactly up to 2328 bytes. */
  lemma LongestText(text: string)
    requires IsAscii(text)
    ensures Estimate(text, None) <= 2331 <==> |text| <= 2328
  {
    FoldedLength(text);
  }
}
