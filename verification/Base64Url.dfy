/**
 * Unpadded base64url (section 5 of RFC 4648) through the standard base64 of
 * `btoa` and `atob`.
 */
module Base64Url {
  import opened Wrappers
  import opened Galois

  // The alphabets.

  function StandardChar(n: nat): char
    requires n < 64
  {
    if n < 26 then 'A' + n as char
    else if n < 52 then 'a' + (n - 26) as char
    else if n < 62 then '0' + (n - 52) as char
    else if n == 62 then '+' else '/'
  }

  /** The six bits a base64 character stands for, or -1. */
  function StandardValue(c: char): (n: int)
    ensures -1 <= n < 64
  {
    if 'A' <= c <= 'Z' then c as int - 'A' as int
    else if 'a' <= c <= 'z' then c as int - 'a' as int + 26
    else if '0' <= c <= '9' then c as int - '0' as int + 52
    else if c == '+' then 62
    else if c == '/' then 63
    else -1
  }

  function UrlChar(n: nat): char
    requires n < 64
  {
    if n == 62 then '-' else if n == 63 then '_' else StandardChar(n)
  }

  predicate IsUrlChar(c: char) {
    'A' <= c <= 'Z' || 'a' <= c <= 'z' || '0' <= c <= '9' || c == '_' || c == '-'
  }

  predicate MatchesPattern(s: string) {
    s != "" && forall i | 0 <= i < |s| :: IsUrlChar(s[i])
  }

  lemma Letters(n: nat)
    requires n < 26
    ensures 'A' + n as char == "ABCDEFGHIJKLMNOPQRSTUVWXYZ"[n]
    ensures 'a' + n as char == "abcdefghijklmnopqrstuvwxyz"[n]
  {
  }

  lemma Digits(n: nat)
    requires n < 10
    ensures '0' + n as char == "0123456789"[n]
  {
  }

  /** The 64 characters in their order: sections 4 and 5 of RFC 4648. */
  lemma Alphabets(n: nat)
    requires n < 64
    ensures StandardChar(n) == ("ABCDEFGHIJKLMNOPQRSTUVWXYZ" + "abcdefghijklmnopqrstuvwxyz" + "0123456789" + "+/")[n]
    ensures UrlChar(n) == ("ABCDEFGHIJKLMNOPQRSTUVWXYZ" + "abcdefghijklmnopqrstuvwxyz" + "0123456789" + "-_")[n]
  {
    if n < 26 {
      Letters(n);
    } else if n < 52 {
      Letters(n - 26);
    } else if n < 62 {
      Digits(n - 52);
    }
  }

  // Bytes and six-bit groups.

  type Sextet = x: int | 0 <= x < 64

  function Sextets(b: seq<Byte>): (s: seq<Sextet>) {
    match |b|
    case 0 => []
    case 1 => [b[0] / 4, b[0] % 4 * 16]
    case 2 => [b[0] / 4, b[0] % 4 * 16 + b[1] / 16, b[1] % 16 * 4]
    case _ => [b[0] / 4, b[0] % 4 * 16 + b[1] / 16, b[1] % 16 * 4 + b[2] / 64, b[2] % 64] + Sextets(b[3..])
  }

  function High(s: Sextet, t: Sextet): Byte {
    var x: int := s;
    x * 4 + t / 16
  }

  function Middle(s: Sextet, t: Sextet): Byte {
    var x: int := s;
    x % 16 * 16 + t / 4
  }

  function Low(s: Sextet, t: Sextet): Byte {
    var x: int := s;
    x % 4 * 64 + t
  }

  function Octets(s: seq<Sextet>): (b: seq<Byte>)
    requires |s| % 4 != 1
  {
    match |s|
    case 0 => []
    case 2 => [High(s[0], s[1])]
    case 3 => [High(s[0], s[1]), Middle(s[1], s[2])]
    case _ => [High(s[0], s[1]), Middle(s[1], s[2]), Low(s[2], s[3])] + Octets(s[4..])
  }

  /** Unpadded base64 of m bytes has length ceil(4 * m / 3). */
  lemma {:induction false} SextetsLength(b: seq<Byte>)
    ensures |Sextets(b)| == (4 * |b| + 2) / 3
    ensures |Sextets(b)| % 4 != 1
  {
    if |b| > 2 {
      SextetsLength(b[3..]);
    }
  }

  lemma BytesBack(x: Byte, y: Byte, z: Byte)
    ensures High(x / 4, x % 4 * 16 + y / 16) == x
    ensures Middle(x % 4 * 16 + y / 16, y % 16 * 4 + z / 64) == y
    ensures Low(y % 16 * 4 + z / 64, z % 64) == z
  {
  }

  lemma {:induction false} OctetsOfSextets(b: seq<Byte>)
    ensures |Sextets(b)| % 4 != 1 && Octets(Sextets(b)) == b
  {
    hide High, Middle, Low;
    SextetsLength(b);
    if |b| > 2 {
      OctetsOfSextets(b[3..]);
      BytesBack(b[0], b[1], b[2]);
      assert Sextets(b)[4..] == Sextets(b[3..]);
      assert b == [b[0], b[1], b[2]] + b[3..];
    } else if |b| == 2 {
      BytesBack(b[0], b[1], 0);
    } else if |b| == 1 {
      BytesBack(b[0], 0, 0);
    }
  }

  /** The bits a decoder drops at the end of an incomplete group. */
  predicate NoStrayBits(s: seq<Sextet>) {
    match |s| % 4
    case 2 => s[|s| - 1] % 16 == 0
    case 3 => s[|s| - 1] % 4 == 0
    case _ => true
  }

  lemma GroupBack(s: Sextet, t: Sextet, u: Sextet, v: Sextet)
    ensures High(s, t) / 4 == s
    ensures High(s, t) % 4 * 16 + Middle(t, u) / 16 == t
    ensures Middle(t, u) % 16 * 4 + Low(u, v) / 64 == u
    ensures Low(u, v) % 64 == v
    ensures High(s, t) % 4 * 16 == t <==> t % 16 == 0
    ensures Middle(t, u) % 16 * 4 == u <==> u % 4 == 0
  {
  }

  lemma {:induction false} SextetsOfOctets(s: seq<Sextet>)
    requires |s| % 4 != 1
    ensures Sextets(Octets(s)) == s <==> NoStrayBits(s)
  {
    hide High, Middle, Low;
    if |s| >= 4 {
      SextetsOfOctets(s[4..]);
      GroupBack(s[0], s[1], s[2], s[3]);
      var b := Octets(s);
      assert b[3..] == Octets(s[4..]);
      assert Sextets(b) == s[..4] + Sextets(b[3..]);
      assert s == s[..4] + s[4..];
      TailNoStrayBits(s);
    } else if |s| == 3 {
      GroupBack(s[0], s[1], s[2], 0);
    } else if |s| == 2 {
      GroupBack(s[0], s[1], 0, 0);
    }
  }

  lemma TailNoStrayBits(s: seq<Sextet>)
    requires |s| >= 4 && |s| % 4 != 1
    ensures NoStrayBits(s[4..]) == NoStrayBits(s)
  {
    var tail := s[4..];
    assert |s| == |tail| + 4 && (|tail| > 0 ==> tail[|tail| - 1] == s[|s| - 1]);
    assert |tail| % 4 == |s| % 4;
  }

  // Binary strings: one character below 256 per byte.

  function Binary(bytes: seq<Byte>): (s: string)
    ensures |s| == |bytes|
  {
    seq(|bytes|, i requires 0 <= i < |bytes| => bytes[i] as char)
  }

  predicate IsBinary(s: string) {
    forall i | 0 <= i < |s| :: s[i] < 256 as char
  }

  function CharCodes(s: string): (bytes: seq<Byte>)
    requires IsBinary(s)
    ensures |bytes| == |s|
  {
    seq(|s|, i requires 0 <= i < |s| => s[i] as int)
  }

  // The browser's base64.

  function Repeat(c: char, n: nat): (s: string)
    ensures |s| == n
  {
    seq(n, i => c)
  }

  function StandardText(s: seq<Sextet>): (r: string)
    ensures |r| == |s|
  {
    seq(|s|, i requires 0 <= i < |s| => StandardChar(s[i]))
  }

  /** Base64 with padding. */
  function Btoa(binary: string): string
    requires IsBinary(binary)
  {
    var text := StandardText(Sextets(CharCodes(binary)));
    text + Repeat('=', (4 - |text| % 4) % 4)
  }

  predicate InAlphabet(s: string) {
    forall i | 0 <= i < |s| :: StandardValue(s[i]) >= 0
  }

  function Values(s: string): (r: seq<Sextet>)
    requires InAlphabet(s)
    ensures |r| == |s|
  {
    seq(|s|, i requires 0 <= i < |s| => StandardValue(s[i]))
  }

  function DropOnePad(s: string): string {
    if s != "" && s[|s| - 1] == '=' then s[..|s| - 1] else s
  }

  /** The decoder of the HTML standard on text without white space: stray bits are dropped. */
  function Atob(data: string): (r: Result<string>)
    ensures r.Success? ==> IsBinary(r.value)
  {
    var text := if |data| % 4 == 0 then DropOnePad(DropOnePad(data)) else data;
    if |text| % 4 == 1 || !InAlphabet(text) then Failure("InvalidCharacterError")
    else Success(Binary(Octets(Values(text))))
  }

  // The conversions of the repository.

  /** The least of three chunk sizes that holds the plaintext, if one does. */
  method ChunkSizeForPlaintext(n: nat) returns (chunkSize: nat)
    ensures chunkSize in {0x80, 0x800, 0x8000}
    ensures n <= 0x8000 ==> n <= chunkSize
    ensures n <= 0x800 ==> chunkSize <= 0x800
    ensures n <= 0x80 ==> chunkSize <= 0x80
  {
    if n <= 0x80 {
      return 0x80;
    }
    if n <= 0x800 {
      return 0x800;
    }
    return 0x8000;
  }

  /** The chunk size does not show in the result. A chunk size of zero would never end the loop. */
  method BytesToBase64(bytes: seq<Byte>, chunkSize: nat) returns (s: string)
    requires chunkSize > 0
    ensures IsBinary(Binary(bytes)) && s == Btoa(Binary(bytes))
  {
    hide Btoa;
    var binary := "";
    var i := 0;
    while i < |bytes|
      invariant 0 <= i
      invariant binary == Binary(bytes[..Least(i, |bytes|)])
      decreases |bytes| - i
    {
      var end := Least(i + chunkSize, |bytes|);
      var chunk := bytes[i..end];
      BinaryAppends(bytes, i, end);
      binary := binary + Binary(chunk);
      i := i + chunkSize;
    }
    assert bytes[..Least(i, |bytes|)] == bytes;
    s := Btoa(binary);
  }

  function Least(a: int, b: int): int {
    if a < b then a else b
  }

  lemma BinaryAppends(bytes: seq<Byte>, i: nat, end: nat)
    requires i <= end <= |bytes|
    ensures Binary(bytes[..end]) == Binary(bytes[..i]) + Binary(bytes[i..end])
  {
  }

  function ReplaceAll(s: string, from: char, to: char): (r: string)
    ensures |r| == |s|
  {
    seq(|s|, i requires 0 <= i < |s| => if s[i] == from then to else s[i])
  }

  /** Removes every trailing '='. */
  function StripPads(s: string): string {
    if s != "" && s[|s| - 1] == '=' then StripPads(s[..|s| - 1]) else s
  }

  function ToUrl(base64: string): string {
    StripPads(ReplaceAll(ReplaceAll(base64, '+', '-'), '/', '_'))
  }

  function BytesToUrl(bytes: seq<Byte>): string {
    CodesOfBinary(bytes);
    ToUrl(Btoa(Binary(bytes)))
  }

  method BytesToBase64URL(bytes: seq<Byte>, chunkSize: nat) returns (s: string)
    requires chunkSize > 0
    ensures s == BytesToUrl(bytes)
  {
    var base64 := BytesToBase64(bytes, chunkSize);
    s := ToUrl(base64);
  }

  /** The padding added before decoding: three signs for an impossible length. */
  function Padded(value: string): string {
    var normalized := ReplaceAll(ReplaceAll(value, '-', '+'), '_', '/');
    normalized + Repeat('=', if |normalized| % 4 == 0 then 0 else 4 - |normalized| % 4)
  }

  function FromBase64(value: string): Result<seq<Byte>> {
    match Atob(Padded(value))
    case Success(binary) => Success(CharCodes(binary))
    case Failure(e) => Failure(e)
  }

  function FromUrl(value: string): Result<seq<Byte>> {
    if MatchesPattern(value) then FromBase64(value) else Failure("Invalid base64url data.")
  }

  method Base64ToBytes(base64: string) returns (r: Result<seq<Byte>>)
    ensures r == FromBase64(base64)
  {
    hide Atob, Padded;
    var decoded := Atob(Padded(base64));
    if decoded.Failure? {
      return Failure(decoded.error);
    }
    var binary := decoded.value;
    var bytes := new Byte[|binary|](i => 0);
    for i := 0 to |binary|
      invariant forall k | 0 <= k < i :: bytes[k] == CharCodes(binary)[k]
    {
      bytes[i] := binary[i] as int;
    }
    assert bytes[..] == CharCodes(binary);
    r := Success(bytes[..]);
  }

  method Base64URLToBytes(value: string) returns (r: Result<seq<Byte>>)
    ensures r == FromUrl(value)
  {
    if !MatchesPattern(value) {
      return Failure("Invalid base64url data.");
    }
    r := Base64ToBytes(value);
  }

  // What the conversions mean.

  lemma CodesOfBinary(bytes: seq<Byte>)
    ensures IsBinary(Binary(bytes)) && CharCodes(Binary(bytes)) == bytes
  {
  }

  function UrlText(s: seq<Sextet>): (r: string)
    ensures |r| == |s|
  {
    seq(|s|, i requires 0 <= i < |s| => UrlChar(s[i]))
  }

  lemma UrlTextMatches(s: seq<Sextet>)
    ensures s != [] ==> MatchesPattern(UrlText(s))
    ensures forall i | 0 <= i < |s| :: UrlText(s)[i] != '='
  {
  }

  lemma StripOne(s: string)
    ensures StripPads(s + "=") == StripPads(s)
  {
    assert (s + "=")[..|s|] == s;
  }

  lemma OnePadMore(s: string, n: nat)
    ensures s + Repeat('=', n + 1) == s + Repeat('=', n) + "="
  {
  }

  lemma NoPads(s: string)
    ensures s + Repeat('=', 0) == s
    ensures (s != "" ==> s[|s| - 1] != '=') ==> StripPads(s) == s
  {
  }

  lemma {:induction false} StripPadded(s: string, n: nat)
    requires s != "" ==> s[|s| - 1] != '='
    ensures StripPads(s + Repeat('=', n)) == s
  {
    hide StripPads, Repeat;
    if n == 0 {
      NoPads(s);
    } else {
      StripPadded(s, n - 1);
      OnePadMore(s, n - 1);
      StripOne(s + Repeat('=', n - 1));
    }
  }

  /** The base64url text of some bytes: one character per six-bit group, nothing else. */
  lemma UrlIsUrlText(bytes: seq<Byte>)
    ensures BytesToUrl(bytes) == UrlText(Sextets(bytes))
  {
    hide Sextets, StripPads;
    CodesOfBinary(bytes);
    var s := Sextets(bytes);
    var pads := Repeat('=', (4 - |s| % 4) % 4);
    UrlTextMatches(s);
    StripPadded(UrlText(s), |pads|);
    assert ReplaceAll(ReplaceAll(StandardText(s) + pads, '+', '-'), '/', '_') == UrlText(s) + pads;
  }

  // Where each character comes from.

  function ByteAt(bytes: seq<Byte>, i: nat): Byte {
    if i < |bytes| then bytes[i] else 0
  }

  /** Bits 6k to 6k + 5 of the bytes, zero past their end: three bytes make a 24-bit number of four groups. */
  function BitGroup(bytes: seq<Byte>, k: nat): (n: nat)
    ensures n < 64
  {
    var q := k / 4 * 3;
    var x: int, y: int, z: int := ByteAt(bytes, q), ByteAt(bytes, q + 1), ByteAt(bytes, q + 2);
    var word := x * 65536 + y * 256 + z;
    match k % 4
    case 0 => word / 262144
    case 1 => word / 4096 % 64
    case 2 => word / 64 % 64
    case _ => word % 64
  }

  lemma FourGroups(s: Sextet, t: Sextet, u: Sextet, v: Sextet)
    ensures var a: int, b: int, c: int, d: int := s, t, u, v;
            var word := a * 262144 + b * 4096 + c * 64 + d;
            && word / 262144 == a && word / 4096 % 64 == b && word / 64 % 64 == c && word % 64 == d
  {
    var a: int, b: int, c: int, d: int := s, t, u, v;
    var word := a * 262144 + b * 4096 + c * 64 + d;
    assert word / 64 == a * 4096 + b * 64 + c;
    assert word / 4096 == a * 64 + b;
  }

  lemma WordGroups(x: Byte, y: Byte, z: Byte)
    ensures var a: int, b: int, c: int := x, y, z;
            var word := a * 65536 + b * 256 + c;
            && word / 262144 == a / 4
            && word / 4096 % 64 == a % 4 * 16 + b / 16
            && word / 64 % 64 == b % 16 * 4 + c / 64
            && word % 64 == c % 64
  {
    FourGroups(x / 4, x % 4 * 16 + y / 16, y % 16 * 4 + z / 64, z % 64);
  }

  lemma FirstGroups(bytes: seq<Byte>, k: nat)
    requires k < 4 && k < |Sextets(bytes)|
    ensures Sextets(bytes)[k] == BitGroup(bytes, k)
  {
    WordGroups(ByteAt(bytes, 0), ByteAt(bytes, 1), ByteAt(bytes, 2));
  }

  lemma GroupLater(bytes: seq<Byte>, k: nat)
    requires |bytes| > 2 && k >= 4
    ensures BitGroup(bytes, k) == BitGroup(bytes[3..], k - 4)
  {
  }

  lemma {:induction false} SextetsAreGroups(bytes: seq<Byte>, k: nat)
    requires k < |Sextets(bytes)|
    ensures Sextets(bytes)[k] == BitGroup(bytes, k)
  {
    hide BitGroup;
    if k < 4 {
      FirstGroups(bytes, k);
    } else {
      SextetsAreGroups(bytes[3..], k - 4);
      GroupLater(bytes, k);
    }
  }

  /** Character k of the text is the alphabet's character for bits 6k to 6k + 5 of the bytes. */
  lemma UrlCharacters(bytes: seq<Byte>, k: nat)
    requires k < (4 * |bytes| + 2) / 3
    ensures |BytesToUrl(bytes)| == (4 * |bytes| + 2) / 3
    ensures BytesToUrl(bytes)[k]
         == ("ABCDEFGHIJKLMNOPQRSTUVWXYZ" + "abcdefghijklmnopqrstuvwxyz" + "0123456789" + "-_")[BitGroup(bytes, k)]
  {
    hide BitGroup, Sextets, BytesToUrl, UrlChar;
    UrlIsUrlText(bytes);
    SextetsLength(bytes);
    SextetsAreGroups(bytes, k);
    Alphabets(BitGroup(bytes, k));
  }

  /** The six-bit group of a base64url character. */
  function UrlValue(c: char): Sextet
    requires IsUrlChar(c)
  {
    if c == '-' then 62 else if c == '_' then 63 else StandardValue(c)
  }

  function UrlValues(value: string): (s: seq<Sextet>)
    requires MatchesPattern(value)
    ensures |s| == |value|
  {
    seq(|value|, i requires 0 <= i < |value| => UrlValue(value[i]))
  }

  lemma UrlTextOfValues(value: string)
    requires MatchesPattern(value)
    ensures UrlText(UrlValues(value)) == value
  {
  }

  lemma UrlValuesOfText(s: seq<Sextet>)
    requires s != []
    ensures MatchesPattern(UrlText(s)) && UrlValues(UrlText(s)) == s
  {
  }

  /** Decoding succeeds exactly on pattern text whose length leaves no single character over. */
  lemma FromUrlIs(value: string)
    ensures FromUrl(value).Success? <==> MatchesPattern(value) && |value| % 4 != 1
    ensures MatchesPattern(value) && |value| % 4 != 1 ==> FromUrl(value) == Success(Octets(UrlValues(value)))
  {
    hide Octets;
    if MatchesPattern(value) {
      DecodePadded(value);
      if |value| % 4 != 1 {
        CodesOfBinary(Octets(UrlValues(value)));
      }
    }
  }

  lemma NormalizedValues(value: string)
    requires MatchesPattern(value)
    ensures var text := ReplaceAll(ReplaceAll(value, '-', '+'), '_', '/');
            && InAlphabet(text) && '=' !in text
            && Values(text) == UrlValues(value)
  {
  }

  /** At most two padding signs are dropped. */
  lemma DropPads(text: string)
    requires '=' !in text
    ensures DropOnePad(DropOnePad(text + Repeat('=', 0))) == text
    ensures DropOnePad(DropOnePad(text + Repeat('=', 1))) == text
    ensures DropOnePad(DropOnePad(text + Repeat('=', 2))) == text
    ensures DropOnePad(DropOnePad(text + Repeat('=', 3))) == text + "="
  {
    hide Repeat, DropOnePad;
    NoPads(text);
    OnePadMore(text, 0);
    OnePadMore(text, 1);
    OnePadMore(text, 2);
    KeepLast(text);
    DropLast(text);
    DropLast(text + "=");
    DropLast(text + "=" + "=");
  }

  lemma DropLast(s: string)
    ensures DropOnePad(s + "=") == s
  {
  }

  lemma KeepLast(s: string)
    requires '=' !in s
    ensures DropOnePad(s) == s
  {
  }

  lemma DecodePadded(value: string)
    requires MatchesPattern(value)
    ensures Atob(Padded(value)) == if |value| % 4 == 1 then Failure("InvalidCharacterError")
                                   else Success(Binary(Octets(UrlValues(value))))
  {
    hide ReplaceAll, StandardValue, UrlValue, Octets, Values, IsUrlChar, InAlphabet, DropOnePad, Repeat;
    var text := ReplaceAll(ReplaceAll(value, '-', '+'), '_', '/');
    NormalizedValues(value);
    DropPads(text);
    if |text| % 4 == 1 {
      PadHasNoValue(text);
    }
  }

  lemma PadHasNoValue(text: string)
    ensures !InAlphabet(text + "=")
  {
    assert StandardValue((text + "=")[|text|]) < 0;
  }

  /** Bytes survive the round trip. */
  lemma UrlRoundTrip(bytes: seq<Byte>)
    requires bytes != []
    ensures MatchesPattern(BytesToUrl(bytes))
    ensures |BytesToUrl(bytes)| == (4 * |bytes| + 2) / 3
    ensures FromUrl(BytesToUrl(bytes)) == Success(bytes)
  {
    hide Octets, Sextets, BytesToUrl, FromUrl;
    UrlIsUrlText(bytes);
    SextetsLength(bytes);
    OctetsOfSextets(bytes);
    UrlValuesOfText(Sextets(bytes));
    FromUrlIs(BytesToUrl(bytes));
  }

  /** Text survives the opposite round trip exactly when the decoder dropped only zero bits. */
  lemma TextRoundTrip(value: string)
    requires FromUrl(value).Success?
    ensures MatchesPattern(value)
    ensures BytesToUrl(FromUrl(value).value) == value <==> NoStrayBits(UrlValues(value))
  {
    hide Octets, Sextets, BytesToUrl, FromUrl, NoStrayBits, UrlText;
    FromUrlIs(value);
    var s := UrlValues(value);
    UrlIsUrlText(Octets(s));
    SextetsOfOctets(s);
    UrlTextOfValues(value);
    if BytesToUrl(FromUrl(value).value) == value {
      UrlTextInjective(Sextets(Octets(s)), s);
    }
  }

  lemma UrlTextInjective(s: seq<Sextet>, t: seq<Sextet>)
    requires UrlText(s) == UrlText(t)
    ensures s == t
  {
    forall i | 0 <= i < |s| ensures s[i] == t[i] {
      assert UrlText(s)[i] == UrlText(t)[i];
      UrlCharInjective(s[i], t[i]);
    }
  }

  lemma UrlCharInjective(a: Sextet, b: Sextet)
    requires UrlChar(a) == UrlChar(b)
    ensures a == b
  {
  }

  /** Every text the encoder produces for the share link is decodable; distinct bytes give distinct texts. */
  lemma UrlInjective(a: seq<Byte>, b: seq<Byte>)
    requires BytesToUrl(a) == BytesToUrl(b)
    ensures a == b
  {
    hide BytesToUrl, Sextets, Octets;
    UrlIsUrlText(a);
    UrlIsUrlText(b);
    UrlTextInjective(Sextets(a), Sextets(b));
    OctetsOfSextets(a);
    OctetsOfSextets(b);
  }
}
