/**
 * Percent escapes of ASCII characters, shared by the length estimate of the
 * symbol and the share link.
 */
module PercentEncoding {

  predicate IsHex(c: char) {
    '0' <= c <= '9' || 'a' <= c <= 'f' || 'A' <= c <= 'F'
  }

  predicate IsAlphanumeric(c: char) {
    'a' <= c <= 'z' || 'A' <= c <= 'Z' || '0' <= c <= '9'
  }

  function HexDigit(n: nat): (c: char)
    requires n < 16
    ensures IsHex(c) && HexValue(c) == n
  {
    if n < 10 then '0' + n as char else 'A' + (n - 10) as char
  }

  function HexValue(c: char): (n: nat)
    requires IsHex(c)
    ensures n < 16
  {
    if c <= '9' then c as int - '0' as int
    else if c <= 'F' then c as int - 'A' as int + 10
    else c as int - 'a' as int + 10
  }

  function Escape(c: char): (s: string)
    requires c < 128 as char
    ensures |s| == 3 && s[0] == '%' && IsHex(s[1]) && IsHex(s[2]) && Unescape(s[1], s[2]) == c
  {
    ['%', HexDigit(c as int / 16), HexDigit(c as int % 16)]
  }

  /** Escapes are printed in upper case. */
  lemma EscapeDigits(c: char)
    requires c < 128 as char
    ensures Escape(c) == ['%', "0123456789ABCDEF"[c as int / 16], "0123456789ABCDEF"[c as int % 16]]
  {
    UpperDigit(c as int / 16);
    UpperDigit(c as int % 16);
  }

  lemma UpperDigit(n: nat)
    requires n < 16
    ensures HexDigit(n) == "0123456789ABCDEF"[n]
  {
  }

  function Unescape(high: char, low: char): char
    requires IsHex(high) && IsHex(low)
  {
    (16 * HexValue(high) + HexValue(low)) as char
  }
}
