/** Hex encoding as Node's Buffer does it: `toString('hex')` writes two
    lowercase digits per byte; `Buffer.from(s, 'hex')` reads digit pairs in
    either case and stops at the first pair that is not hex, dropping a
    trailing odd digit. */
module Hex {

  type byte = x: int | 0 <= x < 256

  predicate IsLowerHexDigit(ch: char) {
    '0' <= ch <= '9' || 'a' <= ch <= 'f'
  }

  /** The regular expression /^[0-9a-f]+$/: one or more lowercase hex digits. */
  predicate IsLowerHex(s: string) {
    |s| > 0 && forall i :: 0 <= i < |s| ==> IsLowerHexDigit(s[i])
  }

  /** The value of a hex digit in either case, or -1 for any other character. */
  function DigitValue(ch: char): (v: int)
    ensures -1 <= v < 16
    ensures v >= 0 <==> IsLowerHexDigit(ch) || 'A' <= ch <= 'F'
  {
    if '0' <= ch <= '9' then ch as int - '0' as int
    else if 'a' <= ch <= 'f' then ch as int - 'a' as int + 10
    else if 'A' <= ch <= 'F' then ch as int - 'A' as int + 10
    else -1
  }

  /** The lowercase digit for a nibble; DigitValue reads it back. */
  function Digit(n: int): (ch: char)
    requires 0 <= n < 16
    ensures IsLowerHexDigit(ch) && DigitValue(ch) == n
  {
    if n < 10 then ('0' as int + n) as char else ('a' as int + n - 10) as char
  }

  /** `buffer.toString('hex')`. */
  function ToHex(bytes: seq<byte>): (s: string)
    ensures |s| == 2 * |bytes|
    ensures forall i :: 0 <= i < |s| ==> IsLowerHexDigit(s[i])
  {
    if bytes == [] then ""
    else [Digit(bytes[0] / 16), Digit(bytes[0] % 16)] + ToHex(bytes[1..])
  }

  /** `Buffer.from(s, 'hex')`: lenient, it never fails. */
  function FromHex(s: string): (bytes: seq<byte>)
    ensures |bytes| <= |s| / 2
  {
    if |s| < 2 || DigitValue(s[0]) < 0 || DigitValue(s[1]) < 0 then []
    else [DigitValue(s[0]) * 16 + DigitValue(s[1])] + FromHex(s[2..])
  }

  /** Decoding what was encoded gives back the same bytes. */
  lemma {:induction false} FromHexToHex(bytes: seq<byte>)
    ensures FromHex(ToHex(bytes)) == bytes
  {
    if bytes != [] {
      var s := ToHex(bytes);
      assert s[2..] == ToHex(bytes[1..]);
      FromHexToHex(bytes[1..]);
    }
  }

  /** A hex rendering is a lowercase-hex string exactly when there is something to render. */
  lemma ToHexIsLowerHex(bytes: seq<byte>)
    ensures IsLowerHex(ToHex(bytes)) <==> |bytes| > 0
  {
  }
}
