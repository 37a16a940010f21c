/** Lower-case hexadecimal encoding of byte strings, as PHP's `bin2hex`
    produces it, together with its inverse (PHP's `hex2bin`) so that the
    encoding can be shown to lose nothing. */
module Hex {

  type byte = x: int | 0 <= x < 256

  predicate IsHexDigit(c: char) {
    '0' <= c <= '9' || 'a' <= c <= 'f'
  }

  predicate IsHexString(s: string) {
    forall i :: 0 <= i < |s| ==> IsHexDigit(s[i])
  }

  /** The digit `bin2hex` writes for a nibble. */
  function DigitChar(n: int): (c: char)
    requires 0 <= n < 16
    ensures IsHexDigit(c)
  {
    if n < 10 then ('0' as int + n) as char else ('a' as int + (n - 10)) as char
  }

  /** The nibble a hex digit stands for. */
  function DigitValue(c: char): (n: int)
    requires IsHexDigit(c)
    ensures 0 <= n < 16
  {
    if c <= '9' then c as int - '0' as int else c as int - 'a' as int + 10
  }

  lemma DigitRoundTrip(n: int)
    requires 0 <= n < 16
    ensures DigitValue(DigitChar(n)) == n
  {
  }

  lemma DigitCharOfValue(c: char)
    requires IsHexDigit(c)
    ensures DigitChar(DigitValue(c)) == c
  {
  }

  /** `bin2hex`: each byte becomes its high nibble then its low nibble. */
  function Encode(bs: seq<byte>): (s: string)
    ensures |s| == 2 * |bs|
    ensures IsHexString(s)
  {
    if |bs| == 0 then []
    else [DigitChar(bs[0] / 16), DigitChar(bs[0] % 16)] + Encode(bs[1..])
  }

  /** `hex2bin` on a well-formed even-length hex string. */
  function Decode(s: string): (bs: seq<byte>)
    requires |s| % 2 == 0 && IsHexString(s)
    ensures |bs| == |s| / 2
  {
    if |s| == 0 then []
    else [DigitValue(s[0]) * 16 + DigitValue(s[1])] + Decode(s[2..])
  }

  /** Decoding the encoding gives back the bytes. */
  lemma {:induction false} DecodeEncode(bs: seq<byte>)
    ensures Decode(Encode(bs)) == bs
  {
    if |bs| > 0 {
      var s := Encode(bs);
      assert s[2..] == Encode(bs[1..]);
      DigitRoundTrip(bs[0] / 16);
      DigitRoundTrip(bs[0] % 16);
      DecodeEncode(bs[1..]);
    }
  }

  /** Encoding the decoding gives back the hex string. */
  lemma {:induction false} EncodeDecode(s: string)
    requires |s| % 2 == 0 && IsHexString(s)
    ensures Encode(Decode(s)) == s
  {
    if |s| > 0 {
      var b := DigitValue(s[0]) * 16 + DigitValue(s[1]);
      assert b / 16 == DigitValue(s[0]) && b % 16 == DigitValue(s[1]);
      DigitCharOfValue(s[0]);
      DigitCharOfValue(s[1]);
      EncodeDecode(s[2..]);
      assert s == [s[0], s[1]] + s[2..];
    }
  }

  /** Distinct random byte strings give distinct codes. */
  lemma EncodeInjective(a: seq<byte>, b: seq<byte>)
    requires Encode(a) == Encode(b)
    ensures a == b
  {
    DecodeEncode(a);
    DecodeEncode(b);
  }
}
