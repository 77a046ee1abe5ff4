/** Lower-case hexadecimal rendering of bytes (`f'{byte:02x}'`, joined)
    and its inverse. */
module Hex {
  import opened Common

  const HEX_DIGITS: string := "0123456789abcdef"

  /** Two lower-case hex digits for one byte, most significant first. */
  function HexByte(b: byte): string
  {
    [HEX_DIGITS[b as int / 16], HEX_DIGITS[b as int % 16]]
  }

  /** `''.join(f'{byte:02x}' for byte in bs)`. */
  function HexString(bs: seq<byte>): (r: string)
    ensures |r| == 2 * |bs|
    ensures forall i :: 0 <= i < |r| ==> r[i] in HEX_DIGITS
  {
    if bs == [] then [] else HexByte(bs[0]) + HexString(bs[1..])
  }

  /** The value of a hex digit; 0 for any other character. */
  function DigitValue(c: char): (v: nat)
    ensures v < 16
  {
    if '0' <= c <= '9' then c as int - '0' as int
    else if 'a' <= c <= 'f' then c as int - 'a' as int + 10
    else 0
  }

  /** Reads a hex string back as bytes, two digits per byte. */
  function Unhex(s: string): seq<byte>
  {
    if |s| < 2 then []
    else [(DigitValue(s[0]) * 16 + DigitValue(s[1])) as byte] + Unhex(s[2..])
  }

  lemma DigitValueOfDigit(n: nat)
    requires n < 16
    ensures DigitValue(HEX_DIGITS[n]) == n
  {
  }

  /** The two digits of a byte read back as that byte. */
  lemma UnhexHexByte(b: byte, rest: string)
    ensures Unhex(HexByte(b) + rest) == [b] + Unhex(rest)
  {
    var high := b as int / 16;
    var low := b as int % 16;
    DigitValueOfDigit(high);
    DigitValueOfDigit(low);
    var h := HexByte(b) + rest;
    assert h[0] == HEX_DIGITS[high] && h[1] == HEX_DIGITS[low] && h[2..] == rest;
    assert DigitValue(h[0]) * 16 + DigitValue(h[1]) == b as int;
  }

  lemma {:induction false} UnhexHexString(bs: seq<byte>)
    ensures Unhex(HexString(bs)) == bs
  {
    if bs != [] {
      UnhexHexByte(bs[0], HexString(bs[1..]));
      UnhexHexString(bs[1..]);
      assert bs == [bs[0]] + bs[1..];
    }
  }
}
