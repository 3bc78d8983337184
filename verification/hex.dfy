/**
 * Lower-case hexadecimal text of a byte string, as the authentication handler
 * writes a SHA-256 digest: each byte becomes `b.toString(16).padStart(2, '0')`
 * and the pieces are joined with nothing between them.
 */
module Hex {

  type byte = x: int | 0 <= x < 256

  /** A SHA-256 digest: exactly 32 bytes. */
  type Digest = d: seq<byte> | |d| == 32 witness seq(32, (i: int) => 0 as byte)

  predicate IsLowerHex(c: char) {
    '0' <= c <= '9' || 'a' <= c <= 'f'
  }

  function HexDigit(v: nat): (c: char)
    requires v < 16
    ensures IsLowerHex(c)
  {
    if v < 10 then ('0' as int + v) as char else ('a' as int + v - 10) as char
  }

  function HexValue(c: char): (v: nat)
    requires IsLowerHex(c)
    ensures v < 16 && HexDigit(v) == c
  {
    if c <= '9' then c as int - '0' as int else c as int - 'a' as int + 10
  }

  /** `b.toString(16)`: the shortest base-16 numeral of `b`. */
  function Radix16(b: byte): string
  {
    if b < 16 then [HexDigit(b)] else [HexDigit(b / 16), HexDigit(b % 16)]
  }

  /** `s.padStart(n, '0')`. */
  function PadStartZero(s: string, n: nat): (r: string)
    ensures |r| == if |s| < n then n else |s|
  {
    if |s| < n then seq(n - |s|, (i: int) => '0') + s else s
  }

  /** One byte as exactly two lower-case hex digits, high nibble first. */
  function ByteToHex(b: byte): (s: string)
    ensures s == [HexDigit(b / 16), HexDigit(b % 16)]
  {
    PadStartZero(Radix16(b), 2)
  }

  /** `bytes.map(b => b.toString(16).padStart(2, '0')).join('')`. */
  function Encode(bytes: seq<byte>): (s: string)
    ensures |s| == 2 * |bytes|
    ensures forall k :: 0 <= k < |s| ==> IsLowerHex(s[k])
  {
    if |bytes| == 0 then "" else ByteToHex(bytes[0]) + Encode(bytes[1..])
  }

  /** Reads two hex digits per byte; the inverse of Encode. */
  function Decode(s: string): (bytes: seq<byte>)
    requires |s| % 2 == 0
    requires forall k :: 0 <= k < |s| ==> IsLowerHex(s[k])
    ensures 2 * |bytes| == |s|
  {
    if |s| == 0 then [] else [16 * HexValue(s[0]) + HexValue(s[1])] + Decode(s[2..])
  }

  lemma {:induction false} DecodeEncode(bytes: seq<byte>)
    ensures Decode(Encode(bytes)) == bytes
  {
    if |bytes| > 0 {
      var b := bytes[0];
      var s := Encode(bytes);
      assert s == [HexDigit(b / 16), HexDigit(b % 16)] + Encode(bytes[1..]);
      assert s[2..] == Encode(bytes[1..]);
      assert 16 * HexValue(s[0]) + HexValue(s[1]) == b;
      DecodeEncode(bytes[1..]);
    }
  }

  /** Different byte strings never encode to the same text. */
  lemma EncodeInjective(a: seq<byte>, b: seq<byte>)
    requires Encode(a) == Encode(b)
    ensures a == b
  {
    DecodeEncode(a);
    DecodeEncode(b);
  }

  /** A 32-byte digest gives 64 hex characters. */
  lemma DigestHexLength(d: Digest)
    ensures |Encode(d)| == 64
  {
  }
}
