/**
 * Byte strings and the two literal conversions the key-derivation constants use:
 * a Rust byte-string literal `b"..."` and `hex::decode` of a hexadecimal string.
 */
module Bytes {
  import opened Wrappers

  newtype byte = x: int | 0 <= x < 256

  /** Rust's `u32`. */
  type u32 = x: nat | x < 0x1_0000_0000

  /** Every character is 7-bit ASCII, as in a Rust byte-string literal. */
  predicate IsAscii(s: string) {
    forall k :: 0 <= k < |s| ==> s[k] as int < 128
  }

  /** The bytes of an ASCII literal, one per character. */
  function AsciiBytes(s: string): seq<byte>
    requires IsAscii(s)
  {
    seq(|s|, k requires 0 <= k < |s| => s[k] as int as byte)
  }

  /** The value of one hexadecimal digit, either case; None for any other character. */
  function HexDigit(c: char): (r: Option<nat>)
    ensures r.Some? ==> r.value < 16
  {
    if '0' <= c <= '9' then Some(c as int - '0' as int)
    else if 'a' <= c <= 'f' then Some(c as int - 'a' as int + 10)
    else if 'A' <= c <= 'F' then Some(c as int - 'A' as int + 10)
    else None
  }

  /** Every character is a hexadecimal digit. */
  predicate AllHexDigits(s: string) {
    forall k :: 0 <= k < |s| ==> HexDigit(s[k]).Some?
  }

  /** The byte made of a high and a low digit, in front of the decoding of the rest. */
  function PrependPair(hi: Option<nat>, lo: Option<nat>, rest: Option<seq<byte>>): Option<seq<byte>>
    requires hi.Some? ==> hi.value < 16
    requires lo.Some? ==> lo.value < 16
  {
    if hi.None? || lo.None? || rest.None? then None
    else Some([(16 * hi.value + lo.value) as byte] + rest.value)
  }

  /**
   * `hex::decode`: every two digits make one byte, high nibble first. Fails on an odd
   * number of characters or on a character that is not a hexadecimal digit.
   */
  function HexDecode(s: string): (r: Option<seq<byte>>)
    ensures r.Some? <==> |s| % 2 == 0 && AllHexDigits(s)
    ensures r.Some? ==> |r.value| == |s| / 2
    decreases |s|
  {
    if |s| < 2 then (if |s| == 0 then Some([]) else None)
    else
      PrependPair(HexDigit(s[0]), HexDigit(s[1]), HexDecode(s[2..]))
  }

  /** Decoding a string of digits decodes its first pair and then the rest. */
  lemma HexDecodeFirstPair(s: string)
    requires |s| >= 2 && HexDigit(s[0]).Some? && HexDigit(s[1]).Some? && HexDecode(s[2..]).Some?
    ensures HexDecode(s) == Some([(16 * HexDigit(s[0]).value + HexDigit(s[1]).value) as byte] + HexDecode(s[2..]).value)
  {
  }

  /** Byte `k` of the decoding is made of the digits at `2 * k` (high) and `2 * k + 1` (low). */
  lemma {:induction false} HexDecodeAt(s: string, k: nat)
    requires HexDecode(s).Some? && k < |s| / 2
    ensures HexDecode(s).value[k] as int == 16 * HexDigit(s[2 * k]).value + HexDigit(s[2 * k + 1]).value
    decreases |s|
  {
    HexDecodeFirstPair(s);
    if k > 0 {
      HexDecodeAt(s[2..], k - 1);
      assert s[2..][2 * (k - 1)] == s[2 * k] && s[2..][2 * (k - 1) + 1] == s[2 * k + 1];
    }
  }

  /** `hi` and `lo` are hexadecimal digits that make the byte `b`. */
  predicate HexPairIs(hi: char, lo: char, b: byte) {
    HexDigit(hi).Some? && HexDigit(lo).Some? && b as int == 16 * HexDigit(hi).value + HexDigit(lo).value
  }

  /** A string decodes to `bytes` when each of its pairs of digits makes the byte at that position. */
  lemma {:induction false} HexDecodeIntro(s: string, bytes: seq<byte>)
    requires |s| == 2 * |bytes|
    requires forall k :: 0 <= k < |bytes| ==> HexPairIs(s[2 * k], s[2 * k + 1], bytes[k])
    ensures HexDecode(s) == Some(bytes)
    decreases |bytes|
  {
    if |bytes| > 0 {
      assert HexPairIs(s[0], s[1], bytes[0]);
      forall k | 0 <= k < |bytes| - 1
        ensures HexPairIs(s[2..][2 * k], s[2..][2 * k + 1], bytes[1..][k])
      {
        assert HexPairIs(s[2 * (k + 1)], s[2 * (k + 1) + 1], bytes[k + 1]);
      }
      HexDecodeIntro(s[2..], bytes[1..]);
      HexDecodeFirstPair(s);
      assert bytes == [bytes[0]] + bytes[1..];
    }
  }
}
