/** Bytes and their hexadecimal text form, as Node's `Buffer` handles it. */
module Hex {
  import opened Wrappers
  import opened Text

  newtype byte = x: int | 0 <= x < 256

  function HexChar(d: nat): char
    requires d < 16
  {
    "0123456789abcdef"[d]
  }

  /** `buf.toString('hex')`: two lower-case digits per byte. */
  function HexEncode(bs: seq<byte>): (s: string)
    ensures |s| == 2 * |bs|
    ensures forall i :: 0 <= i < |s| ==> IsDigitIn(s[i], 16)
  {
    if bs == [] then []
    else [HexChar(bs[0] as nat / 16), HexChar(bs[0] as nat % 16)] + HexEncode(bs[1..])
  }

  /**
   * `Buffer.from(s, 'hex')`: digit pairs are decoded from the left and decoding
   * stops at the first pair that is not two hexadecimal digits (an odd last
   * digit is dropped).
   */
  function HexDecode(s: string): (bs: seq<byte>)
    ensures |bs| <= |s| / 2
  {
    if |s| < 2 || !IsDigitIn(s[0], 16) || !IsDigitIn(s[1], 16) then []
    else [(DigitValue(s[0]).value * 16 + DigitValue(s[1]).value) as byte] + HexDecode(s[2..])
  }

  lemma HexCharValue(d: nat)
    requires d < 16
    ensures DigitValue(HexChar(d)) == Some(d)
  {
  }

  /** Decoding the hexadecimal form of a byte string gives the bytes back. */
  lemma {:induction false} HexRoundTrip(bs: seq<byte>)
    ensures HexDecode(HexEncode(bs)) == bs
  {
    if bs != [] {
      var s := HexEncode(bs);
      var hi, lo := bs[0] as nat / 16, bs[0] as nat % 16;
      HexCharValue(hi);
      HexCharValue(lo);
      assert s[0] == HexChar(hi) && s[1] == HexChar(lo);
      assert s[2..] == HexEncode(bs[1..]);
      HexRoundTrip(bs[1..]);
      assert hi * 16 + lo == bs[0] as nat;
    }
  }
}
