/** Base16 as Go's `encoding/hex` does it (section 8 of RFC 4648, with
    lower-case digits when encoding). */
module Hex {
  import opened GoBytes
  import opened Results

  /** The lower-case hex digit for a nibble: '0'..'9', then 'a'..'f'. */
  function Digit(n: int): (c: byte)
    requires 0 <= n < 16
    ensures DigitValue(c) == n
  {
    if n < 10 then 48 + n else 87 + n
  }

  /** The value of a hex digit of either case, or -1 for any other byte. */
  function DigitValue(c: byte): (v: int)
    ensures -1 <= v < 16
  {
    if 48 <= c <= 57 then c - 48
    else if 97 <= c <= 102 then c - 87
    else if 65 <= c <= 70 then c - 55
    else -1
  }

  /** `hex.EncodeToString`: two lower-case digits per byte, high nibble first. */
  function EncodeToString(bs: seq<byte>): (r: seq<byte>)
    ensures |r| == 2 * |bs|
  {
    if bs == [] then [] else [Digit(bs[0] / 16), Digit(bs[0] % 16)] + EncodeToString(bs[1..])
  }

  /** `hex.DecodeString`: fails on an odd length or on a byte that is not a
      hex digit. */
  function DecodeString(s: seq<byte>): Option<seq<byte>>
  {
    if s == [] then Some([])
    else if |s| == 1 then None
    else
      var hi, lo := DigitValue(s[0]), DigitValue(s[1]);
      if hi < 0 || lo < 0 then None
      else match DecodeString(s[2..])
        case None => None
        case Some(rest) => Some([hi * 16 + lo] + rest)
  }

  /** Decoding undoes encoding. */
  lemma {:induction false} DecodeEncode(bs: seq<byte>)
    ensures DecodeString(EncodeToString(bs)) == Some(bs)
  {
    if bs != [] {
      var e := EncodeToString(bs);
      DecodeEncode(bs[1..]);
      assert e[2..] == EncodeToString(bs[1..]);
      assert bs == [bs[0]] + bs[1..];
    }
  }

  /** Every byte of an encoding is a lower-case hex digit. */
  lemma {:induction false} EncodeIsLowerHex(bs: seq<byte>)
    ensures forall i | 0 <= i < |EncodeToString(bs)| ::
      48 <= EncodeToString(bs)[i] <= 57 || 97 <= EncodeToString(bs)[i] <= 102
  {
    if bs != [] {
      EncodeIsLowerHex(bs[1..]);
    }
  }
}
