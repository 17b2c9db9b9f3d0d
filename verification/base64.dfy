/** Base64 with the standard alphabet and '=' padding (section 4 of
    RFC 4648), decoded as Go's `base64.StdEncoding.DecodeString` does it:
    carriage returns and line feeds are skipped, the input must be whole
    padded quanta, and the unused low bits of the last quantum are ignored. */
module Base64 {
  import opened GoBytes
  import opened Results

  const PAD: byte := 61

  /** The character of a 6-bit value: 'A'..'Z', 'a'..'z', '0'..'9', '+', '/'. */
  function CharOf(v: int): (c: byte)
    requires 0 <= v < 64
    ensures c != PAD && c != NEWLINE && c != CARRIAGE_RETURN && c != QUOTE
  {
    if v < 26 then 65 + v
    else if v < 52 then 71 + v
    else if v < 62 then v - 4
    else if v == 62 then 43
    else 47
  }

  /** Every 6-bit value has its own character. */
  lemma ValueOfCharOf(v: int)
    requires 0 <= v < 64
    ensures ValueOf(CharOf(v)) == v
  {
  }

  /** The 6-bit value of an alphabet character, or -1 for any other byte
      (the pad character included). */
  function ValueOf(c: byte): (v: int)
    ensures -1 <= v < 64
  {
    if 65 <= c <= 90 then c - 65
    else if 97 <= c <= 122 then c - 71
    else if 48 <= c <= 57 then c + 4
    else if c == 43 then 62
    else if c == 47 then 63
    else -1
  }

  /** The input with every '\r' and '\n' removed. */
  function DropNewlines(s: seq<byte>): (r: seq<byte>)
    ensures |r| <= |s|
    ensures forall i | 0 <= i < |r| :: r[i] != NEWLINE && r[i] != CARRIAGE_RETURN
  {
    if s == [] then []
    else if s[0] == NEWLINE || s[0] == CARRIAGE_RETURN then DropNewlines(s[1..])
    else [s[0]] + DropNewlines(s[1..])
  }

  /** `StdEncoding.DecodeString`: at most three bytes for every four
      characters of input. */
  function DecodeString(s: seq<byte>): (r: Option<seq<byte>>)
    ensures r.Some? ==> 4 * |r.value| <= 3 * |s|
  {
    DecodeQuanta(DropNewlines(s))
  }

  /** Decodes whole four-character quanta; only the last may end in "=" or
      "==". The input is whole quanta, each giving three bytes except the
      last, which gives one to three. */
  function DecodeQuanta(t: seq<byte>): (r: Option<seq<byte>>)
    ensures r.Some? ==> |t| % 4 == 0 && 3 * |t| - 8 <= 4 * |r.value| <= 3 * |t|
    decreases |t|
  {
    if t == [] then Some([])
    else if |t| < 4 then None
    else
      var a, b, c, d := ValueOf(t[0]), ValueOf(t[1]), ValueOf(t[2]), ValueOf(t[3]);
      if a < 0 || b < 0 then None
      else if c >= 0 && d >= 0 then
        match DecodeQuanta(t[4..])
        case None => None
        case Some(rest) => Some(Triple(a, b, c, d) + rest)
      else if |t| > 4 then None
      else if c < 0 && t[2] == PAD && t[3] == PAD then Some([a * 4 + b / 16])
      else if c >= 0 && t[3] == PAD then Some([a * 4 + b / 16, (b % 16) * 16 + c / 4])
      else None
  }

  /** The three bytes that four 6-bit groups carry. */
  function Triple(a: int, b: int, c: int, d: int): seq<byte>
    requires 0 <= a < 64 && 0 <= b < 64 && 0 <= c < 64 && 0 <= d < 64
  {
    [a * 4 + b / 16, (b % 16) * 16 + c / 4, (c % 4) * 64 + d]
  }

  /** `StdEncoding.EncodeToString`, the encoding the node applies to the
      stored value before it reaches the query response. */
  function EncodeToString(bs: seq<byte>): (r: seq<byte>)
    ensures |r| % 4 == 0
    ensures forall i | 0 <= i < |r| :: r[i] != NEWLINE && r[i] != CARRIAGE_RETURN && r[i] != QUOTE
  {
    if |bs| == 0 then []
    else if |bs| == 1 then Quantum1(bs[0])
    else if |bs| == 2 then Quantum2(bs[0], bs[1])
    else Quantum3(bs[0], bs[1], bs[2]) + EncodeToString(bs[3..])
  }

  /** One byte: two characters and "==". */
  function Quantum1(x: byte): (r: seq<byte>)
    ensures |r| == 4
  {
    [CharOf(x / 4), CharOf((x % 4) * 16), PAD, PAD]
  }

  /** Two bytes: three characters and "=". */
  function Quantum2(x: byte, y: byte): (r: seq<byte>)
    ensures |r| == 4
  {
    [CharOf(x / 4), CharOf((x % 4) * 16 + y / 16), CharOf((y % 16) * 4), PAD]
  }

  /** Three bytes: four characters. */
  function Quantum3(x: byte, y: byte, z: byte): (r: seq<byte>)
    ensures |r| == 4
  {
    [CharOf(x / 4), CharOf((x % 4) * 16 + y / 16), CharOf((y % 16) * 4 + z / 64), CharOf(z % 64)]
  }

  /** Decoding undoes encoding. */
  lemma DecodeEncode(bs: seq<byte>)
    ensures DecodeString(EncodeToString(bs)) == Some(bs)
  {
    var e := EncodeToString(bs);
    DropNewlinesKeeps(e);
    DecodeQuantaEncode(bs);
  }

  lemma {:induction false} DropNewlinesKeeps(s: seq<byte>)
    requires forall i | 0 <= i < |s| :: s[i] != NEWLINE && s[i] != CARRIAGE_RETURN
    ensures DropNewlines(s) == s
  {
    if s != [] {
      DropNewlinesKeeps(s[1..]);
    }
  }

  lemma {:induction false} DecodeQuantaEncode(bs: seq<byte>)
    ensures DecodeQuanta(EncodeToString(bs)) == Some(bs)
    decreases |bs|
  {
    if |bs| == 1 {
      DecodeQuantum1(bs[0]);
      assert bs == [bs[0]];
    } else if |bs| == 2 {
      DecodeQuantum2(bs[0], bs[1]);
      assert bs == [bs[0], bs[1]];
    } else if |bs| >= 3 {
      DecodeQuantaEncode(bs[3..]);
      DecodeQuantum3(bs[0], bs[1], bs[2], EncodeToString(bs[3..]));
      assert bs == [bs[0], bs[1], bs[2]] + bs[3..];
    }
  }

  lemma DecodeQuantum1(x: byte)
    ensures DecodeQuanta(Quantum1(x)) == Some([x])
  {
    var t := Quantum1(x);
    assert ValueOf(t[0]) == x / 4 && ValueOf(t[1]) == (x % 4) * 16 && ValueOf(t[2]) == -1;
  }

  lemma DecodeQuantum2(x: byte, y: byte)
    ensures DecodeQuanta(Quantum2(x, y)) == Some([x, y])
  {
    var t := Quantum2(x, y);
    var a, b, c := x / 4, (x % 4) * 16 + y / 16, (y % 16) * 4;
    assert ValueOf(t[0]) == a && ValueOf(t[1]) == b && ValueOf(t[2]) == c && ValueOf(t[3]) == -1;
    assert a * 4 + b / 16 == x && (b % 16) * 16 + c / 4 == y;
  }

  /** A full quantum in front of a decodable rest yields its three bytes. */
  lemma DecodeQuantum3(x: byte, y: byte, z: byte, rest: seq<byte>)
    requires DecodeQuanta(rest).Some?
    ensures DecodeQuanta(Quantum3(x, y, z) + rest) == Some([x, y, z] + DecodeQuanta(rest).value)
  {
    var q := Quantum3(x, y, z);
    var t := q + rest;
    var a, b, c, d := x / 4, (x % 4) * 16 + y / 16, (y % 16) * 4 + z / 64, z % 64;
    Quantum3Values(x, y, z);
    assert t[0] == q[0] && t[1] == q[1] && t[2] == q[2] && t[3] == q[3];
    assert t[4..] == rest;
    DecodeFullQuantum(t, a, b, c, d);
  }

  /** The four characters of a full quantum carry the 6-bit groups of its
      bytes, and the groups reassemble into the bytes. */
  lemma Quantum3Values(x: byte, y: byte, z: byte)
    ensures var q, a, b, c, d := Quantum3(x, y, z), x / 4, (x % 4) * 16 + y / 16, (y % 16) * 4 + z / 64, z % 64;
      && ValueOf(q[0]) == a && ValueOf(q[1]) == b && ValueOf(q[2]) == c && ValueOf(q[3]) == d
      && Triple(a, b, c, d) == [x, y, z]
  {
    var a, b, c, d := x / 4, (x % 4) * 16 + y / 16, (y % 16) * 4 + z / 64, z % 64;
    ValueOfCharOf(a);
    ValueOfCharOf(b);
    ValueOfCharOf(c);
    ValueOfCharOf(d);
    GroupsReassemble(x, y, z);
  }

  lemma GroupsReassemble(x: byte, y: byte, z: byte)
    ensures Triple(x / 4, (x % 4) * 16 + y / 16, (y % 16) * 4 + z / 64, z % 64) == [x, y, z]
  {
    var b, c := (x % 4) * 16 + y / 16, (y % 16) * 4 + z / 64;
    assert b / 16 == x % 4 && b % 16 == y / 16;
    assert c / 4 == y % 16 && c % 4 == z / 64;
  }

  lemma DecodeFullQuantum(t: seq<byte>, a: int, b: int, c: int, d: int)
    requires |t| >= 4 && 0 <= a < 64 && 0 <= b < 64 && 0 <= c < 64 && 0 <= d < 64
    requires ValueOf(t[0]) == a && ValueOf(t[1]) == b && ValueOf(t[2]) == c && ValueOf(t[3]) == d
    requires DecodeQuanta(t[4..]).Some?
    ensures DecodeQuanta(t) == Some(Triple(a, b, c, d) + DecodeQuanta(t[4..]).value)
  {
  }
}
