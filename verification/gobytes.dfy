/** Byte strings and the few routines of Go's `bytes` and `strings` packages
    that the benchmarks call: Index, Contains, Split, SplitN and a ReplaceAll
    whose old and new strings are one byte each. Join is not called; it is
    here as the inverse that `JoinSplit` proves Split against. */
module GoBytes {

  /** A Go `byte` (uint8). Go strings are byte strings, so every string of the
      model is a `seq<byte>`. */
  type byte = b: int | 0 <= b < 256

  /** Go's `uint64`; arithmetic on it wraps modulo U64. */
  const U64: int := 0x1_0000_0000_0000_0000
  type uint64 = x: int | 0 <= x < U64

  const NEWLINE: byte := 10
  const CARRIAGE_RETURN: byte := 13
  const SPACE: byte := 32
  const QUOTE: byte := 34

  /** The bytes Go stores for an ASCII string literal. */
  function Ascii(s: string): (r: seq<byte>)
    requires forall i | 0 <= i < |s| :: s[i] < 128 as char
  {
    seq(|s|, i requires 0 <= i < |s| => s[i] as int)
  }

  /** `sep` occurs in `s` starting at position `i`. */
  ghost predicate OccursAt(s: seq<byte>, sep: seq<byte>, i: int)
  {
    0 <= i && i + |sep| <= |s| && s[i..i + |sep|] == sep
  }

  /** The first occurrence of `sep` in `s` at or after `from`, or -1. */
  function IndexFrom(s: seq<byte>, sep: seq<byte>, from: nat): (r: int)
    ensures r == -1 || (from <= r && OccursAt(s, sep, r))
    ensures r == -1 ==> forall j | from <= j :: !OccursAt(s, sep, j)
    ensures r != -1 ==> forall j | from <= j < r :: !OccursAt(s, sep, j)
    decreases |s| - from
  {
    if from + |sep| > |s| then -1
    else if s[from..from + |sep|] == sep then from
    else IndexFrom(s, sep, from + 1)
  }

  /** `bytes.Index`: the position of the first occurrence of `sep`, or -1. */
  function Index(s: seq<byte>, sep: seq<byte>): (r: int)
    ensures r == -1 || OccursAt(s, sep, r)
    ensures r == -1 <==> forall j :: !OccursAt(s, sep, j)
    ensures forall j | 0 <= j < r :: !OccursAt(s, sep, j)
  {
    IndexFrom(s, sep, 0)
  }

  /** `bytes.Contains`. */
  predicate Contains(s: seq<byte>, sep: seq<byte>)
  {
    Index(s, sep) >= 0
  }

  /** `bytes.Split` for a non-empty separator: the pieces of `s` between
      successive non-overlapping occurrences of `sep`, left to right. */
  function Split(s: seq<byte>, sep: seq<byte>): (r: seq<seq<byte>>)
    requires |sep| > 0
    ensures |r| >= 1
    decreases |s|
  {
    var i := Index(s, sep);
    if i < 0 then [s] else [s[..i]] + Split(s[i + |sep|..], sep)
  }

  /** `bytes.SplitN` for `n >= 1`: as Split, but at most `n` pieces, the last
      holding the unsplit rest. */
  function SplitN(s: seq<byte>, sep: seq<byte>, n: int): (r: seq<seq<byte>>)
    requires |sep| > 0 && n >= 1
    ensures 1 <= |r| <= n
    decreases n
  {
    var i := Index(s, sep);
    if n == 1 || i < 0 then [s] else [s[..i]] + SplitN(s[i + |sep|..], sep, n - 1)
  }

  /** `bytes.Join`: the pieces with `sep` between neighbours. */
  function Join(parts: seq<seq<byte>>, sep: seq<byte>): seq<byte>
  {
    if |parts| == 0 then []
    else if |parts| == 1 then parts[0]
    else parts[0] + sep + Join(parts[1..], sep)
  }

  /** `strings.ReplaceAll(s, old, new)` where `old` and `new` are the single bytes
      `from` and `to`. */
  function ReplaceByte(s: seq<byte>, from: byte, to: byte): seq<byte>
  {
    if s == [] then [] else [if s[0] == from then to else s[0]] + ReplaceByte(s[1..], from, to)
  }

  /** Joining the pieces of a split with the separator gives back the input. */
  lemma {:induction false} JoinSplit(s: seq<byte>, sep: seq<byte>)
    requires |sep| > 0
    ensures Join(Split(s, sep), sep) == s
    decreases |s|
  {
    var i := Index(s, sep);
    if i >= 0 {
      var rest := s[i + |sep|..];
      var tail := Split(rest, sep);
      JoinSplit(rest, sep);
      assert Split(s, sep) == [s[..i]] + tail;
      assert ([s[..i]] + tail)[1..] == tail;
      assert Join(Split(s, sep), sep) == s[..i] + sep + Join(tail, sep);
      assert s == s[..i] + s[i..i + |sep|] + rest;
    }
  }

  /** No piece of a split contains the separator, and there are two or more
      pieces exactly when the separator occurs. */
  lemma {:induction false} SplitPieces(s: seq<byte>, sep: seq<byte>)
    requires |sep| > 0
    ensures |Split(s, sep)| >= 2 <==> Contains(s, sep)
    ensures forall k | 0 <= k < |Split(s, sep)| :: !Contains(Split(s, sep)[k], sep)
    decreases |s|
  {
    var i := Index(s, sep);
    if i >= 0 {
      var rest := s[i + |sep|..];
      SplitPieces(rest, sep);
      IndexOfPrefix(s, sep, i);
      assert Split(s, sep) == [s[..i]] + Split(rest, sep);
    }
  }

  /** The first occurrence of `sep` in a prefix `s[..m]` of `s` is that of
      `s` when it ends inside the prefix, and there is none otherwise. */
  lemma IndexOfPrefix(s: seq<byte>, sep: seq<byte>, m: int)
    requires 0 <= m <= |s|
    ensures Index(s, sep) >= 0 && Index(s, sep) + |sep| <= m ==> Index(s[..m], sep) == Index(s, sep)
    ensures Index(s, sep) < 0 || Index(s, sep) + |sep| > m ==> Index(s[..m], sep) == -1
  {
    var p := s[..m];
    forall j | OccursAt(p, sep, j)
      ensures OccursAt(s, sep, j)
    {
      assert p[j..j + |sep|] == s[j..j + |sep|];
    }
    var i := Index(s, sep);
    if i >= 0 && i + |sep| <= m {
      assert p[i..i + |sep|] == s[i..i + |sep|];
      assert OccursAt(p, sep, i);
    }
  }

  /** Each byte equal to `from` becomes `to`; every other byte and the length
      are kept. */
  lemma {:induction false} ReplaceByteAt(s: seq<byte>, from: byte, to: byte)
    ensures |ReplaceByte(s, from, to)| == |s|
    ensures forall i | 0 <= i < |s| ::
      ReplaceByte(s, from, to)[i] == if s[i] == from then to else s[i]
  {
    if s != [] {
      ReplaceByteAt(s[1..], from, to);
    }
  }
}
