/** Fixed-width little-endian integers as Go's `binary.LittleEndian` writes
    and reads them. */
module LittleEndian {
  import opened GoBytes

  function Pow256(n: nat): (p: nat)
    ensures p >= 1
  {
    if n == 0 then 1 else 256 * Pow256(n - 1)
  }

  /** The `n` low-order bytes of `v`, least significant first. */
  function Bytes(v: nat, n: nat): (r: seq<byte>)
    ensures |r| == n
  {
    if n == 0 then [] else [v % 256] + Bytes(v / 256, n - 1)
  }

  /** The number whose little-endian bytes are `s`. */
  function Value(s: seq<byte>): (v: nat)
    ensures v < Pow256(|s|)
  {
    if s == [] then 0 else s[0] + 256 * Value(s[1..])
  }

  /** The 8 bytes `PutUint64` writes for `v`. */
  function LE8(v: uint64): (r: seq<byte>)
    ensures |r| == 8
  {
    Bytes(v, 8)
  }

  /** `binary.LittleEndian.Uint64`: the first 8 bytes read as a uint64 (Go
      panics on a shorter slice). */
  function Uint64(b: seq<byte>): (v: uint64)
    requires |b| >= 8
  {
    assert Pow256(8) == U64;
    Value(b[..8])
  }

  /** What `Uint64` reads is the number `PutUint64` writes as exactly those
      8 bytes. */
  lemma Uint64Encodes(b: seq<byte>)
    requires |b| >= 8
    ensures LE8(Uint64(b)) == b[..8]
  {
    BytesValue(b[..8]);
  }

  /** `binary.LittleEndian.PutUint64`: writes the 8 bytes of `v` into
      `b[0..8]`, low byte first, and leaves the rest of `b` alone. */
  method PutUint64(b: array<byte>, v: uint64)
    requires b.Length >= 8
    modifies b
    ensures b[..8] == LE8(v)
    ensures b[8..] == old(b[8..])
  {
    var x: nat := v;
    for k := 0 to 8
      invariant b[..k] == LE8(v)[..k]
      invariant Bytes(x, 8 - k) == LE8(v)[k..]
      invariant forall i | 8 <= i < b.Length :: b[i] == old(b[i])
    {
      BytesNext(x, 8 - k, LE8(v)[k..]);
      b[k] := x % 256;
      x := x / 256;
    }
    assert b[8..] == old(b[8..]);
  }

  /** The first byte of `Bytes(x, n)` is the low byte of `x`; the rest are
      the bytes of `x / 256`. */
  lemma BytesNext(x: nat, n: nat, t: seq<byte>)
    requires n > 0 && Bytes(x, n) == t
    ensures t[0] == x % 256 && t[1..] == Bytes(x / 256, n - 1)
  {
  }

  /** Reading `n` little-endian bytes of a number below 256^n gives it back. */
  lemma {:induction false} ValueBytes(v: nat, n: nat)
    requires v < Pow256(n)
    ensures Value(Bytes(v, n)) == v
  {
    if n > 0 {
      ValueBytes(v / 256, n - 1);
      assert Bytes(v, n)[1..] == Bytes(v / 256, n - 1);
    }
  }

  /** Writing the little-endian bytes of what was read gives back the bytes. */
  lemma {:induction false} BytesValue(s: seq<byte>)
    ensures Bytes(Value(s), |s|) == s
  {
    if s != [] {
      BytesValue(s[1..]);
      assert (s[0] + 256 * Value(s[1..])) / 256 == Value(s[1..]);
    }
  }

  /** `Uint64` reads back what `PutUint64` wrote. */
  lemma Uint64LE8(v: uint64)
    ensures Uint64(LE8(v)) == v
  {
    assert Pow256(8) == U64;
    assert LE8(v)[..8] == LE8(v);
    ValueBytes(v, 8);
  }

  /** Two values with the same 8-byte encoding are equal. */
  lemma LE8Injective(v: uint64, w: uint64)
    requires LE8(v) == LE8(w)
    ensures v == w
  {
    Uint64LE8(v);
    Uint64LE8(w);
  }
}
