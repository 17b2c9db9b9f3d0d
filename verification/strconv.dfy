/** Decimal formatting as Go's `strconv.Itoa` and `fmt`'s `%d` do it, with
    `strconv.Atoi` as its inverse. */
module Strconv {
  import opened GoBytes
  import opened Results

  const MINUS: byte := 45
  const PLUS: byte := 43

  predicate IsDigit(c: byte)
  {
    48 <= c <= 57
  }

  predicate AllDigits(s: seq<byte>)
  {
    forall i | 0 <= i < |s| :: IsDigit(s[i])
  }

  /** The value of a string of decimal digits, most significant first. */
  function DigitsValue(s: seq<byte>): nat
    requires AllDigits(s)
  {
    if s == [] then 0 else DigitsValue(s[..|s| - 1]) * 10 + (s[|s| - 1] - 48)
  }

  /** The decimal digits of `n` without leading zeros. */
  function FormatNat(n: nat): (r: seq<byte>)
    ensures 1 <= |r| && AllDigits(r)
    ensures DigitsValue(r) == n
    ensures |r| > 1 ==> r[0] != 48
  {
    if n < 10 then [48 + n]
    else
      var front := FormatNat(n / 10);
      assert (front + [48 + n % 10])[..|front|] == front;
      front + [48 + n % 10]
  }

  /** `strconv.Itoa`: a minus sign for negative numbers, then the digits. */
  function Itoa(i: int): (r: seq<byte>)
    ensures |r| >= 1
  {
    if i < 0 then [MINUS] + FormatNat(-i) else FormatNat(i)
  }

  /** `strconv.Atoi` without its 64-bit range check: an optional sign, then
      one or more decimal digits. */
  function Atoi(s: seq<byte>): Option<int>
  {
    if s == [] then None
    else
      var neg := s[0] == MINUS;
      var digits := if s[0] == MINUS || s[0] == PLUS then s[1..] else s;
      if digits == [] || !AllDigits(digits) then None
      else
        var v: int := DigitsValue(digits);
        Some(if neg then -v else v)
  }

  /** Atoi reads back what Itoa wrote. */
  lemma AtoiItoa(i: int)
    ensures Atoi(Itoa(i)) == Some(i)
  {
    if i < 0 {
      assert Itoa(i)[1..] == FormatNat(-i);
    }
  }

  /** Different numbers are written differently. */
  lemma ItoaInjective(i: int, j: int)
    requires Itoa(i) == Itoa(j)
    ensures i == j
  {
    AtoiItoa(i);
    AtoiItoa(j);
  }
}
