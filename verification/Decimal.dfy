/** The numbers on the wire: what `%u` and `%llu` print, and what str2i and str2ll read back. */
module Decimal {
  import opened Bytes

  const I32 := 0x8000_0000
  const I64 := 0x8000_0000_0000_0000

  predicate IsDigit(b: byte) {
    48 <= b <= 57
  }

  predicate AllDigits(s: seq<byte>) {
    forall i :: 0 <= i < |s| ==> IsDigit(s[i])
  }

  /** The decimal digits of `n`, without leading zeros. */
  function Dec(n: nat): (s: seq<byte>)
    ensures |s| >= 1 && AllDigits(s)
  {
    if n < 10 then [(48 + n) as byte] else Dec(n / 10) + [(48 + n % 10) as byte]
  }

  /** The number a digit string denotes. */
  function Value(ds: seq<byte>): (v: nat)
    requires AllDigits(ds)
  {
    if |ds| == 0 then 0 else 10 * Value(ds[..|ds| - 1]) + (ds[|ds| - 1] as int - 48)
  }

  function Pow10(k: nat): (p: nat)
    ensures p >= 1
  {
    if k == 0 then 1 else 10 * Pow10(k - 1)
  }

  lemma {:induction false} ValueOfDec(n: nat)
    ensures Value(Dec(n)) == n
  {
    if n >= 10 {
      ValueOfDec(n / 10);
      var ds := Dec(n);
      assert ds[..|ds| - 1] == Dec(n / 10);
    }
  }

  lemma {:induction false} DecLength(n: nat, k: nat)
    requires n < Pow10(k) && k >= 1
    ensures |Dec(n)| <= k
  {
    if n >= 10 {
      assert k > 1;
      DecLength(n / 10, k - 1);
    }
  }

  lemma DecLengths(n: nat)
    ensures n < 10_0000 ==> |Dec(n)| <= 5
    ensures n < 1000_0000 ==> |Dec(n)| <= 7
    ensures n < U32 ==> |Dec(n)| <= 10
    ensures n < I64 ==> |Dec(n)| <= 19
    ensures n < U64 ==> |Dec(n)| <= 20
  {
    assert Pow10(5) == 10_0000;
    assert Pow10(7) == 1000_0000;
    assert Pow10(10) == 100_0000_0000;
    assert Pow10(19) == 1000_0000_0000_0000_0000;
    assert Pow10(20) == 1_0000_0000_0000_0000_0000;
    if n < 10_0000 { DecLength(n, 5); }
    if n < 1000_0000 { DecLength(n, 7); }
    if n < U32 { DecLength(n, 10); }
    if n < I64 { DecLength(n, 19); }
    if n < U64 { DecLength(n, 20); }
  }

  /** Two's-complement reading of `x` in `int` (half = 2^31) or `long long` (half = 2^63). */
  function Signed(x: int, half: int): (r: int)
    requires half == I32 || half == I64
    ensures -half <= r < half
    ensures 0 <= x < half ==> r == x
  {
    if half == I32 then (x + I32) % U32 - I32 else (x + I64) % U64 - I64
  }

  /** Numbers that differ by a multiple of the modulus read the same. */
  lemma SignedPeriod(x: int, k: int, half: int)
    requires half == I32 || half == I64
    ensures Signed(x + 2 * half * k, half) == Signed(x, half)
  {
    if half == I32 {
      assert (x + U32 * k + I32) % U32 == (x + I32) % U32;
    } else {
      assert (x + U64 * k + I64) % U64 == (x + I64) % U64;
    }
  }

  /** How many times the modulus fits between `x` and its reading. */
  function Wraps(x: int, half: int): (k: int)
    requires half == I32 || half == I64
    ensures Signed(x, half) == x + 2 * half * k
  {
    if half == I32 then -((x + I32) / U32) else -((x + I64) / U64)
  }

  /** What str2i makes of a printed unsigned int. */
  lemma ReadingOfU32(n: nat)
    requires n < U32
    ensures ToU32(Signed(n, I32)) == n
    ensures Signed(n, I32) == -1 <==> n == U32 - 1
  {
    U32Period(Signed(n, I32), -Wraps(n, I32));
  }

  /** One turn of the accumulation loop, wrapping after each operation, keeps the reading of the
      exact value. */
  lemma SignedStep(v: int, d: int, half: int)
    requires half == I32 || half == I64
    ensures Signed(Signed(10 * Signed(v, half), half) + d, half) == Signed(10 * v + d, half)
  {
    var k := Wraps(v, half);
    var x := 10 * Signed(v, half);
    var j := Wraps(x, half);
    SignedPeriod(10 * v + d, 10 * k + j, half);
    assert 2 * half * (10 * k + j) == 10 * (2 * half * k) + 2 * half * j;
  }

  /** Index of the first character at or after `k` that is not a digit; |s| if there is none. */
  function DigitsEnd(s: seq<byte>, k: nat): (e: nat)
    requires k <= |s|
    ensures k <= e <= |s|
    ensures AllDigits(s[k..e])
    ensures forall i :: k <= i < e ==> IsDigit(s[i])
    ensures e < |s| ==> !IsDigit(s[e])
    decreases |s| - k
  {
    if k < |s| && IsDigit(s[k]) then
      var e := DigitsEnd(s, k + 1);
      assert s[k..e] == [s[k]] + s[k + 1..e];
      e
    else k
  }

  /** The field at `p`: `start`, digits, `end`. Gives the exact number and the index after `end`. */
  function Field(s: seq<byte>, p: nat, start: byte, end: byte): (r: Option<(nat, nat)>)
    requires p < |s|
    ensures r.Some? ==> p + 2 <= r.value.1 <= |s|
  {
    if s[p] != start then None
    else
      var e := DigitsEnd(s, p + 1);
      if e < |s| && s[e] == end then Some((Value(s[p + 1..e]), e + 1)) else None
  }

  /** The digits of a field end where the digits of its text end. */
  lemma {:induction false} DigitsEndAt(s: seq<byte>, k: nat, e: nat)
    requires k <= e < |s| && AllDigits(s[k..e]) && !IsDigit(s[e])
    ensures DigitsEnd(s, k) == e
    decreases e - k
  {
    if k < e {
      assert s[k..e] == [s[k]] + s[k + 1..e];
      assert IsDigit(s[k..e][0]);
      assert s[k + 1..e] == s[k..e][1..];
      DigitsEndAt(s, k + 1, e);
    }
  }

  /** Printing and then parsing a field gives the number back and lands after the field. */
  lemma FieldRoundTrip(pre: seq<byte>, n: nat, start: byte, end: byte, post: seq<byte>)
    requires !IsDigit(end)
    ensures var s := pre + ([start] + Dec(n) + [end]) + post;
            Field(s, |pre|, start, end) == Some((n, |pre| + |Dec(n)| + 2))
  {
    var s := pre + ([start] + Dec(n) + [end]) + post;
    var e := |pre| + 1 + |Dec(n)|;
    assert s[|pre| + 1..e] == Dec(n);
    DigitsEndAt(s, |pre| + 1, e);
    ValueOfDec(n);
  }

  /** str2i (half = 2^31) and str2ll (half = 2^63). The cursor moves only on success; a failure
      and a wrapped value of -1 both return -1, and callers cannot tell them apart. The C loop
      has no bound of its own, so a digit run must end inside the buffer. */
  method Str2Int(buf: array<byte>, p: nat, start: byte, end: byte, half: int) returns (r: int, q: nat)
    requires half == I32 || half == I64
    requires p < buf.Length && !IsDigit(end)
    requires buf[p] == start ==> DigitsEnd(buf[..], p + 1) < buf.Length
    ensures match Field(buf[..], p, start, end)
            case None => r == -1 && q == p
            case Some((n, next)) => r == Signed(n, half) && q == next
  {
    if buf[p] != start {
      return -1, p;
    }
    r, q := 0, p + 1;
    ghost var s := buf[..];
    ghost var e := DigitsEnd(s, p + 1);
    while buf[q] != end
      invariant p + 1 <= q <= e && AllDigits(s[p + 1..q])
      invariant r == Signed(Value(s[p + 1..q]), half)
      decreases e - q
    {
      if buf[q] < 48 || buf[q] > 57 {
        return -1, p;
      }
      ghost var ds := s[p + 1..q + 1];
      assert ds[..|ds| - 1] == s[p + 1..q];
      SignedStep(Value(s[p + 1..q]), buf[q] as int - 48, half);
      r := Signed(r * 10, half);
      r := Signed(r + (buf[q] as int - 48), half);
      q := q + 1;
    }
    q := q + 1;
  }
}
