/** adler32.c: the rolling checksum, direct and rolled, in wrapping 32-bit arithmetic. It is not
    the Adler-32 of section 2.2 of RFC 1950: both sums start at 0 and are taken modulo 2^16. */
module Adler32 {
  import opened Bytes

  const HALF := 0x1_0000

  /** Sum of the bytes. */
  function Sum(s: seq<byte>): (r: nat) {
    if |s| == 0 then 0 else s[0] as int + Sum(s[1..])
  }

  /** Sum of (len - i) * s[i]. */
  function Weighted(s: seq<byte>): (r: nat) {
    if |s| == 0 then 0 else |s| * s[0] as int + Weighted(s[1..])
  }

  /** The value the algorithm stands for: byte sum in the low half, weighted sum in the high. */
  function Checksum(s: seq<byte>): (r: int)
    ensures 0 <= r < U32
  {
    Sum(s) % HALF + HALF * (Weighted(s) % HALF)
  }

  lemma Distribute(m: nat, n: nat, x: nat, y: nat)
    ensures (m + n) * x == m * x + n * x
    ensures n * (x + y) == n * x + n * y
  {
  }

  lemma {:induction false} SumConcat(a: seq<byte>, b: seq<byte>)
    ensures Sum(a + b) == Sum(a) + Sum(b)
    ensures Weighted(a + b) == Weighted(a) + |b| * Sum(a) + Weighted(b)
  {
    if |a| == 0 {
      assert a + b == b;
    } else {
      SumConcat(a[1..], b);
      assert (a + b)[1..] == a[1..] + b;
      Distribute(|a|, |b|, a[0] as int, Sum(a[1..]));
    }
  }

  /** Appending one byte. */
  lemma SumSnoc(a: seq<byte>, x: byte)
    ensures Sum(a + [x]) == Sum(a) + x as int
    ensures Weighted(a + [x]) == Weighted(a) + Sum(a) + x as int
  {
    SumConcat(a, [x]);
    assert [x][1..] == [];
  }

  /** Appending four bytes, the step of the unrolled loop. */
  lemma SumFour(a: seq<byte>, w: byte, x: byte, y: byte, z: byte)
    ensures Sum(a + [w, x, y, z]) == Sum(a) + w as int + x as int + y as int + z as int
    ensures Weighted(a + [w, x, y, z]) == Weighted(a) + 4 * (Sum(a) + w as int) + 3 * x as int + 2 * y as int + z as int
  {
    SumSnoc(a, w);
    SumSnoc(a + [w], x);
    SumSnoc(a + [w] + [x], y);
    SumSnoc(a + [w] + [x] + [y], z);
    assert a + [w, x, y, z] == a + [w] + [x] + [y] + [z];
  }

  /** The low half of a number survives adding multiples of 2^16. */
  lemma HalfPeriod(x: int, k: int)
    ensures (x + HALF * k) % HALF == x % HALF
  {
  }

  lemma LowOfU32(x: int)
    ensures ToU32(x) % HALF == x % HALF
  {
    var k := Wraps32(x);
    HalfPeriod(ToU32(x), HALF * k);
    assert HALF * (HALF * k) == U32 * k;
  }

  /** (s1 & 0xffff) + (s2 << 16) of two unsigned ints. */
  function Pack(s1: int, s2: int): (r: int)
    requires 0 <= s1 < U32 && 0 <= s2 < U32
    ensures r == s1 % HALF + HALF * (s2 % HALF)
    ensures 0 <= r < U32
  {
    ShiftHalf(s2);
    ToU32(s1 % HALF + ToU32(s2 * HALF))
  }

  /** Shifting left by 16 keeps only the low half. */
  lemma ShiftHalf(x: int)
    ensures ToU32(x * HALF) == HALF * (x % HALF)
  {
    var q := x / HALF;
    assert x == HALF * q + x % HALF;
    assert x * HALF == HALF * (x % HALF) + U32 * q;
    U32Period(HALF * (x % HALF), q);
  }

  /** The unrolled step in wrapping arithmetic is the exact step, wrapped once. */
  lemma UnrolledStep(S: nat, W: nat, w: int, rest: int)
    ensures ToU32(ToU32(W) + ToU32(4 * ToU32(ToU32(S) + w)) + rest) == ToU32(W + 4 * (S + w) + rest)
  {
    U32Absorb(S, w);
    var k := Wraps32(S + w);
    var m := 4 * ToU32(S + w);
    assert m == 4 * (S + w) - U32 * (4 * k);
    U32Period(4 * (S + w), -4 * k);
    assert ToU32(m) == ToU32(4 * (S + w));
    U32Absorb(4 * (S + w), ToU32(W) + rest);
    U32Absorb(W, 4 * (S + w) + rest);
  }

  lemma UnrolledIteration(a: seq<byte>, w: byte, x: byte, y: byte, z: byte)
    ensures var s1, s2 := ToU32(Sum(a)), ToU32(Weighted(a));
            && ToU32(s2 + ToU32(4 * ToU32(s1 + w as int)) + 3 * x as int + 2 * y as int + z as int)
               == ToU32(Weighted(a + [w, x, y, z]))
            && ToU32(s1 + (w as int + x as int + y as int + z as int)) == ToU32(Sum(a + [w, x, y, z]))
  {
    hide Sum, Weighted;
    SumFour(a, w, x, y, z);
    UnrolledStep(Sum(a), Weighted(a), w as int, 3 * x as int + 2 * y as int + z as int);
    U32Absorb(Sum(a), w as int + x as int + y as int + z as int);
  }

  lemma TailIteration(a: seq<byte>, x: byte)
    ensures var s1 := ToU32(ToU32(Sum(a)) + x as int);
            && s1 == ToU32(Sum(a + [x]))
            && ToU32(ToU32(Weighted(a)) + s1) == ToU32(Weighted(a + [x]))
  {
    hide Sum, Weighted;
    SumSnoc(a, x);
    U32Absorb(Sum(a), x as int);
    var s1 := ToU32(Sum(a) + x as int);
    U32Absorb(Weighted(a), s1);
    U32Absorb(Sum(a) + x as int, Weighted(a));
  }

  /** adler32_checksum: a loop unrolled by four that stops short of the last block of four, and a
      tail; every operation wraps at 2^32. */
  method Adler32Checksum(buf: array<byte>, from: nat, len: nat) returns (r: int)
    requires from + len <= buf.Length
    ensures r == Checksum(buf[from..from + len])
  {
    hide Sum, Weighted, ToU32;
    var s1, s2, i := 0, 0, 0;
    ghost var b: seq<byte> := buf[from..from + len];
    assert b[..0] == [];
    SumsOfNothing(b[..0]);
    while i < len - 4
      invariant 0 <= i <= len
      invariant s1 == ToU32(Sum(b[..i])) && s2 == ToU32(Weighted(b[..i]))
    {
      var w, x, y, z := buf[from + i], buf[from + i + 1], buf[from + i + 2], buf[from + i + 3];
      TakeFour(b, i);
      UnrolledIteration(b[..i], w, x, y, z);
      s2 := ToU32(s2 + ToU32(4 * ToU32(s1 + w as int)) + 3 * x as int + 2 * y as int + z as int);
      s1 := ToU32(s1 + (w as int + x as int + y as int + z as int));
      i := i + 4;
    }
    while i < len
      invariant 0 <= i <= len
      invariant s1 == ToU32(Sum(b[..i])) && s2 == ToU32(Weighted(b[..i]))
    {
      var x := buf[from + i];
      TakeOne(b, i);
      TailIteration(b[..i], x);
      s1 := ToU32(s1 + x as int);
      s2 := ToU32(s2 + s1);
      i := i + 1;
    }
    assert b[..i] == b;
    LowOfU32(Sum(b));
    LowOfU32(Weighted(b));
    r := Pack(s1, s2);
  }

  lemma SumsOfNothing(s: seq<byte>)
    requires s == []
    ensures ToU32(Sum(s)) == 0 && ToU32(Weighted(s)) == 0
  {
  }

  lemma TakeOne(s: seq<byte>, i: nat)
    requires i < |s|
    ensures s[..i + 1] == s[..i] + [s[i]]
  {
  }

  lemma TakeFour(s: seq<byte>, i: nat)
    requires i + 4 <= |s|
    ensures s[..i + 4] == s[..i] + [s[i], s[i + 1], s[i + 2], s[i + 3]]
  {
  }

  /** adler32_rolling_checksum: the checksum after `c1` leaves and `c2` enters a window of `len`. */
  function RollingChecksum(csum: int, len: int, c1: byte, c2: byte): (r: int)
    requires 0 <= csum < U32
    ensures 0 <= r < U32
  {
    var s1 := csum % HALF;
    var s2 := csum / HALF;
    var s1' := ToU32(s1 - ToU32(c1 as int - c2 as int));
    var s2' := ToU32(s2 - ToU32(ToU32(len * c1 as int) - s1'));
    Pack(s1', s2')
  }

  lemma SumCons(x: byte, s: seq<byte>)
    ensures Sum([x] + s) == x as int + Sum(s)
    ensures Weighted([x] + s) == (1 + |s|) * x as int + Weighted(s)
  {
    assert ([x] + s)[1..] == s;
  }

  /** One slide of the window: rolling gives the direct checksum of the new window. */
  lemma RollingIsDirect(x: byte, mid: seq<byte>, y: byte)
    ensures RollingChecksum(Checksum([x] + mid), 1 + |mid|, x, y) == Checksum(mid + [y])
  {
    hide Sum, Weighted, ToU32;
    var before := [x] + mid;
    var len := 1 + |mid|;
    var A, W := Sum(before), Weighted(before);
    var lx := len * x as int;
    SumCons(x, mid);
    SumSnoc(mid, y);
    assert Sum(mid + [y]) == A - x as int + y as int;
    assert Weighted(mid + [y]) == W - lx + (A - x as int + y as int);
    var csum := Checksum(before);
    assert csum % HALF == A % HALF && csum / HALF == W % HALF;
    RollArithmetic(A, W, lx, x as int, y as int);
  }

  /** The congruences behind one slide. */
  lemma RollArithmetic(A: int, W: int, lx: int, x: int, y: int)
    ensures var s1 := ToU32(A % HALF - ToU32(x - y));
            var s2 := ToU32(W % HALF - ToU32(ToU32(lx) - s1));
            s1 % HALF == (A - x + y) % HALF && s2 % HALF == (W - lx + (A - x + y)) % HALF
  {
    var s1 := ToU32(A % HALF - ToU32(x - y));
    var s2 := ToU32(W % HALF - ToU32(ToU32(lx) - s1));
    var a, w := A / HALF, W / HALF;
    var k := Wraps32(x - y);
    LowOfU32(A % HALF - ToU32(x - y));
    HalfPeriod(A - x + y, HALF * k - a);
    assert A % HALF - ToU32(x - y) == A - x + y + HALF * (HALF * k - a);
    var j, l := Wraps32(ToU32(lx) - s1), Wraps32(lx);
    LowOfU32(W % HALF - ToU32(ToU32(lx) - s1));
    assert W % HALF - ToU32(ToU32(lx) - s1) == W - lx + s1 + HALF * (HALF * j + HALF * l - w);
    HalfPeriod(W - lx + s1, HALF * j + HALF * l - w);
    var m := (A - x + y) / HALF;
    var n := s1 / HALF;
    assert s1 == (A - x + y) + HALF * (n - m);
    HalfPeriod(W - lx + (A - x + y), n - m);
  }

  /** Rolling along `buf` from window 0 to window k, one byte at a time. */
  function Rolled(buf: seq<byte>, len: nat, k: nat): (r: int)
    requires 1 <= len && len + k <= |buf|
    ensures 0 <= r < U32
  {
    if k == 0 then Checksum(buf[..len])
    else RollingChecksum(Rolled(buf, len, k - 1), len, buf[k - 1], buf[k + len - 1])
  }

  /** After any number of slides the rolled checksum is the direct checksum of the window. */
  lemma {:induction false} RolledIsDirect(buf: seq<byte>, len: nat, k: nat)
    requires 1 <= len && len + k <= |buf|
    ensures Rolled(buf, len, k) == Checksum(buf[k..k + len])
  {
    hide Checksum, RollingChecksum;
    if k == 0 {
      assert buf[0..0 + len] == buf[..len];
    } else {
      RolledIsDirect(buf, len, k - 1);
      var mid := buf[k..k + len - 1];
      assert buf[k - 1..k - 1 + len] == [buf[k - 1]] + mid;
      assert buf[k..k + len] == mid + [buf[k + len - 1]];
      RollingIsDirect(buf[k - 1], mid, buf[k + len - 1]);
    }
  }

  function Run(n: nat, v: byte): (s: seq<byte>)
    ensures |s| == n
  {
    seq(n, _ => v)
  }

  lemma {:induction false} SumOfRun(n: nat, v: byte)
    ensures Sum(Run(n, v)) == n * v as int
    ensures 2 * Weighted(Run(n, v)) == v as int * (n * (n + 1))
  {
    if n > 0 {
      SumOfRun(n - 1, v);
      assert Run(n, v)[1..] == Run(n - 1, v);
      Triangle(n, v as int);
    }
  }

  lemma Triangle(n: nat, v: nat)
    ensures v + (n - 1) * v == n * v as int
    ensures 2 * (n * v) + v * ((n - 1) * n) == v * (n * (n + 1))
  {
    assert n * (n + 1) == (n - 1) * n + 2 * n;
    assert v * ((n - 1) * n + 2 * n) == v * ((n - 1) * n) + v * (2 * n);
  }

  /** Sums of a block of zeros, 255, 0, a run and zeros, from the sums of its parts. */
  lemma BlockSums(z1: seq<byte>, run: seq<byte>, z2: seq<byte>)
    requires Sum(z1) == Weighted(z1) == Sum(z2) == Weighted(z2) == 0
    ensures var b := z1 + [255] + [0] + run + z2;
            && Sum(b) == 255 + Sum(run)
            && Weighted(b) == 510 + |run| * 255 + Weighted(run) + |z2| * Sum(b)
  {
    SumSnoc(z1, 255);
    SumSnoc(z1 + [255], 0);
    SumConcat(z1 + [255] + [0], run);
    SumConcat(z1 + [255] + [0] + run, z2);
  }

  // Lengths of the three runs of the block below.
  const LEADING_ZEROS := 639
  const ONES := 256
  const TRAILING_ZEROS := 127

  /** A block of zeros, one 255, a zero, a run of 255 and zeros. */
  function OnesBlock(): (b: seq<byte>)
    ensures |b| == 1024
  {
    Run(LEADING_ZEROS, 0) + [255] + [0] + Run(ONES, 255) + Run(TRAILING_ZEROS, 0)
  }

  /** This block of 1024 bytes has the checksum 2^32 - 1. */
  lemma AllOnesChecksum()
    ensures Checksum(OnesBlock()) == U32 - 1
  {
    hide Sum, Weighted, Run;
    SumOfRun(LEADING_ZEROS, 0);
    SumOfRun(TRAILING_ZEROS, 0);
    SumOfRun(ONES, 255);
    BlockSums(Run(LEADING_ZEROS, 0), Run(ONES, 255), Run(TRAILING_ZEROS, 0));
    var S, W := Sum(OnesBlock()), Weighted(OnesBlock());
    assert S == 255 + ONES * 255;
    assert 2 * W == 2 * (510 + ONES * 255) + 255 * (ONES * (ONES + 1)) + 2 * (TRAILING_ZEROS * S);
    assert S == HALF - 1;
    assert W == 255 * HALF + HALF - 1;
  }
}
