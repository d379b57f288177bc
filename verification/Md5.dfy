/** md5.c against sections 3.1 to 3.5 of RFC 1321. The program keeps its words in 64-bit `unsigned
    long` and never masks them; the words of the RFC are 32 bits wide. */
module Md5 {
  import opened Bytes

  // ---------------------------------------------------------------- RFC 1321

  /** The word buffer A, B, C, D. */
  datatype Quad = Quad(a: bv32, b: bv32, c: bv32, d: bv32)

  const INITIAL := Quad(0x67452301, 0xEFCDAB89, 0x98BADCFE, 0x10325476)

  /** Addition of words, modulo 2^32. */
  function Add(x: bv32, y: bv32): bv32 {
    x + y
  }

  function RotateLeft(x: bv32, n: bv6): bv32
    requires 0 < n < 32
  {
    (x << n) | (x >> (32 - n))
  }

  // The four auxiliary functions of section 3.4.
  function F(x: bv32, y: bv32, z: bv32): bv32 { (x & y) | (!x & z) }
  function G(x: bv32, y: bv32, z: bv32): bv32 { (x & z) | (y & !z) }
  function H(x: bv32, y: bv32, z: bv32): bv32 { x ^ y ^ z }
  function I(x: bv32, y: bv32, z: bv32): bv32 { y ^ (x | !z) }

  function Auxiliary(i: nat, x: bv32, y: bv32, z: bv32): bv32 {
    if i < 16 then F(x, y, z) else if i < 32 then G(x, y, z) else if i < 48 then H(x, y, z) else I(x, y, z)
  }

  /** The word of the block that operation `i` uses. */
  function WordIndex(i: nat): (k: nat)
    ensures k < 16
  {
    if i < 16 then i else if i < 32 then (5 * i + 1) % 16 else if i < 48 then (3 * i + 5) % 16 else 7 * i % 16
  }

  /** The rotation of operation `i`. */
  function Shift(i: nat): (s: bv6)
    ensures 0 < s < 32
  {
    var j := i % 4;
    if i < 16 then if j == 0 then 7 else if j == 1 then 12 else if j == 2 then 17 else 22
    else if i < 32 then if j == 0 then 5 else if j == 1 then 9 else if j == 2 then 14 else 20
    else if i < 48 then if j == 0 then 4 else if j == 1 then 11 else if j == 2 then 16 else 23
    else if j == 0 then 6 else if j == 1 then 10 else if j == 2 then 15 else 21
  }

  function Pick(i: nat, a: bv32, b: bv32, c: bv32, d: bv32): bv32 {
    var j := i % 4;
    if j == 0 then a else if j == 1 then b else if j == 2 then c else d
  }

  // The table T of section 3.4, by round: row by row the integer parts of 2^32 times abs(sin(i + 1)).
  function Sine1(i: nat): bv32 {
    if i < 4 then Pick(i, 0xD76AA478, 0xE8C7B756, 0x242070DB, 0xC1BDCEEE)
    else if i < 8 then Pick(i, 0xF57C0FAF, 0x4787C62A, 0xA8304613, 0xFD469501)
    else if i < 12 then Pick(i, 0x698098D8, 0x8B44F7AF, 0xFFFF5BB1, 0x895CD7BE)
    else Pick(i, 0x6B901122, 0xFD987193, 0xA679438E, 0x49B40821)
  }

  function Sine2(i: nat): bv32 {
    if i < 20 then Pick(i, 0xF61E2562, 0xC040B340, 0x265E5A51, 0xE9B6C7AA)
    else if i < 24 then Pick(i, 0xD62F105D, 0x02441453, 0xD8A1E681, 0xE7D3FBC8)
    else if i < 28 then Pick(i, 0x21E1CDE6, 0xC33707D6, 0xF4D50D87, 0x455A14ED)
    else Pick(i, 0xA9E3E905, 0xFCEFA3F8, 0x676F02D9, 0x8D2A4C8A)
  }

  function Sine3(i: nat): bv32 {
    if i < 36 then Pick(i, 0xFFFA3942, 0x8771F681, 0x6D9D6122, 0xFDE5380C)
    else if i < 40 then Pick(i, 0xA4BEEA44, 0x4BDECFA9, 0xF6BB4B60, 0xBEBFBC70)
    else if i < 44 then Pick(i, 0x289B7EC6, 0xEAA127FA, 0xD4EF3085, 0x04881D05)
    else Pick(i, 0xD9D4D039, 0xE6DB99E5, 0x1FA27CF8, 0xC4AC5665)
  }

  function Sine4(i: nat): bv32 {
    if i < 52 then Pick(i, 0xF4292244, 0x432AFF97, 0xAB9423A7, 0xFC93A039)
    else if i < 56 then Pick(i, 0x655B59C3, 0x8F0CCC92, 0xFFEFF47D, 0x85845DD1)
    else if i < 60 then Pick(i, 0x6FA87E4F, 0xFE2CE6E0, 0xA3014314, 0x4E0811A1)
    else Pick(i, 0xF7537E82, 0xBD3AF235, 0x2AD7D2BB, 0xEB86D391)
  }

  function Sine(i: nat): bv32 {
    if i < 16 then Sine1(i) else if i < 32 then Sine2(i) else if i < 48 then Sine3(i) else Sine4(i)
  }

  /** b + ((a + f + x + t) <<< n) */
  function Turn(a: bv32, f: bv32, x: bv32, t: bv32, b: bv32, n: bv6): bv32
    requires 0 < n < 32
  {
    Add(RotateLeft(Add(a, Add(Add(f, x), t)), n), b)
  }

  /** Operation `i`, with the registers renamed so that the next one changes `a` again. */
  function Operation(q: Quad, w: seq<bv32>, i: nat): Quad
    requires |w| == 16
  {
    Quad(q.d, Turn(q.a, Auxiliary(i, q.b, q.c, q.d), w[WordIndex(i)], Sine(i), q.b, Shift(i)), q.b, q.c)
  }

  /** The first `n` of the 64 operations. */
  function Operations(q: Quad, w: seq<bv32>, n: nat): Quad
    requires |w| == 16
  {
    if n == 0 then q else Operation(Operations(q, w, n - 1), w, n - 1)
  }

  function Octet(b: byte): bv8 {
    b as bv8
  }

  /** Four bytes as a word, low-order byte first. */
  function Word(s: seq<byte>, i: nat): bv32
    requires i + 4 <= |s|
  {
    Join(Octet(s[i]), Octet(s[i + 1]), Octet(s[i + 2]), Octet(s[i + 3]))
  }

  function Join(a: bv8, b: bv8, c: bv8, d: bv8): bv32 {
    (a as bv32) | (b as bv32 << 8) | (c as bv32 << 16) | (d as bv32 << 24)
  }

  function Words(block: seq<byte>): (w: seq<bv32>)
    requires |block| == 64
    ensures |w| == 16
  {
    seq(16, k requires 0 <= k < 16 => Word(block, 4 * k))
  }

  /** Section 3.4 on one 16-word block. */
  function Compress(q: Quad, block: seq<byte>): Quad
    requires |block| == 64
  {
    AddQuads(q, Operations(q, Words(block), 64))
  }

  function AddQuads(q: Quad, r: Quad): Quad {
    Quad(Add(q.a, r.a), Add(q.b, r.b), Add(q.c, r.c), Add(q.d, r.d))
  }

  /** Section 3.4 on a whole number of blocks. */
  function Blocks(m: seq<byte>): Quad
    requires |m| % 64 == 0
  {
    if |m| == 0 then INITIAL else Compress(Blocks(m[..|m| - 64]), m[|m| - 64..])
  }

  /** Section 3.1: a one bit and zero bits, up to 56 bytes modulo 64. */
  function PaddingLength(n: nat): (k: nat)
    ensures 1 <= k <= 64 && (n + k) % 64 == 56 && (n + k + 8) % 64 == 0
  {
    if n % 64 < 56 then 56 - n % 64 else 120 - n % 64
  }

  /** Section 3.2: a number of bits as 8 bytes, low-order byte first, modulo 2^64. */
  function LengthBytes(bits: nat): (s: seq<byte>)
    ensures |s| == 8
  {
    LittleEndian(bits % U32) + LittleEndian(bits / U32 % U32)
  }

  function LittleEndian(x: nat): (s: seq<byte>)
    ensures |s| == 4
  {
    [(x % 256) as byte, (x / 0x100 % 256) as byte, (x / 0x1_0000 % 256) as byte, (x / 0x100_0000 % 256) as byte]
  }

  function Padding(n: nat): (s: seq<byte>)
    ensures |s| == PaddingLength(n) + 8 && (n + |s|) % 64 == 0
  {
    [0x80] + Zeros(PaddingLength(n) - 1) + LengthBytes(8 * n)
  }

  /** Section 3.5: a word as 4 bytes, low-order byte first. */
  function Split(x: bv32): (s: seq<bv8>)
    ensures |s| == 4
  {
    [(x & 0xFF) as bv8, ((x >> 8) & 0xFF) as bv8, ((x >> 16) & 0xFF) as bv8, ((x >> 24) & 0xFF) as bv8]
  }

  function Output(q: Quad): (s: seq<bv8>)
    ensures |s| == 16
  {
    Split(q.a) + Split(q.b) + Split(q.c) + Split(q.d)
  }

  /** The message digest of `m`. */
  function MessageDigest(m: seq<byte>): (s: seq<bv8>)
    ensures |s| == 16
  {
    Output(Blocks(m + Padding(|m|)))
  }

  // ---------------------------------------------------------------- 64-bit words for 32-bit words

  /** The 64-bit variable `x` stands for the word `l`: its low half is `l`, its high half is junk. */
  ghost predicate Sim(x: bv64, l: bv32) {
    l == (x & 0xFFFF_FFFF) as bv32
  }

  lemma SimIntro(x: bv64, l: bv32)
    requires l == (x & 0xFFFF_FFFF) as bv32
    ensures Sim(x, l)
  {
  }

  lemma SimElim(x: bv64, l: bv32)
    requires Sim(x, l)
    ensures l == (x & 0xFFFF_FFFF) as bv32
  {
  }

  /** Junk above 2^32 does not reach the low half of a sum. */
  lemma LowOfSum(x: bv64, y: bv64, z: bv64)
    requires z == x + y
    ensures (z & 0xFFFF_FFFF) as bv32 == ((x & 0xFFFF_FFFF) as bv32) + ((y & 0xFFFF_FFFF) as bv32)
  {
  }

  lemma AddOfLows(x: bv64, y: bv64)
    ensures ((x & 0xFFFF_FFFF) as bv32) + ((y & 0xFFFF_FFFF) as bv32)
         == Add((x & 0xFFFF_FFFF) as bv32, (y & 0xFFFF_FFFF) as bv32)
  {
  }

  lemma SimAdd(x: bv64, y: bv64, z: bv64, a: bv32, b: bv32, c: bv32)
    requires Sim(x, a) && Sim(y, b) && z == x + y && c == Add(a, b)
    ensures Sim(z, c)
  {
    hide Sim, Add;
    SimElim(x, a);
    SimElim(y, b);
    LowOfSum(x, y, z);
    AddOfLows(x, y);
    SimIntro(z, c);
  }

  /** Macro S. Only the right shift is masked; the left shift leaves bits above 2^32. */
  function S(x: bv64, n: bv6): bv64
    requires 0 < n < 32
  {
    (x << n) | ((x & 0xFFFF_FFFF) >> (32 - n))
  }

  lemma SDef(x: bv64, z: bv64, n: bv6)
    requires 0 < n < 32 && z == S(x, n)
    ensures z == (x << n) | ((x & 0xFFFF_FFFF) >> (32 - n))
  {
  }

  lemma LowOfRotation(x: bv64, z: bv64, n: bv6)
    requires 0 < n < 32 && z == (x << n) | ((x & 0xFFFF_FFFF) >> (32 - n))
    ensures (z & 0xFFFF_FFFF) as bv32 == (((x & 0xFFFF_FFFF) as bv32) << n) | (((x & 0xFFFF_FFFF) as bv32) >> (32 - n))
  {
  }

  lemma RotationOfLow(x: bv64, n: bv6)
    requires 0 < n < 32
    ensures (((x & 0xFFFF_FFFF) as bv32) << n) | (((x & 0xFFFF_FFFF) as bv32) >> (32 - n))
         == RotateLeft((x & 0xFFFF_FFFF) as bv32, n)
  {
  }

  lemma SimRotate(x: bv64, z: bv64, a: bv32, c: bv32, n: bv6)
    requires 0 < n < 32 && Sim(x, a) && z == S(x, n) && c == RotateLeft(a, n)
    ensures Sim(z, c)
  {
    hide Sim, S, RotateLeft;
    SimElim(x, a);
    SDef(x, z, n);
    LowOfRotation(x, z, n);
    RotationOfLow(x, n);
    SimIntro(z, c);
  }

  lemma SimWord(t: bv32, t64: bv64)
    requires t64 == t as bv64
    ensures Sim(t64, t)
  {
  }

  // The four macros F, in the forms the program uses.
  function F1(x: bv64, y: bv64, z: bv64): bv64 { z ^ (x & (y ^ z)) }
  function F2(x: bv64, y: bv64, z: bv64): bv64 { y ^ (z & (x ^ y)) }
  function F3(x: bv64, y: bv64, z: bv64): bv64 { x ^ y ^ z }
  function F4(x: bv64, y: bv64, z: bv64): bv64 { y ^ (x | !z) }

  // The macros compute the auxiliary functions on the low halves.
  lemma SimF(x: bv64, y: bv64, z: bv64, u: bv64, a: bv32, b: bv32, c: bv32, v: bv32)
    requires Sim(x, a) && Sim(y, b) && Sim(z, c) && u == F1(x, y, z) && v == F(a, b, c)
    ensures Sim(u, v)
  {
  }

  lemma SimG(x: bv64, y: bv64, z: bv64, u: bv64, a: bv32, b: bv32, c: bv32, v: bv32)
    requires Sim(x, a) && Sim(y, b) && Sim(z, c) && u == F2(x, y, z) && v == G(a, b, c)
    ensures Sim(u, v)
  {
  }

  lemma SimH(x: bv64, y: bv64, z: bv64, u: bv64, a: bv32, b: bv32, c: bv32, v: bv32)
    requires Sim(x, a) && Sim(y, b) && Sim(z, c) && u == F3(x, y, z) && v == H(a, b, c)
    ensures Sim(u, v)
  {
  }

  lemma SimI(x: bv64, y: bv64, z: bv64, u: bv64, a: bv32, b: bv32, c: bv32, v: bv32)
    requires Sim(x, a) && Sim(y, b) && Sim(z, c) && u == F4(x, y, z) && v == I(a, b, c)
    ensures Sim(u, v)
  {
  }

  /** Macro F as it is defined when operation `i` is reached. */
  function Macro(i: nat, x: bv64, y: bv64, z: bv64): bv64 {
    if i < 16 then F1(x, y, z) else if i < 32 then F2(x, y, z) else if i < 48 then F3(x, y, z) else F4(x, y, z)
  }

  lemma SimMacro(i: nat, x: bv64, y: bv64, z: bv64, u: bv64, a: bv32, b: bv32, c: bv32, v: bv32)
    requires Sim(x, a) && Sim(y, b) && Sim(z, c) && u == Macro(i, x, y, z) && v == Auxiliary(i, a, b, c)
    ensures Sim(u, v)
  {
    hide Sim, F, G, H, I, F1, F2, F3, F4;
    if i < 16 { SimF(x, y, z, u, a, b, c, v); }
    else if i < 32 { SimG(x, y, z, u, a, b, c, v); }
    else if i < 48 { SimH(x, y, z, u, a, b, c, v); }
    else { SimI(x, y, z, u, a, b, c, v); }
  }

  lemma TurnDef(a: bv32, f: bv32, x: bv32, t: bv32, b: bv32, n: bv6, c: bv32, c1: bv32, c2: bv32, d: bv32, e: bv32)
    requires 0 < n < 32
    requires c == Add(f, x) && c1 == Add(c, t) && c2 == Add(a, c1) && d == RotateLeft(c2, n) && e == Add(d, b)
    ensures e == Turn(a, f, x, t, b, n)
  {
    hide RotateLeft, Add;
  }

  /** Macro P, one operation at a time: without any masking the low half is that of the RFC. */
  method P(a: bv64, f: bv64, x: bv64, t: bv32, b: bv64, n: bv6, ghost a': bv32, ghost f': bv32, ghost x': bv32,
      ghost b': bv32)
    returns (r: bv64)
    requires 0 < n < 32
    requires Sim(a, a') && Sim(f, f') && Sim(x, x') && Sim(b, b')
    ensures Sim(r, Turn(a', f', x', t, b', n))
  {
    hide Sim, S, RotateLeft, Turn, Add;
    var u := f + x;
    ghost var c := Add(f', x');
    SimAdd(f, x, u, f', x', c);
    var t64 := t as bv64;
    SimWord(t, t64);
    var u1 := u + t64;
    ghost var c1 := Add(c, t);
    SimAdd(u, t64, u1, c, t, c1);
    var u2 := a + u1;
    ghost var c2 := Add(a', c1);
    SimAdd(a, u1, u2, a', c1, c2);
    var s := S(u2, n);
    ghost var d := RotateLeft(c2, n);
    SimRotate(u2, s, c2, d, n);
    r := s + b;
    ghost var e := Add(d, b');
    SimAdd(s, b, r, d, b', e);
    TurnDef(a', f', x', t, b', n, c, c1, c2, d, e);
  }

  /** X holds the words of a block. */
  ghost predicate SimWords(x: seq<bv64>, w: seq<bv32>) {
    |x| == |w| == 16 && forall k :: 0 <= k < 16 ==> Sim(x[k], w[k])
  }

  /** After `i` operations from `q` the registers, in the order of the next operation, are these. */
  ghost predicate After(i: nat, q: Quad, w: seq<bv32>, a: bv64, b: bv64, c: bv64, d: bv64)
    requires |w| == 16
  {
    var r := Operations(q, w, i);
    Sim(a, r.a) && Sim(b, r.b) && Sim(c, r.c) && Sim(d, r.d)
  }

  /** One line P(a, b, c, d, k, s, t) of md5_process. */
  method Line(i: nat, a: bv64, b: bv64, c: bv64, d: bv64, k: nat, s: bv6, t: bv32, x: seq<bv64>, ghost q: Quad,
      ghost w: seq<bv32>)
    returns (r: bv64)
    requires k == WordIndex(i) && s == Shift(i) && t == Sine(i)
    requires SimWords(x, w) && After(i, q, w, a, b, c, d)
    ensures After(i + 1, q, w, d, r, b, c)
  {
    hide Sim, Sine, Shift, WordIndex, Turn, Auxiliary, Macro;
    ghost var o := Operations(q, w, i);
    var f := Macro(i, b, c, d);
    ghost var f' := Auxiliary(i, o.b, o.c, o.d);
    SimMacro(i, b, c, d, f, o.b, o.c, o.d, f');
    r := P(a, f, x[k], t, b, s, o.a, f', w[k], o.b);
  }

  method Round1(a: bv64, b: bv64, c: bv64, d: bv64, x: seq<bv64>, ghost q: Quad, ghost w: seq<bv32>)
    returns (A: bv64, B: bv64, C: bv64, D: bv64)
    requires SimWords(x, w) && After(0, q, w, a, b, c, d)
    ensures After(16, q, w, A, B, C, D)
  {
    hide After, SimWords;
    A, B, C, D := a, b, c, d;
    A := Line(0, A, B, C, D, 0, 7, 0xD76AA478, x, q, w);
    D := Line(1, D, A, B, C, 1, 12, 0xE8C7B756, x, q, w);
    C := Line(2, C, D, A, B, 2, 17, 0x242070DB, x, q, w);
    B := Line(3, B, C, D, A, 3, 22, 0xC1BDCEEE, x, q, w);
    A := Line(4, A, B, C, D, 4, 7, 0xF57C0FAF, x, q, w);
    D := Line(5, D, A, B, C, 5, 12, 0x4787C62A, x, q, w);
    C := Line(6, C, D, A, B, 6, 17, 0xA8304613, x, q, w);
    B := Line(7, B, C, D, A, 7, 22, 0xFD469501, x, q, w);
    A := Line(8, A, B, C, D, 8, 7, 0x698098D8, x, q, w);
    D := Line(9, D, A, B, C, 9, 12, 0x8B44F7AF, x, q, w);
    C := Line(10, C, D, A, B, 10, 17, 0xFFFF5BB1, x, q, w);
    B := Line(11, B, C, D, A, 11, 22, 0x895CD7BE, x, q, w);
    A := Line(12, A, B, C, D, 12, 7, 0x6B901122, x, q, w);
    D := Line(13, D, A, B, C, 13, 12, 0xFD987193, x, q, w);
    C := Line(14, C, D, A, B, 14, 17, 0xA679438E, x, q, w);
    B := Line(15, B, C, D, A, 15, 22, 0x49B40821, x, q, w);
  }

  method Round2(a: bv64, b: bv64, c: bv64, d: bv64, x: seq<bv64>, ghost q: Quad, ghost w: seq<bv32>)
    returns (A: bv64, B: bv64, C: bv64, D: bv64)
    requires SimWords(x, w) && After(16, q, w, a, b, c, d)
    ensures After(32, q, w, A, B, C, D)
  {
    hide After, SimWords;
    A, B, C, D := a, b, c, d;
    A := Line(16, A, B, C, D, 1, 5, 0xF61E2562, x, q, w);
    D := Line(17, D, A, B, C, 6, 9, 0xC040B340, x, q, w);
    C := Line(18, C, D, A, B, 11, 14, 0x265E5A51, x, q, w);
    B := Line(19, B, C, D, A, 0, 20, 0xE9B6C7AA, x, q, w);
    A := Line(20, A, B, C, D, 5, 5, 0xD62F105D, x, q, w);
    D := Line(21, D, A, B, C, 10, 9, 0x02441453, x, q, w);
    C := Line(22, C, D, A, B, 15, 14, 0xD8A1E681, x, q, w);
    B := Line(23, B, C, D, A, 4, 20, 0xE7D3FBC8, x, q, w);
    A := Line(24, A, B, C, D, 9, 5, 0x21E1CDE6, x, q, w);
    D := Line(25, D, A, B, C, 14, 9, 0xC33707D6, x, q, w);
    C := Line(26, C, D, A, B, 3, 14, 0xF4D50D87, x, q, w);
    B := Line(27, B, C, D, A, 8, 20, 0x455A14ED, x, q, w);
    A := Line(28, A, B, C, D, 13, 5, 0xA9E3E905, x, q, w);
    D := Line(29, D, A, B, C, 2, 9, 0xFCEFA3F8, x, q, w);
    C := Line(30, C, D, A, B, 7, 14, 0x676F02D9, x, q, w);
    B := Line(31, B, C, D, A, 12, 20, 0x8D2A4C8A, x, q, w);
  }

  method Round3(a: bv64, b: bv64, c: bv64, d: bv64, x: seq<bv64>, ghost q: Quad, ghost w: seq<bv32>)
    returns (A: bv64, B: bv64, C: bv64, D: bv64)
    requires SimWords(x, w) && After(32, q, w, a, b, c, d)
    ensures After(48, q, w, A, B, C, D)
  {
    hide After, SimWords;
    A, B, C, D := a, b, c, d;
    A := Line(32, A, B, C, D, 5, 4, 0xFFFA3942, x, q, w);
    D := Line(33, D, A, B, C, 8, 11, 0x8771F681, x, q, w);
    C := Line(34, C, D, A, B, 11, 16, 0x6D9D6122, x, q, w);
    B := Line(35, B, C, D, A, 14, 23, 0xFDE5380C, x, q, w);
    A := Line(36, A, B, C, D, 1, 4, 0xA4BEEA44, x, q, w);
    D := Line(37, D, A, B, C, 4, 11, 0x4BDECFA9, x, q, w);
    C := Line(38, C, D, A, B, 7, 16, 0xF6BB4B60, x, q, w);
    B := Line(39, B, C, D, A, 10, 23, 0xBEBFBC70, x, q, w);
    A := Line(40, A, B, C, D, 13, 4, 0x289B7EC6, x, q, w);
    D := Line(41, D, A, B, C, 0, 11, 0xEAA127FA, x, q, w);
    C := Line(42, C, D, A, B, 3, 16, 0xD4EF3085, x, q, w);
    B := Line(43, B, C, D, A, 6, 23, 0x04881D05, x, q, w);
    A := Line(44, A, B, C, D, 9, 4, 0xD9D4D039, x, q, w);
    D := Line(45, D, A, B, C, 12, 11, 0xE6DB99E5, x, q, w);
    C := Line(46, C, D, A, B, 15, 16, 0x1FA27CF8, x, q, w);
    B := Line(47, B, C, D, A, 2, 23, 0xC4AC5665, x, q, w);
  }

  method Round4(a: bv64, b: bv64, c: bv64, d: bv64, x: seq<bv64>, ghost q: Quad, ghost w: seq<bv32>)
    returns (A: bv64, B: bv64, C: bv64, D: bv64)
    requires SimWords(x, w) && After(48, q, w, a, b, c, d)
    ensures After(64, q, w, A, B, C, D)
  {
    hide After, SimWords;
    A, B, C, D := a, b, c, d;
    A := Line(48, A, B, C, D, 0, 6, 0xF4292244, x, q, w);
    D := Line(49, D, A, B, C, 7, 10, 0x432AFF97, x, q, w);
    C := Line(50, C, D, A, B, 14, 15, 0xAB9423A7, x, q, w);
    B := Line(51, B, C, D, A, 5, 21, 0xFC93A039, x, q, w);
    A := Line(52, A, B, C, D, 12, 6, 0x655B59C3, x, q, w);
    D := Line(53, D, A, B, C, 3, 10, 0x8F0CCC92, x, q, w);
    C := Line(54, C, D, A, B, 10, 15, 0xFFEFF47D, x, q, w);
    B := Line(55, B, C, D, A, 1, 21, 0x85845DD1, x, q, w);
    A := Line(56, A, B, C, D, 8, 6, 0x6FA87E4F, x, q, w);
    D := Line(57, D, A, B, C, 15, 10, 0xFE2CE6E0, x, q, w);
    C := Line(58, C, D, A, B, 6, 15, 0xA3014314, x, q, w);
    B := Line(59, B, C, D, A, 13, 21, 0x4E0811A1, x, q, w);
    A := Line(60, A, B, C, D, 4, 6, 0xF7537E82, x, q, w);
    D := Line(61, D, A, B, C, 11, 10, 0xBD3AF235, x, q, w);
    C := Line(62, C, D, A, B, 2, 15, 0x2AD7D2BB, x, q, w);
    B := Line(63, B, C, D, A, 9, 21, 0xEB86D391, x, q, w);
  }

  // ---------------------------------------------------------------- bytes and words

  /** GET_ULONG_LE */
  function GetLong(s: seq<byte>, i: nat): bv64
    requires i + 4 <= |s|
  {
    JoinLong(Octet(s[i]), Octet(s[i + 1]), Octet(s[i + 2]), Octet(s[i + 3]))
  }

  function JoinLong(a: bv8, b: bv8, c: bv8, d: bv8): bv64 {
    (a as bv64) | (b as bv64 << 8) | (c as bv64 << 16) | (d as bv64 << 24)
  }

  lemma SimJoin(a: bv8, b: bv8, c: bv8, d: bv8)
    ensures Sim(JoinLong(a, b, c, d), Join(a, b, c, d))
  {
  }

  function Longs(s: seq<byte>): (x: seq<bv64>)
    requires |s| == 64
    ensures |x| == 16
  {
    seq(16, k requires 0 <= k < 16 => GetLong(s, 4 * k))
  }

  lemma SimLongs(s: seq<byte>)
    requires |s| == 64
    ensures SimWords(Longs(s), Words(s))
  {
    hide Sim, Octet, Join, JoinLong;
    forall k | 0 <= k < 16
      ensures Sim(Longs(s)[k], Words(s)[k])
    {
      SimJoin(Octet(s[4 * k]), Octet(s[4 * k + 1]), Octet(s[4 * k + 2]), Octet(s[4 * k + 3]));
    }
  }

  /** PUT_ULONG_LE: only the low half of the word reaches the output. */
  function PutLong(x: bv64): (s: seq<bv8>)
    ensures |s| == 4
  {
    [(x & 0xFF) as bv8, ((x >> 8) & 0xFF) as bv8, ((x >> 16) & 0xFF) as bv8, ((x >> 24) & 0xFF) as bv8]
  }

  lemma SimSplit(x: bv64, l: bv32)
    requires Sim(x, l)
    ensures PutLong(x) == Split(l)
  {
  }

  // ---------------------------------------------------------------- the context

  /** The part of a message that fills whole blocks. */
  function Whole(m: seq<byte>): (w: seq<byte>)
    ensures |w| == |m| - |m| % 64 && |w| % 64 == 0
  {
    m[..|m| - |m| % 64]
  }

  lemma {:induction false} BlocksSnoc(m: seq<byte>, block: seq<byte>)
    requires |m| % 64 == 0 && |block| == 64
    ensures |m + block| % 64 == 0 && Blocks(m + block) == Compress(Blocks(m), block)
  {
    hide Compress;
    assert (m + block)[..|m|] == m && (m + block)[|m|..] == block;
  }

  /** The two counters after `n` more bytes; total[0] is masked to 32 bits, total[1] is not. */
  lemma CounterCarry(size: nat, n: nat, total0: nat, total1: nat)
    requires n < U32 && total0 == size % U32 && total1 == size / U32 % U64
    ensures var t := (total0 + n) % U32;
            && t == (size + n) % U32
            && (if t < n then (total1 + 1) % U64 else total1) == (size + n) / U32 % U64
  {
    var h := size / U32;
    assert size + n == U32 * h + (total0 + n);
    if total0 + n >= U32 {
      assert (size + n) / U32 == h + 1;
    } else {
      assert (size + n) / U32 == h;
    }
  }

  class Md5Context {
    var total0: nat
    var total1: nat
    const state: array<bv64>
    const buffer: array<byte>
    // everything passed to Update since Starts
    ghost var message: seq<byte>

    /** Three separate arrays, of the sizes md5.h gives. */
    ghost predicate Apart(input: array<byte>)
    {
      && state.Length == 4 && buffer.Length == 64
      && input != buffer && (input as object) != state && (buffer as object) != state
    }

    /** The state stands for `q`, word for word. */
    ghost predicate Holds(q: Quad)
      reads state
    {
      && state.Length == 4
      && Sim(state[0], q.a) && Sim(state[1], q.b) && Sim(state[2], q.c) && Sim(state[3], q.d)
    }

    /** The counters hold the size of the message. */
    ghost predicate Valid()
      reads this, state, buffer
    {
      && state.Length == 4 && buffer.Length == 64 && (buffer as object) != state
      && Counted(|message|) && HasTaken(message)
    }

    /** The state stands for the whole blocks of `m`, the buffer holds the rest. */
    ghost predicate HasTaken(m: seq<byte>)
      reads state, buffer
    {
      && buffer.Length == 64 && Holds(Blocks(Whole(m)))
      && buffer[..|m| % 64] == m[|m| - |m| % 64..]
    }

    ghost predicate Counted(size: nat)
      reads this`total0, this`total1
    {
      total0 == size % U32 && total1 == size / U32 % U64
    }

    /** md5_starts */
    constructor Starts()
      ensures Valid() && message == [] && fresh(state) && fresh(buffer)
      ensures state[..] == [0x67452301, 0xEFCDAB89, 0x98BADCFE, 0x10325476]
    {
      total0, total1, message := 0, 0, [];
      state := new bv64[][0x67452301, 0xEFCDAB89, 0x98BADCFE, 0x10325476];
      buffer := new byte[64](_ => 0);
    }

    /** md5_process: the block at `at` of `data`. */
    method Process(data: array<byte>, at: nat, ghost q: Quad, ghost block: seq<byte>)
      requires at + 64 <= data.Length && data[at..at + 64] == block && Holds(q)
      modifies state
      ensures Holds(Compress(q, block))
    {
      hide Sim, Operations, Add;
      ghost var w := Words(block);
      var X := Longs(data[at..at + 64]);
      SimLongs(block);
      var A, B, C, D := state[0], state[1], state[2], state[3];
      Started(A, B, C, D, q, w);
      A, B, C, D := Round1(A, B, C, D, X, q, w);
      A, B, C, D := Round2(A, B, C, D, X, q, w);
      A, B, C, D := Round3(A, B, C, D, X, q, w);
      A, B, C, D := Round4(A, B, C, D, X, q, w);
      ghost var r := Operations(q, w, 64);
      Accumulate(0, A, q.a, r.a);
      Accumulate(1, B, q.b, r.b);
      Accumulate(2, C, q.c, r.c);
      Accumulate(3, D, q.d, r.d);
    }

    /** ctx->state[k] += x */
    method Accumulate(k: nat, x: bv64, ghost a: bv32, ghost b: bv32)
      requires k < state.Length && Sim(state[k], a) && Sim(x, b)
      modifies state
      ensures Sim(state[k], Add(a, b))
      ensures forall i :: 0 <= i < state.Length && i != k ==> state[i] == old(state[i])
    {
      hide Sim, Add;
      var y := state[k];
      var z := y + x;
      SimAdd(y, x, z, a, b, Add(a, b));
      state[k] := z;
    }

    /** In the middle of an update: the state stands for the first `done` bytes of `all`, whole
        blocks, and the buffer holds the next `left` bytes. */
    ghost predicate Feeding(all: seq<byte>, done: nat, left: nat)
      reads state, buffer
    {
      && buffer.Length == 64 && WholeBlocks(done) && done + left <= |all| && left < 64
      && Holds(Blocks(all[..done])) && buffer[..left] == all[done..done + left]
    }

    lemma StartFeeding(m: seq<byte>, t: seq<byte>)
      requires HasTaken(m)
      ensures Feeding(m + t, |m| - |m| % 64, |m| % 64)
    {
      hide Blocks, Holds;
      assert (m + t)[..|m| - |m| % 64] == Whole(m);
      assert (m + t)[|m| - |m| % 64..|m|] == m[|m| - |m| % 64..];
    }

    lemma EndFeeding(all: seq<byte>, done: nat, left: nat)
      requires Feeding(all, done, left) && done + left == |all|
      ensures HasTaken(all)
    {
      hide Blocks, Holds;
      assert Whole(all) == all[..done];
      assert all[done..done + left] == all[done..];
    }

    /** The next block of `all`, from the buffer or from the input. */
    method TakeBlock(data: array<byte>, at: nat, ghost all: seq<byte>, ghost done: nat, ghost left: nat)
      requires (data as object) != state && at + 64 <= data.Length && done + 64 <= |all|
      requires data[at..at + 64] == all[done..done + 64] && Feeding(all, done, left)
      modifies state
      ensures Feeding(all, done + 64, 0)
    {
      hide Compress, Blocks, Holds;
      OneMoreBlock(all, done);
      Process(data, at, Blocks(all[..done]), all[done..done + 64]);
    }

    /** memcpy of the next `n` bytes of `all` behind the `left` bytes already in the buffer. */
    method Append(data: array<byte>, at: nat, left: nat, n: nat, ghost all: seq<byte>, ghost done: nat)
      requires (buffer as object) != state && Feeding(all, done, left)
      requires at + n <= data.Length && left + n <= 64 && done + left + n <= |all|
      requires data[at..at + n] == all[done + left..done + left + n]
      modifies buffer
      ensures buffer[..left + n] == all[done..done + left + n]
      ensures Feeding(all, done, if left + n < 64 then left + n else left)
    {
      hide Blocks, Holds;
      Store(buffer, left, data[at..at + n]);
      assert all[done..done + left + n] == all[done..done + left] + all[done + left..done + left + n];
    }

    /** md5_update: completes the buffered block, takes whole blocks straight from the input, and
        buffers what is left. */
    method Update(input: array<byte>, from: nat, ilen: int)
      requires Valid() && Apart(input) && ilen < 0x8000_0000
      requires ilen > 0 ==> from + ilen <= input.Length
      modifies this, state, buffer
      ensures Valid()
      ensures message == old(message) + if ilen <= 0 then [] else input[from..from + ilen]
    {
      hide HasTaken, Counted;
      if ilen <= 0 {
        assert message + [] == message;
        return;
      }
      Lengths();
      var left, p, n: nat := total0 % 64, from, ilen;
      ghost var before := message;
      message := message + input[from..from + ilen];
      Count(n, |before|);
      Feed(input, p, n, left, before, message);
      assert input[from..from + ilen] == old(input[from..from + ilen]);
    }

    /** total[0] += ilen, with a carry into total[1] */
    method Count(n: nat, ghost size: nat)
      requires n < U32 && Counted(size)
      modifies this`total0, this`total1
      ensures Counted(size + n)
    {
      CounterCarry(size, n, total0, total1);
      total0 := (total0 + n) % U32;
      if total0 < n {
        total1 := (total1 + 1) % U64;
      }
    }

    /** md5_update after the counters. */
    method Feed(input: array<byte>, from: nat, ilen: nat, left0: nat, ghost before: seq<byte>, ghost all: seq<byte>)
      requires Apart(input) && from + ilen <= input.Length && left0 == |before| % 64
      requires all == before + input[from..from + ilen] && HasTaken(before)
      modifies state, buffer
      ensures HasTaken(all)
    {
      hide HasTaken, Feeding;
      var left, p, n: nat := left0, from, ilen;
      ghost var done: nat := |before| - left;
      ghost var inp := input[..];
      assert all == before + inp[from..from + ilen];
      StartFeeding(before, inp[from..from + ilen]);
      var fill := 64 - left;
      if left != 0 && n >= fill {
        InputPart(before, inp, from, ilen, all, p, done + left, fill);
        Append(input, p, left, fill, all, done);
        assert buffer[0..64] == buffer[..64];
        TakeBlock(buffer, 0, all, done, left);
        p, n, left, done := p + fill, n - fill, 0, done + 64;
      }
      while n >= 64
        invariant Feeding(all, done, left) && input[..] == inp && (left != 0 ==> n < 64 - left)
        invariant p + n == from + ilen && done + left + n == |all| && left < 64
      {
        InputPart(before, inp, from, ilen, all, p, done, 64);
        TakeBlock(input, p, all, done, left);
        p, n, done := p + 64, n - 64, done + 64;
      }
      if n > 0 {
        InputPart(before, inp, from, ilen, all, p, done + left, n);
        Append(input, p, left, n, all, done);
      }
      EndFeeding(all, done, left + n);
    }

    /** md5_finish: one padding for any length, the bit length from the two counters, and the low
        halves of the state. */
    method Finish(output: array<bv8>)
      requires Valid() && output.Length == 16 && (output as object) != state && (output as object) != buffer
      modifies this, state, buffer, output
      ensures output[..] == MessageDigest(old(message))
    {
      hide Blocks, HasTaken, LittleEndian, Sim, Output, Padding, Counted;
      ghost var m := message;
      // total[0] >> 29 | total[1] << 3: the shifted words have no bit in common
      var high := total0 / 0x2000_0000 + total1 * 8 % U64;
      var low := total0 * 8;
      Lengths();
      var msglen := new byte[8];
      Store(msglen, 0, LittleEndian(low) + LittleEndian(high));
      var last := total0 % 64;
      var padn := if last < 56 then 56 - last else 120 - last;
      var padding := new byte[64](k => if k == 0 then 0x80 else 0);
      assert padding[0..padn] == [0x80] + Zeros(padn - 1);
      assert msglen[0..8] == msglen[..] == LengthBytes(8 * |m|);
      Update(padding, 0, padn);
      Update(msglen, 0, 8);
      PaddingParts(m, padding[0..padn], msglen[0..8]);
      WholeMessage(message);
      Emit(output, Blocks(message));
    }

    lemma Lengths()
      requires Valid()
      ensures total0 % 64 == |message| % 64
      ensures LittleEndian(total0 * 8) + LittleEndian(total0 / 0x2000_0000 + total1 * 8 % U64)
           == LengthBytes(8 * |message|)
    {
      hide HasTaken, LittleEndian;
      Remainder64(|message|);
      LengthOfMessage(|message|, total0, total1);
    }

    lemma PaddingParts(m: seq<byte>, a: seq<byte>, b: seq<byte>)
      requires a == [0x80] + Zeros(PaddingLength(|m|) - 1) && b == LengthBytes(8 * |m|)
      ensures (m + a) + b == m + Padding(|m|)
    {
      hide LengthBytes;
    }

    lemma WholeMessage(m: seq<byte>)
      requires HasTaken(m) && |m| % 64 == 0
      ensures Holds(Blocks(m))
    {
      hide Blocks;
      assert Whole(m) == m;
    }

    /** PUT_ULONG_LE of the four words. */
    method Emit(output: array<bv8>, ghost q: Quad)
      requires Holds(q) && output.Length == 16 && (output as object) != state
      modifies output
      ensures output[..] == Output(q)
    {
      hide Sim, Split, PutLong;
      SimSplit(state[0], q.a);
      SimSplit(state[1], q.b);
      SimSplit(state[2], q.c);
      SimSplit(state[3], q.d);
      var all := PutLong(state[0]) + PutLong(state[1]) + PutLong(state[2]) + PutLong(state[3]);
      forall i | 0 <= i < 16 {
        output[i] := all[i];
      }
      assert output[..] == all;
    }
  }

  lemma ShiftPeriod(x: nat, k: nat)
    ensures (x + U32 * k) / 0x100 == x / 0x100 + 0x100_0000 * k
    ensures (x + U32 * k) / 0x1_0000 == x / 0x1_0000 + 0x1_0000 * k
    ensures (x + U32 * k) / 0x100_0000 == x / 0x100_0000 + 0x100 * k
  {
  }

  lemma BytePeriod(q: nat, k: nat)
    ensures (q + 0x100 * k) % 256 == q % 256
  {
  }

  /** Only the low 32 bits of a number reach its bytes. */
  lemma LowBytes(x: nat, k: nat)
    ensures LittleEndian(x + U32 * k) == LittleEndian(x)
  {
    ShiftPeriod(x, k);
    BytePeriod(x, 0x100_0000 * k);
    BytePeriod(x / 0x100, 0x1_0000 * k);
    BytePeriod(x / 0x1_0000, 0x100 * k);
    BytePeriod(x / 0x100_0000, k);
  }

  lemma QuotientPeriod(x: nat, k: nat)
    ensures (x + U32 * k) % U32 == x % U32 && (x + U32 * k) / U32 == x / U32 + k
  {
  }

  lemma CarriedBits(x: nat)
    ensures x * 8 / U32 == x / 0x2000_0000
  {
    var q := x / 0x2000_0000;
    assert x * 8 == U32 * q + 8 * (x % 0x2000_0000);
    QuotientPeriod(8 * (x % 0x2000_0000), q);
  }

  /** The two counters give the length in bits modulo 2^64. */
  lemma LengthOfMessage(size: nat, total0: nat, total1: nat)
    requires total0 == size % U32 && total1 == size / U32 % U64
    ensures LittleEndian(total0 * 8) + LittleEndian(total0 / 0x2000_0000 + total1 * 8 % U64) == LengthBytes(8 * size)
  {
    hide LittleEndian;
    var h, t := size / U32, total0 * 8;
    var carry := total0 / 0x2000_0000;
    assert 8 * size == t + U32 * (8 * h);
    QuotientPeriod(t, 8 * h);
    CarriedBits(total0);
    LowBytes(t % U32, t / U32);
    HighCounter(h, total1, carry);
    LowBytes((carry + 8 * h) % U32, (carry + 8 * h) / U32);
  }

  /** total[1], which never wraps in practice, may be short of the real count by a multiple of 2^64. */
  lemma HighCounter(h: nat, total1: nat, carry: nat)
    requires total1 == h % U64
    ensures LittleEndian(carry + total1 * 8 % U64) == LittleEndian(carry + 8 * h)
  {
    hide LittleEndian;
    var j, k := h / U64, total1 * 8 / U64;
    var high := carry + total1 * 8 % U64;
    assert carry + 8 * h == high + U32 * (U32 * (8 * j + k));
    LowBytes(high, U32 * (8 * j + k));
  }

  lemma Remainder64(size: nat)
    ensures size % U32 % 64 == size % 64
  {
    var q := size / U32;
    assert size == size % U32 + 64 * (0x400_0000 * q);
  }

  /** md5: the whole input in one update. */
  method Md5(input: array<byte>, from: nat, ilen: int, output: array<bv8>)
    requires ilen < 0x8000_0000 && (ilen > 0 ==> from + ilen <= input.Length) && output.Length == 16
    modifies output
    ensures output[..] == MessageDigest(if ilen <= 0 then [] else old(input[from..from + ilen]))
  {
    hide MessageDigest;
    var ctx := new Md5Context.Starts();
    ctx.Update(input, from, ilen);
    assert ctx.message == if ilen <= 0 then [] else old(input[from..from + ilen]);
    ctx.Finish(output);
  }

  /** fread: some bytes, as long as there are any. */
  method Fread(file: seq<byte>, at: nat, buf: array<byte>) returns (n: nat)
    requires at < |file| && buf.Length == 1024
    modifies buf
    ensures 1 <= n <= 1024 && at + n <= |file| && buf[0..n] == file[at..at + n]
  {
    n :| 1 <= n <= 1024 && n <= |file| - at;
    Store(buf, 0, file[at..at + n]);
  }

  lemma TakeMore(s: seq<byte>, at: nat, n: nat)
    requires at + n <= |s|
    ensures s[..at + n] == s[..at] + s[at..at + n]
  {
  }

  method ReadAndUpdate(ctx: Md5Context, file: seq<byte>, at: nat, buf: array<byte>) returns (next: nat)
    requires ctx.Valid() && ctx.Apart(buf) && buf.Length == 1024 && at < |file| && ctx.message == file[..at]
    modifies ctx, ctx.state, ctx.buffer, buf
    ensures ctx.Valid() && at < next <= |file| && ctx.message == file[..next]
  {
    hide ctx.HasTaken, ctx.Counted;
    var n := Fread(file, at, buf);
    ctx.Update(buf, 0, n);
    TakeMore(file, at, n);
    next := at + n;
  }

  /** md5_file: one update for each read of at most 1024 bytes. */
  method Md5File(file: seq<byte>, output: array<bv8>)
    requires output.Length == 16
    modifies output
    ensures output[..] == MessageDigest(file)
  {
    hide MessageDigest;
    var ctx := new Md5Context.Starts();
    var buf := new byte[1024];
    var at := 0;
    while at < |file|
      invariant at <= |file| && ctx.Valid() && ctx.message == file[..at]
      invariant fresh(ctx) && fresh(ctx.state) && fresh(ctx.buffer) && fresh(buf)
      invariant ctx.Apart(buf) && buf.Length == 1024
      invariant (output as object) != ctx.state && (output as object) != ctx.buffer && (output as object) != buf
    {
      at := ReadAndUpdate(ctx, file, at, buf);
    }
    assert file[..at] == file;
    ctx.Finish(output);
  }

  /** A number of whole blocks. */
  predicate WholeBlocks(done: nat) {
    done % 64 == 0
  }

  /** Where a part of the input lies in the whole message. */
  lemma InputPart(m: seq<byte>, inp: seq<byte>, from: nat, n: nat, all: seq<byte>, p: nat, q: nat, k: nat)
    requires from + n <= |inp| && all == m + inp[from..from + n]
    requires from <= p && p + k <= from + n && q == |m| + (p - from)
    ensures q + k <= |all| && inp[p..p + k] == all[q..q + k]
  {
    var x, y := inp[p..p + k], all[q..q + k];
    assert forall i :: 0 <= i < k ==> x[i] == inp[from..from + n][p - from + i] == y[i];
  }

  lemma OneMoreBlock(m: seq<byte>, done: nat)
    requires WholeBlocks(done) && done + 64 <= |m|
    ensures WholeBlocks(done + 64) && Blocks(m[..done + 64]) == Compress(Blocks(m[..done]), m[done..done + 64])
  {
    hide Compress;
    assert m[..done + 64] == m[..done] + m[done..done + 64];
    BlocksSnoc(m[..done], m[done..done + 64]);
  }

  lemma Started(a: bv64, b: bv64, c: bv64, d: bv64, q: Quad, w: seq<bv32>)
    requires |w| == 16 && Sim(a, q.a) && Sim(b, q.b) && Sim(c, q.c) && Sim(d, q.d)
    ensures After(0, q, w, a, b, c, d)
  {
    hide Sim;
  }

  // ---------------------------------------------------------------- the printed form

  /** "0123456789abcdef"[n] */
  function HexDigit(n: bv8): (c: byte)
    requires n < 16
    ensures c != 0
  {
    match n
    case 0 => 48 case 1 => 49 case 2 => 50 case 3 => 51 case 4 => 52 case 5 => 53 case 6 => 54 case 7 => 55
    case 8 => 56 case 9 => 57 case 10 => 97 case 11 => 98 case 12 => 99 case 13 => 100 case 14 => 101
    case _ => 102
  }

  function HexValue(c: byte): (n: bv8) {
    match c
    case 48 => 0 case 49 => 1 case 50 => 2 case 51 => 3 case 52 => 4 case 53 => 5 case 54 => 6 case 55 => 7
    case 56 => 8 case 57 => 9 case 97 => 10 case 98 => 11 case 99 => 12 case 100 => 13 case 101 => 14
    case _ => 15
  }

  function HexPair(b: bv8): (t: seq<byte>)
    ensures |t| == 2 && NoNul(t)
  {
    [HexDigit((0xF0 & b) >> 4), HexDigit(0x0F & b)]
  }

  function HexByte(h: byte, l: byte): bv8 {
    (HexValue(h) << 4) | HexValue(l)
  }

  /** Two characters for each byte. */
  function HexText(d: seq<bv8>): (t: seq<byte>)
    ensures |t| == 2 * |d| && NoNul(t)
  {
    if |d| == 0 then []
    else HexText(d[..|d| - 1]) + HexPair(d[|d| - 1])
  }

  function Unhex(t: seq<byte>): (d: seq<bv8>)
    requires |t| % 2 == 0
  {
    if |t| == 0 then []
    else Unhex(t[..|t| - 2]) + [HexByte(t[|t| - 2], t[|t| - 1])]
  }

  lemma HexDigitValue(n: bv8)
    requires n < 16
    ensures HexValue(HexDigit(n)) == n
  {
  }

  lemma Nibbles(b: bv8)
    ensures (((0xF0 & b) >> 4) << 4) | (0x0F & b) == b
  {
  }

  lemma ByteRoundTrip(b: bv8)
    ensures HexByte(HexPair(b)[0], HexPair(b)[1]) == b
  {
    hide HexDigit, HexValue;
    HexDigitValue((0xF0 & b) >> 4);
    HexDigitValue(0x0F & b);
    Nibbles(b);
  }

  /** The text determines the digest, so comparing texts compares digests. */
  lemma {:induction false} HexRoundTrip(d: seq<bv8>)
    ensures Unhex(HexText(d)) == d
  {
    hide HexPair, HexByte;
    if |d| > 0 {
      HexRoundTrip(d[..|d| - 1]);
      var t := HexText(d);
      assert t[..|t| - 2] == HexText(d[..|d| - 1]);
      ByteRoundTrip(d[|d| - 1]);
    }
  }

  /** The strong hash of both programs. */
  function Md5Text(m: seq<byte>): (t: Digest) {
    HexText(MessageDigest(m))
  }

  lemma NoText(d: seq<bv8>)
    requires d == []
    ensures HexText(d) == []
  {
  }

  lemma TextGrows(d: seq<bv8>, i: nat)
    requires i < |d|
    ensures HexText(d[..i + 1]) == HexText(d[..i]) + [HexDigit((0xF0 & d[i]) >> 4), HexDigit(0x0F & d[i])]
  {
    hide HexDigit;
    assert d[..i + 1][..i] == d[..i];
  }

  /** md5_2_str */
  method Md5ToStr(sum: array<bv8>, str: array<byte>)
    requires sum.Length == 16 && str.Length == 33
    modifies str
    ensures str[..] == HexText(old(sum[..])) + [0]
  {
    hide HexDigit, HexText;
    ghost var d := sum[..];
    NoText(d[..0]);
    var i, j := 0, 0;
    while i < 16
      invariant 0 <= i <= 16 && j == 2 * i && sum[..] == d
      invariant str[..j] == HexText(d[..i])
    {
      TextGrows(d, i);
      str[j] := HexDigit((0xF0 & sum[i]) >> 4);
      str[j + 1] := HexDigit(0x0F & sum[i]);
      i, j := i + 1, j + 2;
    }
    assert d[..16] == d;
    str[j] := 0;
  }

  /** md5s_of_str */
  method Md5sOfStr(input: array<byte>, from: nat, len: int, md5s: array<byte>)
    requires len < 0x8000_0000 && (len > 0 ==> from + len <= input.Length) && md5s.Length == 33
    modifies md5s
    ensures md5s[..] == Md5Text(if len <= 0 then [] else old(input[from..from + len])) + [0]
  {
    hide MessageDigest, HexText;
    var sum := new bv8[16](_ => 0);
    Md5(input, from, len, sum);
    Clear(md5s, 33);
    Md5ToStr(sum, md5s);
  }

  /** md5s_of_file on a file that can be read. */
  method Md5sOfFile(file: seq<byte>, md5s: array<byte>)
    requires md5s.Length == 33
    modifies md5s
    ensures md5s[..] == Md5Text(file) + [0]
  {
    hide MessageDigest, HexText;
    var sum := new bv8[16](_ => 0);
    Md5File(file, sum);
    Clear(md5s, 33);
    Md5ToStr(sum, md5s);
  }
}
