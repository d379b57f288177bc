/** Octets, C integer widths and the block copies every other module works with. */
module Bytes {
  newtype byte = b: int | 0 <= b < 256

  /** 32 hexadecimal characters, the printed form of a strong hash; no character is NUL. */
  type Digest = s: seq<byte> | |s| == 32 && (forall i :: 0 <= i < |s| ==> s[i] != 0)
    witness seq(32, _ => 48)

  datatype Option<+T> = None | Some(value: T)

  // Sizes fixed by rzync.h.
  const BUF_SIZE := 32768
  const FILE_INFO_SIZE := 512
  const CHECKSUM_HEADER_SIZE := 32
  const CHECKSUM_SIZE := 64
  const CHECKSUMS_PER_BUF := 512
  const MAX_NAME_LENGTH := 256
  const TMP_FILE_NAME_LEN := 260

  const NEWLINE: byte := 10
  const DOLLAR: byte := 36
  const HASH: byte := 35
  const SLASH: byte := 47
  const FLAG_DUP: byte := 68
  const FLAG_NDUP: byte := 78

  const U32 := 0x1_0000_0000
  const U64 := 0x1_0000_0000_0000_0000

  /** Conversion to `unsigned int`. */
  function ToU32(x: int): (r: int)
    ensures 0 <= r < U32
  {
    x % U32
  }

  /** How many times the modulus fits below `x`. */
  function Wraps32(x: int): (k: int)
    ensures x == ToU32(x) + U32 * k
  {
    x / U32
  }

  lemma U32Period(x: int, k: int)
    ensures ToU32(x + U32 * k) == ToU32(x)
  {
  }

  /** Wrapping a term of a sum early does not change the wrapped sum. */
  lemma U32Absorb(x: int, y: int)
    ensures ToU32(ToU32(x) + y) == ToU32(x + y)
  {
    U32Period(ToU32(x) + y, Wraps32(x));
  }

  function Min(a: int, b: int): int {
    if a < b then a else b
  }

  function Zeros(n: nat): (s: seq<byte>)
    ensures |s| == n
  {
    seq(n, _ => 0)
  }

  /** The characters of a text as bytes. */
  function Ascii(t: string): (s: seq<byte>)
    requires forall i :: 0 <= i < |t| ==> t[i] < 128 as char
    ensures |s| == |t|
  {
    seq(|t|, i requires 0 <= i < |t| => t[i] as int as byte)
  }

  predicate NoNul(s: seq<byte>) {
    forall i :: 0 <= i < |s| ==> s[i] != 0
  }

  /** `t` lies at index `p` of `s`. */
  predicate At(s: seq<byte>, p: nat, t: seq<byte>) {
    p + |t| <= |s| && s[p..p + |t|] == t
  }

  lemma AtFirst(s: seq<byte>, p: nat, x: byte)
    requires At(s, p, [x])
    ensures s[p] == x
  {
    assert s[p] == s[p..p + 1][0];
  }

  lemma AtSplit(s: seq<byte>, p: nat, a: seq<byte>, b: seq<byte>)
    requires At(s, p, a + b)
    ensures At(s, p, a) && At(s, p + |a|, b)
  {
    var w := s[p..p + |a + b|];
    assert s[p..p + |a|] == w[..|a|];
    assert s[p + |a|..p + |a| + |b|] == w[|a|..];
  }

  /** `s` with `t` written over it from index `at`. */
  function Splice(s: seq<byte>, at: nat, t: seq<byte>): (r: seq<byte>)
    requires at + |t| <= |s|
    ensures |r| == |s|
    ensures r[..at] == s[..at]
    ensures r[at..at + |t|] == t
    ensures r[at + |t|..] == s[at + |t|..]
    ensures r[..at + |t|] == s[..at] + t
  {
    s[..at] + t + s[at + |t|..]
  }

  /** The bytes of several reads, in order. */
  function Concat(chunks: seq<seq<byte>>): (s: seq<byte>) {
    if |chunks| == 0 then [] else Concat(chunks[..|chunks| - 1]) + chunks[|chunks| - 1]
  }

  /** memcpy from a sequence. */
  method Store(a: array<byte>, at: nat, t: seq<byte>)
    requires at + |t| <= a.Length
    modifies a
    ensures a[..] == Splice(old(a[..]), at, t)
  {
    forall i | 0 <= i < |t| {
      a[at + i] := t[i];
    }
    assert a[..] == Splice(old(a[..]), at, t);
  }

  /** memset(a, 0, n). */
  method Clear(a: array<byte>, n: nat)
    requires n <= a.Length
    modifies a
    ensures a[..] == Zeros(n) + old(a[n..])
  {
    forall i | 0 <= i < n {
      a[i] := 0;
    }
    assert a[..] == Zeros(n) + old(a[n..]);
  }

  /** The characters snprintf(buf, cap, ...) stores when the full text is `text`:
      at most cap - 1 of them and then a NUL. */
  function Printed(text: seq<byte>, cap: nat): (s: seq<byte>)
    ensures |s| <= cap
    ensures |text| < cap ==> s == text + [0]
  {
    if cap == 0 then [] else text[..Min(|text|, cap - 1)] + [0]
  }

  method Snprintf(a: array<byte>, at: nat, cap: nat, text: seq<byte>) returns (n: nat)
    requires at + cap <= a.Length
    modifies a
    ensures n == |text|
    ensures a[..] == Splice(old(a[..]), at, Printed(text, cap))
  {
    Store(a, at, Printed(text, cap));
    n := |text|;
  }
}
