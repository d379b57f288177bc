/** The bytes on the wire and the values behind them, written out: what each side prints, and exactly
    what the other side accepts. */
module Wire {
  import opened Bytes
  import opened Decimal
  import opened Adler32
  import opened HashTable
  import opened Delta
  import opened DeltaParse
  import opened Frames
  import opened Protocol

  // ---------------------------------------------------------------- sizes and numbers

  /** The sizes of rzync.h, and the longest literal one call can send. */
  lemma Sizes()
    ensures BUF_SIZE == 32768 && FILE_INFO_SIZE == 512 && CHECKSUM_HEADER_SIZE == 32 && CHECKSUM_SIZE == 64
    ensures CHECKSUMS_PER_BUF == 512 && MAX_NAME_LENGTH == 256 && TMP_FILE_NAME_LEN == 260 && MAX_LITERAL == 31745
  {
  }

  /** 1 KB to 16 KB in whole KB. */
  lemma BlockSizes(bs: nat)
    ensures LegalBlockSize(bs) <==> exists kb: nat :: 1 <= kb <= 16 && bs == 1024 * kb
  {
    if LegalBlockSize(bs) { assert bs == 1024 * (bs / 1024); }
  }

  /** The ten digits, most significant first. */
  lemma Digits()
    ensures Dec(0) == Ascii("0") && Dec(1234567890) == Ascii("1234567890")
  {
    assert Dec(1) == Ascii("1");
    assert Dec(12) == Ascii("12");
    assert Dec(123) == Ascii("123");
    assert Dec(1234) == Ascii("1234");
    assert Dec(12345) == Ascii("12345");
    assert Dec(123456) == Ascii("123456");
    assert Dec(1234567) == Ascii("1234567");
    assert Dec(12345678) == Ascii("12345678");
    assert Dec(123456789) == Ascii("123456789");
  }

  /** A number is printed with digits only, and without leading zeros. */
  lemma {:induction false} NoLeadingZero(n: nat)
    ensures forall i :: 0 <= i < |Dec(n)| ==> 48 <= Dec(n)[i] <= 57
    ensures n > 0 ==> Dec(n)[0] != 48
  {
    if n >= 10 { NoLeadingZero(n / 10); }
  }

  /** The byte sum is the low half of a checksum, the weighted sum the high half. */
  lemma ChecksumHalves(s: seq<byte>)
    ensures Checksum(s) % 0x1_0000 == Sum(s) % 0x1_0000
    ensures Checksum(s) / 0x1_0000 == Weighted(s) % 0x1_0000
  {
  }

  /** For 1, 2, 3 the sum is 6 and the weighted sum 3 * 1 + 2 * 2 + 1 * 3. */
  lemma ChecksumOfThree(s: seq<byte>)
    requires s == [1, 2, 3]
    ensures Checksum(s) == 6 + 0x1_0000 * 10
  {
    var one, two: seq<byte> := [1], [1, 2];
    assert one[1..] == [] && one + [2] == two && two + [3] == s;
    SumSnoc(one, 2);
    SumSnoc(two, 3);
  }

  /** What each pending read asks for: 32 bytes, up to 512 frames of 64 bytes, 512 bytes, 32 KB; less what is
      already there. */
  lemma WantedBytes(s: Src, t: Dst)
    ensures s.state == SrcReqSent ==> SrcWant(s) == 32 - |s.buf|
    ensures s.state == SrcChksmHeaderReceived && |s.table| < s.blockNr ==>
      var left := s.blockNr - |s.table|;
      SrcWant(s) == (if left < 512 then 64 * left else 32768) - |s.buf|
    ensures t.state == DstInit ==> DstWant(t) == 512 - |t.buf|
    ensures t.state == DstChksmAllSent ==> DstWant(t) == 32768 - |t.buf|
  {
  }

  // ---------------------------------------------------------------- blocks

  /** Block `nr` of a file. */
  lemma BlockBytes(basis: seq<byte>, bs: nat, nr: nat, i: nat)
    requires nr * bs + bs <= |basis| && i < bs
    ensures |Block(basis, bs, nr)| == bs && Block(basis, bs, nr)[i] == basis[nr * bs + i]
  {
  }

  /** What the destination reads for a reference: bytes of the old copy, or of what it has written when
      the new file is the old copy, from the wrapped offset on. */
  lemma ReadBytes(d: Target, out: seq<byte>, nr: nat, i: nat)
    requires i < |ReadBlock(d, out, nr)|
    ensures var from := if d.shared then out else d.basis;
            && d.bs * nr % 0x1_0000_0000 + i < |from|
            && ReadBlock(d, out, nr)[i] == from[d.bs * nr % 0x1_0000_0000 + i]
  {
  }

  /** A reference that lies whole in what has been written reads just that. */
  lemma SharedRead(d: Target, out: seq<byte>, nr: nat)
    requires d.shared && d.bs * nr + d.bs <= |out| && d.bs * nr < 0x1_0000_0000
    ensures ReadBlock(d, out, nr) == out[d.bs * nr..d.bs * nr + d.bs]
  {
  }

  /** A window is taken for a block if and only if the latest record with its rolling checksum also
      has its strong hash; then for the block of that record. */
  lemma MatchIsExact(table: seq<Record>, strong: Strong, w: seq<byte>, nr: nat)
    ensures Match(table, strong, w) == Some(nr) <==>
      exists i :: 0 <= i < |table| && table[i] == Record(nr, Checksum(w), strong(w))
                  && forall j :: i < j < |table| ==> table[j].rcksm != Checksum(w)
  {
    hide Checksum;
    var r := Lookup(table, Checksum(w));
    if r.Some? {
      LookupIsLatest(table, Checksum(w));
      var k :| 0 <= k < |table| && table[k] == r.value
               && forall j :: k < j < |table| ==> table[j].rcksm != Checksum(w);
      forall i | 0 <= i < |table| && table[i].rcksm == Checksum(w)
                 && forall j :: i < j < |table| ==> table[j].rcksm != Checksum(w)
        ensures i == k
      {
      }
    } else {
      assert forall i :: 0 <= i < |table| ==> table[i] in table;
    }
  }

  // ---------------------------------------------------------------- what is printed

  /** A reference goes out as $D$nr, a literal as $N$length and its bytes. */
  lemma PacketOnWire(p: Packet)
    ensures p.Dup? ==> Encode(p) == [36, 68, 36] + Dec(p.nr) + [10]
    ensures p.Lit? ==> Encode(p) == [36, 78, 36] + Dec(|p.data|) + [10] + p.data
  {
  }

  /** What %llu prints for a signed number. */
  lemma UnsignedReading(x: int)
    requires -0x8000_0000_0000_0000 <= x < 0x8000_0000_0000_0000
    ensures Unsigned(x) == if x >= 0 then x else x + 0x1_0000_0000_0000_0000
  {
  }

  lemma RequestOnWire(r: Request)
    requires LegalRequest(r)
    ensures |RequestFrame(r)| == 512
    ensures var mtime := if r.mtime >= 0 then r.mtime else r.mtime + 0x1_0000_0000_0000_0000;
            var text := ([35] + Dec(|r.name|) + [10]) + (([36] + r.name + [10]) + (([36] + Dec(r.size) + [10])
                        + (([36] + Dec(r.bs) + [10]) + (([36] + Dec(mtime) + [10]) + ([36] + r.md5 + [10])))));
            && text <= RequestFrame(r)
            && forall i :: |text| <= i < 512 ==> RequestFrame(r)[i] == 0
  {
    hide Dec, Unsigned;
    UnsignedReading(r.mtime);
    RequestFits(r);
  }

  lemma HeaderFrameOnWire(nr: nat)
    requires nr < 0x1_0000_0000
    ensures |HeaderFrame(nr)| == 32
    ensures var text := [36] + Dec(nr) + [10];
            && text <= HeaderFrame(nr)
            && forall i :: |text| <= i < 32 ==> HeaderFrame(nr)[i] == 0
  {
    hide Dec;
    DecLengths(nr);
  }

  lemma RecordOnWire(rec: Record)
    requires LegalRecord(rec)
    ensures |RecordFrame(rec)| == 64
    ensures var text := [36] + Dec(rec.nr) + [10, 36] + Dec(rec.rcksm) + [10, 36] + rec.md5 + [10];
            && text <= RecordFrame(rec)
            && forall i :: |text| <= i < 64 ==> RecordFrame(rec)[i] == 0
  {
    hide Dec;
    RecordFits(rec);
    assert RecordText(rec) == [36] + Dec(rec.nr) + [10, 36] + Dec(rec.rcksm) + [10, 36] + rec.md5 + [10];
  }

  // ---------------------------------------------------------------- what is accepted

  /** From p to q: `start`, digits, and a newline. */
  predicate Shaped(s: seq<byte>, p: nat, start: byte, q: nat) {
    p + 2 <= q <= |s| && s[p] == start && s[q - 1] == 10 && forall i :: p < i < q - 1 ==> 48 <= s[i] <= 57
  }

  /** The number between. */
  function Between(s: seq<byte>, p: nat, start: byte, q: nat): (n: nat)
    requires Shaped(s, p, start, q)
  {
    Value(s[p + 1..q - 1])
  }

  lemma FieldIsExact(s: seq<byte>, p: nat, start: byte, n: nat, q: nat)
    requires p < |s|
    ensures Field(s, p, start, NEWLINE) == Some((n, q)) <==> Shaped(s, p, start, q) && n == Between(s, p, start, q)
  {
    hide Value;
    if Shaped(s, p, start, q) {
      DigitsEndAt(s, p + 1, q - 1);
    }
  }

  /** str2i and str2ll with their callers' test take exactly such fields, but for the reading -1. */
  lemma NumberIsExact(s: seq<byte>, p: nat, start: byte, half: int, v: int, q: nat)
    requires half == I32 || half == I64
    ensures Number(s, p, start, half) == Some((v, q)) <==>
      Shaped(s, p, start, q) && v == Signed(Between(s, p, start, q), half) && v != -1
  {
    hide Value, Field, Signed;
    if Shaped(s, p, start, q) { FieldIsExact(s, p, start, Between(s, p, start, q), q); }
    if p < |s| {
      var f := Field(s, p, start, NEWLINE);
      if f.Some? { FieldIsExact(s, p, start, f.value.0, f.value.1); }
    }
  }

  /** A delta header is incomplete until there is a newline, and is taken if and only if it is $, D or N,
      and a field whose unsigned reading is not 2^32 - 1. */
  lemma HeaderAccepted(s: seq<byte>, flag: byte, nr: nat, len: nat)
    ensures ParseHeader(s) == Incomplete <==> forall i :: 0 <= i < |s| ==> s[i] != 10
    ensures ParseHeader(s) == Parsed(flag, nr, len) <==>
      && Shaped(s, 2, 36, len) && s[0] == 36 && s[1] == flag && (flag == 68 || flag == 78)
      && nr == ToU32(Signed(Between(s, 2, 36, len), I32)) && nr != 0xFFFF_FFFF
  {
    hide Value, Field, Signed, ToU32;
    if Shaped(s, 2, 36, len) {
      assert s[len - 1] in s;
      FieldIsExact(s, 2, 36, Between(s, 2, 36, len), len);
    }
    if NEWLINE in s && s[0] == 36 && (s[1] == 68 || s[1] == 78) {
      assert exists i :: 0 <= i < |s| && s[i] == NEWLINE;
      var f := Field(s, 2, DOLLAR, NEWLINE);
      if f.Some? { FieldIsExact(s, 2, 36, f.value.0, f.value.1); }
    }
  }

  /** D writes a block of the old copy, if it can be read whole; N writes the bytes that follow, once they
      are all there; anything else is an error. */
  lemma PacketAccepted(d: Target, s: seq<byte>, out: seq<byte>)
    ensures ParseHeader(s) == Incomplete ==> ParsePacket(d, s, out) == NeedMore && Parse(d, s, out) == More(s, out)
    ensures ParseHeader(s) == Malformed ==> ParsePacket(d, s, out) == Bad && Parse(d, s, out) == Failed(out)
    ensures var h := ParseHeader(s);
            h.Parsed? && h.flag == 68 ==>
              var b := ReadBlock(d, out, h.nr);
              ParsePacket(d, s, out) == if |b| == d.bs then Write(b, h.len) else Bad
    ensures var h := ParseHeader(s);
            h.Parsed? && h.flag == 78 ==>
              ParsePacket(d, s, out)
              == if |s| < h.len + h.nr then NeedMore else Write(s[h.len..h.len + h.nr], h.len + h.nr)
  {
    hide ReadBlock, ParseHeader;
  }

  /** A record: block number, checksum and 32 characters, each after a dollar sign. */
  lemma RecordAccepted(s: seq<byte>, p: nat)
    ensures ParseRecord(s, p).Some? <==>
      exists q: nat, e: nat :: && Shaped(s, p, 36, q) && Signed(Between(s, p, 36, q), I32) != -1
                               && Shaped(s, q, 36, e) && Signed(Between(s, q, 36, e), I32) != -1
                               && e < |s| && s[e] == 36
  {
    hide Value, Signed, Number, Strncpy, Shaped;
    var nr := Number(s, p, DOLLAR, I32);
    if nr.Some? {
      var (n, q) := nr.value;
      NumberIsExact(s, p, 36, I32, n, q);
      var rcksm := Number(s, q, DOLLAR, I32);
      if rcksm.Some? { NumberIsExact(s, q, 36, I32, rcksm.value.0, rcksm.value.1); }
    }
    forall q: nat, e: nat | Shaped(s, p, 36, q) && Signed(Between(s, p, 36, q), I32) != -1
                            && Shaped(s, q, 36, e) && Signed(Between(s, q, 36, e), I32) != -1
      ensures nr.Some? && nr.value.1 == q
      ensures Number(s, q, DOLLAR, I32).Some? && Number(s, q, DOLLAR, I32).value.1 == e
    {
      NumberIsExact(s, p, 36, I32, Signed(Between(s, p, 36, q), I32), q);
      NumberIsExact(s, q, 36, I32, Signed(Between(s, q, 36, e), I32), e);
    }
  }

  /** A request whose name is longer than 255 characters, or that lacks a hash or dollar sign, is refused. */
  lemma RequestRefused(s: seq<byte>)
    ensures |s| > 0 && s[0] != 35 ==> ParseRequest(s) == None
    ensures var len := Number(s, 0, 35, I32);
            && (len == None ==> ParseRequest(s) == None)
            && (len.Some? && len.value.0 > 255 ==> ParseRequest(s) == None)
            && (len.Some? && len.value.1 < |s| && s[len.value.1] != 36 ==> ParseRequest(s) == None)
  {
    hide ParseRequestTail, Value, Signed;
  }

  // ---------------------------------------------------------------- paths

  /** directory/name, cut to 259 characters. */
  lemma PathOnDisk(dir: Path, name: seq<byte>)
    requires NoNul(dir) && NoNul(name)
    ensures var t := dir + [47] + name;
            PathOf(dir, name) == if |t| <= 259 then t else t[..259]
  {
    var t := dir + [47] + name;
    if |t| <= 259 { assert t[..|t|] == t; }
  }
}
