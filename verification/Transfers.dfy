/** What the two processes have to do with each other's files at every moment of every run, in terms of the
    files themselves: the request, the checksums, the table, the delta, the end of either side. */
module Transfers {
  import opened Bytes
  import opened Decimal
  import opened Adler32
  import opened HashTable
  import opened Delta
  import opened DeltaParse
  import opened Frames
  import opened Protocol
  import opened Session
  import opened Runs
  import opened Guarantees
  import opened Wire

  // ---------------------------------------------------------------- the request

  /** The first 512 bytes the source writes print its file's name, size and modification time, the block
      size and the strong hash, each in its place, and are read back as these values. */
  lemma RequestStream(c: World, y: Sys)
    requires LegalWorld(c) && Inv(c, y) && |y.up| >= 512
    ensures var mtime := if c.src.mtime >= 0 then c.src.mtime else c.src.mtime + 0x1_0000_0000_0000_0000;
            var text := ([35] + Dec(|c.src.name|) + [10]) + (([36] + c.src.name + [10])
                        + (([36] + Dec(|c.src.file|) + [10]) + (([36] + Dec(c.src.bs) + [10])
                        + (([36] + Dec(mtime) + [10]) + ([36] + c.src.strong(c.src.file) + [10])))));
            text <= y.up[..512] && forall i :: |text| <= i < 512 ==> y.up[i] == 0
    ensures ParseRequest(Received(y.up[..512])) ==
            if c.src.mtime == -1 then None
            else Some(Request(c.src.name, |c.src.file|, c.src.bs, c.src.mtime, c.src.strong(c.src.file)))
  {
    hide SrcInv, DstInv, NoGivingUp, RequestFrame, Sent, Packed, LegalRequest, Dec, ParseRequest, Received;
    SrcFacts(c, y.src, y.up, y.down, y.downRead);
    StartOfSent(c, y.src, y.up);
    RequestIsLegal(c);
    RequestOnWire(RequestOf(c.src));
    RequestArrives(c, y.up[..512]);
    assert forall i :: 0 <= i < 512 ==> y.up[i] == y.up[..512][i];
  }

  /** While the destination is at work it has the source's own values, and reads the old copy under the
      source's name. */
  lemma RequestArrived(c: World, y: Sys)
    requires LegalWorld(c) && Inv(c, y) && y.dst.state != DstInit && !y.dst.state.DstClosed?
    ensures var r := y.dst.req;
            && r.name == c.src.name && r.size == |c.src.file| && r.bs == c.src.bs && r.mtime == c.src.mtime
            && r.md5 == c.src.strong(c.src.file)
    ensures c.disk.open(PathOf(c.disk.origin, c.src.name)) == Some(y.dst.local)
    ensures y.dst.blockNr == |y.dst.local.data| / c.src.bs
  {
    hide SrcInv, NoGivingUp, DownAll, DownUpTo, Parse, HeaderFrame;
  }

  /** Once it reads the delta, it has opened the new file under the same name in the other directory. */
  lemma NewFileOpened(c: World, y: Sys)
    requires LegalWorld(c) && Inv(c, y) && y.dst.state == DstChksmAllSent
    ensures var id := c.disk.create(PathOf(c.disk.updated, c.src.name));
            id.Some? && (y.dst.shared <==> id.value == y.dst.local.id)
  {
    hide SrcInv, NoGivingUp, DownAll, Parse;
  }

  // ---------------------------------------------------------------- the checksums

  /** The first 32 bytes the destination writes print the number of whole blocks of the old copy. */
  lemma BlockNumberStream(c: World, y: Sys)
    requires LegalWorld(c) && Inv(c, y) && |y.down| >= 32
    ensures var text := [36] + Dec(|Basis(c)| / c.src.bs) + [10];
            text <= y.down[..32] && forall i :: |text| <= i < 32 ==> y.down[i] == 0
  {
    hide SrcInv, NoGivingUp, DownAll, HeaderFrame, Basis, Dec;
    DownPrefixed(c, y.dst, y.up, y.upRead, y.down);
    DownHead(c, y.down);
    BlockCount(c);
    HeaderFrameOnWire(BlockNr(c));
    assert forall i :: 0 <= i < 32 ==> y.down[i] == y.down[..32][i];
  }

  /** The bytes of block `i` of the old copy. */
  function OldBlock(c: World, i: nat): (b: seq<byte>)
    requires i < |Basis(c)| / c.src.bs
  {
    WholeBlock(|Basis(c)|, c.src.bs, i);
    Basis(c)[i * c.src.bs..i * c.src.bs + c.src.bs]
  }

  lemma WholeBlock(size: nat, bs: nat, i: nat)
    requires bs >= 1 && i < size / bs
    ensures i * bs + bs <= size
  {
    assert (i + 1) * bs <= size / bs * bs;
  }

  lemma RecordOfBlock(c: World, i: nat)
    requires i < BlockNr(c)
    ensures AllRecords(c)[i] == Record(i, Checksum(OldBlock(c, i)), c.src.strong(OldBlock(c, i)))
  {
    hide Checksum, Basis, OldBlock;
    BlockIs(c, i);
  }

  lemma BlockIs(c: World, i: nat)
    requires i < |Basis(c)| / c.src.bs
    ensures Block(Basis(c), c.src.bs, i) == OldBlock(c, i)
  {
    hide Basis;
    WholeBlock(|Basis(c)|, c.src.bs, i);
  }

  /** Behind them the 64 bytes at 32 + 64 * i print number, checksum and strong hash of old block i. */
  lemma ChecksumStream(c: World, y: Sys, i: nat)
    requires LegalWorld(c) && Inv(c, y) && i < |Basis(c)| / c.src.bs && 96 + 64 * i <= |y.down|
    ensures var frame := y.down[32 + 64 * i..96 + 64 * i];
            var text := [36] + Dec(i) + [10, 36] + Dec(Checksum(OldBlock(c, i))) + [10, 36]
                        + c.src.strong(OldBlock(c, i)) + [10];
            text <= frame && forall j :: |text| <= j < 64 ==> frame[j] == 0
  {
    hide SrcInv, NoGivingUp, DownAll, RecordFrame, Basis, Dec, OldBlock, Checksum, AllRecords, LegalRecord;
    DownPrefixed(c, y.dst, y.up, y.upRead, y.down);
    DownSlice(c, y.down, i, 1);
    BlockCount(c);
    RecordOfBlock(c, i);
    var rec := AllRecords(c)[i];
    var one := AllRecords(c)[i..i + 1];
    assert one == [rec];
    OneFrame(one);
    RecordOnWire(rec);
  }

  lemma OneFrame(rs: seq<Record>)
    requires |rs| == 1
    ensures FramesOf(rs) == RecordFrame(rs[0])
  {
    hide RecordFrame;
    var none := rs[..0];
    assert FramesOf(none) == [];
  }

  /** From SRC_CHKSM_ALL_RECEIVED on the source's table describes every block of the old copy. */
  lemma TableDescribesOldCopy(c: World, y: Sys, i: nat)
    requires LegalWorld(c) && Inv(c, y) && SrcRank(y.src) <= 3 && !y.src.state.SrcClosed?
    ensures |y.src.table| == |Basis(c)| / c.src.bs
    ensures i < |y.src.table| ==>
      y.src.table[i] == Record(i, Checksum(OldBlock(c, i)), c.src.strong(OldBlock(c, i)))
  {
    hide DstInv, NoGivingUp, Packed, Accounted, Sent, UpStart, AllRecords, Basis, OldBlock, Checksum, FrameAt;
    if i < BlockNr(c) { RecordOfBlock(c, i); }
  }

  // ---------------------------------------------------------------- the delta

  /** Whatever has been parsed so far has written some first packets of the source's; if no reference is
      wrong, that is the beginning of the source file. */
  lemma OutputSoFar(c: World, y: Sys) returns (k: nat)
    requires LegalWorld(c) && Inv(c, y) && y.dst.state == DstChksmAllSent
    ensures k <= |y.src.packets| && y.dst.out == Play(TheTarget(c), [], AtomsOf(y.src.packets[..k]))
    ensures y.up[..y.upRead] == UpStart(c) + EncodeAll(y.src.packets[..k]) + y.dst.buf
    ensures |y.dst.out| <= |c.src.file|
    ensures ReferencesRight(c) ==> y.dst.out <= c.src.file
  {
    hide SrcInv, NoGivingUp, DownAll, Parse, LegalWorld, BlockNr, AllRecords, EncodeAll, TheScanner, Greedy, Encode,
         GoodPackets, Play, Readable, Right, AtomsOf, CanRead, Known, Packed, Sent, UpStart;
    SrcFacts(c, y.src, y.up, y.down, y.downRead);
    DeliveredIsPrefix(c, y.src, y.up, y.upRead);
    PacketsAreGood(c, y.src.packets, y.src.pos);
    k := ParseOfPrefix(TheTarget(c), y.src.packets, Delivered(y.up, y.upRead), []);
    StartOfSent(c, y.src, y.up);
    assert y.up[..y.upRead] == y.up[..512] + Delivered(y.up, y.upRead);
    Assoc(UpStart(c), EncodeAll(y.src.packets[..k]), y.dst.buf);
    PrefixOfFile(c, y.src.packets, y.src.pos, k);
  }

  lemma PrefixOfFile(c: World, ps: seq<Packet>, pos: nat, k: nat)
    requires LegalWorld(c) && Packed(c, ps, pos) && k <= |ps| && Readable(TheTarget(c), 0, AtomsOf(ps[..k]))
    ensures |Play(TheTarget(c), [], AtomsOf(ps[..k]))| <= |c.src.file|
    ensures ReferencesRight(c) ==> Play(TheTarget(c), [], AtomsOf(ps[..k])) <= c.src.file
  {
    hide LegalWorld, BlockNr, AllRecords, TheScanner, Greedy, GoodPackets, Play, Readable, Right, AtomsOf;
    var g := Greedy(TheScanner(c), c.src.file, pos);
    AtomsConcat(ps[..k], ps[k..]);
    assert ps[..k] + ps[k..] == ps;
    Assoc(AtomsOf(ps[..k]), AtomsOf(ps[k..]), g);
    var todo := AtomsOf(ps[k..]) + g;
    PrefixRebuilds(TheScanner(c), TheTarget(c), c.src.file, AtomsOf(ps[..k]), todo);
    if ReferencesRight(c) { WrittenSoFar(TheScanner(c), TheTarget(c), c.src.file, AtomsOf(ps[..k]), todo); }
  }

  // ---------------------------------------------------------------- how the two sides end

  /** After the whole delta the source's last step is enabled, and it ends well if and only if the old
      copy has fewer than 2^26 blocks. */
  lemma SourceEnds(c: World, y: Sys)
    requires LegalWorld(c) && Inv(c, y) && y.src.state == SrcDeltaFileDone
    ensures Enabled(c, y, SrcWorks)
    ensures Next(c, y, SrcWorks).src.state == SrcClosed(|Basis(c)| / c.src.bs < 0x400_0000)
    ensures y.up == UpStart(c) + EncodeAll(y.src.packets) && y.src.pos == |c.src.file|
  {
    hide DstInv, NoGivingUp, AllRecords, Packed, EncodeAll, UpStart, AccountsAgree, Accounted;
    AccountsBalance(c, y);
  }

  /** The verdict compares the strong hash of what was written with that of the source file. */
  lemma FinalCheck(c: World, y: Sys)
    requires LegalWorld(c) && Inv(c, y) && y.dst.state.DstClosed? && y.dst.state.verdict.Done?
    ensures y.dst.state.verdict.verified <==> c.src.strong(y.dst.out) == c.src.strong(c.src.file)
  {
    hide SrcInv, NoGivingUp, DownAll, Parse;
  }
}
