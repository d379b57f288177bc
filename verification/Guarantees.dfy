/** What every run of the session guarantees: the invariant, the rebuilt file, progress,
    termination, and exactly when the destination completes. */
module Guarantees {
  import opened Bytes
  import opened Decimal
  import opened HashTable
  import opened Delta
  import opened DeltaParse
  import opened Frames
  import opened Protocol
  import opened Session
  import opened Runs
  import Adler32
  import Md5

  // ---------------------------------------------------------------- every step, every run

  lemma SrcStepKeeps(c: World, y: Sys, l: Label)
    requires LegalWorld(c) && Inv(c, y) && Enabled(c, y, l)
    requires l.SrcWrites? || l.SrcTakes? || l.SrcWorks? || l.SrcFails?
    ensures Inv(c, Next(c, y, l))
  {
    hide SrcInv, DstInv, SrcWrote, SrcGot, SrcCompute, DownAll, AllRecords, BlockNr, Sent, AllSent, Completable;
    CompletableMeans(c);
    match l
    case SrcWrites(n) =>
      SrcWritesKeeps(c, y.src, y.up, y.down, y.downRead, n);
      DstUpGrows(c, y.dst, y.up, y.upRead, y.down, y.src.buf[y.src.offset..y.src.offset + n]);
      WroteStaysOpen(y.src, n);
    case SrcTakes(n) =>
      DownPrefixed(c, y.dst, y.up, y.upRead, y.down);
      SrcTakesKeeps(c, y.src, y.up, y.down, y.downRead, n);
    case SrcWorks => SrcWorksKeeps(c, y.src, y.up, y.down, y.downRead);
    case SrcFails => SrcAbortKeeps(c, y.src, y.up, y.down, y.downRead);
  }

  /** What the steps need of the condition. */
  lemma CompletableMeans(c: World)
    ensures Completable(c) ==>
      && OldFile(c).Some? && NewFile(c).Some? && c.src.mtime != -1 && |c.src.file| > 0
      && AllReadable(AllRecords(c)) && ReferencesReadable(c)
    ensures (&& OldFile(c).Some? && NewFile(c).Some? && c.src.mtime != -1 && |c.src.file| > 0
             && AllReadable(AllRecords(c)) && ReferencesReadable(c)) ==> Completable(c)
  {
    hide AllRecords, AllReadable, ReferencesReadable, Basis;
    if !Shared(c) { UnsharedIsReadable(c); }
  }

  /** An old copy that is left alone can always be read where the scan refers to it. */
  lemma UnsharedIsReadable(c: World)
    requires !Shared(c)
    ensures ReferencesReadable(c)
  {
    hide Sound, Collides, Readable, Greedy, IndexScanner, Basis;
    ScannerIsSound(c);
    GreedyIsReadable(TheScanner(c), TheTarget(c), c.src.file, 0, Collides(c));
  }

  lemma DownPrefixed(c: World, t: Dst, up: seq<byte>, upRead: nat, down: seq<byte>)
    requires upRead <= |up| && DstInv(c, t, up, upRead, down)
    ensures down <= DownAll(c)
  {
  }

  lemma WroteStaysOpen(s: Src, n: nat)
    requires SrcSends(s)
    ensures !SrcWrote(s, n).state.SrcClosed?
  {
  }

  lemma SrcAbortKeeps(c: World, s: Src, up: seq<byte>, down: seq<byte>, downRead: nat)
    requires downRead <= |down| && SrcInv(c, s, up, down, downRead)
    requires SrcSends(s) || SrcReads(s)
    ensures SrcInv(c, SrcAbort(s), up, down, downRead)
  {
    hide Packed, UpStart, AllRecords, BlockNr, EncodeAll, BatchCount;
    UpIsPrefix(c, s, up, down, downRead);
    SentSame(c, s, SrcAbort(s));
  }

  lemma DstStepKeeps(c: World, y: Sys, l: Label)
    requires LegalWorld(c) && Inv(c, y) && Enabled(c, y, l)
    requires l.DstWrites? || l.DstTakes? || l.DstFails?
    ensures Inv(c, Next(c, y, l))
  {
    hide SrcInv, DstInv, DstWrote, DstGot, DownAll, AllRecords, BlockNr, Sent, Packed, AllSent, Completable,
         AllReadable, ReferencesReadable;
    CompletableMeans(c);
    SrcFacts(c, y.src, y.up, y.down, y.downRead);
    match l
    case DstWrites(n) =>
      DstWritesKeeps(c, y.dst, y.up, y.upRead, y.down, n);
      SrcDownGrows(c, y.src, y.up, y.down, y.downRead, y.dst.buf[y.dst.offset..y.dst.offset + n]);
    case DstTakes(n) => DstTakesKeeps(c, y.dst, y.src, y.up, y.upRead, y.down, n);
    case DstFails =>
      DstAbortKeeps(c, y.dst, y.up, y.upRead, y.down);
      if Completable(c) { DestinationNeverFails(c, y); }
  }

  lemma SrcFacts(c: World, s: Src, up: seq<byte>, down: seq<byte>, downRead: nat)
    requires downRead <= |down| && SrcInv(c, s, up, down, downRead)
    ensures up <= Sent(c, s) && Packed(c, s.packets, s.pos)
  {
    hide Packed, Sent, SrcStateInv;
    UpIsPrefix(c, s, up, down, downRead);
  }

  lemma DstAbortKeeps(c: World, t: Dst, up: seq<byte>, upRead: nat, down: seq<byte>)
    requires upRead <= |up| && DstInv(c, t, up, upRead, down)
    ensures DstInv(c, DstAbort(t), up, upRead, down)
  {
    hide DownAll, Parse, HeaderFrame, DownUpTo, BlockNr, AllRecords;
  }

  /** A buffer waiting for delta bytes has room. */
  lemma DestinationHasRoom(c: World, y: Sys)
    requires LegalWorld(c) && Inv(c, y) && y.dst.event == OnRead && DstReads(y.dst)
    ensures DstWant(y.dst) >= 1
  {
    hide SrcInv, Packed, DownAll, Parse, LegalWorld, BlockNr, EncodeAll;
    if y.dst.state == DstChksmAllSent {
      SrcFacts(c, y.src, y.up, y.down, y.downRead);
      DeliveredIsPrefix(c, y.src, y.up, y.upRead);
      PacketsAreGood(c, y.src.packets, y.src.pos);
      RoomForMore(TheTarget(c), y.src.packets, Delivered(y.up, y.upRead));
    }
  }

  /** When the run can complete, the destination is never in a position to give up. */
  lemma DestinationNeverFails(c: World, y: Sys)
    requires LegalWorld(c) && Inv(c, y) && Completable(c)
    ensures !Enabled(c, y, DstFails)
  {
    hide Packed, DownAll, Parse, BlockNr, AllRecords, Accounted, EncodeAll, UpStart, DownUpTo, HeaderFrame, Sent,
         Completable, AllReadable, ReferencesReadable, LegalWorld;
    CompletableMeans(c);
    if Enabled(c, y, DstFails) {
      if y.dst.event == OnRead { DestinationHasRoom(c, y); }
      assert AllSent(c, y.src, y.up, y.downRead);
      FullDown(c);
      EverythingWritten(c, y);
      if y.dst.state == DstChksmAllSent {
        WholeDelivered(c, y.src, y.up);
        StreamCompletes(c, y.src.packets, Delivered(y.up, y.upRead));
      }
      assert false;
    }
  }

  lemma WholeDelivered(c: World, s: Src, up: seq<byte>)
    requires up == Sent(c, s)
    ensures FILE_INFO_SIZE <= |up| && Delivered(up, |up|) == EncodeAll(s.packets)
  {
    hide EncodeAll, UpStart;
  }

  lemma FullDown(c: World)
    ensures |DownAll(c)| == FrameAt(BlockNr(c))
  {
  }

  /** Once the whole delta is written, the source has read everything, and the destination has
      finished with the checksums. */
  lemma EverythingWritten(c: World, y: Sys)
    requires LegalWorld(c) && Inv(c, y) && AllSent(c, y.src, y.up, y.downRead)
    ensures y.downRead == |y.down| && y.down == DownAll(c) && y.up == Sent(c, y.src) && y.src.pos == |c.src.file|
    ensures Packed(c, y.src.packets, y.src.pos)
    ensures y.dst.state == DstChksmAllSent || y.dst.state.DstClosed?
  {
    hide Packed, Parse, BlockNr, AllRecords, Accounted, EncodeAll, UpStart, DownUpTo, HeaderFrame;
    FullDown(c);
    if y.dst.state == DstChksmHeaderSent { DownPrefix(c, y.dst.sent); }
  }

  /** The whole delta stream of a non-empty file parses to the end, if its references can be read. */
  lemma StreamCompletes(c: World, ps: seq<Packet>, w: seq<byte>)
    requires LegalWorld(c) && Packed(c, ps, |c.src.file|) && w == EncodeAll(ps) && |c.src.file| > 0
    requires ReferencesReadable(c)
    ensures Parse(TheTarget(c), w, []).AllDone?
  {
    hide Parse, LegalWorld, BlockNr, AllRecords, EncodeAll, Encode, Play, Readable, TheScanner, Greedy, GoodPackets,
         AtomsOf, CanRead, ReferencesReadable;
    PacketsAreReadable(c, ps, |c.src.file|);
    ReadableNeverFails(TheTarget(c), ps, w);
    var k := ParseOfPrefix(TheTarget(c), ps, w, []);
    if Parse(TheTarget(c), w, []).More? {
      AllConsumed(ps, k, Parse(TheTarget(c), w, []).rest);
      assert ps[..k] == ps;
      WholeDelta(c, ps);
    }
  }

  /** Nothing shorter than a packet is left over after the whole stream. */
  lemma AllConsumed(ps: seq<Packet>, k: nat, rest: seq<byte>)
    requires k <= |ps| && EncodeAll(ps) == EncodeAll(ps[..k]) + rest
    requires |rest| < if k < |ps| then |Encode(ps[k])| else 1
    ensures k == |ps|
  {
    hide Encode;
    if k < |ps| {
      assert ps == ps[..k] + ps[k..];
      EncodeConcat(ps[..k], ps[k..]);
      FirstPacket(Target(1, [], 0, false), [], ps[k..]);
    }
  }

  /** The packets of the whole file write as many bytes as the file has, and there is at least one. */
  lemma WholeDelta(c: World, ps: seq<Packet>)
    requires LegalWorld(c) && Packed(c, ps, |c.src.file|) && |c.src.file| > 0
    requires Readable(TheTarget(c), 0, AtomsOf(ps))
    ensures |Play(TheTarget(c), [], AtomsOf(ps))| == |c.src.file| && |ps| > 0
  {
    hide BlockNr, AllRecords, Play, Readable, TheScanner, GoodPackets, LegalWorld, Right;
    var file := c.src.file;
    GreedyAtEnd(TheScanner(c), file);
    assert AtomsOf(ps) + [] == AtomsOf(ps);
    PrefixRebuilds(TheScanner(c), TheTarget(c), file, AtomsOf(ps), []);
    if |ps| == 0 { NothingWeighs(c.src.bs, AtomsOf(ps)); }
  }

  lemma NothingWeighs(bs: nat, a: seq<Atom>)
    requires a == []
    ensures Weight(bs, a) == 0
  {
  }

  lemma GreedyAtEnd(x: Scanner, file: seq<byte>)
    requires x.bs >= 1
    ensures Greedy(x, file, |file|) == []
  {
  }

  /** Some source window and some old block agree in both hashes and differ in bytes. */
  ghost predicate Collides(c: World)
  {
    Collision(Basis(c), c.src.file, c.src.bs, c.src.strong)
  }

  lemma ScannerIsSound(c: World)
    ensures Sound(TheScanner(c), Basis(c), c.src.file, Collides(c))
  {
    hide Sound, Collision, IndexScanner, Records;
    IndexIsSound(Basis(c), c.src.file, c.src.bs, c.src.strong);
  }

  lemma StepKeeps(c: World, y: Sys, l: Label)
    requires LegalWorld(c) && Inv(c, y) && Enabled(c, y, l)
    ensures Inv(c, Next(c, y, l))
  {
    hide Inv, Enabled, Next;
    if l.DstWrites? || l.DstTakes? || l.DstFails? {
      DstStepKeeps(c, y, l);
    } else {
      SrcStepKeeps(c, y, l);
    }
  }

  /** `ls` is a run from `y`: each step is enabled where it is taken. */
  predicate IsRun(c: World, y: Sys, ls: seq<Label>)
    decreases |ls|
  {
    |ls| == 0 || (Enabled(c, y, ls[0]) && IsRun(c, Next(c, y, ls[0]), ls[1..]))
  }

  function After(c: World, y: Sys, ls: seq<Label>): (z: Sys)
    requires IsRun(c, y, ls)
    decreases |ls|
  {
    if |ls| == 0 then y else After(c, Next(c, y, ls[0]), ls[1..])
  }

  /** The invariant holds after every run. */
  lemma {:induction false} RunKeeps(c: World, y: Sys, ls: seq<Label>)
    requires LegalWorld(c) && Inv(c, y) && IsRun(c, y, ls)
    ensures Inv(c, After(c, y, ls))
    decreases |ls|
  {
    hide SrcInv, DstInv, NoGivingUp, Next, Enabled;
    if |ls| > 0 {
      StepKeeps(c, y, ls[0]);
      RunKeeps(c, Next(c, y, ls[0]), ls[1..]);
    }
  }

  // ---------------------------------------------------------------- the rebuilt file

  /** Every reference the scan makes reads, on the destination, the bytes it stands for. */
  ghost predicate ReferencesRight(c: World)
  {
    Right(TheTarget(c), c.src.file, 0, SourceDecisions(c))
  }

  /** Some reference names an old block from offset 2^32 on. */
  ghost predicate RefersHigh(c: World)
  {
    HighReference(TheTarget(c), SourceDecisions(c))
  }

  /** Old copy and new file are one file, and some reference reads from it. */
  ghost predicate RefersToItself(c: World)
  {
    SelfReference(TheTarget(c), SourceDecisions(c))
  }

  /** There are three reasons for a reference to read anything else. */
  lemma ReasonsForWrong(c: World)
    ensures ReferencesRight(c) || Collides(c) || RefersHigh(c) || RefersToItself(c)
  {
    hide Sound, Collides, Greedy, IndexScanner, Right, HighReference, SelfReference, Basis;
    ScannerIsSound(c);
    GreedyIsRight(TheScanner(c), TheTarget(c), c.src.file, 0, Collides(c));
  }

  /** A destination that is done has written as many bytes as the source file has, and these are the
      source file if and only if every reference was right; then the final MD5 check succeeds. */
  lemma DoneMeansRebuilt(c: World, y: Sys)
    requires LegalWorld(c) && Inv(c, y) && y.dst.state.DstClosed? && y.dst.state.verdict.Done?
    ensures |y.dst.out| == |c.src.file| > 0 && ReferencesReadable(c)
    ensures y.dst.out == c.src.file <==> ReferencesRight(c)
    ensures y.dst.out == c.src.file ==> y.dst.state.verdict.verified
  {
    hide SrcInv, DstInv, NoGivingUp, Packed, DownAll, Parse, BlockNr, AllRecords, EncodeAll, AllReadable, Sent,
         Delivered, ReferencesRight, ReferencesReadable, LegalWorld;
    DoneState(c, y.dst, y.up, y.upRead, y.down);
    SrcFacts(c, y.src, y.up, y.down, y.downRead);
    DeliveredIsPrefix(c, y.src, y.up, y.upRead);
    PrefixIsFile(c, y.src.packets, y.src.pos, Delivered(y.up, y.upRead), y.dst.out);
    PacketsMeanReadable(c, y.src, y.up, y.down, y.downRead);
  }

  lemma DoneState(c: World, t: Dst, up: seq<byte>, upRead: nat, down: seq<byte>)
    requires upRead <= |up| && t.state.DstClosed? && t.state.verdict.Done? && DstInv(c, t, up, upRead, down)
    ensures AtDone(c, t, up, upRead, down, t.state.verdict.verified)
  {
    hide Parse, DownAll;
  }

  lemma PrefixIsFile(c: World, ps: seq<Packet>, pos: nat, w: seq<byte>, out: seq<byte>)
    requires LegalWorld(c) && Packed(c, ps, pos) && w <= EncodeAll(ps)
    requires Parse(TheTarget(c), w, []) == AllDone(out)
    ensures |out| == |c.src.file| && |ps| > 0 && ReferencesReadable(c)
    ensures out == c.src.file <==> ReferencesRight(c)
  {
    hide Parse, LegalWorld, BlockNr, AllRecords, EncodeAll, TheScanner, Greedy, GoodPackets, Play, Readable, Right,
         AtomsOf, CanRead;
    PacketsAreGood(c, ps, pos);
    var k := ParseOfPrefix(TheTarget(c), ps, w, []);
    var g := Greedy(TheScanner(c), c.src.file, pos);
    AtomsConcat(ps[..k], ps[k..]);
    assert ps[..k] + ps[k..] == ps;
    Assoc(AtomsOf(ps[..k]), AtomsOf(ps[k..]), g);
    var todo := AtomsOf(ps[k..]) + g;
    PrefixRebuilds(TheScanner(c), TheTarget(c), c.src.file, AtomsOf(ps[..k]), todo);
    assert AtomsOf(ps[..k]) + [] == AtomsOf(ps[..k]);
  }

  /** End to end: in every run, whatever the splits of reads and writes, a destination that reports
      all done has written the source file, or the two files collide, or a reference names a block from
      offset 2^32 on, or the new file is the old copy and a reference reads from it. */
  lemma EndToEnd(c: World, ls: seq<Label>)
    requires LegalWorld(c) && IsRun(c, Init(c), ls)
    ensures var z := After(c, Init(c), ls);
            z.dst.state.DstClosed? && z.dst.state.verdict.Done? ==>
              || (z.dst.out == c.src.file && z.dst.state.verdict.verified)
              || Collides(c) || RefersHigh(c) || RefersToItself(c)
  {
    hide Inv, Collides, RefersHigh, RefersToItself, ReferencesRight, After, IsRun;
    DoneExactly(c, ls);
    ReasonsForWrong(c);
  }

  /** ... and exactly: the file is right if and only if every reference is. */
  lemma DoneExactly(c: World, ls: seq<Label>)
    requires LegalWorld(c) && IsRun(c, Init(c), ls)
    ensures var z := After(c, Init(c), ls);
            z.dst.state.DstClosed? && z.dst.state.verdict.Done? ==>
              && |z.dst.out| == |c.src.file|
              && (z.dst.out == c.src.file <==> ReferencesRight(c))
              && (z.dst.out == c.src.file ==> z.dst.state.verdict.verified)
  {
    hide SrcInv, DstInv, NoGivingUp, ReferencesRight, After, IsRun;
    InitHolds(c);
    RunKeeps(c, Init(c), ls);
    var z := After(c, Init(c), ls);
    if z.dst.state.DstClosed? && z.dst.state.verdict.Done? {
      DoneMeansRebuilt(c, z);
    }
  }

  /** The source window at `p` and old block `nr` are different byte strings of one block with the
      same rolling checksum and the same MD5. */
  ghost predicate Twins(basis: seq<byte>, file: seq<byte>, bs: nat, p: nat, nr: nat) {
    p + bs <= |file| &&
      var a, b := file[p..p + bs], Block(basis, bs, nr);
      && |b| == bs && a != b
      && Adler32.Checksum(a) == Adler32.Checksum(b) && Md5.MessageDigest(a) == Md5.MessageDigest(b)
  }

  /** With MD5 as the strong hash: the rebuilt file is the source file, or a window of the source
      and a block of the old copy are twins, or one of the other two reasons holds. */
  lemma EndToEndWithMd5(c: World, ls: seq<Label>)
    requires LegalWorld(c) && c.src.strong == Md5.Md5Text && IsRun(c, Init(c), ls)
    ensures var z := After(c, Init(c), ls);
            z.dst.state.DstClosed? && z.dst.state.verdict.Done? ==>
              || z.dst.out == c.src.file || RefersHigh(c) || RefersToItself(c)
              || exists p: nat, nr: nat :: Twins(Basis(c), c.src.file, c.src.bs, p, nr)
  {
    hide Inv, After, IsRun, Basis, Twins, Collides, RefersHigh, RefersToItself;
    EndToEnd(c, ls);
    if Collides(c) { CollisionsAreTwins(c); }
  }

  lemma CollisionsAreTwins(c: World)
    requires c.src.strong == Md5.Md5Text && Collides(c)
    ensures exists p: nat, nr: nat :: Twins(Basis(c), c.src.file, c.src.bs, p, nr)
  {
    hide Block, Basis, Adler32.Checksum, Md5.Md5Text, Md5.MessageDigest;
    var nr: nat, p: nat :| CollisionAt(Basis(c), c.src.file, c.src.bs, c.src.strong, nr, p);
    BlockLength(Basis(c), c.src.bs, nr);
    SameText(c.src.file[p..p + c.src.bs], Block(Basis(c), c.src.bs, nr));
    assert Twins(Basis(c), c.src.file, c.src.bs, p, nr);
  }

  lemma BlockLength(basis: seq<byte>, bs: nat, nr: nat)
    requires nr * bs + bs <= |basis|
    ensures |Block(basis, bs, nr)| == bs
  {
  }

  /** Equal printed hashes are equal hashes. */
  lemma SameText(a: seq<byte>, b: seq<byte>)
    requires Md5.Md5Text(a) == Md5.Md5Text(b)
    ensures Md5.MessageDigest(a) == Md5.MessageDigest(b)
  {
    hide Md5.MessageDigest;
    Md5.HexRoundTrip(Md5.MessageDigest(a));
    Md5.HexRoundTrip(Md5.MessageDigest(b));
  }

  // ---------------------------------------------------------------- no deadlock

  predicate Finished(y: Sys) {
    y.src.state.SrcClosed? && y.dst.state.DstClosed?
  }

  /** A write fits a channel that holds at most `cap` bytes under way. */
  predicate HasRoom(cap: nat, y: Sys, l: Label) {
    match l
    case SrcWrites(n) => |y.up| - y.upRead + n <= cap
    case DstWrites(n) => |y.down| - y.downRead + n <= cap
    case _ => true
  }

  /** A step that can be taken in an unfinished state. */
  function SomeStep(cap: nat, y: Sys): (l: Label) {
    if SrcSends(y.src) && |y.up| - y.upRead < cap then SrcWrites(1)
    else if SrcComputes(y.src) then SrcWorks
    else if SrcReads(y.src) && y.downRead < |y.down| then SrcTakes(1)
    else if DstSends(y.dst) && |y.down| - y.downRead < cap then DstWrites(1)
    else if DstReads(y.dst) && y.upRead < |y.up| then DstTakes(1)
    else if y.src.state.SrcClosed? then DstFails
    else SrcFails
  }

  /** No reachable unfinished state is stuck, not even with channels of a single byte. */
  lemma NeverStuck(c: World, y: Sys, cap: nat)
    requires LegalWorld(c) && Inv(c, y) && !Finished(y) && cap >= 1
    ensures Enabled(c, y, SomeStep(cap, y)) && HasRoom(cap, y, SomeStep(cap, y))
  {
    hide GoodPackets, Greedy, AtomsOf, TheScanner, DownAll, Parse, LegalWorld, AllRecords, BlockNr, EncodeAll,
         Accounted, UpStart, DownUpTo, HeaderFrame, Completable, RequestOf;
    FullDown(c);
    if DstReads(y.dst) { DestinationHasRoom(c, y); }
  }

  // ---------------------------------------------------------------- termination

  const PER_BYTE := 0x2_0000

  function SrcRank(s: Src): (r: nat) {
    match s.state
    case SrcInit => 6
    case SrcReqSent => 5
    case SrcChksmHeaderReceived => 4
    case SrcChksmAllReceived => 3
    case SrcCalculateDelta => 2
    case SrcSendDelta => 2
    case SrcDeltaFileDone => 1
    case SrcClosed(_) => 0
  }

  /** Work left for the source: source bytes to pack, and buffered bytes to write, which count
      twice because the destination still has to read them. */
  function SrcWork(c: World, s: Src): int {
    SrcRank(s)
      + (if s.state.SrcClosed? then 0 else PER_BYTE * (|c.src.file| - s.pos))
      + (if SrcSends(s) then 2 * (|s.buf| - s.offset) else 0)
  }

  /** Work left for the destination: frames to pack and buffered bytes to write. */
  function DstWork(c: World, t: Dst): int
  {
    match t.state
    case DstInit => 3 + 2 * (CHECKSUM_HEADER_SIZE + CHECKSUM_SIZE * BlockNr(c))
    case DstReqReceived => 2 + 2 * (|t.buf| - t.offset + CHECKSUM_SIZE * BlockNr(c))
    case DstChksmHeaderSent => 2 + 2 * (|t.buf| - t.offset + CHECKSUM_SIZE * (BlockNr(c) - t.sent))
    case DstChksmAllSent => 1
    case DstClosed(_) => 0
  }

  /** Work left in the whole system, bytes under way included. */
  function Work(c: World, y: Sys): int
  {
    SrcWork(c, y.src) + DstWork(c, y.dst) + (|y.up| - y.upRead) + (|y.down| - y.downRead)
  }

  lemma WorkIsNatural(c: World, y: Sys)
    requires LegalWorld(c) && Inv(c, y)
    ensures Work(c, y) >= 0
  {
    hide DownAll, Parse, LegalWorld, AllRecords, BlockNr, EncodeAll, Accounted, UpStart, DownUpTo, HeaderFrame,
         GoodPackets;
  }

  /** Packing uses up source bytes faster than it fills the buffer. */
  lemma ComputingIsProgress(c: World, s: Src)
    requires LegalWorld(c) && SrcComputes(s) && Packed(c, s.packets, s.pos)
    requires s.state == SrcCalculateDelta || s.state == SrcDeltaFileDone || s.state == SrcChksmHeaderReceived
             || (s.state == SrcChksmAllReceived && s.pos == 0)
    requires s.state == SrcCalculateDelta ==> HasTable(c, s)
    ensures SrcWork(c, SrcCompute(c.src, s)) < SrcWork(c, s)
  {
    hide GoodPackets, Greedy, AtomsOf, AllRecords, BlockNr, EncodeAll, DeltaCall, IndexScanner;
    if s.state == SrcCalculateDelta && s.pos < |c.src.file| {
      CallPacks(c, s);
    }
  }

  lemma ReadingIsProgress(c: World, s: Src, data: seq<byte>)
    requires SrcReads(s) && 1 <= |data| <= SrcWant(s) && s.pos <= |c.src.file|
    ensures SrcWork(c, SrcGot(s, data)) <= SrcWork(c, s)
  {
    hide ParseHeaderFrame, ParseBatch, Received;
  }

  /** Every step uses up work. */
  lemma SrcStepWorks(c: World, y: Sys, l: Label)
    requires LegalWorld(c) && Inv(c, y) && Enabled(c, y, l)
    requires l.SrcWrites? || l.SrcTakes? || l.SrcWorks? || l.SrcFails?
    ensures Work(c, Next(c, y, l)) < Work(c, y)
  {
    hide DstInv, DstWork, GoodPackets, Greedy, AtomsOf, TheScanner, AllRecords, BlockNr, EncodeAll, Accounted,
         UpStart, SrcGot, SrcCompute, BatchCount, SrcAbort;
    match l
    case SrcWrites(n) =>
    case SrcTakes(n) => ReadingIsProgress(c, y.src, y.down[y.downRead..y.downRead + n]);
    case SrcWorks => ComputingIsProgress(c, y.src);
    case SrcFails => AbortIsProgress(c, y.src);
  }

  lemma AbortIsProgress(c: World, s: Src)
    requires s.pos <= |c.src.file| && (SrcSends(s) || SrcReads(s)) && (SrcSends(s) ==> s.offset <= |s.buf|)
    ensures SrcWork(c, SrcAbort(s)) < SrcWork(c, s)
  {
  }

  lemma DstStepWorks(c: World, y: Sys, l: Label)
    requires LegalWorld(c) && Inv(c, y) && Enabled(c, y, l)
    requires l.DstWrites? || l.DstTakes? || l.DstFails?
    ensures Work(c, Next(c, y, l)) < Work(c, y)
  {
    hide SrcInv, NoGivingUp, AllRecords, BlockNr, UpStart, DownAll, DownUpTo, LegalWorld, Work, DstWork, HeaderFrame,
         DstGot, DstWrote, DstAbort, Parse, Sent, Packed;
    DstStepCounts(c, y, l);
    match l
    case DstWrites(n) => WritingIsProgress(c, y.dst, y.upRead, y.down, n);
    case DstTakes(n) =>
      SrcFacts(c, y.src, y.up, y.down, y.downRead);
      TakingIsProgress(c, y.dst, y.src, y.up, y.upRead, y.down, n);
    case DstFails => GivingUpIsProgress(c, y.dst, y.upRead, y.down);
  }

  function BytesAdded(l: Label): int {
    if l.DstWrites? then l.n else if l.DstTakes? then 0 - l.n else 0
  }

  /** What a step of the destination does to the work left. */
  lemma DstStepCounts(c: World, y: Sys, l: Label)
    requires Enabled(c, y, l) && (l.DstWrites? || l.DstTakes? || l.DstFails?)
    ensures var z := Next(c, y, l);
            Work(c, z) - Work(c, y) == DstWork(c, z.dst) - DstWork(c, y.dst) + BytesAdded(l)
  {
    hide SrcWork, DstWork, DstGot, DstWrote;
  }

  lemma GivingUpIsProgress(c: World, t: Dst, upRead: nat, down: seq<byte>)
    requires DstSends(t) || DstReads(t)
    requires t.state == DstReqReceived ==> AtReqReceived(c, t, upRead, down)
    requires t.state == DstChksmHeaderSent ==> AtHeaderSent(c, t, upRead, down)
    ensures DstWork(c, DstAbort(t)) < DstWork(c, t)
  {
    hide BlockNr, AllRecords, DownUpTo, HeaderFrame;
  }

  lemma WritingIsProgress(c: World, t: Dst, upRead: nat, down: seq<byte>, n: nat)
    requires DstSends(t) && 1 <= n && t.offset + n <= |t.buf|
    requires if t.state == DstReqReceived then AtReqReceived(c, t, upRead, down) else AtHeaderSent(c, t, upRead, down)
    ensures DstWork(c, DstWrote(c.disk, c.src.strong, t, n)) <= DstWork(c, t) - 2 * n
  {
    hide BlockNr, AllRecords, DownUpTo, HeaderFrame, RecordRange;
  }

  lemma TakingIsProgress(c: World, t: Dst, s: Src, up: seq<byte>, upRead: nat, down: seq<byte>, n: nat)
    requires LegalWorld(c) && upRead <= |up| && DstInv(c, t, up, upRead, down)
    requires up <= Sent(c, s) && Packed(c, s.packets, s.pos)
    requires DstReads(t) && 1 <= n <= DstWant(t) && upRead + n <= |up|
    ensures DstWork(c, DstGot(c.disk, c.src.strong, t, up[upRead..upRead + n])) <= DstWork(c, t)
  {
    hide AllRecords, BlockNr, UpStart, DownAll, DownUpTo, LegalWorld, DstGot, Packed, Sent;
    DstTakesKeeps(c, t, s, up, upRead, down, n);
    TakenState(c, t, up[upRead..upRead + n]);
  }

  /** Where a read can lead. */
  lemma TakenState(c: World, t: Dst, data: seq<byte>)
    requires DstReads(t)
    ensures var d := DstGot(c.disk, c.src.strong, t, data);
            && (t.state == DstInit ==>
                  d.state == DstInit || d.state == DstClosed(Aborted)
                  || (d.state == DstReqReceived && |d.buf| == CHECKSUM_HEADER_SIZE && d.offset == 0))
            && (t.state == DstChksmAllSent ==> d.state == DstChksmAllSent || d.state.DstClosed?)
  {
    hide Parse, ParseRequest, HeaderFrame;
  }

  lemma StepWorks(c: World, y: Sys, l: Label)
    requires LegalWorld(c) && Inv(c, y) && Enabled(c, y, l)
    ensures 0 <= Work(c, Next(c, y, l)) < Work(c, y)
  {
    hide SrcInv, DstInv, NoGivingUp, Work, Enabled, Next;
    StepKeeps(c, y, l);
    WorkIsNatural(c, Next(c, y, l));
    if l.DstWrites? || l.DstTakes? || l.DstFails? {
      DstStepWorks(c, y, l);
    } else {
      SrcStepWorks(c, y, l);
    }
  }

  /** Every run is finite: it has at most as many steps as there is work at its start. */
  lemma {:induction false} RunsEnd(c: World, y: Sys, ls: seq<Label>)
    requires LegalWorld(c) && Inv(c, y) && IsRun(c, y, ls)
    ensures |ls| <= Work(c, y)
    decreases |ls|
  {
    hide SrcInv, DstInv, NoGivingUp, Work, Enabled, Next;
    WorkIsNatural(c, y);
    if |ls| > 0 {
      StepKeeps(c, y, ls[0]);
      StepWorks(c, y, ls[0]);
      RunsEnd(c, Next(c, y, ls[0]), ls[1..]);
    }
  }

  /** A run whose writes all fit channels of `cap` bytes. */
  predicate Within(c: World, cap: nat, y: Sys, ls: seq<Label>)
    requires IsRun(c, y, ls)
    decreases |ls|
  {
    |ls| == 0 || (HasRoom(cap, y, ls[0]) && Within(c, cap, Next(c, y, ls[0]), ls[1..]))
  }

  /** From every reachable state some run stops both processes, whatever the channels hold. */
  lemma {:induction false} RunToTheEnd(c: World, y: Sys, cap: nat) returns (ls: seq<Label>)
    requires LegalWorld(c) && Inv(c, y) && cap >= 1
    ensures IsRun(c, y, ls) && Within(c, cap, y, ls) && Finished(After(c, y, ls))
    decreases Work(c, y)
  {
    hide SrcInv, DstInv, NoGivingUp, Work, Enabled, Next, SomeStep, HasRoom;
    ls := [];
    if !Finished(y) {
      var l := SomeStep(cap, y);
      NeverStuck(c, y, cap);
      StepKeeps(c, y, l);
      StepWorks(c, y, l);
      var rest := RunToTheEnd(c, Next(c, y, l), cap);
      ls := [l] + rest;
      assert ls[1..] == rest;
    }
  }

  // ---------------------------------------------------------------- when the destination completes

  /** Delta bytes are only ever produced when every old checksum could be read. */
  lemma PacketsMeanReadable(c: World, s: Src, up: seq<byte>, down: seq<byte>, downRead: nat)
    requires downRead <= |down| && SrcInv(c, s, up, down, downRead) && s.packets != []
    ensures AllReadable(AllRecords(c)) && |c.src.file| > 0
  {
    hide GoodPackets, Greedy, AtomsOf, TheScanner, AllRecords, BlockNr, EncodeAll, UpStart, Accounted, AllReadable;
  }

  /** Once both processes have stopped, the destination has completed if and only if the file is not
      empty, its modification time is not -1, old copy and new file can be opened under the printed
      paths, no old block has rolling checksum 2^32 - 1, and no reference reads a block that opening
      the new file has destroyed. */
  lemma Outcome(c: World, y: Sys)
    requires LegalWorld(c) && Inv(c, y) && Finished(y)
    ensures y.dst.state.verdict.Done? <==> Completable(c)
  {
    hide SrcInv, Packed, DownAll, Parse, AllRecords, BlockNr, EncodeAll, AllReadable, Completable, ReferencesReadable;
    if y.dst.state.verdict.Done? {
      SrcFacts(c, y.src, y.up, y.down, y.downRead);
      DeliveredIsPrefix(c, y.src, y.up, y.upRead);
      PrefixIsFile(c, y.src.packets, y.src.pos, Delivered(y.up, y.upRead), y.dst.out);
      PacketsMeanReadable(c, y.src, y.up, y.down, y.downRead);
      CompletableMeans(c);
    }
  }

  /** Nothing can happen any more. */
  ghost predicate Stuck(c: World, cap: nat, y: Sys)
  {
    forall l :: Enabled(c, y, l) ==> !HasRoom(cap, y, l)
  }

  /** A run that cannot be continued has stopped both processes, and has completed exactly under the
      condition above; the file is then right if and only if every reference is. */
  lemma CompleteRuns(c: World, ls: seq<Label>, cap: nat)
    requires LegalWorld(c) && IsRun(c, Init(c), ls) && cap >= 1
    requires Stuck(c, cap, After(c, Init(c), ls))
    ensures var z := After(c, Init(c), ls);
            && Finished(z)
            && (z.dst.state.verdict.Done? <==> Completable(c))
            && (Completable(c) ==> (z.dst.out == c.src.file <==> ReferencesRight(c)))
            && (Completable(c) && ReferencesRight(c) ==> z.dst.state.verdict.verified)
  {
    hide SrcInv, DstInv, NoGivingUp, ReferencesRight, Completable, After, IsRun, Enabled, SomeStep, HasRoom;
    InitHolds(c);
    RunKeeps(c, Init(c), ls);
    var z := After(c, Init(c), ls);
    if !Finished(z) { NeverStuck(c, z, cap); }
    Outcome(c, z);
    if Completable(c) { DoneMeansRebuilt(c, z); }
  }

  /** Under both conditions there is a run that rebuilds the file, even over channels of one byte. */
  lemma FileIsRebuilt(c: World, cap: nat) returns (ls: seq<Label>)
    requires LegalWorld(c) && Completable(c) && ReferencesRight(c) && cap >= 1
    ensures IsRun(c, Init(c), ls) && Within(c, cap, Init(c), ls)
    ensures var z := After(c, Init(c), ls);
            Finished(z) && z.dst.state == DstClosed(Done(true)) && z.dst.out == c.src.file
  {
    hide SrcInv, DstInv, NoGivingUp, ReferencesRight, Completable, After, IsRun, Within;
    InitHolds(c);
    ls := RunToTheEnd(c, Init(c), cap);
    RunKeeps(c, Init(c), ls);
    var z := After(c, Init(c), ls);
    Outcome(c, z);
    DoneMeansRebuilt(c, z);
  }

  // ---------------------------------------------------------------- particular worlds

  /** An old copy shorter than one block cannot be in the way, not even as the new file itself. */
  lemma ShortOldFile(c: World)
    requires LegalWorld(c) && |c.src.file| > 0 && c.src.mtime != -1 && OldFile(c).Some? && NewFile(c).Some?
    requires |Basis(c)| < c.src.bs
    ensures Completable(c) && ReferencesRight(c)
  {
    hide LegalWorld, Adler32.Checksum, Readable, Right, Greedy;
    assert BlockNr(c) == 0;
    assert AllRecords(c) == [];
    var file := c.src.file;
    assert forall w :: TheScanner(c).find(w).None?;
    NothingFound(TheScanner(c), file, 0);
    assert file[0..] == file;
    ReadableLiterals(TheTarget(c), 0, file);
    RightLiterals(TheTarget(c), file, 0, file);
  }

  /** An old file of one 1024-byte block with rolling checksum 2^32 - 1 stops every session. */
  lemma UnreadableOldFile(c: World, y: Sys)
    requires LegalWorld(c) && Inv(c, y) && Finished(y)
    requires c.src.bs == 1024 && OldFile(c).Some? && Basis(c) == Adler32.OnesBlock()
    ensures y.dst.state == DstClosed(Aborted)
  {
    hide Inv, Adler32.OnesBlock, Adler32.Checksum, Basis;
    Adler32.AllOnesChecksum();
    var b := Adler32.OnesBlock();
    assert Block(b, 1024, 0) == b[0..1024] == b;
    assert AllRecords(c)[0].rcksm == U32 - 1;
    Outcome(c, y);
  }

  /** A name of 255 characters and a directory of at least 4: the old copy exists, but the printed path
      is cut, and when nothing lies at the cut path every session is given up. */
  lemma LongName(c: World, y: Sys)
    requires LegalWorld(c) && Inv(c, y) && Finished(y)
    requires |c.src.name| == 255 && NoNul(c.disk.origin) && |c.disk.origin| >= 4
    requires c.disk.open(Joined(c.disk.origin, c.src.name)).Some?
    requires c.disk.open(Joined(c.disk.origin, c.src.name)[..259]).None?
    ensures y.dst.state == DstClosed(Aborted)
  {
    hide Inv, NoNul;
    Outcome(c, y);
  }

  /** One directory for both: the old copy of one block is the source file, and yet every session
      fails, because opening the new file empties the block that the one reference names. */
  lemma SameFile(c: World, y: Sys)
    requires LegalWorld(c) && Inv(c, y) && Finished(y)
    requires Shared(c) && c.src.file == Basis(c) && |Basis(c)| == c.src.bs
    ensures y.dst.state == DstClosed(Aborted)
  {
    hide Inv, Adler32.Checksum, Basis, LegalWorld;
    var file, bs := c.src.file, c.src.bs;
    assert |file| / bs == 1;
    assert Block(file, bs, 0) == file[0..bs] == file;
    assert AllRecords(c) == [BlockRecord(file, bs, c.src.strong, 0)];
    assert TheScanner(c).find(file) == Some(0);
    GreedyFirst(TheScanner(c), file, 0);
    assert !CanRead(TheTarget(c), 0, 0);
    Outcome(c, y);
  }

  // ---------------------------------------------------------------- phases and accounts

  /** The phases stay in step: neither side produces or takes a byte of a phase before the one
      before it is over on both sides. */
  lemma PhasesInStep(c: World, y: Sys)
    requires LegalWorld(c) && Inv(c, y)
    ensures |DownAll(c)| == CHECKSUM_HEADER_SIZE + CHECKSUM_SIZE * BlockNr(c)
    ensures |y.down| <= |DownAll(c)|
    ensures |y.up| > FILE_INFO_SIZE ==>
      && y.downRead == |DownAll(c)| && y.dst.event != OnWrite
      && (y.dst.state == DstChksmAllSent || y.dst.state.DstClosed?)
    ensures y.upRead > FILE_INFO_SIZE ==> |y.down| == |DownAll(c)|
    ensures |y.down| > 0 ==> y.upRead >= FILE_INFO_SIZE
    ensures (y.dst.event == OnWrite <==> DstSends(y.dst)) && (y.dst.event == OnRead <==> DstReads(y.dst))
  {
    hide Packed, Parse, AllRecords, BlockNr, EncodeAll, UpStart, Accounted, HeaderFrame, DownUpTo, HasTable, BatchCount;
    FullDown(c);
    DownWhole(c);
    DstPhase(c, y.dst, y.up, y.upRead, y.down);
    if |y.up| > FILE_INFO_SIZE {
      UpIsPrefix(c, y.src, y.up, y.down, y.downRead);
      PacketsExist(c, y.src, y.up);
    }
  }

  lemma PacketsExist(c: World, s: Src, up: seq<byte>)
    requires up <= Sent(c, s) && |up| > FILE_INFO_SIZE
    ensures s.packets != []
  {
    hide UpStart;
  }

  /** Where each destination state stands in the two streams. */
  lemma DstPhase(c: World, t: Dst, up: seq<byte>, upRead: nat, down: seq<byte>)
    requires upRead <= |up| && DstInv(c, t, up, upRead, down)
    ensures |down| == |DownAll(c)| ==> t.state == DstChksmAllSent || t.state.DstClosed?
    ensures upRead > FILE_INFO_SIZE ==> |down| == |DownAll(c)|
    ensures |down| > 0 ==> upRead >= FILE_INFO_SIZE
    ensures (t.event == OnWrite <==> DstSends(t)) && (t.event == OnRead <==> DstReads(t))
  {
    hide Parse, AllRecords, BlockNr, HeaderFrame, DownUpTo;
    FullDown(c);
    DownWhole(c);
  }

  /** When the delta is done both assertions hold, if and only if there are fewer than 2^26 old blocks;
      and duplicated blocks and literal bytes add up to the source file; the block counter is an
      unsigned int. */
  lemma AccountsBalance(c: World, y: Sys)
    requires LegalWorld(c) && Inv(c, y) && y.src.state == SrcDeltaFileDone
    ensures AccountsAgree(y.src) <==> BlockNr(c) < 0x400_0000
    ensures var n := TallyOf(y.src.packets).dups;
            y.src.tally.dups == ToU32(n) && n * c.src.bs + y.src.tally.data == |c.src.file|
    ensures |c.src.file| < 0x400_0000_0000 ==>
      y.src.tally.dups * c.src.bs + y.src.tally.data == |c.src.file|
  {
    hide DstInv, AllRecords, BlockNr, Packed, EncodeAll, TallyOf, AccountsAgree, NoGivingUp, UpStart;
    AccountsDoAgree(c, y.src, y.up, y.downRead);
    SourceBytes(c, y.src);
    var t := TallyOf(y.src.packets);
    WholeCount(t.dups, c.src.bs, t.data, |c.src.file|);
  }

  /** Duplicated blocks and literal bytes add up to the source bytes packed. */
  lemma SourceBytes(c: World, s: Src)
    requires Packed(c, s.packets, s.pos)
    ensures TallyOf(s.packets).dups * c.src.bs + TallyOf(s.packets).data == s.pos
  {
    hide AllRecords, BlockNr, Greedy, AtomsOf, TallyOf, GoodPackets, IndexScanner;
    Conservation(TheScanner(c), c.src.file, s.packets, s.pos);
  }

  /** Below 2^42 bytes the block counter cannot wrap. */
  lemma WholeCount(n: nat, bs: nat, data: nat, size: nat)
    requires bs >= 1024 && n * bs + data == size
    ensures size < 0x400_0000_0000 ==> ToU32(n) * bs + data == size
  {
    assert n * 1024 <= n * bs;
  }

  // ---------------------------------------------------------------- what the two classes ask for

  /** Every request that arrives in a session is one the destination can deal with. */
  lemma RequestsAreUsable(c: World, y: Sys, n: nat)
    requires y.dst.state == DstInit && y.upRead + n <= |y.up| && |y.dst.buf| + n == FILE_INFO_SIZE
    requires LegalWorld(c) && Inv(c, y)
    ensures RequestUsable(c.disk, y.dst.buf + y.up[y.upRead..y.upRead + n])
  {
    hide SrcInv, NoGivingUp, DownAll, UpStart, RequestUsable, Sent, Packed, LegalWorld;
    SrcFacts(c, y.src, y.up, y.down, y.downRead);
    StartOfSent(c, y.src, y.up);
    assert y.dst.buf + y.up[y.upRead..y.upRead + n] == y.up[..FILE_INFO_SIZE];
    TheRequestIsUsable(c, y.up[..FILE_INFO_SIZE]);
  }

  lemma TheRequestIsUsable(c: World, buf: seq<byte>)
    requires LegalWorld(c) && buf == UpStart(c)
    ensures RequestUsable(c.disk, buf)
  {
    hide RequestFrame, ParseRequest, Number, LegalRequest, PathOf;
    RequestArrives(c, buf);
    RequestIsLegal(c);
    NameLengthArrives(RequestOf(c.src), Zeros(BUF_SIZE - FILE_INFO_SIZE));
  }

  /** Every batch that arrives is parsed inside the buffer: it ends in the NUL of its last frame. */
  lemma BatchesStayInside(c: World, y: Sys, n: nat)
    requires y.src.state == SrcChksmHeaderReceived && |y.src.table| < y.src.blockNr && y.downRead + n <= |y.down|
    requires |y.src.buf| + n == BatchCount(y.src) * CHECKSUM_SIZE
    requires LegalWorld(c) && Inv(c, y)
    ensures BatchInside(Received(y.src.buf + y.down[y.downRead..y.downRead + n]), BatchCount(y.src))
  {
    hide DstInv, NoGivingUp, Packed, Accounted, UpStart, DownAll, AllRecords, BlockNr, FramesOf, LegalRecord,
         BatchInside;
    var k, m := |y.src.table|, BatchCount(y.src);
    DownPrefixed(c, y.dst, y.up, y.upRead, y.down);
    DownSlice(c, y.down, k, m);
    BlockCount(c);
    var rs := AllRecords(c)[k..k + m];
    assert LegalRecords(rs);
    FramesEndInNul(rs);
    var batch := y.src.buf + y.down[y.downRead..y.downRead + n];
    assert batch == y.down[FrameAt(k)..FrameAt(k + m)];
    NulKeepsBatchInside(Received(batch), m);
  }
}
