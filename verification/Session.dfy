/** Both processes joined by two byte streams. A step moves any positive number of bytes, or is a
    local step of the source, or lets a process see that its peer is gone. */
module Session {
  import opened Bytes
  import opened Decimal
  import opened Adler32
  import opened HashTable
  import opened Delta
  import opened DeltaParse
  import opened Frames
  import opened Protocol

  datatype Setting = Setting(src: SrcConfig, disk: Disk)

  type World = c: Setting | c.src.bs >= 1
    witness Setting(SrcConfig([], [], 0, 1024, _ => seq(32, _ => 48)), Disk([], [], _ => None, _ => None))

  /** What the destination opens as the old copy, and what it opens as the new file. */
  function OldFile(c: World): Option<File> {
    c.disk.open(PathOf(c.disk.origin, c.src.name))
  }

  function NewFile(c: World): Option<nat> {
    c.disk.create(PathOf(c.disk.updated, c.src.name))
  }

  function Basis(c: World): seq<byte> {
    if OldFile(c).Some? then OldFile(c).value.data else []
  }

  /** The new file is the old copy itself. */
  predicate Shared(c: World) {
    OldFile(c).Some? && NewFile(c) == Some(OldFile(c).value.id)
  }

  /** Legal arguments, and an old copy of fewer than 2^31 blocks. */
  predicate LegalWorld(c: World) {
    LegalSource(c.src) && |Basis(c)| / c.src.bs < I32
  }

  /** `up` and `down` are all bytes written so far to the destination and to the source; the
      readers have taken the first upRead and downRead of them. */
  datatype Snapshot = Snapshot(src: Src, dst: Dst, up: seq<byte>, upRead: nat, down: seq<byte>, downRead: nat)

  type Sys = y: Snapshot | y.upRead <= |y.up| && y.downRead <= |y.down|
    witness Snapshot(Src(SrcInit, [], 0, 0, [], 0, Tally(0, 0, 0, 0), 0, 0, []), DstStart(), [], 0, [], 0)

  function Init(c: World): (y: Sys) {
    Snapshot(SrcStart(c.src), DstStart(), [], 0, [], 0)
  }

  datatype Label =
    | SrcWrites(n: nat)
    | SrcTakes(n: nat)
    | SrcWorks
    | SrcFails
    | DstWrites(n: nat)
    | DstTakes(n: nat)
    | DstFails

  /** Reads fail once the peer has closed and either everything it wrote has been read, or it
      closed with bytes unread, which resets the connection and may lose bytes in flight. The
      destination also takes a read into a full buffer, which returns 0, for a closed peer. */
  predicate Enabled(c: World, y: Sys, l: Label)
  {
    match l
    case SrcWrites(n) => SrcSends(y.src) && 1 <= n && y.src.offset + n <= |y.src.buf|
    case SrcTakes(n) => SrcReads(y.src) && 1 <= n <= SrcWant(y.src) && y.downRead + n <= |y.down|
    case SrcWorks => SrcComputes(y.src) && y.src.pos <= |c.src.file|
    case SrcFails =>
      && y.dst.state.DstClosed?
      && (SrcSends(y.src) || (SrcReads(y.src) && (y.downRead == |y.down| || y.upRead < |y.up|)))
    case DstWrites(n) => y.dst.event == OnWrite && DstSends(y.dst) && 1 <= n && y.dst.offset + n <= |y.dst.buf|
    case DstTakes(n) => y.dst.event == OnRead && DstReads(y.dst) && 1 <= n <= DstWant(y.dst) && y.upRead + n <= |y.up|
    case DstFails =>
      || (y.dst.event == OnWrite && DstSends(y.dst) && y.src.state.SrcClosed?)
      || (y.dst.event == OnRead && DstReads(y.dst)
          && (DstWant(y.dst) <= 0
              || (y.src.state.SrcClosed? && (y.upRead == |y.up| || y.downRead < |y.down|))))
  }

  function Next(c: World, y: Sys, l: Label): (z: Sys)
    requires Enabled(c, y, l)
  {
    match l
    case SrcWrites(n) =>
      y.(src := SrcWrote(y.src, n), up := y.up + y.src.buf[y.src.offset..y.src.offset + n])
    case SrcTakes(n) =>
      y.(src := SrcGot(y.src, y.down[y.downRead..y.downRead + n]), downRead := y.downRead + n)
    case SrcWorks => y.(src := SrcCompute(c.src, y.src))
    case SrcFails => y.(src := SrcAbort(y.src))
    case DstWrites(n) =>
      y.(dst := DstWrote(c.disk, c.src.strong, y.dst, n), down := y.down + y.dst.buf[y.dst.offset..y.dst.offset + n])
    case DstTakes(n) =>
      y.(dst := DstGot(c.disk, c.src.strong, y.dst, y.up[y.upRead..y.upRead + n]), upRead := y.upRead + n)
    case DstFails => y.(dst := DstAbort(y.dst))
  }

  // ---------------------------------------------------------------- what the streams must be

  function BlockNr(c: World): (n: nat)
  {
    |Basis(c)| / c.src.bs
  }

  function AllRecords(c: World): (rs: seq<Record>)
    ensures |rs| == BlockNr(c)
  {
    Records(Basis(c), c.src.bs, c.src.strong)
  }

  function UpStart(c: World): (f: seq<byte>)
    ensures |f| == FILE_INFO_SIZE
  {
    RequestFrame(RequestOf(c.src))
  }

  /** First byte of the frame of record `i`. */
  function FrameAt(i: nat): (p: nat) {
    CHECKSUM_HEADER_SIZE + i * CHECKSUM_SIZE
  }

  /** What the destination sends by the time `sent` records are packed. */
  function DownUpTo(c: World, sent: nat): (f: seq<byte>)
    requires sent <= BlockNr(c)
    ensures |f| == FrameAt(sent)
  {
    HeaderFrame(BlockNr(c)) + FramesOf(AllRecords(c)[..sent])
  }

  function DownAll(c: World): (f: seq<byte>)
  {
    DownUpTo(c, BlockNr(c))
  }

  function TheTarget(c: World): (d: Target) {
    Target(c.src.bs, Basis(c), |c.src.file|, Shared(c))
  }

  function TheScanner(c: World): (x: Scanner)
    ensures x.bs == c.src.bs
  {
    IndexScanner(c.src.bs, AllRecords(c), c.src.strong)
  }

  /** The decisions of the greedy scan of the source against the checksums of the old copy. */
  function SourceDecisions(c: World): (a: seq<Atom>)
  {
    Greedy(TheScanner(c), c.src.file, 0)
  }

  // ---------------------------------------------------------------- the invariant

  /** The packets sent so far are the greedy scan's decisions on the first `pos` source bytes. */
  ghost predicate Packed(c: World, packets: seq<Packet>, pos: nat)
  {
    && pos <= |c.src.file| && (packets != [] ==> pos > 0) && GoodPackets(packets, BlockNr(c))
    && AtomsOf(packets) + Greedy(TheScanner(c), c.src.file, pos) == SourceDecisions(c)
  }

  function Sent(c: World, s: Src): (f: seq<byte>) {
    UpStart(c) + EncodeAll(s.packets)
  }

  /** Nothing but the request has been produced. */
  predicate BeforeDelta(c: World, s: Src) {
    s.packets == [] && s.pos == 0
  }

  ghost predicate HasTable(c: World, s: Src)
  {
    s.blockNr == BlockNr(c) && s.table == AllRecords(c) && AllReadable(AllRecords(c))
  }

  predicate InInit(c: World, s: Src, up: seq<byte>, downRead: nat) {
    && BeforeDelta(c, s) && downRead == 0
    && s.buf == UpStart(c) && s.offset < |s.buf| && up == s.buf[..s.offset]
  }

  predicate InReqSent(c: World, s: Src, up: seq<byte>, down: seq<byte>, downRead: nat)
    requires downRead <= |down|
  {
    && BeforeDelta(c, s) && up == UpStart(c)
    && downRead < CHECKSUM_HEADER_SIZE && s.buf == down[..downRead]
  }

  ghost predicate InHeaderReceived(c: World, s: Src, up: seq<byte>, down: seq<byte>, downRead: nat)
    requires downRead <= |down|
  {
    && BeforeDelta(c, s) && up == UpStart(c)
    && s.blockNr == BlockNr(c) && |s.table| <= BlockNr(c)
    && s.table == AllRecords(c)[..|s.table|] && AllReadable(s.table)
    && downRead == FrameAt(|s.table|) + |s.buf|
    && s.buf == down[FrameAt(|s.table|)..downRead]
    && (if |s.table| == BlockNr(c) then s.buf == [] else |s.buf| < BatchCount(s) * CHECKSUM_SIZE)
  }

  /** All checksums are in, and every byte the destination sends before the delta has been read. */
  ghost predicate Ready(c: World, s: Src, downRead: nat)
  {
    HasTable(c, s) && downRead == FrameAt(BlockNr(c))
  }

  /** The whole delta has been written. */
  ghost predicate AllSent(c: World, s: Src, up: seq<byte>, downRead: nat)
  {
    Ready(c, s, downRead) && up == Sent(c, s) && s.pos == |c.src.file|
  }

  ghost predicate InClosed(c: World, s: Src, up: seq<byte>, downRead: nat, ok: bool)
  {
    && up <= Sent(c, s)
    && (s.packets == [] || (AllReadable(AllRecords(c)) && downRead == FrameAt(BlockNr(c))))
    && (ok ==> AllSent(c, s, up, downRead))
  }

  ghost predicate SrcStateInv(c: World, s: Src, up: seq<byte>, down: seq<byte>, downRead: nat)
    requires downRead <= |down|
  {
    match s.state
    case SrcInit => InInit(c, s, up, downRead)
    case SrcReqSent => InReqSent(c, s, up, down, downRead)
    case SrcChksmHeaderReceived => InHeaderReceived(c, s, up, down, downRead)
    case SrcChksmAllReceived => BeforeDelta(c, s) && up == UpStart(c) && Ready(c, s, downRead)
    case SrcCalculateDelta => Ready(c, s, downRead) && up == Sent(c, s)
    case SrcSendDelta => Ready(c, s, downRead) && s.offset < |s.buf| && up + s.buf[s.offset..] == Sent(c, s)
    case SrcDeltaFileDone => AllSent(c, s, up, downRead)
    case SrcClosed(ok) => InClosed(c, s, up, downRead, ok)
  }

  /** The counters agree with what has moved. */
  predicate Accounted(s: Src, up: seq<byte>, downRead: nat) {
    s.totalSent == |up| && s.totalRecved == downRead && s.tally == Wrapped(TallyOf(s.packets))
  }

  ghost predicate SrcInv(c: World, s: Src, up: seq<byte>, down: seq<byte>, downRead: nat)
    requires downRead <= |down|
  {
    Accounted(s, up, downRead) && Packed(c, s.packets, s.pos) && SrcStateInv(c, s, up, down, downRead)
  }

  /** The destination has the request the source sent. */
  predicate Known(c: World, t: Dst)
  {
    && c.src.mtime != -1 && OldFile(c) == Some(t.local) && t.req == RequestOf(c.src) && t.blockNr == BlockNr(c)
  }

  /** The delta bytes the destination has taken. */
  function Delivered(up: seq<byte>, upRead: nat): (d: seq<byte>)
    requires FILE_INFO_SIZE <= upRead <= |up|
  {
    up[FILE_INFO_SIZE..upRead]
  }

  predicate AtInit(t: Dst, up: seq<byte>, upRead: nat, down: seq<byte>)
    requires upRead <= |up|
  {
    t.event == OnRead && upRead < FILE_INFO_SIZE && t.buf == up[..upRead] && down == []
  }

  predicate AtReqReceived(c: World, t: Dst, upRead: nat, down: seq<byte>)
  {
    && Known(c, t) && t.event == OnWrite && upRead == FILE_INFO_SIZE
    && t.buf == HeaderFrame(BlockNr(c)) && t.offset < |t.buf| && down == t.buf[..t.offset]
  }

  /** The records up to `sent` are on their way: written, or in the buffer. */
  predicate AtHeaderSent(c: World, t: Dst, upRead: nat, down: seq<byte>)
  {
    && Known(c, t) && t.event == OnWrite && upRead == FILE_INFO_SIZE
    && t.sent <= BlockNr(c) && t.offset < |t.buf| && down + t.buf[t.offset..] == DownUpTo(c, t.sent)
  }

  /** All frames are out, and the delta bytes taken so far have been parsed. */
  predicate AtAllSent(c: World, t: Dst, up: seq<byte>, upRead: nat, down: seq<byte>)
    requires upRead <= |up|
  {
    && Known(c, t) && NewFile(c).Some? && t.shared == Shared(c)
    && t.event == OnRead && t.offset == 0 && upRead >= FILE_INFO_SIZE && down == DownAll(c)
    && Parse(TheTarget(c), Delivered(up, upRead), []) == More(t.buf, t.out)
  }

  predicate AtDone(c: World, t: Dst, up: seq<byte>, upRead: nat, down: seq<byte>, verified: bool)
    requires upRead <= |up|
  {
    && OldFile(c).Some? && NewFile(c).Some? && c.src.mtime != -1
    && t.event == NoEvent && upRead >= FILE_INFO_SIZE && down == DownAll(c)
    && Parse(TheTarget(c), Delivered(up, upRead), []) == AllDone(t.out)
    && verified == (c.src.strong(t.out) == c.src.strong(c.src.file))
  }

  predicate AtAborted(c: World, t: Dst, upRead: nat, down: seq<byte>)
  {
    t.event == NoEvent && (upRead > FILE_INFO_SIZE ==> down == DownAll(c)) && (down != [] ==> upRead >= FILE_INFO_SIZE)
  }

  /** Each state has its one pending event, its place in both streams and its data. */
  predicate DstInv(c: World, t: Dst, up: seq<byte>, upRead: nat, down: seq<byte>)
    requires upRead <= |up|
  {
    && down <= DownAll(c)
    && match t.state
       case DstInit => AtInit(t, up, upRead, down)
       case DstReqReceived => AtReqReceived(c, t, upRead, down)
       case DstChksmHeaderSent => AtHeaderSent(c, t, upRead, down)
       case DstChksmAllSent => AtAllSent(c, t, up, upRead, down)
       case DstClosed(Aborted) => AtAborted(c, t, upRead, down)
       case DstClosed(Done(verified)) => AtDone(c, t, up, upRead, down, verified)
  }

  /** Every reference the scan makes finds a whole block when its turn comes. */
  ghost predicate ReferencesReadable(c: World)
  {
    Readable(TheTarget(c), 0, SourceDecisions(c))
  }

  /** The condition a caller can check beforehand: a non-empty file, a modification time other than
      -1, an old copy and a new file that can be opened under the paths the destination prints, no
      old block with rolling checksum 2^32 - 1, and, when both paths lead to one file, no reference to
      a block that has not been written again by then. */
  ghost predicate Completable(c: World)
  {
    && |c.src.file| > 0 && c.src.mtime != -1 && OldFile(c).Some? && NewFile(c).Some?
    && AllReadable(AllRecords(c)) && (Shared(c) ==> ReferencesReadable(c))
  }

  /** Under that condition nobody gives up before the file is rebuilt. */
  ghost predicate NoGivingUp(c: World, y: Sys)
  {
    Completable(c) ==>
      && y.dst.state != DstClosed(Aborted)
      && (y.src.state.SrcClosed? ==> y.dst.state.DstClosed? || AllSent(c, y.src, y.up, y.downRead))
  }

  ghost predicate Inv(c: World, y: Sys)
    requires LegalWorld(c)
  {
    && SrcInv(c, y.src, y.up, y.down, y.downRead)
    && DstInv(c, y.dst, y.up, y.upRead, y.down)
    && NoGivingUp(c, y)
  }

  // ---------------------------------------------------------------- streams

  /** In every state what has been written is a prefix of what has been produced. */
  lemma UpIsPrefix(c: World, s: Src, up: seq<byte>, down: seq<byte>, downRead: nat)
    requires downRead <= |down| && SrcStateInv(c, s, up, down, downRead)
    ensures up <= Sent(c, s)
  {
    hide EncodeAll, UpStart, HasTable, BatchCount, FrameAt, Ready, BlockNr, AllRecords;
    if s.state == SrcSendDelta {
      assert up <= up + s.buf[s.offset..];
    }
    if s.packets == [] {
      EncodeNothing();
      assert Sent(c, s) == UpStart(c) + [];
    }
  }

  lemma EncodeNothing()
    ensures EncodeAll([]) == []
  {
  }

  /** The delta bytes delivered are a prefix of the encoding of the packets. */
  lemma DeliveredIsPrefix(c: World, s: Src, up: seq<byte>, upRead: nat)
    requires up <= Sent(c, s) && FILE_INFO_SIZE <= upRead <= |up|
    ensures Delivered(up, upRead) <= EncodeAll(s.packets)
  {
    hide EncodeAll, UpStart;
    var e := EncodeAll(s.packets);
    assert up == (UpStart(c) + e)[..|up|];
    assert Delivered(up, upRead) == e[..upRead - FILE_INFO_SIZE];
  }

  /** The frames of one more batch. */
  lemma DownBatch(c: World, sent: nat, n: nat)
    requires sent + n <= BlockNr(c)
    ensures DownUpTo(c, sent) + FramesOf(AllRecords(c)[sent..sent + n]) == DownUpTo(c, sent + n)
  {
    hide FramesOf, HeaderFrame, BlockNr, AllRecords;
    var rs := AllRecords(c);
    FramesConcat(rs[..sent], rs[sent..sent + n]);
    assert rs[..sent] + rs[sent..sent + n] == rs[..sent + n];
  }

  /** ... is what lies at their place in the whole stream. */
  lemma DownSlice(c: World, down: seq<byte>, sent: nat, n: nat)
    requires sent + n <= BlockNr(c)
    requires down <= DownAll(c) && FrameAt(sent + n) <= |down|
    ensures down[FrameAt(sent)..FrameAt(sent + n)] == FramesOf(AllRecords(c)[sent..sent + n])
  {
    hide BlockNr, AllRecords, FramesOf, HeaderFrame, DownUpTo;
    DownWhole(c);
    var rest := BlockNr(c) - sent - n;
    DownBatch(c, sent, n);
    DownBatch(c, sent + n, rest);
    SliceOfParts(DownUpTo(c, sent), FramesOf(AllRecords(c)[sent..sent + n]),
                 FramesOf(AllRecords(c)[sent + n..BlockNr(c)]), down);
  }

  lemma DownWhole(c: World)
    ensures DownAll(c) == DownUpTo(c, BlockNr(c))
    ensures forall i :: 0 <= i <= BlockNr(c) ==> |DownUpTo(c, i)| == FrameAt(i)
  {
    hide DownUpTo;
  }

  lemma SliceOfParts(a: seq<byte>, f: seq<byte>, b: seq<byte>, w: seq<byte>)
    requires w <= a + f + b && |a| + |f| <= |w|
    ensures w[|a|..|a| + |f|] == f
  {
    assert w[|a|..|a| + |f|] == (a + f + b)[|a|..|a| + |f|];
  }

  lemma DownHead(c: World, down: seq<byte>)
    requires down <= DownAll(c) && CHECKSUM_HEADER_SIZE <= |down|
    ensures down[..CHECKSUM_HEADER_SIZE] == HeaderFrame(BlockNr(c))
  {
    hide FramesOf, HeaderFrame, BlockNr, AllRecords;
  }

  lemma BlockCount(c: World)
    requires LegalWorld(c)
    ensures BlockNr(c) < I32
    ensures LegalRecords(AllRecords(c))
  {
    hide Basis, Checksum;
    forall i | 0 <= i < BlockNr(c)
      ensures LegalRecord(AllRecords(c)[i])
    {
      var b := Block(Basis(c), c.src.bs, i);
      var md: Digest := c.src.strong(b);
      assert NoNul(md);
    }
  }

  lemma RequestIsLegal(c: World)
    requires LegalWorld(c)
    ensures LegalRequest(RequestOf(c.src))
  {
    var md: Digest := c.src.strong(c.src.file);
    assert NoNul(md);
  }

  lemma InitHolds(c: World)
    requires LegalWorld(c)
    ensures Inv(c, Init(c))
  {
    hide RequestFrame, DownAll, BlockNr, AllRecords, Packed;
    NothingPacked(c, []);
    assert UpStart(c)[..0] == [];
  }

  lemma NothingPacked(c: World, ps: seq<Packet>)
    requires ps == []
    ensures Packed(c, ps, 0) && Wrapped(TallyOf(ps)) == Tally(0, 0, 0, 0)
  {
    hide Greedy, TheScanner, BlockNr, AllRecords;
    var g := Greedy(TheScanner(c), c.src.file, 0);
    assert AtomsOf(ps) + g == g;
  }
}
