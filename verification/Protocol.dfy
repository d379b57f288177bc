/** The two state machines as values: what the main loop of rzsrc and the event handlers of rzdst do
    with one socket result. The classes Source and Destination are proved against these functions,
    and module Session runs them against each other. */
module Protocol {
  import opened Bytes
  import opened Decimal
  import opened HashTable
  import opened Delta
  import opened DeltaParse
  import opened Frames

  // ---------------------------------------------------------------- sockets

  /** What a socket call comes to. A read of 0 bytes, a closed peer, is a failure for both programs;
      an interrupted call, or one that would block, changes nothing. */
  datatype ReadResult = Read(data: seq<byte>) | ReadInterrupted | ReadFailed
  datatype WriteResult = Written(n: nat) | WriteInterrupted | WriteFailed

  /** What send_src_buf and send_dst_buf return. */
  datatype SendStatus = SendOk | SendNotComplete | SendErr

  /** What the receivers of the sync request and of the checksum header return. */
  datatype ReceiveStatus = ReceiveOk | ReceiveNotComplete | ReceiveErr

  // ---------------------------------------------------------------- the source process

  /** What rzsrc is started with. */
  datatype SrcConfig = SrcConfig(file: seq<byte>, name: seq<byte>, mtime: int, bs: nat, strong: Strong)

  predicate LegalSource(c: SrcConfig) {
    && LegalBlockSize(c.bs) && |c.file| < I64
    && |c.name| <= MAX_NAME_LENGTH - 1 && NoNul(c.name) && -I64 <= c.mtime < I64
  }

  datatype SrcState =
    | SrcInit
    | SrcReqSent
    | SrcChksmHeaderReceived
    | SrcChksmAllReceived
    | SrcCalculateDelta
    | SrcSendDelta
    | SrcDeltaFileDone
    | SrcClosed(ok: bool)

  /** `buf` is the part of the socket buffer in use, `pos` the number of source bytes packed;
      `packets` records everything packed so far. */
  datatype Src = Src(state: SrcState, buf: seq<byte>, offset: nat, blockNr: nat, table: seq<Record>,
                     pos: nat, tally: Tally, totalSent: nat, totalRecved: nat, packets: seq<Packet>)

  function RequestOf(c: SrcConfig): (r: Request) {
    Request(c.name, |c.file|, c.bs, c.mtime, c.strong(c.file))
  }

  function SrcStart(c: SrcConfig): (s: Src) {
    Src(SrcInit, RequestFrame(RequestOf(c)), 0, 0, [], 0, Tally(0, 0, 0, 0), 0, 0, [])
  }

  predicate SrcSends(s: Src) {
    s.state == SrcInit || s.state == SrcSendDelta
  }

  predicate SrcReads(s: Src) {
    s.state == SrcReqSent || (s.state == SrcChksmHeaderReceived && |s.table| < s.blockNr)
  }

  /** Records in the batch being received. */
  function BatchCount(s: Src): (n: nat)
    requires |s.table| <= s.blockNr
    ensures n <= CHECKSUMS_PER_BUF
  {
    Min(CHECKSUMS_PER_BUF, s.blockNr - |s.table|)
  }

  /** The bytes the pending read asks for. */
  function SrcWant(s: Src): int
    requires SrcReads(s)
  {
    if s.state == SrcReqSent then CHECKSUM_HEADER_SIZE - |s.buf|
    else BatchCount(s) * CHECKSUM_SIZE - |s.buf|
  }

  function SrcAbort(s: Src): Src {
    s.(state := SrcClosed(false), buf := [], offset := 0)
  }

  /** send_src_buf wrote `n` bytes. */
  function SrcWrote(s: Src, n: nat): (t: Src)
    requires SrcSends(s)
  {
    var w := s.(offset := s.offset + n, totalSent := s.totalSent + n);
    if w.offset != |w.buf| then w
    else w.(state := if s.state == SrcInit then SrcReqSent else SrcCalculateDelta, buf := [], offset := 0)
  }

  /** The zeroed 32 KB buffer with `data` received into it. */
  function Received(data: seq<byte>): (b: seq<byte>)
    ensures |data| <= BUF_SIZE ==> |b| == BUF_SIZE
    ensures data <= b && forall i :: |data| <= i < |b| ==> b[i] == 0
  {
    if |data| <= BUF_SIZE then data + Zeros(BUF_SIZE - |data|) else data
  }

  /** receive_checksum_header, or one turn of the read loop of receive_checksums, got `data`. */
  function SrcGot(s: Src, data: seq<byte>): (t: Src)
    requires SrcReads(s) && |data| <= SrcWant(s)
  {
    var r := s.(buf := s.buf + data, totalRecved := s.totalRecved + |data|);
    if |data| < SrcWant(s) then r
    else if s.state == SrcReqSent then SrcHeaderIn(r)
    else SrcBatchIn(r)
  }

  function SrcHeaderIn(r: Src): (t: Src) {
    match ParseHeaderFrame(Received(r.buf))
    case None => SrcAbort(r)
    case Some(nr) =>
      r.(state := if nr == 0 then SrcChksmAllReceived else SrcChksmHeaderReceived,
         buf := [], offset := 0, blockNr := nr, table := [])
  }

  function SrcBatchIn(r: Src): (t: Src)
    requires |r.table| <= r.blockNr && BatchCount(r) * CHECKSUM_SIZE <= |r.buf|
  {
    match ParseBatch(Received(r.buf), BatchCount(r))
    case None => SrcAbort(r)
    case Some(rs) => r.(buf := [], table := r.table + rs)
  }

  /** States in which the main loop needs no socket. */
  predicate SrcComputes(s: Src) {
    || (s.state == SrcChksmHeaderReceived && |s.table| >= s.blockNr)
    || s.state == SrcChksmAllReceived || s.state == SrcCalculateDelta || s.state == SrcDeltaFileDone
  }

  /** The counters after a call packed `ps`; duplicated_block is an unsigned int. */
  function Count(t: Tally, ps: seq<Packet>): (u: Tally) {
    Wrapped(Plus(t, TallyOf(ps)))
  }

  function Wrapped(t: Tally): (u: Tally) {
    t.(dups := ToU32(t.dups))
  }

  /** Both assertions of SRC_DELTA_FILE_DONE. */
  predicate AccountsAgree(s: Src) {
    && s.totalSent == FILE_INFO_SIZE + s.tally.dupHeaders + s.tally.ndupHeaders + s.tally.data
    && s.totalRecved == CHECKSUM_HEADER_SIZE + ToU32(s.blockNr * CHECKSUM_SIZE)
  }

  function SrcCompute(c: SrcConfig, s: Src): (t: Src)
    requires SrcComputes(s) && c.bs >= 1 && s.pos <= |c.file|
  {
    match s.state
    case SrcChksmHeaderReceived => s.(state := SrcChksmAllReceived)
    case SrcChksmAllReceived => s.(state := SrcCalculateDelta, tally := Tally(s.tally.dups, 0, 0, 0), pos := 0)
    case SrcCalculateDelta =>
      if s.pos == |c.file| then s.(state := SrcDeltaFileDone)
      else
        var r := DeltaCall(IndexScanner(c.bs, s.table, c.strong), c.file, s.pos);
        s.(state := SrcSendDelta, buf := EncodeAll(r.0), offset := 0, pos := r.1,
           tally := Count(s.tally, r.0), packets := s.packets + r.0)
    case _ => s.(state := SrcClosed(AccountsAgree(s)))
  }

  // ---------------------------------------------------------------- the destination process

  type Path = seq<byte>

  /** A file and its identity: two paths can lead to one file. */
  datatype File = File(id: nat, data: seq<byte>)

  /** The two directories rzdst is started with, what opening a path for reading gives, and which file
      opening it for writing creates or empties; None when that fails. */
  datatype Disk = Disk(origin: Path, updated: Path, open: Path -> Option<File>, create: Path -> Option<nat>)

  function Joined(dir: Path, name: seq<byte>): (t: Path)
    ensures NoNul(t)
  {
    CString(dir) + [SLASH] + CString(name)
  }

  /** The path rzdst prints into its 260 characters: the last of a longer path are lost. */
  function PathOf(dir: Path, name: seq<byte>): (p: Path)
    ensures p <= Joined(dir, name) && |p| == Min(|Joined(dir, name)|, TMP_FILE_NAME_LEN - 1)
  {
    Joined(dir, name)[..Min(|Joined(dir, name)|, TMP_FILE_NAME_LEN - 1)]
  }

  /** The path is the one meant exactly when it is shorter than 260 characters. */
  lemma PathIsWhole(dir: Path, name: seq<byte>)
    ensures PathOf(dir, name) == Joined(dir, name) <==> |CString(dir)| + 1 + |CString(name)| < TMP_FILE_NAME_LEN
  {
    var t := Joined(dir, name);
    if |t| < TMP_FILE_NAME_LEN { assert t[..|t|] == t; }
  }

  /** Names that agree up to the cut lead to one path. */
  lemma CutPathsCoincide(dir: Path, a: seq<byte>, b: seq<byte>, n: nat)
    requires NoNul(dir) && NoNul(a) && NoNul(b) && n <= |a| && n <= |b| && a[..n] == b[..n]
    requires |dir| + 1 + n >= TMP_FILE_NAME_LEN - 1
    ensures PathOf(dir, a) == PathOf(dir, b)
  {
    var x, y := Joined(dir, a), Joined(dir, b);
    assert x[..|dir| + 1 + n] == dir + [SLASH] + a[..n];
    assert y[..|dir| + 1 + n] == dir + [SLASH] + b[..n];
    assert x[..TMP_FILE_NAME_LEN - 1] == x[..|dir| + 1 + n][..TMP_FILE_NAME_LEN - 1];
    assert y[..TMP_FILE_NAME_LEN - 1] == y[..|dir| + 1 + n][..TMP_FILE_NAME_LEN - 1];
  }

  datatype Verdict = Aborted | Done(verified: bool)

  datatype DstState =
    | DstInit
    | DstReqReceived
    | DstChksmHeaderSent
    | DstChksmAllSent
    | DstClosed(verdict: Verdict)

  /** The event the destination has added, if any. */
  datatype Event = OnRead | OnWrite | NoEvent

  /** `local` is the open old copy; `shared` says that the new file is that same file. */
  datatype Dst = Dst(state: DstState, event: Event, buf: seq<byte>, offset: nat, req: Request,
                     local: File, blockNr: nat, sent: nat, shared: bool, out: seq<byte>)

  function DstStart(): (s: Dst) {
    Dst(DstInit, OnRead, [], 0, Request([], 0, 0, 0, []), File(0, []), 0, 0, false, [])
  }

  predicate DstSends(s: Dst) {
    s.state == DstReqReceived || s.state == DstChksmHeaderSent
  }

  predicate DstReads(s: Dst) {
    s.state == DstInit || s.state == DstChksmAllSent
  }

  function DstWant(s: Dst): int
    requires DstReads(s)
  {
    (if s.state == DstInit then FILE_INFO_SIZE else BUF_SIZE) - |s.buf|
  }

  function DstAbort(s: Dst): Dst {
    s.(state := DstClosed(Aborted), event := NoEvent, buf := [], offset := 0)
  }

  function DstTarget(s: Dst): Target {
    Target(s.req.bs, s.local.data, s.req.size, s.shared)
  }

  /** on_read_recv_sync_req or on_read_receive_delta_file got `data`. */
  function DstGot(disk: Disk, strong: Strong, s: Dst, data: seq<byte>): (t: Dst)
    requires DstReads(s)
  {
    var r := s.(buf := s.buf + data);
    if s.state == DstChksmAllSent then DstDeltaIn(strong, r)
    else if |r.buf| < FILE_INFO_SIZE then r
    else
      match ParseRequest(Received(r.buf))
      case None => DstAbort(r)
      case Some(req) => DstRequestIn(disk, r.(state := DstReqReceived, req := req))
  }

  /** A request the C can deal with: a name length that is not negative, a block size that is not
      zero, and fewer than 2^31 blocks. */
  predicate RequestUsable(disk: Disk, data: seq<byte>) {
    var len := Number(Received(data), 0, HASH, I32);
    && (len.Some? ==> len.value.0 >= 0)
    && match ParseRequest(Received(data))
       case None => true
       case Some(r) =>
         var f := disk.open(PathOf(disk.origin, r.name));
         r.bs >= 1 && (f.Some? ==> |f.value.data| / r.bs < I32)
  }

  /** on_read_prepare_checksum_header. A block size of 0 divides by zero in C. */
  function DstRequestIn(disk: Disk, r: Dst): (t: Dst) {
    match disk.open(PathOf(disk.origin, r.req.name))
    case None => DstAbort(r)
    case Some(f) =>
      var nr := if r.req.bs == 0 then 0 else ToU32(|f.data| / r.req.bs);
      r.(event := OnWrite, buf := HeaderFrame(nr), offset := 0, local := f, blockNr := nr)
  }

  /** parse_delta_file and what on_read does with its result. */
  function DstDeltaIn(strong: Strong, r: Dst): (t: Dst) {
    match Parse(DstTarget(r), r.buf, r.out)
    case More(rest, out) => r.(buf := rest, offset := 0, out := out)
    case Failed(out) => DstAbort(r.(out := out))
    case AllDone(out) =>
      r.(state := DstClosed(Done(strong(out) == r.req.md5)), event := NoEvent, buf := [], offset := 0, out := out)
  }

  /** prepare_checksums, and prepare_receive_delta_file when nothing is left to send. */
  function DstNextBatch(disk: Disk, strong: Strong, s: Dst): (t: Dst) {
    if s.blockNr <= s.sent then DstOpenNew(disk, s)
    else
      var n := Min(CHECKSUMS_PER_BUF, s.blockNr - s.sent);
      s.(buf := FramesOf(RecordRange(s.local.data, s.req.bs, strong, s.sent, n)), offset := 0, sent := s.sent + n)
  }

  /** prepare_receive_delta_file. If the new file is the old copy, its bytes are gone from here on. */
  function DstOpenNew(disk: Disk, s: Dst): (t: Dst) {
    match disk.create(PathOf(disk.updated, s.req.name))
    case None => DstAbort(s)
    case Some(id) =>
      s.(state := DstChksmAllSent, event := OnRead, buf := [], offset := 0, shared := id == s.local.id, out := [])
  }

  /** send_dst_buf wrote `n` bytes. */
  function DstWrote(disk: Disk, strong: Strong, s: Dst, n: nat): (t: Dst)
    requires DstSends(s)
  {
    var w := s.(offset := s.offset + n);
    if w.offset != |w.buf| then w
    else if s.state == DstReqReceived then DstNextBatch(disk, strong, w.(state := DstChksmHeaderSent, sent := 0))
    else DstNextBatch(disk, strong, w)
  }
}
