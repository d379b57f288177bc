/** rzdst.c: the receiver, with its one socket buffer. Files are byte sequences: the old copy is
    read at an offset, the new one is appended to. */
module DestinationProcess {
  import opened Bytes
  import opened Decimal
  import opened Adler32
  import opened HashTable
  import opened Delta
  import opened DeltaParse
  import opened Frames
  import opened Protocol

  datatype ParseStatus = ReadMore | ParsedAll | ParseErr

  /** A field inside a slice is the same field in the whole buffer. */
  lemma FieldInSlice(s: seq<byte>, a: nat, b: nat, p: nat, i: nat)
    requires a + p < b <= |s| && a + p < i < b && s[i] == NEWLINE
    ensures Field(s, a + p, DOLLAR, NEWLINE) == match Field(s[a..b], p, DOLLAR, NEWLINE)
                                                case None => None
                                                case Some((n, q)) => Some((n, a + q))
    ensures s[a + p] == DOLLAR ==> DigitsEnd(s, a + p + 1) < |s|
  {
    var t := s[a..b];
    var e := DigitsEnd(t, p + 1);
    assert t[i - a] == NEWLINE;
    assert e <= i - a;
    var x, y := s[a + p + 1..a + e], t[p + 1..e];
    assert forall k :: 0 <= k < |y| ==> x[k] == y[k];
    assert x == y;
    assert s[a + e] == t[e] && s[a + p] == t[p];
    DigitsEndAt(s, a + p + 1, a + e);
  }

  lemma SliceInSlice(b: seq<byte>, from: nat, to: nat, i: nat, n: nat)
    requires from + i + n <= to <= |b|
    ensures b[from..to][i..i + n] == b[from + i..from + i + n]
  {
    var x, y := b[from..to][i..i + n], b[from + i..from + i + n];
    assert forall k :: 0 <= k < n ==> x[k] == y[k];
  }

  class Destination {
    const disk: Disk
    const strong: Strong
    const buf: array<byte>
    var length: nat
    var offset: nat
    var state: DstState
    var event: Event
    var req: Request
    // dst_local_file
    var local: File
    var localPos: nat
    var blockNr: nat
    var checksumSent: nat
    // dst_sync_file; if it is the local file, that one now holds `out`
    var shared: bool
    var out: seq<byte>
    var bytesRecvd: nat

    ghost predicate BufferValid()
      reads this`offset, this`length, this`out, this`bytesRecvd
    {
      buf.Length == BUF_SIZE && offset <= length <= BUF_SIZE && bytesRecvd == |out|
    }

    function TheTarget(): (d: Target)
      reads this`req, this`local, this`shared
    {
      Target(req.bs, local.data, req.size, shared)
    }

    /** parse_delta_header: looks for the newline first and parses only then. */
    method ParseDeltaHeader(sidx: nat, eidx: nat) returns (dh: HeaderResult)
      requires sidx <= eidx <= buf.Length
      ensures dh == ParseHeader(buf[sidx..eidx])
    {
      hide Field, DigitsEnd;
      ghost var s := buf[sidx..eidx];
      var i := sidx;
      while i < eidx && buf[i] != NEWLINE
        invariant sidx <= i <= eidx
        invariant NEWLINE !in buf[sidx..i]
      {
        assert buf[sidx..i + 1] == buf[sidx..i] + [buf[i]];
        i := i + 1;
      }
      if i == eidx {
        return Incomplete;
      }
      assert s[i - sidx] == NEWLINE;
      if buf[sidx] != DOLLAR {
        return Malformed;
      }
      var flag := buf[sidx + 1];
      if !(flag == FLAG_DUP || flag == FLAG_NDUP) {
        return Malformed;
      }
      assert i >= sidx + 2 && s[1] == flag;
      if i == sidx + 2 {
        NoField(s, 2);
        NoField(buf[..], sidx + 2);
      } else {
        FieldInSlice(buf[..], sidx, eidx, 2, i);
      }
      var nr, p := Str2Int(buf, sidx + 2, DOLLAR, NEWLINE, I32);
      if ToU32(nr) == ToU32(-1) {
        return Malformed;
      }
      return HeaderResult.Parsed(flag, ToU32(nr), p - sidx);
    }

    /** One turn of the loop of parse_delta_file: NeedMore, an error, or one packet written. */
    method ParseOne() returns (r: PacketResult)
      requires BufferValid()
      modifies this`offset, this`localPos, this`out, this`bytesRecvd
      ensures BufferValid()
      ensures r == ParsePacket(TheTarget(), old(buf[offset..length]), old(out))
      ensures match r
              case Write(data, used) =>
                && out == old(out) + data
                && offset == if |out| == req.size then old(offset) else old(offset) + used
              case _ => out == old(out) && offset == old(offset)
    {
      hide ParseHeader, ReadAt;
      var dh := ParseDeltaHeader(offset, length);
      if dh == Malformed {
        return Bad;
      } else if dh == Incomplete {
        return NeedMore;
      }
      var wbuf: seq<byte>;
      var offsetAdjust: nat;
      if dh.flag == FLAG_DUP {
        localPos := ToU32(req.bs * dh.nr);
        wbuf := ReadAt(if shared then out else local.data, localPos, req.bs);
        if |wbuf| != req.bs {
          return Bad;
        }
        offsetAdjust := dh.len;
      } else {
        var dataIdx := offset + dh.len;
        if length - dataIdx < dh.nr {
          return NeedMore;
        }
        wbuf := buf[dataIdx..dataIdx + dh.nr];
        offsetAdjust := dh.len + dh.nr;
        SliceInSlice(buf[..], offset, length, dh.len, dh.nr);
      }
      out := out + wbuf;
      bytesRecvd := bytesRecvd + |wbuf|;
      if bytesRecvd != req.size {
        offset := offset + offsetAdjust;
      }
      return Write(wbuf, offsetAdjust);
    }

    /** parse_delta_file: consumes whole packets; when more bytes are needed it moves what is left
        to the front of the buffer. */
    method ParseDeltaFile() returns (r: ParseStatus)
      requires BufferValid()
      modifies this`offset, this`length, this`localPos, this`out, this`bytesRecvd, buf
      ensures BufferValid()
      ensures match Parse(TheTarget(), old(buf[offset..length]), old(out))
              case More(rest, o) =>
                && r == ReadMore && out == o && offset == 0 && buf[..length] == rest
                && ParsePacket(TheTarget(), rest, o) == NeedMore
              case AllDone(o) => r == ParsedAll && out == o
              case Failed(o) => r == ParseErr && out == o
    {
      hide ParsePacket;
      ghost var target := Parse(TheTarget(), buf[offset..length], out);
      ghost var b := buf[..];
      while true
        invariant BufferValid() && buf[..] == b && length == old(length)
        invariant Parse(TheTarget(), buf[offset..length], out) == target
        decreases length - offset
      {
        ghost var before := offset;
        var p := ParseOne();
        if p == NeedMore {
          MoveToFront();
          return ReadMore;
        } else if p == Bad {
          return ParseErr;
        } else if bytesRecvd == req.size {
          return ParsedAll;
        }
        assert buf[before..length][p.used..] == buf[offset..length];
      }
    }

    /** need_read_more: compacts the buffer. */
    method MoveToFront()
      requires BufferValid()
      modifies this`offset, this`length, buf
      ensures BufferValid() && offset == 0 && buf[..length] == old(buf[offset..length])
    {
      var now := length - offset;
      if now > 0 {
        var tmp := buf[offset..offset + now];
        Clear(buf, BUF_SIZE);
        Store(buf, 0, tmp);
      }
      length := now;
      offset := 0;
    }

    // -------------------------------------------------------------- checksums

    ghost predicate BlocksValid()
      reads this`req, this`blockNr, this`local
    {
      req.bs >= 1 && blockNr < I32 && blockNr * req.bs <= |local.data|
    }

    /** prepare_checksums: the next batch of records, each printed into its zeroed 64-byte frame. */
    method PrepareChecksums() returns (more: bool)
      requires BufferValid() && BlocksValid() && checksumSent <= blockNr && localPos == checksumSent * req.bs
      modifies this`length, this`offset, this`checksumSent, this`localPos, buf
      ensures BufferValid() && checksumSent <= blockNr && localPos == checksumSent * req.bs
      ensures more == (old(checksumSent) < blockNr)
      ensures !more ==>
        checksumSent == old(checksumSent) && length == old(length) && offset == old(offset) && buf[..] == old(buf[..])
      ensures more ==>
        var n := Min(CHECKSUMS_PER_BUF, blockNr - old(checksumSent));
        && offset == 0 < length && checksumSent == old(checksumSent) + n
        && buf[..length] == FramesOf(RecordRange(local.data, req.bs, strong, old(checksumSent), n))
    {
      hide Batch, BlocksValid, FramesOf, RecordRange;
      ghost var sent := checksumSent;
      var left := blockNr - checksumSent;
      if left == 0 {
        return false;
      }
      var count := Min(CHECKSUMS_PER_BUF, left);
      var fbuf := new byte[req.bs];
      Clear(buf, BUF_SIZE);
      EmptyBatch();
      var i := 0;
      while i < count
        invariant 0 <= i <= count && checksumSent == sent && Batch(i)
      {
        AddRecord(fbuf, i);
        i := i + 1;
      }
      WholeBatch(i);
      offset := 0;
      length := count * CHECKSUM_SIZE;
      checksumSent := checksumSent + count;
      return true;
    }

    /** The first `i` records of the batch are in the buffer, and the rest of it is zero. */
    ghost predicate Batch(i: nat)
      reads this`checksumSent, this`localPos, this`local, this`req, buf
    {
      && buf.Length == BUF_SIZE && i <= CHECKSUMS_PER_BUF && localPos == (checksumSent + i) * req.bs
      && buf[..i * CHECKSUM_SIZE] == FramesOf(RecordRange(local.data, req.bs, strong, checksumSent, i))
      && buf[i * CHECKSUM_SIZE..] == Zeros(BUF_SIZE - i * CHECKSUM_SIZE)
    }

    lemma EmptyBatch()
      requires buf.Length == BUF_SIZE && buf[..] == Zeros(BUF_SIZE) && localPos == checksumSent * req.bs
      ensures Batch(0)
    {
      hide RecordFrame;
      assert buf[..0] == [] && buf[0..] == buf[..];
    }

    lemma WholeBatch(i: nat)
      requires Batch(i)
      ensures localPos == (checksumSent + i) * req.bs && i * CHECKSUM_SIZE <= BUF_SIZE == buf.Length
      ensures buf[..i * CHECKSUM_SIZE] == FramesOf(RecordRange(local.data, req.bs, strong, checksumSent, i))
    {
      hide FramesOf, RecordRange;
    }

    /** Reads the next block of the old copy and takes both its hashes. */
    method ReadRecord(fbuf: array<byte>, nr: nat) returns (rec: Record)
      requires BlocksValid() && nr < blockNr && localPos == nr * req.bs && fbuf.Length == req.bs
      modifies this`localPos, fbuf
      ensures localPos == (nr + 1) * req.bs && rec == BlockRecord(local.data, req.bs, strong, nr)
    {
      hide Checksum;
      NextBlock(local.data, req.bs, nr, blockNr);
      Store(fbuf, 0, local.data[localPos..localPos + req.bs]);
      localPos := localPos + req.bs;
      assert fbuf[0..req.bs] == fbuf[..] == Block(local.data, req.bs, nr);
      var rcksm := Adler32Checksum(fbuf, 0, req.bs);
      rec := Record(nr, rcksm, strong(fbuf[..]));
    }

    /** One more record in the batch. */
    method AddRecord(fbuf: array<byte>, i: nat)
      requires BlocksValid() && Batch(i) && i < CHECKSUMS_PER_BUF && checksumSent + i < blockNr
      requires fbuf != buf && fbuf.Length == req.bs
      modifies this`localPos, fbuf, buf
      ensures Batch(i + 1)
    {
      hide RecordFrame, FramesOf, RecordRange, BlockRecord;
      var rec := ReadRecord(fbuf, checksumSent + i);
      PrintFrame(i * CHECKSUM_SIZE, rec);
      OneMoreRecord(local.data, req.bs, strong, checksumSent, i);
    }

    /** One record into its frame. */
    method PrintFrame(p: nat, rec: Record)
      requires buf.Length == BUF_SIZE && p + CHECKSUM_SIZE <= BUF_SIZE && buf[p..] == Zeros(BUF_SIZE - p)
      modifies buf
      ensures buf[..p + CHECKSUM_SIZE] == old(buf[..p]) + RecordFrame(rec)
      ensures buf[p + CHECKSUM_SIZE..] == Zeros(BUF_SIZE - p - CHECKSUM_SIZE)
    {
      hide RecordText;
      ghost var b := buf[..];
      var n := Snprintf(buf, p, CHECKSUM_SIZE, RecordText(rec));
      FrameInPlace(b, p, RecordText(rec));
    }

    /** "%s/%s" printed into a zeroed tmp_filename, and read as a C string. */
    method PrintPath(dir: Path) returns (path: Path)
      ensures path == PathOf(dir, req.name)
    {
      hide Joined, CString, Splice, Printed, PathOf;
      var tmp := new byte[TMP_FILE_NAME_LEN](_ => 0);
      ghost var zeros := tmp[..];
      var n := Snprintf(tmp, 0, TMP_FILE_NAME_LEN, Joined(dir, req.name));
      path := CString(tmp[..]);
      PrintedPath(Joined(dir, req.name), zeros);
      PathDef(dir, req.name);
    }

    /** prepare_receive_delta_file: opens and truncates the new file and clears the buffer. */
    method PrepareReceiveDeltaFile() returns (ok: bool)
      requires BufferValid()
      modifies this`shared, this`out, this`bytesRecvd, this`length, this`offset, buf
      ensures BufferValid()
      ensures match disk.create(PathOf(disk.updated, req.name))
              case None => !ok && out == old(out) && shared == old(shared)
              case Some(id) => ok && out == [] && length == offset == 0 && shared == (id == local.id)
    {
      var path := PrintPath(disk.updated);
      var id := disk.create(path);
      if id == None {
        return false;
      }
      shared := id.value == local.id;
      out, bytesRecvd := [], 0;
      length, offset := 0, 0;
      Clear(buf, BUF_SIZE);
      return true;
    }

    // -------------------------------------------------------------- the event handlers

    /** The value the state machine of module Protocol works on; a closed instance has no buffer. */
    ghost function View(): (v: Dst)
      requires length <= buf.Length
      reads this, buf
    {
      var live := !state.DstClosed?;
      Dst(state, event, if live then buf[..length] else [], if live then offset else 0, req, local, blockNr,
          checksumSent, shared, out)
    }

    /** In every state exactly the one event is pending that the state waits for. */
    ghost predicate Valid()
      reads this, buf
    {
      && BufferValid()
      && match state
         case DstInit => event == OnRead && offset == 0 && length < FILE_INFO_SIZE && buf[..] == Received(buf[..length])
         case DstReqReceived => event == OnWrite && offset < length && BlocksValid()
         case DstChksmHeaderSent =>
           && event == OnWrite && offset < length && BlocksValid()
           && checksumSent <= blockNr && localPos == checksumSent * req.bs
         case DstChksmAllSent =>
           event == OnRead && offset == 0 && ParsePacket(TheTarget(), buf[..length], out) == NeedMore
         case DstClosed(_) => event == NoEvent
    }

    /** on_conenct */
    constructor (disk: Disk, strong: Strong)
      ensures Valid() && fresh(buf) && this.disk == disk && this.strong == strong
      ensures View() == DstStart()
    {
      this.disk, this.strong := disk, strong;
      buf := new byte[BUF_SIZE](_ => 0);
      length, offset, state, event := 0, 0, DstInit, OnRead;
      req, local, localPos, blockNr, checksumSent := Request([], 0, 0, 0, []), File(0, []), 0, 0, 0;
      shared, out, bytesRecvd := false, [], 0;
      new;
      assert buf[..] == Zeros(BUF_SIZE) && buf[..0] == [];
    }

    /** send_dst_buf */
    method SendDstBuf(w: WriteResult) returns (r: SendStatus)
      requires offset < length && (w.Written? ==> 1 <= w.n <= length - offset)
      modifies this`offset
      ensures offset == old(offset) + if w.Written? then w.n else 0
      ensures r == if w.WriteFailed? then SendErr else if offset == length then SendOk else SendNotComplete
    {
      match w
      case WriteFailed => return SendErr;
      case WriteInterrupted => return SendNotComplete;
      case Written(n) =>
        offset := offset + n;
        return if offset == length then SendOk else SendNotComplete;
    }

    /** on_write */
    method HandleWrite(w: WriteResult)
      requires Valid() && event == OnWrite && (w.Written? ==> 1 <= w.n <= length - offset)
      modifies this`state, this`event, this`length, this`offset, this`checksumSent, this`localPos, this`shared,
               this`out, this`bytesRecvd, buf
      ensures Valid()
      ensures View() == AfterDstWrite(disk, strong, old(View()), w)
      ensures w.WriteInterrupted? ==> View() == old(View())
      ensures w.WriteFailed? ==> state == DstClosed(Aborted) && event == NoEvent
    {
      hide DstNextBatch, BlocksValid;
      var i := SendDstBuf(w);
      if i == SendErr {
        state, event := DstClosed(Aborted), NoEvent;  // goto clean_up
      } else if i == SendOk {
        if state == DstReqReceived {
          state := DstChksmHeaderSent;
          localPos, checksumSent := 0, 0;  // prepare_send_checksums
        }
        NextBatch();
      }
    }

    /** What on_write does once a whole buffer has gone out. */
    method NextBatch()
      requires BufferValid() && BlocksValid() && state == DstChksmHeaderSent && event == OnWrite
      requires checksumSent <= blockNr && localPos == checksumSent * req.bs
      modifies this`state, this`event, this`length, this`offset, this`checksumSent, this`localPos, this`shared,
               this`out, this`bytesRecvd, buf
      ensures Valid()
      ensures View() == DstNextBatch(disk, strong, old(View()))
    {
      hide FramesOf, RecordRange, DstOpenNew;
      var more := PrepareChecksums();
      if !more {
        assert buf[..length] == buf[..][..length];
        AllChecksumsSent();
      }
    }

    /** ... and nothing is left to send. */
    method AllChecksumsSent()
      requires BufferValid() && state == DstChksmHeaderSent
      modifies this`state, this`event, this`length, this`offset, this`shared, this`out, this`bytesRecvd, buf
      ensures Valid()
      ensures View() == DstOpenNew(disk, old(View()))
    {
      hide PathOf, ParsePacket;
      var ok := PrepareReceiveDeltaFile();
      if ok {
        NothingToParse(TheTarget(), buf[..length], out);
        state, event := DstChksmAllSent, OnRead;
      } else {
        state, event := DstClosed(Aborted), NoEvent;  // goto clean_up
      }
    }

    /** The parsing half of on_read_recv_sync_req. */
    method ParseSyncRequest() returns (r: Option<Request>)
      requires buf.Length == BUF_SIZE && forall i :: FILE_INFO_SIZE <= i < BUF_SIZE ==> buf[i] == 0
      requires var len := Number(buf[..], 0, HASH, I32); len.Some? ==> len.value.0 >= 0
      ensures r == ParseRequest(buf[..])
    {
      hide Number, Strncpy, ParseRequestTail, Inside;
      NulKeepsInside(buf[..], 0, HASH, I32);
      var len := ReadNumber(buf, 0, HASH, I32);
      if len == None || len.value.0 > MAX_NAME_LENGTH - 1 || buf[len.value.1] != DOLLAR {
        return None;
      }
      var (n, p) := len.value;
      assert p <= FILE_INFO_SIZE;
      r := ParseSyncTail(Strncpy(buf[..], p + 1, n), p + n + 2);
    }

    /** The fields after the file name. */
    method ParseSyncTail(name: seq<byte>, p: nat) returns (r: Option<Request>)
      requires p < buf.Length == BUF_SIZE && buf[BUF_SIZE - 1] == 0
      ensures r == ParseRequestTail(buf[..], name, p)
    {
      hide Number, Strncpy, Inside;
      NulKeepsInside(buf[..], p, DOLLAR, I64);
      var size := ReadNumber(buf, p, DOLLAR, I64);
      if size == None {
        return None;
      }
      NulKeepsInside(buf[..], size.value.1, DOLLAR, I32);
      var bs := ReadNumber(buf, size.value.1, DOLLAR, I32);
      if bs == None {
        return None;
      }
      NulKeepsInside(buf[..], bs.value.1, DOLLAR, I64);
      var mtime := ReadNumber(buf, bs.value.1, DOLLAR, I64);
      if mtime == None || buf[mtime.value.1] != DOLLAR {
        return None;
      }
      return Some(Request(name, size.value.0 % U64, ToU32(bs.value.0), mtime.value.0,
                          Strncpy(buf[..], mtime.value.1 + 1, 32)));
    }

    /** read() into the buffer after the bytes already there. */
    method StoreRead(data: seq<byte>)
      requires length + |data| <= buf.Length == BUF_SIZE
      modifies this`length, buf
      ensures length == old(length) + |data| && length <= BUF_SIZE
      ensures buf[..length] == old(buf[..length]) + data && buf[length..] == old(buf[length + |data|..])
    {
      Store(buf, length, data);
      length := length + |data|;
    }

    /** on_read_recv_sync_req: one read, and the parse once 512 bytes are there. */
    method RecvSyncReq(rd: ReadResult) returns (r: ReceiveStatus)
      requires Valid() && state == DstInit && (rd.Read? ==> 1 <= |rd.data| <= FILE_INFO_SIZE - length)
      requires rd.Read? && length + |rd.data| == FILE_INFO_SIZE ==> RequestUsable(disk, buf[..length] + rd.data)
      modifies this`length, this`req, buf
      ensures length <= FILE_INFO_SIZE && buf[..] == Received(buf[..length])
      ensures buf[..length] == old(buf[..length]) + if rd.Read? then rd.data else []
      ensures length < FILE_INFO_SIZE ==>
        req == old(req) && r == if rd.ReadFailed? then ReceiveErr else ReceiveNotComplete
      ensures length == FILE_INFO_SIZE ==>
        var q := ParseRequest(Received(buf[..length]));
        if q == None then r == ReceiveErr && req == old(req) else r == ReceiveOk && req == q.value
    {
      hide Number, ParseRequest;
      match rd
      case ReadFailed => return ReceiveErr;
      case ReadInterrupted => return ReceiveNotComplete;
      case Read(data) =>
        StoreRead(data);
        assert buf[..] == buf[..length] + buf[length..] == Received(buf[..length]);
        if length < FILE_INFO_SIZE {
          return ReceiveNotComplete;
        }
        assert buf[..length] == old(buf[..length]) + data;
        var q := ParseSyncRequest();
        if q == None {
          return ReceiveErr;
        }
        req := q.value;
        return ReceiveOk;
    }

    /** on_read_prepare_checksum_header: opens the old copy and prints the block number. */
    method PrepareChecksumHeader() returns (ok: bool)
      requires buf.Length == BUF_SIZE && req.bs >= 1
      requires var f := disk.open(PathOf(disk.origin, req.name)); f.Some? ==> |f.value.data| / req.bs < I32
      modifies this`local, this`blockNr, this`length, this`offset, buf
      ensures ok == disk.open(PathOf(disk.origin, req.name)).Some?
      ensures ok ==>
        && Some(local) == disk.open(PathOf(disk.origin, req.name))
        && blockNr == |local.data| / req.bs < I32 && BlocksValid()
        && offset == 0 && length == CHECKSUM_HEADER_SIZE && buf[..length] == HeaderFrame(blockNr)
      ensures !ok ==> local == old(local) && blockNr == old(blockNr) && length == old(length) && offset == old(offset)
    {
      hide NumField, Framed, Splice;
      var path := PrintPath(disk.origin);
      var f := disk.open(path);
      if f == None {
        return false;
      }
      local := f.value;
      blockNr := |local.data| / req.bs;
      WholeBlocks(|local.data|, req.bs);
      Clear(buf, BUF_SIZE);
      assert buf[..] == Zeros(BUF_SIZE);
      ghost var b := buf[..];
      var n := Snprintf(buf, 0, CHECKSUM_HEADER_SIZE, NumField(DOLLAR, blockNr));
      HeaderInPlace(b, NumField(DOLLAR, blockNr));
      length := CHECKSUM_HEADER_SIZE;
      offset := 0;
      return true;
    }

    /** on_read */
    method HandleRead(rd: ReadResult)
      requires Valid() && event == OnRead && (rd.Read? ==> 1 <= |rd.data| <= DstWant(View()))
      requires state == DstInit && rd.Read? && length + |rd.data| == FILE_INFO_SIZE ==>
        RequestUsable(disk, buf[..length] + rd.data)
      modifies this`state, this`event, this`length, this`offset, this`req, this`local, this`localPos, this`blockNr,
               this`out, this`bytesRecvd, buf
      ensures Valid()
      ensures View() == AfterDstRead(disk, strong, old(View()), rd)
      ensures rd.ReadInterrupted? ==> View() == old(View())
      ensures rd.ReadFailed? ==> state == DstClosed(Aborted) && event == NoEvent
    {
      if state == DstInit {
        FirstRead(rd);
      } else {
        DeltaRead(rd);
      }
    }

    /** DST_INIT */
    method FirstRead(rd: ReadResult)
      requires Valid() && state == DstInit && (rd.Read? ==> 1 <= |rd.data| <= FILE_INFO_SIZE - length)
      requires rd.Read? && length + |rd.data| == FILE_INFO_SIZE ==> RequestUsable(disk, buf[..length] + rd.data)
      modifies this`state, this`event, this`length, this`offset, this`req, this`local, this`blockNr, buf
      ensures Valid()
      ensures View() == AfterDstRead(disk, strong, old(View()), rd)
      ensures rd.ReadInterrupted? ==> View() == old(View())
      ensures rd.ReadFailed? ==> state == DstClosed(Aborted) && event == NoEvent
      ensures rd.Read? && old(length) + |rd.data| == FILE_INFO_SIZE ==>
        var q := ParseRequest(Received(old(buf[..length]) + rd.data));
        if q == None || disk.open(PathOf(disk.origin, q.value.name)) == None then state == DstClosed(Aborted)
        else state == DstReqReceived && req == q.value
    {
      hide Number, ParseRequest, DstRequestIn, PathOf, ParsePacket;
      var i := RecvSyncReq(rd);
      if i == ReceiveErr {
        state, event := DstClosed(Aborted), NoEvent;  // goto clean_up
      } else if i == ReceiveOk {
        state := DstReqReceived;
        OpenOldCopy();
      }
    }

    /** What on_read does with a complete request. */
    method OpenOldCopy()
      requires BufferValid() && state == DstReqReceived && req.bs >= 1
      requires var f := disk.open(PathOf(disk.origin, req.name)); f.Some? ==> |f.value.data| / req.bs < I32
      modifies this`state, this`event, this`length, this`offset, this`local, this`blockNr, buf
      ensures Valid()
      ensures View() == DstRequestIn(disk, old(View()))
      ensures state == if disk.open(PathOf(disk.origin, req.name)) == None then DstClosed(Aborted) else DstReqReceived
    {
      hide HeaderFrame, PathOf;
      var ok := PrepareChecksumHeader();
      if ok {
        assert ToU32(|local.data| / req.bs) == blockNr;
        event := OnWrite;
      } else {
        state, event := DstClosed(Aborted), NoEvent;  // goto clean_up
      }
    }

    /** DST_CHKSM_ALL_SENT: an interrupted read still runs the parser again. */
    method DeltaRead(rd: ReadResult)
      requires Valid() && state == DstChksmAllSent && (rd.Read? ==> 1 <= |rd.data| <= BUF_SIZE - length)
      modifies this`state, this`event, this`length, this`offset, this`localPos, this`out, this`bytesRecvd, buf
      ensures Valid()
      ensures View() == AfterDstRead(disk, strong, old(View()), rd)
      ensures rd.ReadInterrupted? ==> View() == old(View())
      ensures rd.ReadFailed? ==> state == DstClosed(Aborted) && event == NoEvent
      ensures rd.Read? ==>
        var p := Parse(old(TheTarget()), old(buf[..length]) + rd.data, old(out));
        && out == p.out
        && (p.More? ==> state == DstChksmAllSent && buf[..length] == p.rest)
        && (p.AllDone? ==> state == DstClosed(Done(strong(out) == req.md5)))
        && (p.Failed? ==> state == DstClosed(Aborted))
    {
      hide Parse, ParsePacket;
      if rd == ReadFailed {
        state, event := DstClosed(Aborted), NoEvent;
        return;
      }
      if rd.Read? {
        StoreRead(rd.data);
      }
      assert buf[offset..length] == buf[..length];
      if rd == ReadInterrupted { WaitingParse(TheTarget(), buf[..length], out); }
      var i := ParseDeltaFile();
      if i == ParsedAll {
        var verified := strong(out) == req.md5;
        state, event := DstClosed(Done(verified)), NoEvent;
      } else if i == ParseErr {
        state, event := DstClosed(Aborted), NoEvent;
      }
    }
  }

  /** The step of the value machine that goes with the result of a read. */
  function AfterDstRead(disk: Disk, strong: Strong, t: Dst, rd: ReadResult): (d: Dst)
    requires DstReads(t)
  {
    match rd
    case Read(data) => DstGot(disk, strong, t, data)
    case ReadInterrupted => if t.state == DstChksmAllSent then DstDeltaIn(strong, t) else t
    case ReadFailed => DstAbort(t)
  }

  lemma NothingToParse(d: Target, s: seq<byte>, out: seq<byte>)
    requires s == []
    ensures ParsePacket(d, s, out) == NeedMore
  {
  }

  lemma WaitingParse(d: Target, s: seq<byte>, out: seq<byte>)
    requires ParsePacket(d, s, out) == NeedMore
    ensures Parse(d, s, out) == More(s, out)
  {
  }

  /** Running the parser again without new bytes changes nothing. */
  lemma InterruptedReadIsHarmless(disk: Disk, strong: Strong, t: Dst, s: seq<byte>, before: seq<byte>)
    requires t.state == DstChksmAllSent && t.offset == 0
    requires Parse(DstTarget(t), s, before) == More(t.buf, t.out)
    ensures AfterDstRead(disk, strong, t, ReadInterrupted) == t
  {
    hide Parse;
    ParseSplit(DstTarget(t), s, [], before);
    assert s + [] == s && t.buf + [] == t.buf;
  }

  lemma PathDef(dir: Path, name: seq<byte>)
    ensures PathOf(dir, name) == Joined(dir, name)[..Min(|Joined(dir, name)|, TMP_FILE_NAME_LEN - 1)]
  {
  }

  /** What the buffer holds after snprintf, as a C string. */
  lemma PrintedPath(text: seq<byte>, zeros: seq<byte>)
    requires NoNul(text) && zeros == Zeros(TMP_FILE_NAME_LEN)
    ensures CString(Splice(zeros, 0, Printed(text, TMP_FILE_NAME_LEN)))
         == text[..Min(|text|, TMP_FILE_NAME_LEN - 1)]
  {
    var cut := text[..Min(|text|, TMP_FILE_NAME_LEN - 1)];
    var s := Splice(zeros, 0, Printed(text, TMP_FILE_NAME_LEN));
    assert s[..|cut|] == cut && s[|cut|] == 0;
    assert forall i :: 0 <= i < |cut| ==> s[i] == cut[i] != 0;
  }

  lemma WholeBlocks(size: nat, bs: nat)
    requires bs >= 1
    ensures size / bs * bs <= size
  {
  }

  lemma HeaderInPlace(b: seq<byte>, text: seq<byte>)
    requires CHECKSUM_HEADER_SIZE <= |b| && b == Zeros(|b|)
    ensures Splice(b, 0, Printed(text, CHECKSUM_HEADER_SIZE))[..CHECKSUM_HEADER_SIZE]
         == Framed(text, CHECKSUM_HEADER_SIZE)
  {
  }

  /** The step of the value machine that goes with the result of a write. */
  function AfterDstWrite(disk: Disk, strong: Strong, t: Dst, w: WriteResult): (d: Dst)
    requires DstSends(t)
  {
    match w
    case Written(n) => DstWrote(disk, strong, t, n)
    case WriteInterrupted => t
    case WriteFailed => DstAbort(t)
  }

  lemma NextBlock(basis: seq<byte>, bs: nat, i: nat, blockNr: nat)
    requires bs >= 1 && i < blockNr && blockNr * bs <= |basis|
    ensures i * bs + bs == (i + 1) * bs <= |basis|
  {
    assert (i + 1) * bs <= blockNr * bs;
  }

  lemma FrameInPlace(b: seq<byte>, p: nat, text: seq<byte>)
    requires p + CHECKSUM_SIZE <= |b| && b[p..] == Zeros(|b| - p)
    ensures var c := Splice(b, p, Printed(text, CHECKSUM_SIZE));
            && c[..p + CHECKSUM_SIZE] == b[..p] + Framed(text, CHECKSUM_SIZE)
            && c[p + CHECKSUM_SIZE..] == Zeros(|b| - p - CHECKSUM_SIZE)
  {
    var t := Printed(text, CHECKSUM_SIZE);
    var c, f := Splice(b, p, t), Framed(text, CHECKSUM_SIZE);
    assert forall k :: p <= k < |b| ==> b[k] == b[p..][k - p] == 0;
    forall k | 0 <= k < CHECKSUM_SIZE
      ensures c[p + k] == f[k]
    {
    }
    assert c[p..p + CHECKSUM_SIZE] == f;
    assert c[..p + CHECKSUM_SIZE] == c[..p] + c[p..p + CHECKSUM_SIZE];
  }

  lemma OneMoreRecord(basis: seq<byte>, bs: nat, strong: Strong, from: nat, n: nat)
    ensures FramesOf(RecordRange(basis, bs, strong, from, n + 1))
         == FramesOf(RecordRange(basis, bs, strong, from, n)) + RecordFrame(BlockRecord(basis, bs, strong, from + n))
  {
    hide RecordFrame, BlockRecord;
    assert RecordRange(basis, bs, strong, from, n + 1)[..n] == RecordRange(basis, bs, strong, from, n);
  }

  lemma NoField(s: seq<byte>, p: nat)
    requires p < |s| && s[p] != DOLLAR
    ensures Field(s, p, DOLLAR, NEWLINE) == None
  {
  }
}
