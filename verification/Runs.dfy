/** Every step of the session keeps the invariant. */
module Runs {
  import opened Bytes
  import opened Decimal
  import opened HashTable
  import opened Delta
  import opened DeltaParse
  import opened Frames
  import opened Protocol
  import opened Session

  // ---------------------------------------------------------------- what a step leaves alone

  lemma DstUpGrows(c: World, t: Dst, up: seq<byte>, upRead: nat, down: seq<byte>, more: seq<byte>)
    requires LegalWorld(c) && upRead <= |up| && DstInv(c, t, up, upRead, down)
    ensures DstInv(c, t, up + more, upRead, down)
  {
    hide DownAll, DownUpTo, Parse, Known, TheTarget;
    assert (up + more)[..upRead] == up[..upRead];
    if upRead >= FILE_INFO_SIZE {
      assert Delivered(up + more, upRead) == Delivered(up, upRead);
    }
  }

  lemma SrcDownGrows(c: World, s: Src, up: seq<byte>, down: seq<byte>, downRead: nat, more: seq<byte>)
    requires downRead <= |down| && SrcInv(c, s, up, down, downRead)
    ensures SrcInv(c, s, up, down + more, downRead)
  {
    hide Packed, Accounted, UpStart, AllRecords, BlockNr, HasTable, BatchCount, Sent;
    assert (down + more)[..downRead] == down[..downRead];
    if s.state == SrcChksmHeaderReceived {
      var i := FrameAt(|s.table|);
      assert (down + more)[i..downRead] == down[i..downRead];
    }
  }

  // ---------------------------------------------------------------- source steps

  lemma MoveBytes(up: seq<byte>, buf: seq<byte>, i: nat, n: nat)
    requires i + n <= |buf|
    ensures (up + buf[i..i + n]) + buf[i + n..] == up + buf[i..]
    ensures buf[..i] + buf[i..i + n] == buf[..i + n]
    ensures i + n == |buf| ==> up + buf[i..i + n] == up + buf[i..]
  {
  }

  lemma SrcWritesKeeps(c: World, s: Src, up: seq<byte>, down: seq<byte>, downRead: nat, n: nat)
    requires downRead <= |down| && SrcInv(c, s, up, down, downRead)
    requires SrcSends(s) && 1 <= n && s.offset + n <= |s.buf|
    ensures SrcInv(c, SrcWrote(s, n), up + s.buf[s.offset..s.offset + n], down, downRead)
  {
    hide Packed, UpStart, AllRecords, BlockNr, BatchCount, Sent, TallyOf, Wrapped;
    MoveBytes(up, s.buf, s.offset, n);
    var up' := up + s.buf[s.offset..s.offset + n];
    var t := SrcWrote(s, n);
    assert s.buf[..|s.buf|] == s.buf;
    assert Sent(c, t) == Sent(c, s) by { SentSame(c, s, t); }
    assert down[..0] == [];
  }

  lemma SentSame(c: World, s: Src, t: Src)
    requires s.packets == t.packets
    ensures Sent(c, s) == Sent(c, t)
  {
  }

  /** The checksum header arrives whole and is the one sent. */
  lemma HeaderArrives(c: World, s: Src, up: seq<byte>, down: seq<byte>, downRead: nat)
    requires LegalWorld(c) && downRead <= |down| && down <= DownAll(c)
    requires s.state == SrcReqSent && BeforeDelta(c, s) && up == UpStart(c) && Accounted(s, up, downRead)
    requires Packed(c, s.packets, s.pos)
    requires s.buf == down[..downRead] && |s.buf| == CHECKSUM_HEADER_SIZE
    ensures SrcInv(c, SrcHeaderIn(s), up, down, downRead)
    ensures !SrcHeaderIn(s).state.SrcClosed?
  {
    hide Packed, UpStart, DownAll, HeaderFrame, AllRecords, BlockNr, ParseHeaderFrame;
    DownHead(c, down);
    BlockCount(c);
    HeaderFrameRoundTrip(BlockNr(c), Zeros(BUF_SIZE - CHECKSUM_HEADER_SIZE));
    assert Received(s.buf) == HeaderFrame(BlockNr(c)) + Zeros(BUF_SIZE - CHECKSUM_HEADER_SIZE);
    var t := SrcHeaderIn(s);
    assert t.table == AllRecords(c)[..|t.table|];
    assert t.buf == down[FrameAt(0)..downRead];
    if BlockNr(c) == 0 {
      assert AllRecords(c) == [];
    }
  }

  /** A batch arrives whole and is taken exactly when each of its records can be read. */
  lemma BatchArrives(c: World, s: Src, up: seq<byte>, down: seq<byte>, downRead: nat)
    requires LegalWorld(c) && downRead <= |down| && down <= DownAll(c)
    requires s.state == SrcChksmHeaderReceived && BeforeDelta(c, s) && up == UpStart(c) && Accounted(s, up, downRead)
    requires Packed(c, s.packets, s.pos)
    requires s.blockNr == BlockNr(c) && |s.table| < BlockNr(c)
    requires s.table == AllRecords(c)[..|s.table|] && AllReadable(s.table)
    requires |s.buf| == BatchCount(s) * CHECKSUM_SIZE
    requires downRead == FrameAt(|s.table|) + |s.buf| && s.buf == down[FrameAt(|s.table|)..downRead]
    ensures SrcInv(c, SrcBatchIn(s), up, down, downRead)
    ensures SrcBatchIn(s).state.SrcClosed? ==> !AllReadable(AllRecords(c))
  {
    hide Packed, UpStart, DownAll, HeaderFrame, AllRecords, BlockNr, ParseBatch, FramesOf, LegalRecord;
    var k, n := |s.table|, BatchCount(s);
    var all := AllRecords(c);
    var rs := all[k..k + n];
    DownSlice(c, down, k, n);
    BlockCount(c);
    assert LegalRecords(rs);
    var b := Received(s.buf);
    assert At(b, 0, FramesOf(rs)) by { assert b[0..|s.buf|] == s.buf; }
    BatchRoundTrip(rs, b);
    if AllReadable(rs) {
      assert s.table + rs == all[..k + n];
      assert AllReadable(s.table + rs);
      assert down[FrameAt(k + n)..downRead] == [];
    } else {
      var i :| 0 <= i < n && rs[i].rcksm == U32 - 1;
      assert all[k + i].rcksm == U32 - 1;
      PrefixOfSent(c, s);
    }
  }

  lemma PrefixOfSent(c: World, s: Src)
    requires s.packets == []
    ensures UpStart(c) <= Sent(c, s)
  {
    hide UpStart;
  }

  lemma SrcTakesKeeps(c: World, s: Src, up: seq<byte>, down: seq<byte>, downRead: nat, n: nat)
    requires LegalWorld(c) && downRead <= |down| && down <= DownAll(c) && SrcInv(c, s, up, down, downRead)
    requires SrcReads(s) && 1 <= n <= SrcWant(s) && downRead + n <= |down|
    ensures var t := SrcGot(s, down[downRead..downRead + n]);
            && SrcInv(c, t, up, down, downRead + n)
            && (t.state.SrcClosed? ==> !AllReadable(AllRecords(c)))
  {
    hide Packed, UpStart, DownAll, AllRecords, BlockNr, SrcHeaderIn, SrcBatchIn, TallyOf, Wrapped;
    var data := down[downRead..downRead + n];
    var r := s.(buf := s.buf + data, totalRecved := s.totalRecved + |data|);
    if s.state == SrcReqSent {
      assert r.buf == down[..downRead + n];
      if n == SrcWant(s) { HeaderArrives(c, r, up, down, downRead + n); }
    } else {
      assert r.buf == down[FrameAt(|s.table|)..downRead + n];
      if n == SrcWant(s) { BatchArrives(c, r, up, down, downRead + n); }
    }
  }

  /** One call of prepare_delta keeps the packets in step with the greedy scan. */
  lemma CallPacks(c: World, s: Src)
    requires LegalWorld(c) && HasTable(c, s) && Packed(c, s.packets, s.pos) && s.pos < |c.src.file|
    ensures var r := DeltaCall(IndexScanner(c.src.bs, s.table, c.src.strong), c.src.file, s.pos);
            && Packed(c, s.packets + r.0, r.1) && 0 < |EncodeAll(r.0)| <= BUF_SIZE
  {
    hide IndexScanner, BlockNr, AllRecords, DeltaCall, Greedy, AtomsOf, EncodeAll;
    var x := TheScanner(c);
    var file := c.src.file;
    BlockCount(c);
    TableInRange(c);
    TableFindsBelow(c.src.bs, s.table, c.src.strong, BlockNr(c));
    CallSize(x, file, s.pos, BlockNr(c));
    CallRefinesGreedy(x, file, s.pos);
    var r := DeltaCall(x, file, s.pos);
    AtomsConcat(s.packets, r.0);
    Assoc(AtomsOf(s.packets), AtomsOf(r.0), Greedy(x, file, r.1));
  }

  lemma TableInRange(c: World)
    ensures forall i :: 0 <= i < |AllRecords(c)| ==> AllRecords(c)[i].nr < BlockNr(c)
  {
  }

  lemma SrcWorksKeeps(c: World, s: Src, up: seq<byte>, down: seq<byte>, downRead: nat)
    requires LegalWorld(c) && downRead <= |down| && SrcInv(c, s, up, down, downRead)
    requires SrcComputes(s) && s.pos <= |c.src.file|
    ensures SrcInv(c, SrcCompute(c.src, s), up, down, downRead)
    ensures var t := SrcCompute(c.src, s); t.state.SrcClosed? ==> AllSent(c, t, up, downRead)
  {
    hide Packed, UpStart, AllRecords, BlockNr, DeltaCall, IndexScanner, EncodeAll, TallyOf, AccountsAgree;
    match s.state
    case SrcChksmHeaderReceived => assert AllRecords(c)[..BlockNr(c)] == AllRecords(c);
    case SrcChksmAllReceived =>
      EncodeNothing();
      NothingTallied(s.packets);
      assert UpStart(c) + EncodeAll(s.packets) == UpStart(c);
    case SrcCalculateDelta => CalculateKeeps(c, s, up, down, downRead);
    case SrcDeltaFileDone =>
  }

  lemma NothingTallied(ps: seq<Packet>)
    requires ps == []
    ensures Wrapped(TallyOf(ps)) == Tally(0, 0, 0, 0)
  {
  }

  lemma CalculateKeeps(c: World, s: Src, up: seq<byte>, down: seq<byte>, downRead: nat)
    requires LegalWorld(c) && downRead <= |down| && SrcInv(c, s, up, down, downRead)
    requires s.state == SrcCalculateDelta
    ensures SrcInv(c, SrcCompute(c.src, s), up, down, downRead)
  {
    hide Packed, UpStart, AllRecords, BlockNr, DeltaCall, IndexScanner, EncodeAll, TallyOf;
    if s.pos < |c.src.file| {
      var r := DeltaCall(IndexScanner(c.src.bs, s.table, c.src.strong), c.src.file, s.pos);
      CallPacks(c, s);
      EncodeConcat(s.packets, r.0);
      Assoc(UpStart(c), EncodeAll(s.packets), EncodeAll(r.0));
      CountAdds(s.packets, r.0);
      var e := EncodeAll(r.0);
      assert e[0..] == e;
    }
  }

  lemma CountAdds(a: seq<Packet>, b: seq<Packet>)
    ensures Count(Wrapped(TallyOf(a)), b) == Wrapped(TallyOf(a + b))
  {
    hide TallyOf;
    TallyConcat(a, b);
    U32Absorb(TallyOf(a).dups, TallyOf(b).dups);
  }

  /** Both assertions of SRC_DELTA_FILE_DONE hold, unless there are 2^26 blocks or more: the number of
      checksum bytes is a 32-bit product. */
  lemma AccountsDoAgree(c: World, s: Src, up: seq<byte>, downRead: nat)
    requires LegalWorld(c) && Accounted(s, up, downRead) && Ready(c, s, downRead) && up == Sent(c, s)
    ensures AccountsAgree(s) <==> BlockNr(c) < 0x400_0000
  {
    hide UpStart, AllRecords, BlockNr, EncodeAll, TallyOf;
    TallyIsLength(s.packets);
    BlockCount(c);
  }

  // ---------------------------------------------------------------- destination steps

  /** The whole request arrives and is recovered field by field, but for a modification time of -1. */
  lemma RequestArrives(c: World, buf: seq<byte>)
    requires LegalWorld(c) && buf == UpStart(c)
    ensures ParseRequest(Received(buf)) ==
            if c.src.mtime == -1 then None
            else Some(Request(c.src.name, |c.src.file|, c.src.bs, c.src.mtime, c.src.strong(c.src.file)))
  {
    hide RequestFrame, ParseRequest, LegalRequest;
    RequestIsLegal(c);
    RequestRoundTrip(RequestOf(c.src), Zeros(BUF_SIZE - FILE_INFO_SIZE));
  }

  lemma RequestTaken(c: World, t: Dst, up: seq<byte>, down: seq<byte>)
    requires LegalWorld(c) && FILE_INFO_SIZE <= |up| && down == [] && c.src.mtime != -1
    requires t.state == DstInit && t.buf == UpStart(c)
    ensures var r := t.(state := DstReqReceived, req := RequestOf(c.src));
            var d := DstRequestIn(c.disk, r);
            && DstInv(c, d, up, FILE_INFO_SIZE, down)
            && (d.state == DstClosed(Aborted) ==> OldFile(c).None?)
  {
    hide DownAll, HeaderFrame, UpStart, RequestFrame;
    BlockCount(c);
    var h := HeaderFrame(BlockNr(c));
    assert h[..0] == [];
    assert [] <= DownAll(c);
  }

  lemma DstTakesKeeps(c: World, t: Dst, s: Src, up: seq<byte>, upRead: nat, down: seq<byte>, n: nat)
    requires LegalWorld(c) && upRead <= |up| && DstInv(c, t, up, upRead, down)
    requires up <= Sent(c, s) && Packed(c, s.packets, s.pos)
    requires DstReads(t) && 1 <= n <= DstWant(t) && upRead + n <= |up|
    ensures var d := DstGot(c.disk, c.src.strong, t, up[upRead..upRead + n]);
            && DstInv(c, d, up, upRead + n, down)
            && (d.state == DstClosed(Aborted) ==>
                  OldFile(c).None? || c.src.mtime == -1 || !ReferencesReadable(c))
  {
    hide DownAll, UpStart, RequestFrame, Packed, EncodeAll, Parse, ParseRequest, DstRequestIn, DownUpTo, BlockNr,
         LegalWorld, ReferencesReadable;
    var data := up[upRead..upRead + n];
    if t.state == DstInit {
      var buf := t.buf + data;
      assert buf == up[..upRead + n];
      if |buf| == FILE_INFO_SIZE {
        StartOfSent(c, s, up);
        RequestArrives(c, buf);
        if c.src.mtime != -1 { RequestTaken(c, t.(buf := buf), up, down); }
      }
    } else {
      DeltaTaken(c, t, s, up, upRead, down, n);
    }
  }

  lemma StartOfSent(c: World, s: Src, up: seq<byte>)
    requires up <= Sent(c, s) && FILE_INFO_SIZE <= |up|
    ensures up[..FILE_INFO_SIZE] == UpStart(c)
  {
    hide UpStart, EncodeAll;
  }

  /** A read of delta bytes: the parser goes on from where it stopped, and fails only if some
      reference cannot be read. */
  lemma DeltaTaken(c: World, t: Dst, s: Src, up: seq<byte>, upRead: nat, down: seq<byte>, n: nat)
    requires upRead + n <= |up| && t.state == DstChksmAllSent && AtAllSent(c, t, up, upRead, down)
    requires LegalWorld(c) && up <= Sent(c, s) && Packed(c, s.packets, s.pos)
    ensures var d := DstGot(c.disk, c.src.strong, t, up[upRead..upRead + n]);
            && DstInv(c, d, up, upRead + n, down)
            && (d.state == DstClosed(Aborted) ==> !ReferencesReadable(c))
  {
    hide DownAll, UpStart, Packed, EncodeAll, Parse, DownUpTo, BlockNr, Sent, Delivered, ReferencesReadable, LegalWorld,
         AtInit, AtReqReceived, AtHeaderSent;
    var data := up[upRead..upRead + n];
    DeliveredIsPrefix(c, s, up, upRead + n);
    DeliveredGrows(up, upRead, n);
    ParseSplit(TheTarget(c), Delivered(up, upRead), data, []);
    if ReferencesReadable(c) {
      PacketsAreReadable(c, s.packets, s.pos);
      ReadableNeverFails(TheTarget(c), s.packets, Delivered(up, upRead + n));
    }
    var r := t.(buf := t.buf + data);
    assert DstTarget(r) == TheTarget(c);
  }

  lemma DeliveredGrows(up: seq<byte>, upRead: nat, n: nat)
    requires FILE_INFO_SIZE <= upRead && upRead + n <= |up|
    ensures Delivered(up, upRead) + up[upRead..upRead + n] == Delivered(up, upRead + n)
  {
  }

  lemma PacketsAreGood(c: World, ps: seq<Packet>, pos: nat)
    requires LegalWorld(c) && Packed(c, ps, pos)
    ensures GoodPackets(ps, U32 - 1) && TheTarget(c).bs >= 1
  {
    hide Greedy, AtomsOf, TheScanner, AllRecords, BlockNr;
    BlockCount(c);
    forall i | 0 <= i < |ps|
      ensures GoodPacket(ps[i], U32 - 1)
    {
      assert GoodPacket(ps[i], BlockNr(c));
    }
  }

  lemma PacketsAreReadable(c: World, ps: seq<Packet>, pos: nat)
    requires LegalWorld(c) && Packed(c, ps, pos) && ReferencesReadable(c)
    ensures GoodPackets(ps, U32 - 1) && TheTarget(c).bs >= 1 && Readable(TheTarget(c), 0, AtomsOf(ps))
  {
    hide Greedy, AtomsOf, TheScanner, AllRecords, BlockNr, Readable, Weight, GoodPackets, LegalWorld;
    PacketsAreGood(c, ps, pos);
    ReadableConcat(TheTarget(c), 0, AtomsOf(ps), Greedy(TheScanner(c), c.src.file, pos));
  }

  /** After a whole buffer has gone out, the next batch, or the switch to reading the delta. */
  lemma NextBatchKeeps(c: World, t: Dst, up: seq<byte>, down: seq<byte>)
    requires LegalWorld(c) && FILE_INFO_SIZE <= |up| && Known(c, t)
    requires t.state == DstChksmHeaderSent && t.event == OnWrite && t.sent <= BlockNr(c)
    requires down == DownUpTo(c, t.sent)
    ensures var d := DstNextBatch(c.disk, c.src.strong, t);
            && DstInv(c, d, up, FILE_INFO_SIZE, down)
            && (d.state.DstClosed? ==> NewFile(c).None?)
  {
    hide DstNextBatch, AtHeaderSent, AtAllSent, DownUpTo, BlockNr, AllRecords;
    DownPrefix(c, t.sent);
    if t.sent < BlockNr(c) {
      MoreFrames(c, t, down);
    } else {
      SwitchToDelta(c, t, up, down);
    }
  }

  lemma MoreFrames(c: World, t: Dst, down: seq<byte>)
    requires LegalWorld(c) && Known(c, t)
    requires t.state == DstChksmHeaderSent && t.event == OnWrite && t.sent < BlockNr(c)
    requires down == DownUpTo(c, t.sent)
    ensures var d := DstNextBatch(c.disk, c.src.strong, t);
            d.state == DstChksmHeaderSent && AtHeaderSent(c, d, FILE_INFO_SIZE, down)
  {
    hide DownUpTo, FramesOf, BlockNr, AllRecords, RecordRange;
    var n := Min(CHECKSUMS_PER_BUF, BlockNr(c) - t.sent);
    var rs := RecordRange(t.local.data, t.req.bs, c.src.strong, t.sent, n);
    BatchIsSlice(c, t.sent, n);
    DownBatch(c, t.sent, n);
    var f := FramesOf(rs);
    assert f[0..] == f;
  }

  lemma BatchIsSlice(c: World, sent: nat, n: nat)
    requires sent + n <= BlockNr(c)
    ensures RecordRange(Basis(c), c.src.bs, c.src.strong, sent, n) == AllRecords(c)[sent..sent + n]
  {
    hide BlockRecord;
  }

  lemma SwitchToDelta(c: World, t: Dst, up: seq<byte>, down: seq<byte>)
    requires LegalWorld(c) && FILE_INFO_SIZE <= |up| && Known(c, t)
    requires t.state == DstChksmHeaderSent && t.event == OnWrite && t.sent == BlockNr(c)
    requires down == DownUpTo(c, t.sent)
    ensures var d := DstNextBatch(c.disk, c.src.strong, t);
            if NewFile(c).None? then d.state == DstClosed(Aborted) && AtAborted(c, d, FILE_INFO_SIZE, down)
            else d.state == DstChksmAllSent && AtAllSent(c, d, up, FILE_INFO_SIZE, down)
  {
    hide DownUpTo, Parse, BlockNr, LegalWorld, TheTarget;
    assert Delivered(up, FILE_INFO_SIZE) == [];
    ParseEmpty(TheTarget(c), []);
  }

  lemma DownPrefix(c: World, sent: nat)
    requires sent <= BlockNr(c)
    ensures DownUpTo(c, sent) <= DownAll(c)
  {
    DownBatch(c, sent, BlockNr(c) - sent);
  }

  lemma DstWritesKeeps(c: World, t: Dst, up: seq<byte>, upRead: nat, down: seq<byte>, n: nat)
    requires LegalWorld(c) && upRead <= |up| && DstInv(c, t, up, upRead, down)
    requires DstSends(t) && 1 <= n && t.offset + n <= |t.buf|
    ensures var d := DstWrote(c.disk, c.src.strong, t, n);
            && DstInv(c, d, up, upRead, down + t.buf[t.offset..t.offset + n])
            && (d.state.DstClosed? ==> NewFile(c).None?)
  {
    if t.state == DstReqReceived {
      HeaderWritten(c, t, up, upRead, down, n);
    } else {
      FramesWritten(c, t, up, upRead, down, n);
    }
  }

  lemma HeaderWritten(c: World, t: Dst, up: seq<byte>, upRead: nat, down: seq<byte>, n: nat)
    requires LegalWorld(c) && upRead <= |up| && AtReqReceived(c, t, upRead, down)
    requires t.state == DstReqReceived && 1 <= n && t.offset + n <= |t.buf|
    ensures var d := DstWrote(c.disk, c.src.strong, t, n);
            && DstInv(c, d, up, upRead, down + t.buf[t.offset..t.offset + n])
            && (d.state.DstClosed? ==> NewFile(c).None?)
  {
    hide DownAll, DownUpTo, BlockNr, AllRecords, HeaderFrame, DstNextBatch, AtHeaderSent, AtAllSent, AtInit, AtDone;
    HeaderOnly(c);
    DownPrefix(c, 0);
    assert t.buf[..t.offset] + t.buf[t.offset..] == t.buf;
    Moved(down, t.buf, t.offset, n, t.buf, DownAll(c));
    MoveBytes(down, t.buf, t.offset, n);
    if t.offset + n == |t.buf| {
      NextBatchKeeps(c, t.(offset := t.offset + n, state := DstChksmHeaderSent, sent := 0), up, t.buf);
    }
  }

  /** Writing part of a buffer that completes `whole`. */
  lemma Moved(out: seq<byte>, buf: seq<byte>, i: nat, n: nat, whole: seq<byte>, all: seq<byte>)
    requires i + n <= |buf| && out + buf[i..] == whole && whole <= all
    ensures var out' := out + buf[i..i + n];
            out' + buf[i + n..] == whole && out' <= all && (i + n == |buf| ==> out' == whole)
  {
    MoveBytes(out, buf, i, n);
    assert out + buf[i..i + n] <= whole;
  }

  lemma FramesWritten(c: World, t: Dst, up: seq<byte>, upRead: nat, down: seq<byte>, n: nat)
    requires LegalWorld(c) && upRead <= |up| && AtHeaderSent(c, t, upRead, down)
    requires t.state == DstChksmHeaderSent && 1 <= n && t.offset + n <= |t.buf|
    ensures var d := DstWrote(c.disk, c.src.strong, t, n);
            && DstInv(c, d, up, upRead, down + t.buf[t.offset..t.offset + n])
            && (d.state.DstClosed? ==> NewFile(c).None?)
  {
    hide DownAll, DownUpTo, BlockNr, AllRecords, DstNextBatch, AtReqReceived, AtAllSent, AtInit, AtDone, AtHeaderSent;
    var down' := down + t.buf[t.offset..t.offset + n];
    FramesMoved(c, t, upRead, down, n);
    if t.offset + n == |t.buf| {
      NextBatchKeeps(c, t.(offset := t.offset + n), up, down');
    }
  }

  lemma FramesMoved(c: World, t: Dst, upRead: nat, down: seq<byte>, n: nat)
    requires AtHeaderSent(c, t, upRead, down)
    requires 1 <= n && t.offset + n <= |t.buf|
    ensures var down' := down + t.buf[t.offset..t.offset + n];
            && t.offset < |t.buf| && t.sent <= BlockNr(c) && down' <= DownAll(c)
            && Known(c, t) && t.event == OnWrite && upRead == FILE_INFO_SIZE
            && if t.offset + n == |t.buf| then down' == DownUpTo(c, t.sent)
               else AtHeaderSent(c, t.(offset := t.offset + n), upRead, down')
  {
    hide DownUpTo, DownAll, BlockNr, AllRecords;
    DownPrefix(c, t.sent);
    Moved(down, t.buf, t.offset, n, DownUpTo(c, t.sent), DownAll(c));
  }

  lemma HeaderOnly(c: World)
    ensures DownUpTo(c, 0) == HeaderFrame(BlockNr(c))
  {
    hide HeaderFrame, BlockNr, AllRecords;
    var none := AllRecords(c)[..0];
    assert none == [];
    assert FramesOf(none) == [];
  }
}
