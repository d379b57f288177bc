/** The handlers of the two programs and the steps of the session: whatever a socket call comes to, what the
    handler does is nothing at all, one step of the session, or giving up. */
module Handlers {
  import opened Bytes
  import opened Decimal
  import opened HashTable
  import opened Delta
  import opened DeltaParse
  import opened Frames
  import opened Protocol
  import opened Session
  import opened Runs
  import opened Guarantees
  import SourceProcess
  import DestinationProcess

  /** A write of the source. */
  lemma SrcWriteIsStep(c: World, y: Sys, w: WriteResult)
    requires LegalWorld(c) && Inv(c, y) && SrcSends(y.src)
    requires w.Written? ==> 1 <= w.n <= |y.src.buf| - y.src.offset
    ensures var s := SourceProcess.AfterWrite(y.src, w);
            && (w.WriteInterrupted? ==> s == y.src)
            && (w.WriteFailed? ==> s == SrcAbort(y.src) && (Enabled(c, y, SrcFails) ==> Next(c, y, SrcFails).src == s))
            && (w.Written? ==>
                  && Enabled(c, y, SrcWrites(w.n)) && Next(c, y, SrcWrites(w.n)).src == s
                  && Next(c, y, SrcWrites(w.n)).up == y.up + y.src.buf[y.src.offset..y.src.offset + w.n])
  {
    hide Inv, SrcGot, SrcWrote, BlockNr;
  }

  /** A read of the source, of the bytes that come next. */
  lemma SrcReadIsStep(c: World, y: Sys, rd: ReadResult)
    requires LegalWorld(c) && Inv(c, y) && SrcReads(y.src)
    requires rd.Read? ==>
      && 1 <= |rd.data| <= SrcWant(y.src) && y.downRead + |rd.data| <= |y.down|
      && rd.data == y.down[y.downRead..y.downRead + |rd.data|]
    ensures var s := SourceProcess.AfterRead(y.src, rd);
            && (rd.ReadInterrupted? ==> s == y.src)
            && (rd.ReadFailed? ==> s == SrcAbort(y.src) && (Enabled(c, y, SrcFails) ==> Next(c, y, SrcFails).src == s))
            && (rd.Read? ==>
                  && Enabled(c, y, SrcTakes(|rd.data|)) && Next(c, y, SrcTakes(|rd.data|)).src == s
                  && Next(c, y, SrcTakes(|rd.data|)).downRead == y.downRead + |rd.data|)
  {
    hide Inv, SrcGot, SrcWrote, BlockNr;
  }

  /** on_write of the destination. */
  lemma DstWriteIsStep(c: World, y: Sys, w: WriteResult)
    requires LegalWorld(c) && Inv(c, y) && y.dst.event == OnWrite
    requires w.Written? ==> 1 <= w.n <= |y.dst.buf| - y.dst.offset
    ensures DstSends(y.dst)
    ensures var d := DestinationProcess.AfterDstWrite(c.disk, c.src.strong, y.dst, w);
            && (w.WriteInterrupted? ==> d == y.dst)
            && (w.WriteFailed? ==> d == DstAbort(y.dst) && (Enabled(c, y, DstFails) ==> Next(c, y, DstFails).dst == d))
            && (w.Written? ==>
                  && Enabled(c, y, DstWrites(w.n)) && Next(c, y, DstWrites(w.n)).dst == d
                  && Next(c, y, DstWrites(w.n)).down == y.down + y.dst.buf[y.dst.offset..y.dst.offset + w.n])
  {
    hide SrcInv, NoGivingUp, DstInv, DstWrote, BlockNr, DownAll;
    DstPhase(c, y.dst, y.up, y.upRead, y.down);
  }

  /** on_read of the destination. An interrupted read runs the parser again, which changes nothing. */
  lemma DstReadIsStep(c: World, y: Sys, rd: ReadResult)
    requires LegalWorld(c) && Inv(c, y) && y.dst.event == OnRead
    requires rd.Read? ==> DstReads(y.dst) ==>
      && 1 <= |rd.data| <= DstWant(y.dst) && y.upRead + |rd.data| <= |y.up|
      && rd.data == y.up[y.upRead..y.upRead + |rd.data|]
    ensures DstReads(y.dst)
    ensures var d := DestinationProcess.AfterDstRead(c.disk, c.src.strong, y.dst, rd);
            && (rd.ReadInterrupted? ==> d == y.dst)
            && (rd.ReadFailed? ==> d == DstAbort(y.dst) && (Enabled(c, y, DstFails) ==> Next(c, y, DstFails).dst == d))
            && (rd.Read? ==>
                  && Enabled(c, y, DstTakes(|rd.data|)) && Next(c, y, DstTakes(|rd.data|)).dst == d
                  && Next(c, y, DstTakes(|rd.data|)).upRead == y.upRead + |rd.data|)
  {
    hide SrcInv, NoGivingUp, DownAll, Parse;
    DstPhase(c, y.dst, y.up, y.upRead, y.down);
    if y.dst.state == DstChksmAllSent {
      DestinationProcess.InterruptedReadIsHarmless(c.disk, c.src.strong, y.dst, Delivered(y.up, y.upRead), []);
    }
  }

  /** A process that gives up takes part in nothing more. */
  lemma GivingUpIsFinal(c: World, y: Sys, l: Label)
    requires Enabled(c, y, l)
    ensures y.src.state.SrcClosed? ==> l.DstWrites? || l.DstTakes? || l.DstFails?
    ensures y.dst.state.DstClosed? ==> !l.DstWrites? && !l.DstTakes? && !l.DstFails?
  {
  }
}
