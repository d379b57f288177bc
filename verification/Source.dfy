/** rzsrc.c: the sender, with its socket buffer, its file buffer and its hash table. */
module SourceProcess {
  import opened Bytes
  import opened Decimal
  import opened Adler32
  import opened HashTable
  import opened Delta
  import opened Frames
  import opened Protocol

  datatype DeltaResult = DeltaOk | NoMoreToSend

  lemma Adjacent(s: seq<byte>, i: nat, j: nat, k: nat)
    requires i <= j <= k <= |s|
    ensures s[i..j] + s[j..k] == s[i..k]
  {
  }

  lemma SameSlice(b: seq<byte>, n: nat, f: seq<byte>, base: nat, i: nat, j: nat)
    requires i <= j <= n <= |b| && base + n <= |f| && b[..n] == f[base..base + n]
    ensures b[i..j] == f[base + i..base + j]
  {
    var x, y := b[i..j], f[base + i..base + j];
    forall k | 0 <= k < j - i
      ensures x[k] == y[k]
    {
      assert x[k] == b[..n][i + k] == f[base..base + n][i + k] == y[k];
    }
  }

  /** One more packet in buffer and counters. */
  lemma OneMore(before: Tally, acc: seq<Packet>, p: Packet)
    ensures EncodeAll(acc + [p]) == EncodeAll(acc) + Encode(p)
    ensures var n, t := Count(before, acc), PacketTally(p);
            Count(before, acc + [p]) == Plus(n, t).(dups := ToU32(n.dups + t.dups))
  {
    hide Encode, PacketTally;
    assert (acc + [p])[..|acc|] == acc;
    U32Absorb(before.dups + TallyOf(acc).dups, PacketTally(p).dups);
  }

  class Source {
    const c: SrcConfig
    const buf: array<byte>
    var length: nat
    var offset: nat
    var state: SrcState
    var blockNr: nat
    var checksumRecvd: nat
    var hashtable: ChecksumHashTable?
    // src_delta: bytes read from the file, and the file buffer
    const fileBuf: array<byte>
    var fileOffset: nat
    var fbOffset: nat
    var fbLength: nat
    // statistics
    var duplicatedBlock: nat
    var dupHeaderSz: nat
    var ndupHeaderSz: nat
    var deltaDataSz: nat
    var totalSent: nat
    var totalRecved: nat
    ghost var packets: seq<Packet>

    /** Source bytes packed so far: those read less those still unprocessed in the file buffer. */
    function Pos(): int
      reads this`fileOffset, this`fbOffset, this`fbLength
    {
      fileOffset - (fbLength - fbOffset)
    }

    ghost function Counters(): (t: Tally)
      reads this`duplicatedBlock, this`dupHeaderSz, this`ndupHeaderSz, this`deltaDataSz
    {
      Tally(duplicatedBlock, dupHeaderSz, ndupHeaderSz, deltaDataSz)
    }

    /** The unprocessed bytes in the file buffer are the source slice that ends at the file read
        offset, and there is less than one block of them. */
    ghost predicate FileBufferValid()
      reads this`fileOffset, this`fbOffset, this`fbLength, fileBuf
    {
      && fbOffset <= fbLength <= fileBuf.Length && fbLength - fbOffset < c.bs
      && fbLength - fbOffset <= fileOffset <= |c.file|
      && fileBuf[fbOffset..fbLength] == c.file[Pos()..fileOffset]
    }

    ghost predicate BuffersStatic()
    {
      LegalSource(c) && buf != fileBuf && buf.Length == BUF_SIZE && fileBuf.Length == BUF_SIZE
    }

    ghost predicate BuffersValid()
      reads this`length, this`offset, this`duplicatedBlock, this`fileOffset, this`fbOffset, this`fbLength, fileBuf
    {
      BuffersStatic() && offset <= length <= BUF_SIZE && FileBufferValid() && duplicatedBlock < U32
    }

    ghost predicate TableValid()
      reads this`hashtable, hashtable, if hashtable == null then {} else hashtable.Repr
    {
      hashtable != null ==>
        && hashtable.Valid() && {this, buf, fileBuf} !! hashtable.Repr
        && forall i :: 0 <= i < |hashtable.records| ==> hashtable.records[i].nr < U32
    }

    lemma TableApart()
      requires TableValid()
      ensures hashtable != null ==> hashtable in hashtable.Repr && {this, buf, fileBuf} !! hashtable.Repr
    {
    }

    lemma TableReady()
      requires TableValid() && hashtable != null
      ensures hashtable.Valid() && forall i :: 0 <= i < |hashtable.records| ==> hashtable.records[i].nr < U32
    {
    }

    /** Nothing in the hash table has been touched. */
    twostate lemma TableStays()
      requires hashtable == old(hashtable) && old(TableValid())
      requires hashtable != null ==> unchanged(hashtable) && unchanged(hashtable.Repr)
      ensures TableValid()
    {
      hide ChecksumHashTable.Valid;
    }

    lemma BlockSizePositive()
      requires LegalSource(c)
      ensures c.bs >= 1024
    {
    }

    /** Reading the file: any positive number of the bytes asked for. */
    method ReadFile(at: nat, max: nat) returns (n: nat)
      requires 1 <= max && at + max <= fileBuf.Length && fileOffset + max <= |c.file|
      modifies fileBuf
      ensures 1 <= n <= max
      ensures fileBuf[..at + n] == old(fileBuf[..at]) + c.file[fileOffset..fileOffset + n]
    {
      n :| 1 <= n <= max;
      Store(fileBuf, at, c.file[fileOffset..fileOffset + n]);
    }

    /** Moves the unprocessed bytes to the front of the file buffer and clears the rest. */
    method Compact()
      requires BuffersValid()
      modifies this`fbOffset, this`fbLength, fileBuf
      ensures fbOffset == 0 && fbLength == old(fbLength - fbOffset) <= fileBuf.Length
      ensures fileBuf[..fbLength] == old(fileBuf[fbOffset..fbLength])
    {
      var n := fbLength - fbOffset;
      var tmp := fileBuf[fbOffset..fbOffset + n];
      Clear(fileBuf, fileBuf.Length);
      if n > 0 {
        Store(fileBuf, 0, tmp);
      }
      fbLength := n;
      fbOffset := 0;
    }

    /** The start of prepare_delta: compacts the file buffer and fills it from the file. */
    method Refill()
      requires BuffersValid()
      modifies this`fileOffset, this`fbOffset, this`fbLength, fileBuf
      ensures BufEnd(c.file, old(Pos())) == fileOffset
      ensures fbOffset == 0 && fbLength == fileOffset - old(Pos()) <= fileBuf.Length
      ensures fileBuf[..fbLength] == c.file[old(Pos())..fileOffset]
    {
      ghost var pos := Pos();
      Compact();
      var left := |c.file| - fileOffset;
      if left == 0 {
        return;
      }
      var toRead := Min(fileBuf.Length - fbLength, left);
      var alreadyRead := 0;
      ghost var start := fileOffset;
      ghost var n := fbLength;
      while alreadyRead != toRead
        invariant 0 <= alreadyRead <= toRead && fbOffset == 0
        invariant fileOffset == start + alreadyRead && fbLength == n + alreadyRead
        invariant fileBuf[..fbLength] == c.file[pos..fileOffset]
        decreases toRead - alreadyRead
      {
        var got := ReadFile(fbLength, toRead - alreadyRead);
        Adjacent(c.file, pos, fileOffset, fileOffset + got);
        alreadyRead := alreadyRead + got;
        fileOffset := fileOffset + got;
        fbLength := fbLength + got;
      }
    }

    /** Packs a header. It must fit with its NUL, or snprintf would cut it. */
    method PackHeader(flag: byte, n: nat) returns (size: nat)
      requires buf.Length == BUF_SIZE && length + |Header(flag, n)| < BUF_SIZE
      modifies this`length, buf
      ensures size == |Header(flag, n)| && length == old(length) + size
      ensures buf[..length] == old(buf[..length]) + Header(flag, n)
    {
      hide Header;
      size := Snprintf(buf, length, BUF_SIZE - length, Header(flag, n));
      assert buf[..length + size + 1] == old(buf[..length]) + (Header(flag, n) + [0]);
      assert buf[..length + size] == buf[..length + size + 1][..length + size];
      length := length + size;
    }

    /** Packs the file buffer bytes from `i` to `j` as a literal packet. */
    method PackLiteral(i: nat, j: nat)
      requires buf != fileBuf && buf.Length == BUF_SIZE && i <= j <= fileBuf.Length
      requires length + |Encode(Lit(fileBuf[i..j]))| < BUF_SIZE
      modifies this`length, this`ndupHeaderSz, this`deltaDataSz, buf
      ensures length == old(length) + |Encode(Lit(fileBuf[i..j]))|
      ensures buf[..length] == old(buf[..length]) + Encode(Lit(fileBuf[i..j]))
      ensures ndupHeaderSz == old(ndupHeaderSz) + |PacketHeader(Lit(fileBuf[i..j]))|
      ensures deltaDataSz == old(deltaDataSz) + (j - i)
    {
      hide Encode, PacketHeader, Header, Splice;
      ghost var data := fileBuf[i..j];
      LiteralParts(data);
      var size := PackHeader(FLAG_NDUP, j - i);
      ndupHeaderSz := ndupHeaderSz + size;
      label packed:
      Store(buf, length, fileBuf[i..j]);
      deltaDataSz := deltaDataSz + (j - i);
      assert buf[..length + (j - i)] == old@packed(buf[..length]) + data;
      length := length + (j - i);
    }

    /** Packs a reference to an old block. */
    method PackReference(nr: nat)
      requires buf.Length == BUF_SIZE && length + |Encode(Dup(nr))| < BUF_SIZE
      modifies this`length, this`dupHeaderSz, buf
      ensures length == old(length) + |Encode(Dup(nr))|
      ensures buf[..length] == old(buf[..length]) + Encode(Dup(nr))
      ensures dupHeaderSz == old(dupHeaderSz) + |PacketHeader(Dup(nr))|
    {
      var size := PackHeader(FLAG_DUP, nr);
      dupHeaderSz := dupHeaderSz + size;
    }

    /** The file buffer is filled: it holds the source bytes before fileOffset. */
    ghost predicate Filled()
      reads this`fileOffset, this`fbLength, fileBuf
    {
      && fbLength <= fileBuf.Length == BUF_SIZE && fbLength <= fileOffset <= |c.file|
      && fileBuf[..fbLength] == c.file[fileOffset - fbLength..fileOffset]
      && (fbLength < BUF_SIZE ==> fileOffset == |c.file|)
    }

    /** The scanner and the window of a filled buffer. */
    ghost predicate Scans(x: Scanner, w: Window)
      requires hashtable != null
      reads this`hashtable, this`fileOffset, this`fbLength, hashtable
    {
      && x == IndexScanner(c.bs, hashtable.records, c.strong)
      && w == Window(c.file, fileOffset, fbLength < BUF_SIZE)
    }

    /** Buffer and counters hold exactly the packets `acc` on top of the counts `before`. */
    ghost predicate Holds(acc: seq<Packet>, before: Tally)
      reads this`length, this`offset, this`duplicatedBlock, this`dupHeaderSz, this`ndupHeaderSz, this`deltaDataSz, buf
    {
      && length <= buf.Length == BUF_SIZE && buf[..length] == EncodeAll(acc) && offset == 0
      && Counters() == Count(before, acc)
    }

    /** The window of the file buffer is the window of the file. */
    lemma WindowIsSlice(i: nat, j: nat)
      requires Filled() && i <= j <= fbLength
      ensures fileBuf[i..j] == c.file[fileOffset - fbLength + i..fileOffset - fbLength + j]
    {
      SameSlice(fileBuf[..], fbLength, c.file, fileOffset - fbLength, i, j);
      assert fileBuf[i..j] == fileBuf[..][i..j];
    }

    /** Packs a literal from the file buffer after the packets `acc`. */
    method PackBytes(start: nat, end: nat, ghost acc: seq<Packet>, ghost before: Tally)
      requires buf != fileBuf && Filled() && start <= end <= fbLength
      requires Holds(acc, before) && length + (end - start) + 10 <= BUF_SIZE
      modifies this`length, this`ndupHeaderSz, this`deltaDataSz, buf
      ensures var base := fileOffset - fbLength;
              Holds(acc + [Lit(c.file[base + start..base + end])], before)
      ensures length <= old(length) + (end - start) + 9
    {
      hide EncodeAll, Encode, PacketHeader, TallyOf;
      ghost var p := Lit(fileBuf[start..end]);
      EncodedLength(p);
      WindowIsSlice(start, end);
      PackLiteral(start, end);
      OneMore(before, acc, p);
    }

    /** Packs a reference after the packets `acc`; duplicated_block is an unsigned int. */
    method PackMatch(nr: nat, ghost acc: seq<Packet>, ghost before: Tally)
      requires nr < U32 && Holds(acc, before) && length + 15 <= BUF_SIZE
      modifies this`length, this`duplicatedBlock, this`dupHeaderSz, buf
      ensures Holds(acc + [Dup(nr)], before) && length <= old(length) + 14
    {
      hide EncodeAll, Encode, PacketHeader, Count;
      EncodedLength(Dup(nr));
      duplicatedBlock := ToU32(duplicatedBlock + 1);
      PackReference(nr);
      OneMore(before, acc, Dup(nr));
    }

    /** Between turns of the packing loop: the packets of `t` are in the buffer, the literal from
        `lit` is pending, and the window at `p` is about to be looked up. */
    ghost predicate AtTurn(x: Scanner, w: Window, t: Scan, lit: nat, p: nat, before: Tally)
      reads this, buf, fileBuf
    {
      && BuffersStatic() && Filled() && x.bs == c.bs && w == Window(c.file, fileOffset, fbLength < BUF_SIZE)
      && lit <= p && p + c.bs <= fbLength
      && t.Scanning? && t.lit == fileOffset - fbLength + lit && t.p == fileOffset - fbLength + p
      && Holds(t.acc, before) && Fits(x, w, fileOffset - fbLength, U32, t)
    }

    /** The loop has stopped: the packets of `t` are in the buffer and the rest is left for later. */
    ghost predicate Stops(t: Scan, before: Tally)
      reads this, buf, fileBuf
    {
      && t.Stopped? && Holds(t.acc, before) && Filled() && Pos() == t.pos
      && fbOffset <= fbLength && fbLength - fbOffset < c.bs
    }

    /** The literal before a match, if any, and the reference. */
    method PackHead(start: nat, checkStart: nat, nr: nat, ghost s: Scan,
        ghost before: Tally) returns (ghost acc: seq<Packet>)
      requires buf != fileBuf && Filled() && start <= checkStart <= fbLength && nr < U32
      requires s.Scanning? && s.lit == fileOffset - fbLength + start && s.p == fileOffset - fbLength + checkStart
      requires Holds(s.acc, before) && length <= start && checkStart + 25 <= BUF_SIZE
      modifies this`length, this`duplicatedBlock, this`dupHeaderSz, this`ndupHeaderSz, this`deltaDataSz, buf
      ensures acc == (if s.p > s.lit then s.acc + [Lit(c.file[s.lit..s.p])] else s.acc) + [Dup(nr)]
      ensures Holds(acc, before) && length <= checkStart + 23
    {
      hide EncodeAll, Count;
      acc := s.acc;
      if checkStart > start {
        PackBytes(start, checkStart, acc, before);
        acc := acc + [Lit(c.file[s.lit..s.p])];
      }
      PackMatch(nr, acc, before);
      acc := acc + [Dup(nr)];
    }

    /** pack_delta after a match; when less than a block is left it also packs the end of the file. */
    method MatchFound(start: nat, checkStart: nat, nr: nat, ghost x: Scanner, ghost w: Window, ghost s: Scan,
        ghost before: Tally)
      returns (stop: bool, ghost t: Scan)
      requires AtTurn(x, w, s, start, checkStart, before) && FindsBelow(x, U32)
      requires nr < U32 && x.find(fileBuf[checkStart..checkStart + c.bs]) == Some(nr)
      modifies this`length, this`fbOffset, this`duplicatedBlock, this`dupHeaderSz, this`ndupHeaderSz,
               this`deltaDataSz, buf
      ensures t == Step(x, w, s)
      ensures stop ==> Stops(t, before)
      ensures !stop ==>
        && fbOffset == checkStart + c.bs && fbOffset + c.bs <= fbLength
        && AtTurn(x, w, t, fbOffset, fbOffset, before)
    {
      hide EncodeAll, FindsBelow, GoodPackets, Step, Matched, Count;
      WindowIsSlice(checkStart, checkStart + c.bs);
      StepFits(x, w, fileOffset - fbLength, U32, s);
      StepOnMatch(x, w, s, nr);
      t := Step(x, w, s);
      ghost var acc := PackHead(start, checkStart, nr, s, before);
      fbOffset := checkStart + c.bs;
      stop := fbLength - fbOffset < c.bs;
      if stop && fbLength < BUF_SIZE {
        assert fileOffset == |c.file|;
        PackBytes(fbOffset, fbLength, acc, before);
        fbOffset := fbLength;
      }
    }

    /** pack_delta at the end of the buffer: the pending literal and the first byte of the window. */
    method NoMatch(start: nat, checkStart: nat, ghost x: Scanner, ghost w: Window, ghost s: Scan, ghost before: Tally)
      returns (ghost t: Scan)
      requires AtTurn(x, w, s, start, checkStart, before) && checkStart + c.bs == fbLength
      requires x.find(fileBuf[checkStart..checkStart + c.bs]) == None
      modifies this`length, this`fbOffset, this`ndupHeaderSz, this`deltaDataSz, buf
      ensures t == Step(x, w, s) && Stops(t, before)
    {
      hide EncodeAll, GoodPackets, Step, Count;
      WindowIsSlice(checkStart, checkStart + c.bs);
      StepAtEnd(x, w, s);
      t := Step(x, w, s);
      PackBytes(start, checkStart + 1, s.acc, before);
      fbOffset := checkStart + 1;
    }

    /** The packing loop of prepare_delta on a filled buffer with at least one block: it packs what
        ScanLoop packs, with the checksum rolled along instead of recomputed. */
    method PackBlocks(ghost x: Scanner, ghost w: Window, ghost pos: nat) returns (ghost t: Scan)
      requires BuffersStatic() && TableValid() && hashtable != null && duplicatedBlock < U32
      requires Filled() && fbOffset == 0 && c.bs <= fbLength && length == offset == 0 && Scans(x, w) && pos == Pos()
      modifies this`length, this`fbOffset, this`duplicatedBlock, this`dupHeaderSz, this`ndupHeaderSz,
               this`deltaDataSz, buf
      ensures t == ScanLoop(x, w, Scanning([], pos, pos))
      ensures Stops(t, old(Counters()))
    {
      hide TableValid, ChecksumHashTable.Valid, ScanLoop, Step, Fits, IndexScanner, FindsBelow, Holds, Checksum,
           RollingChecksum, AtTurn, Stops, InWindow, Match, BuffersStatic, Filled;
      ghost var before := Counters();
      t := Scanning([], pos, pos);
      TableReady();
      TableFindsBelow(c.bs, hashtable.records, c.strong, U32);
      StartOfScan(x, w, t, before);
      ghost var target := ScanLoop(x, w, t);
      ghost var records := hashtable.records;
      var start: nat, checkStart: nat := 0, 0;
      var checkEnd := c.bs;
      TurnFacts(x, w, t, start, checkStart, before);
      var rcksm := Adler32Checksum(fileBuf, checkStart, c.bs);
      while true
        invariant start <= checkStart && checkEnd == checkStart + c.bs <= fbLength <= fileBuf.Length
        invariant AtTurn(x, w, t, start, checkStart, before)
        invariant TableValid() && hashtable.records == records
        invariant rcksm == Checksum(fileBuf[checkStart..checkEnd])
        invariant TurnOk(x, w, t) && ScanLoop(x, w, t) == target
        decreases fbLength - checkStart
      {
        TableReady();
        TableApart();
        LoopStep(x, w, t);
        var chksm := hashtable.HashSearch(rcksm);
        FindIs(c.bs, records, c.strong, fileBuf[checkStart..checkEnd], chksm);
        if chksm.Some? && c.strong(fileBuf[checkStart..checkEnd]) == chksm.value.md5 {
          RecordInTable(records, rcksm);
          var stop;
          stop, t := MatchFound(start, checkStart, chksm.value.nr, x, w, t, before);
          if stop {
            LoopStops(x, w, t, before);
            return;
          }
          start, checkStart := fbOffset, fbOffset;
          checkEnd := checkStart + c.bs;
          TurnFacts(x, w, t, start, checkStart, before);
          rcksm := Adler32Checksum(fileBuf, checkStart, c.bs);
        } else if checkEnd == fbLength {
          t := NoMatch(start, checkStart, x, w, t, before);
          LoopStops(x, w, t, before);
          return;
        } else {
          OneByteForward(x, w, t, start, checkStart, before);
          t := t.(p := t.p + 1);
          Slide(fileBuf[..], checkStart, c.bs);
          rcksm := RollingChecksum(rcksm, c.bs, fileBuf[checkStart], fileBuf[checkEnd]);
          checkStart, checkEnd := checkStart + 1, checkEnd + 1;
          TurnFacts(x, w, t, start, checkStart, before);
        }
      }
    }

    lemma StartOfScan(x: Scanner, w: Window, t: Scan, before: Tally)
      requires BuffersStatic() && hashtable != null && duplicatedBlock < U32
      requires Filled() && fbOffset == 0 && c.bs <= fbLength && length == offset == 0 && Scans(x, w)
      requires before == Counters() && t == Scanning([], fileOffset - fbLength, fileOffset - fbLength)
      ensures AtTurn(x, w, t, 0, 0, before) && TurnOk(x, w, t)
    {
      NothingPacked(before, t.acc);
    }

    lemma TurnFacts(x: Scanner, w: Window, t: Scan, lit: nat, p: nat, before: Tally)
      requires AtTurn(x, w, t, lit, p, before)
      ensures TurnOk(x, w, t) && x.bs == c.bs >= 1
      ensures p + c.bs <= fbLength <= fileBuf.Length && buf != fileBuf
    {
    }

    /** No match and room to move: the scan steps one byte forward. */
    lemma OneByteForward(x: Scanner, w: Window, t: Scan, lit: nat, p: nat, before: Tally)
      requires AtTurn(x, w, t, lit, p, before) && p + c.bs < fbLength
      requires x.find(fileBuf[p..p + c.bs]) == None
      ensures AtTurn(x, w, t.(p := t.p + 1), lit, p + 1, before)
      ensures Step(x, w, t) == t.(p := t.p + 1)
    {
      hide EncodeAll, Matched, GoodPackets, Count;
      WindowIsSlice(p, p + c.bs);
    }

    /** The loop is over. */
    lemma LoopStops(x: Scanner, w: Window, t: Scan, before: Tally)
      requires x.bs >= 1 && w.Valid() && InWindow(x, w, t) && Stops(t, before)
      ensures ScanLoop(x, w, t) == t
    {
      hide EncodeAll, Count;
    }

    /** Less than a block in the buffer and nothing left to read: one literal. */
    method PackLast(ghost pos: nat, ghost none: seq<Packet>)
      requires BuffersStatic() && duplicatedBlock < U32 && none == []
      requires Filled() && fbOffset == 0 < fbLength < c.bs && length == offset == 0 && pos == Pos()
      modifies this`length, this`fbOffset, this`ndupHeaderSz, this`deltaDataSz, buf
      ensures Holds([Lit(c.file[pos..fileOffset])], old(Counters())) && Filled() && fbOffset == fbLength
    {
      hide EncodeAll, Count, TallyOf;
      NothingPacked(Counters(), none);
      PackBytes(fbOffset, fbLength, none, Counters());
      assert none + [Lit(c.file[pos..fileOffset])] == [Lit(c.file[pos..fileOffset])];
      fbOffset := fbLength;
    }

    /** From calculate_delta on, with a filled buffer. */
    method CalculateDelta(ghost pos: nat)
      requires BuffersStatic() && TableValid() && hashtable != null && duplicatedBlock < U32
      requires Filled() && fbOffset == 0 < fbLength && pos == Pos() && fileOffset == BufEnd(c.file, pos)
      modifies this`length, this`offset, this`fbOffset, this`duplicatedBlock,
               this`dupHeaderSz, this`ndupHeaderSz, this`deltaDataSz, this`packets, buf
      ensures var d := DeltaCall(IndexScanner(c.bs, hashtable.records, c.strong), c.file, pos);
              && Pos() == d.1 && packets == old(packets) + d.0 && Holds(d.0, old(Counters()))
      ensures Filled() && fbOffset <= fbLength && fbLength - fbOffset < c.bs && TableValid()
    {
      hide ChecksumHashTable.Valid, EncodeAll, IndexScanner, ScanLoop, Count, TallyOf, LegalSource;
      Clear(buf, BUF_SIZE);
      length, offset := 0, 0;
      if fbLength < c.bs {
        PackLast(pos, []);
        packets := packets + [Lit(c.file[pos..fileOffset])];
      } else {
        ghost var x := IndexScanner(c.bs, hashtable.records, c.strong);
        ghost var t := PackBlocks(x, FilledWindow(c.file, pos), pos);
        packets := packets + t.acc;
      }
    }

    /** prepare_delta: packs the next part of the source into the socket buffer. */
    method PrepareDelta() returns (r: DeltaResult)
      requires BuffersValid() && TableValid() && hashtable != null
      modifies this`length, this`offset, this`fileOffset, this`fbOffset, this`fbLength, this`duplicatedBlock,
               this`dupHeaderSz, this`ndupHeaderSz, this`deltaDataSz, this`packets, buf, fileBuf
      ensures BuffersValid() && TableValid()
      ensures r == NoMoreToSend <==> old(Pos()) == |c.file|
      ensures r == NoMoreToSend ==>
        Pos() == old(Pos()) && packets == old(packets) && Counters() == old(Counters()) && length == old(length)
      ensures r == DeltaOk ==>
        var d := DeltaCall(IndexScanner(c.bs, hashtable.records, c.strong), c.file, old(Pos()));
        && Pos() == d.1 && packets == old(packets) + d.0 && Holds(d.0, old(Counters()))
    {
      hide DeltaCall, IndexScanner, Count, EncodeAll, TableValid, LegalSource;
      TableApart();
      BlockSizePositive();
      ghost var pos: nat := Pos();
      ghost var before := Counters();
      if !(fbLength - fbOffset >= c.bs) {
        Refill();
      }
      if fbLength - fbOffset == 0 {
        return NoMoreToSend;
      }
      CalculateDelta(pos);
      WindowIsSlice(fbOffset, fbLength);
      CountIsUnsigned(before, DeltaCall(IndexScanner(c.bs, hashtable.records, c.strong), c.file, pos).0);
      return DeltaOk;
    }

    // -------------------------------------------------------------- the state machine

    /** The value the state machine of module Protocol works on: buffer and offset count only in the
        states that use them. */
    ghost function View(): (v: Src)
      requires Pos() >= 0 && length <= buf.Length
      reads this, buf, hashtable
    {
      var live := state == SrcInit || state == SrcReqSent || state == SrcSendDelta;
      Src(state, if live then buf[..length] else [], if live then offset else 0, blockNr,
          if hashtable == null then [] else hashtable.records, Pos(), Counters(), totalSent, totalRecved, packets)
    }

    ghost predicate StateValid()
      reads this, buf
    {
      && buf.Length == BUF_SIZE
      && match state
      case SrcInit => hashtable == null && offset < length
      case SrcReqSent =>
        hashtable == null && offset == 0 && length < CHECKSUM_HEADER_SIZE && buf[..] == Received(buf[..length])
      case SrcChksmHeaderReceived => hashtable != null && checksumRecvd <= blockNr
      case SrcChksmAllReceived => hashtable != null
      case SrcCalculateDelta => hashtable != null
      case SrcSendDelta => hashtable != null && offset < length
      case _ => true
    }

    ghost predicate Valid()
      reads this, buf, fileBuf, hashtable, if hashtable == null then {} else hashtable.Repr
    {
      && BuffersValid() && TableValid() && StateValid()
      && (hashtable != null && !state.SrcClosed? ==> checksumRecvd == |hashtable.records|)
    }

    /** init_rzyncsrc and prepare_send_sync_request. */
    constructor (c: SrcConfig)
      requires LegalSource(c)
      ensures Valid() && fresh(buf) && fresh(fileBuf) && this.c == c
      ensures View() == SrcStart(c)
    {
      hide RequestFrame, RequestText, LegalSource, Valid, View;
      this.c := c;
      state, length, offset, blockNr, checksumRecvd, hashtable := SrcInit, 0, 0, 0, 0, null;
      buf := new byte[BUF_SIZE];
      fileBuf := new byte[BUF_SIZE];
      fileOffset, fbOffset, fbLength := 0, 0, 0;
      duplicatedBlock, dupHeaderSz, ndupHeaderSz, deltaDataSz := 0, 0, 0, 0;
      totalSent, totalRecved, packets := 0, 0, [];
      new;
      PrepareSendSyncRequest();
      Started();
    }

    lemma Started()
      requires LegalSource(c) && buf != fileBuf && buf.Length == BUF_SIZE && fileBuf.Length == BUF_SIZE
      requires state == SrcInit && length == FILE_INFO_SIZE && offset == 0 && blockNr == 0 && hashtable == null
      requires fileOffset == fbOffset == fbLength == 0 && Counters() == Tally(0, 0, 0, 0)
      requires totalSent == totalRecved == 0 && packets == [] && buf[..length] == RequestFrame(RequestOf(c))
      ensures Valid() && View() == SrcStart(c)
    {
      hide RequestFrame, RequestOf;
      assert fileBuf[0..0] == c.file[0..0];
    }

    method PrepareSendSyncRequest()
      requires buf.Length == BUF_SIZE && LegalSource(c)
      modifies this`length, this`offset, buf
      ensures length == FILE_INFO_SIZE && offset == 0
      ensures buf[..length] == RequestFrame(Request(c.name, |c.file|, c.bs, c.mtime, c.strong(c.file)))
    {
      Clear(buf, BUF_SIZE);
      assert buf[..] == Zeros(BUF_SIZE);
      var n := Snprintf(buf, 0, BUF_SIZE, RequestText(RequestOf(c)));
      assert buf[..FILE_INFO_SIZE] == buf[..][..FILE_INFO_SIZE];
      length := FILE_INFO_SIZE;
      offset := 0;
    }

    /** send_src_buf */
    method SendSrcBuf(w: WriteResult) returns (r: SendStatus)
      requires offset < length && (w.Written? ==> 1 <= w.n <= length - offset)
      modifies this`offset, this`totalSent
      ensures w.Written? ==> offset == old(offset) + w.n && totalSent == old(totalSent) + w.n
      ensures !w.Written? ==> offset == old(offset) && totalSent == old(totalSent)
      ensures r == if w.WriteFailed? then SendErr else if offset == length then SendOk else SendNotComplete
    {
      match w
      case WriteFailed => return SendErr;
      case WriteInterrupted => return SendNotComplete;
      case Written(n) =>
        offset := offset + n;
        totalSent := totalSent + n;
        return if offset == length then SendOk else SendNotComplete;
    }

    /** SRC_INIT */
    method StepInit(w: WriteResult)
      requires Valid() && state == SrcInit && (w.Written? ==> 1 <= w.n <= length - offset)
      modifies this`state, this`length, this`offset, this`totalSent, buf
      ensures Valid()
      ensures View() == AfterWrite(old(View()), w)
      ensures w.WriteInterrupted? ==> View() == old(View())
      ensures w.WriteFailed? ==> state == SrcClosed(false)
    {
      hide TableValid, LegalSource;
      var i := SendSrcBuf(w);
      if i == SendOk {
        length, offset := 0, 0;
        Clear(buf, BUF_SIZE);
        assert buf[..] == Zeros(BUF_SIZE) && buf[..0] == [];
        state := SrcReqSent;
      } else if i == SendErr {
        state := SrcClosed(false);  // goto clean_up
      }
      NoTable();
    }

    /** SRC_SEND_DELTA */
    method StepSendDelta(w: WriteResult)
      requires Valid() && state == SrcSendDelta && (w.Written? ==> 1 <= w.n <= length - offset)
      modifies this`state, this`offset, this`totalSent
      ensures Valid()
      ensures View() == AfterWrite(old(View()), w)
      ensures w.WriteInterrupted? ==> View() == old(View())
      ensures w.WriteFailed? ==> state == SrcClosed(false)
    {
      hide TableValid, LegalSource;
      TableApart();
      var i := SendSrcBuf(w);
      if i == SendOk {
        state := SrcCalculateDelta;
      } else if i == SendErr {
        state := SrcClosed(false);  // goto clean_up
      }
      TableStays();
    }

    /** receive_checksum_header: one read, and the parse once all 32 bytes are there. */
    method ReceiveChecksumHeader(rd: ReadResult) returns (r: ReceiveStatus)
      requires buf.Length == BUF_SIZE && length < CHECKSUM_HEADER_SIZE && buf[..] == Received(buf[..length])
      requires rd.Read? ==> 1 <= |rd.data| <= CHECKSUM_HEADER_SIZE - length
      modifies this`length, this`totalRecved, this`blockNr, buf
      ensures length <= CHECKSUM_HEADER_SIZE && buf[..] == Received(buf[..length])
      ensures buf[..length] == old(buf[..length]) + if rd.Read? then rd.data else []
      ensures totalRecved == old(totalRecved) + if rd.Read? then |rd.data| else 0
      ensures length < CHECKSUM_HEADER_SIZE ==>
        blockNr == old(blockNr) && r == if rd.ReadFailed? then ReceiveErr else ReceiveNotComplete
      ensures length == CHECKSUM_HEADER_SIZE ==>
        match ParseHeaderFrame(Received(buf[..length]))
        case None => r == ReceiveErr && blockNr == old(blockNr)
        case Some(nr) => r == ReceiveOk && blockNr == nr
    {
      hide Number;
      match rd
      case ReadFailed => return ReceiveErr;
      case ReadInterrupted => return ReceiveNotComplete;
      case Read(data) =>
        StoreReceived(data);
        totalRecved := totalRecved + |data|;
        if length < CHECKSUM_HEADER_SIZE {
          return ReceiveNotComplete;
        }
        NulKeepsInside(buf[..], 0, DOLLAR, I32);
        var i := ReadNumber(buf, 0, DOLLAR, I32);
        if i == None {
          return ReceiveErr;
        }
        blockNr := ToU32(i.value.0);
        return ReceiveOk;
    }

    /** read() into the socket buffer after the bytes already there. */
    method StoreReceived(data: seq<byte>)
      requires length + |data| <= buf.Length == BUF_SIZE && buf[..] == Received(buf[..length])
      modifies this`length, buf
      ensures length == old(length) + |data| && length <= BUF_SIZE
      ensures buf[..length] == old(buf[..length]) + data && buf[..] == Received(buf[..length])
    {
      ghost var before := buf[..];
      Store(buf, length, data);
      length := length + |data|;
      assert buf[..][length..] == before[length..];
      assert buf[..] == buf[..length] + Zeros(BUF_SIZE - length);
    }

    /** prepare_receive_checksums: a fresh hash table of the size the block number calls for. */
    method PrepareReceiveChecksums() returns (none: bool)
      requires buf.Length == BUF_SIZE && blockNr < U32
      modifies this`checksumRecvd, this`length, this`offset, this`hashtable, buf
      ensures none == (blockNr == 0) && checksumRecvd == 0 && length == offset == 0
      ensures hashtable != null && fresh(hashtable) && fresh(hashtable.Repr)
      ensures hashtable.Valid() && hashtable.records == []
      ensures hashtable.hashNr >= blockNr / 4 && (hashtable.hashNr > 1 ==> hashtable.hashNr / 2 < blockNr / 4)
    {
      checksumRecvd := 0;
      none := blockNr == 0;
      length, offset := 0, 0;
      Clear(buf, BUF_SIZE);
      var bits := ChooseHashBits(blockNr);
      hashtable := new ChecksumHashTable(bits);
    }

    /** SRC_REQ_SENT */
    method StepReqSent(rd: ReadResult)
      requires Valid() && state == SrcReqSent
      requires rd.Read? ==> 1 <= |rd.data| <= CHECKSUM_HEADER_SIZE - length
      modifies this`state, this`length, this`offset, this`totalRecved, this`blockNr, this`checksumRecvd,
               this`hashtable, buf
      ensures Valid()
      ensures View() == AfterRead(old(View()), rd)
      ensures rd.ReadInterrupted? ==> View() == old(View())
      ensures rd.ReadFailed? ==> state == SrcClosed(false)
      ensures rd.Read? && old(length) + |rd.data| == CHECKSUM_HEADER_SIZE ==>
        match ParseHeaderFrame(Received(old(buf[..length]) + rd.data))
        case None => state == SrcClosed(false)
        case Some(nr) => blockNr == nr && state == if nr == 0 then SrcChksmAllReceived else SrcChksmHeaderReceived
      ensures hashtable != null ==> fresh(hashtable) && fresh(hashtable.Repr)
    {
      hide ParseHeaderFrame, TableValid, LegalSource, Received, FileBufferValid;
      PositionInFile();
      ghost var v := View();
      var i := ReceiveChecksumHeader(rd);
      if i == ReceiveErr {
        state := SrcClosed(false);  // goto clean_up
        NoTable();
      } else if i == ReceiveOk {
        ParsedBlockNr(buf[..]);
        HeaderReceived();
      } else {
        NoTable();
      }
    }

    /** What the main loop does once the checksum header is in. */
    method HeaderReceived()
      requires buf.Length == BUF_SIZE && blockNr < U32
      modifies this`state, this`length, this`offset, this`checksumRecvd, this`hashtable, buf
      ensures state == if blockNr == 0 then SrcChksmAllReceived else SrcChksmHeaderReceived
      ensures length == offset == checksumRecvd == 0 && TableValid()
      ensures hashtable != null && fresh(hashtable) && fresh(hashtable.Repr) && hashtable.records == []
    {
      hide TableValid;
      var none := PrepareReceiveChecksums();
      state := if none then SrcChksmAllReceived else SrcChksmHeaderReceived;
      EmptyTable();
    }

    lemma NoTable()
      requires hashtable == null
      ensures TableValid()
    {
    }

    lemma EmptyTable()
      requires hashtable != null && hashtable.Valid() && hashtable.records == []
      requires {this, buf, fileBuf} !! hashtable.Repr
      ensures TableValid()
    {
    }

    /** prepare_send_delta: nothing read, nothing packed, and the file buffer empty. */
    method PrepareSendDelta()
      requires BuffersStatic()
      modifies this`fileOffset, this`fbOffset, this`fbLength, this`dupHeaderSz, this`ndupHeaderSz, this`deltaDataSz,
               fileBuf
      ensures FileBufferValid() && Pos() == 0
      ensures dupHeaderSz == ndupHeaderSz == deltaDataSz == 0
    {
      hide LegalSource;
      BlockSizePositive();
      fileOffset, dupHeaderSz, ndupHeaderSz, deltaDataSz, fbOffset, fbLength := 0, 0, 0, 0, 0, 0;
      Clear(fileBuf, fileBuf.Length);
      assert fileBuf[0..0] == c.file[0..0];
    }

    /** SRC_CHKSM_ALL_RECEIVED */
    method StepAllReceived()
      requires Valid() && state == SrcChksmAllReceived
      modifies this`state, this`fileOffset, this`fbOffset, this`fbLength, this`dupHeaderSz, this`ndupHeaderSz,
               this`deltaDataSz, fileBuf
      ensures Valid()
      ensures View() == SrcCompute(c, old(View()))
    {
      hide TableValid, LegalSource, FileBufferValid;
      TableApart();
      PrepareSendDelta();
      state := SrcCalculateDelta;
      TableStays();
    }

    /** SRC_CALCULATE_DELTA */
    method StepCalculate()
      requires Valid() && state == SrcCalculateDelta
      modifies this`state, this`length, this`offset, this`fileOffset, this`fbOffset, this`fbLength,
               this`duplicatedBlock, this`dupHeaderSz, this`ndupHeaderSz, this`deltaDataSz, this`packets, buf, fileBuf
      ensures Valid()
      ensures View() == SrcCompute(c, old(View()))
    {
      hide TableValid, DeltaCall, IndexScanner, Count, EncodeAll, AccountsAgree, Received, FileBufferValid;
      PositionInFile();
      ghost var v := View();
      var i := PrepareDelta();
      PositionInFile();
      TableApart();
      label packed:
      if i == DeltaOk {
        SomethingPacked(v);
        state := SrcSendDelta;
      } else {
        state := SrcDeltaFileDone;
      }
      TableStays@packed();
    }

    lemma PositionInFile()
      requires Valid()
      ensures 0 <= Pos() <= |c.file|
    {
    }

    /** A call that packs something leaves something to send. */
    lemma SomethingPacked(v: Src)
      requires TableValid() && hashtable != null && LegalSource(c) && v.pos < |c.file| && v.table == hashtable.records
      ensures |EncodeAll(DeltaCall(IndexScanner(c.bs, v.table, c.strong), c.file, v.pos).0)| > 0
    {
      hide IndexScanner, EncodeAll, DeltaCall;
      TableFindsBelow(c.bs, v.table, c.strong, U32);
      CallSize(IndexScanner(c.bs, v.table, c.strong), c.file, v.pos, U32);
    }

    /** SRC_DELTA_FILE_DONE: the two assertions, then clean_up. */
    method StepDone()
      requires Valid() && state == SrcDeltaFileDone
      modifies this`state
      ensures Valid()
      ensures View() == SrcCompute(c, old(View()))
      ensures state == SrcClosed(&& totalSent == 512 + dupHeaderSz + ndupHeaderSz + deltaDataSz
                                 && totalRecved == 32 + blockNr * 64 % 0x1_0000_0000)
    {
      var sent := FILE_INFO_SIZE + dupHeaderSz + ndupHeaderSz + deltaDataSz;
      var recved := CHECKSUM_HEADER_SIZE + ToU32(blockNr * CHECKSUM_SIZE);
      state := SrcClosed(sent == totalSent && recved == totalRecved);
    }

    /** parse_checksum at `p`. */
    method ParseChecksum(p: nat) returns (r: Option<Record>)
      requires RecordInside(buf[..], p)
      ensures r == ParseRecord(buf[..], p)
      ensures r.Some? ==> r.value.nr < U32
    {
      hide Number, Strncpy, Inside;
      var nr := ReadNumber(buf, p, DOLLAR, I32);
      if nr == None {
        return None;
      }
      var rcksm := ReadNumber(buf, nr.value.1, DOLLAR, I32);
      if rcksm == None {
        return None;
      }
      var e := rcksm.value.1;
      if buf[e] != DOLLAR {
        return None;
      }
      return Some(Record(ToU32(nr.value.0), ToU32(rcksm.value.0), Strncpy(buf[..], e + 1, 32)));
    }

    /** The read loop of receive_checksums: any split of the batch, or fewer bytes if the peer
        closes first. */
    method ReceiveBatch(chunks: seq<seq<byte>>, bytesNr: nat) returns (complete: bool)
      requires buf.Length == BUF_SIZE && bytesNr <= BUF_SIZE && |Concat(chunks)| <= bytesNr
      modifies this`length, this`totalRecved, buf
      ensures complete == (|Concat(chunks)| == bytesNr)
      ensures totalRecved == old(totalRecved) + |Concat(chunks)|
      ensures length == |Concat(chunks)| && buf[..] == Received(Concat(chunks))
    {
      length := 0;
      Clear(buf, BUF_SIZE);
      assert buf[..] == Zeros(BUF_SIZE) && buf[..0] == [];
      var k := 0;
      assert chunks[..0] == [];
      while length != bytesNr && k < |chunks|
        invariant k <= |chunks| && length == |Concat(chunks[..k])| <= |Concat(chunks)|
        invariant buf[..length] == Concat(chunks[..k]) && buf[..] == Received(buf[..length])
        invariant totalRecved == old(totalRecved) + length
        decreases |chunks| - k
      {
        TakeChunk(chunks, k);
        StoreReceived(chunks[k]);
        totalRecved := totalRecved + |chunks[k]|;
        k := k + 1;
      }
      RestIsEmpty(chunks, k, bytesNr);
      assert chunks[..|chunks|] == chunks;
      return length == bytesNr;
    }

    /** The parse loop of receive_checksums: records go into the hash table until one does not parse. */
    method ParseRecords(count: nat) returns (ok: bool)
      requires buf.Length == BUF_SIZE && count <= CHECKSUMS_PER_BUF && BatchInside(buf[..], count)
      requires TableValid() && hashtable != null
      modifies hashtable.Repr
      ensures TableValid() && fresh(hashtable.Repr - old(hashtable.Repr))
      ensures ok == ParseBatch(buf[..], count).Some?
      ensures ok ==> hashtable.records == old(hashtable.records) + ParseBatch(buf[..], count).value
    {
      hide ParseRecord, RecordInside;
      ghost var before := hashtable.records;
      ghost var b := buf[..];
      var i := 0;
      while i < count
        invariant 0 <= i <= count && buf[..] == b
        invariant TableValid() && fresh(hashtable.Repr - old(hashtable.Repr))
        invariant ParseBatch(b, i).Some? && hashtable.records == before + ParseBatch(b, i).value
      {
        var rec := ParseChecksum(i * CHECKSUM_SIZE);
        if rec == None {
          StillUnparsed(b, i + 1, count);
          return false;
        }
        hashtable.HashInsert(rec.value);
        i := i + 1;
      }
      return true;
    }

    /** receive_checksums: one batch, or nothing when all have been received. */
    method ReceiveChecksums(chunks: seq<seq<byte>>) returns (r: BatchStatus)
      requires BuffersValid() && TableValid() && hashtable != null && checksumRecvd == |hashtable.records| <= blockNr
      requires |Concat(chunks)| <= CHECKSUM_SIZE * Min(CHECKSUMS_PER_BUF, blockNr - checksumRecvd)
      requires StaysInside(Concat(chunks), Min(CHECKSUMS_PER_BUF, blockNr - checksumRecvd))
      modifies this`length, this`offset, this`totalRecved, this`checksumRecvd, buf, hashtable.Repr
      ensures BuffersValid() && TableValid() && fresh(hashtable.Repr - old(hashtable.Repr))
      ensures (r == AllReceived) == (old(checksumRecvd) == blockNr)
      ensures r == AllReceived ==>
        && totalRecved == old(totalRecved) && checksumRecvd == |hashtable.records|
        && hashtable.records == old(hashtable.records)
      ensures r != AllReceived ==> totalRecved == old(totalRecved) + |Concat(chunks)|
      ensures var count := Min(CHECKSUMS_PER_BUF, blockNr - old(checksumRecvd));
              var batch := ParseBatch(Received(Concat(chunks)), count);
              && (r == BatchOk ==>
                    && |Concat(chunks)| == count * CHECKSUM_SIZE && batch.Some?
                    && hashtable.records == old(hashtable.records) + batch.value
                    && checksumRecvd == |hashtable.records| <= blockNr)
              && (r == BatchErr ==> |Concat(chunks)| < count * CHECKSUM_SIZE || batch == None)
    {
      hide ChecksumHashTable.Valid, ParseBatch, LegalSource, Concat, BatchInside;
      if checksumRecvd == blockNr {
        return AllReceived;
      }
      var left := blockNr - checksumRecvd;
      var count := Min(CHECKSUMS_PER_BUF, left);
      var complete := ReceiveBatch(chunks, count * CHECKSUM_SIZE);
      offset := 0;
      if !complete {
        return BatchErr;
      }
      var ok := ParseRecords(count);
      if !ok {
        return BatchErr;
      }
      checksumRecvd := checksumRecvd + count;
      return BatchOk;
    }

    /** SRC_CHKSM_HEADER_RECEIVED: one batch, however its bytes arrive. */
    method StepHeaderReceived(chunks: seq<seq<byte>>)
      requires Valid() && state == SrcChksmHeaderReceived
      requires |Concat(chunks)| <= CHECKSUM_SIZE * Min(CHECKSUMS_PER_BUF, blockNr - checksumRecvd)
      requires StaysInside(Concat(chunks), Min(CHECKSUMS_PER_BUF, blockNr - checksumRecvd))
      modifies this`state, this`length, this`offset, this`totalRecved, this`checksumRecvd, buf,
               if hashtable == null then {} else hashtable.Repr
      ensures Valid() && hashtable == old(hashtable) && hashtable != null && fresh(hashtable.Repr - old(hashtable.Repr))
      ensures SrcComputes(old(View())) ==> View() == SrcCompute(c, old(View()))
      ensures SrcReads(old(View())) ==>
        if |Concat(chunks)| < SrcWant(old(View())) || SrcGot(old(View()), Concat(chunks)).state.SrcClosed?
        then state == SrcClosed(false)
        else View() == SrcGot(old(View()), Concat(chunks))
    {
      hide TableValid, ParseBatch, Received, LegalSource, FileBufferValid, StaysInside;
      PositionInFile();
      TableApart();
      assert [] + Concat(chunks) == Concat(chunks);
      var i := ReceiveChecksums(chunks);
      TableApart();
      label received:
      if i == BatchErr {
        state := SrcClosed(false);
      } else if i == AllReceived {
        state := SrcChksmAllReceived;
      }
      TableStays@received();
    }
  }

  /** A complete batch can be parsed without leaving the buffer. */
  predicate StaysInside(batch: seq<byte>, count: nat)
    requires count <= CHECKSUMS_PER_BUF
  {
    |batch| == count * CHECKSUM_SIZE ==> BatchInside(Received(batch), count)
  }

  datatype BatchStatus = BatchOk | AllReceived | BatchErr

  /** A batch with an unreadable record does not parse, whatever follows it. */
  lemma {:induction false} StillUnparsed(s: seq<byte>, i: nat, count: nat)
    requires i <= count && count * CHECKSUM_SIZE <= |s| && ParseBatch(s, i) == None
    ensures ParseBatch(s, count) == None
    decreases count - i
  {
    hide ParseRecord;
    if i < count { StillUnparsed(s, i + 1, count); }
  }

  /** The value machine reading one chunk after another. */
  function GotAll(s: Src, chunks: seq<seq<byte>>): (t: Src)
    requires SrcReads(s) && |Concat(chunks)| <= SrcWant(s)
    requires forall i :: 0 <= i < |chunks| ==> |chunks[i]| > 0
    decreases |chunks|, 0
  {
    if |chunks| == 0 then s
    else
      var init := chunks[..|chunks| - 1];
      PartialReads(s, init);
      SrcGot(GotAll(s, init), chunks[|chunks| - 1])
  }

  /** Until the bytes asked for are complete the machine only collects them. */
  lemma {:induction false} PartialReads(s: Src, chunks: seq<seq<byte>>)
    requires SrcReads(s) && |Concat(chunks)| < SrcWant(s)
    requires forall i :: 0 <= i < |chunks| ==> |chunks[i]| > 0
    ensures GotAll(s, chunks) == s.(buf := s.buf + Concat(chunks), totalRecved := s.totalRecved + |Concat(chunks)|)
    decreases |chunks|, 1
  {
    if |chunks| > 0 {
      PartialReads(s, chunks[..|chunks| - 1]);
      assert s.buf + Concat(chunks) == s.buf + Concat(chunks[..|chunks| - 1]) + chunks[|chunks| - 1];
    } else {
      assert s.buf + Concat(chunks) == s.buf;
    }
  }

  /** Any split of the bytes of a header or a batch has the effect of one read of all of them. */
  lemma ReadsMerge(s: Src, chunks: seq<seq<byte>>)
    requires SrcReads(s) && 0 < |Concat(chunks)| <= SrcWant(s)
    requires forall i :: 0 <= i < |chunks| ==> |chunks[i]| > 0
    ensures GotAll(s, chunks) == SrcGot(s, Concat(chunks))
  {
    hide SrcHeaderIn, SrcBatchIn;
    if |Concat(chunks)| < SrcWant(s) {
      PartialReads(s, chunks);
    } else {
      var n := |chunks| - 1;
      PartialReads(s, chunks[..n]);
      assert s.buf + Concat(chunks) == s.buf + Concat(chunks[..n]) + chunks[n];
    }
  }

  lemma {:induction false} TakeChunk(chunks: seq<seq<byte>>, k: nat)
    requires k < |chunks|
    ensures Concat(chunks[..k + 1]) == Concat(chunks[..k]) + chunks[k]
    ensures |Concat(chunks[..k + 1])| <= |Concat(chunks)|
    decreases |chunks| - k
  {
    assert chunks[..k + 1][..k] == chunks[..k];
    if k + 1 < |chunks| {
      TakeChunk(chunks, k + 1);
    } else {
      assert chunks[..k + 1] == chunks;
    }
  }

  /** Nothing can follow a full batch. */
  lemma {:induction false} RestIsEmpty(chunks: seq<seq<byte>>, k: nat, n: nat)
    requires k <= |chunks| && (k == |chunks| || |Concat(chunks[..k])| == n) && |Concat(chunks)| <= n
    ensures Concat(chunks[..k]) == Concat(chunks)
    decreases |chunks| - k
  {
    if k == |chunks| {
      assert chunks[..k] == chunks;
    } else {
      TakeChunk(chunks, k);
      RestIsEmpty(chunks, k + 1, n);
    }
  }

  /** The step of the value machine that goes with the result of a read. */
  function AfterRead(s: Src, rd: ReadResult): (t: Src)
    requires SrcReads(s) && (rd.Read? ==> |rd.data| <= SrcWant(s))
  {
    match rd
    case Read(data) => SrcGot(s, data)
    case ReadInterrupted => s
    case ReadFailed => SrcAbort(s)
  }

  lemma ParsedBlockNr(s: seq<byte>)
    requires ParseHeaderFrame(s).Some?
    ensures ParseHeaderFrame(s).value < U32
  {
  }

  /** The step of the value machine that goes with the result of a write. */
  function AfterWrite(s: Src, w: WriteResult): (t: Src)
    requires SrcSends(s)
  {
    match w
    case Written(n) => SrcWrote(s, n)
    case WriteInterrupted => s
    case WriteFailed => SrcAbort(s)
  }

  lemma CountIsUnsigned(before: Tally, ps: seq<Packet>)
    ensures Count(before, ps).dups < U32
  {
  }

  /** A scan in the middle of a window. */
  predicate TurnOk(x: Scanner, w: Window, t: Scan) {
    x.bs >= 1 && w.Valid() && t.Scanning? && InWindow(x, w, t)
  }

  /** A record found is one of the table, so its number is an unsigned int. */
  lemma RecordInTable(table: seq<Record>, rcksm: int)
    requires (forall i :: 0 <= i < |table| ==> table[i].nr < U32) && Lookup(table, rcksm).Some?
    ensures Lookup(table, rcksm).value.nr < U32
  {
    assert Lookup(table, rcksm).value in table;
  }

  /** What the hash table finds is what the scanner finds. */
  lemma FindIs(bs: nat, table: seq<Record>, strong: Strong, window: seq<byte>, rec: Option<Record>)
    requires rec == Lookup(table, Checksum(window))
    ensures IndexScanner(bs, table, strong).find(window)
         == if rec.Some? && strong(window) == rec.value.md5 then Some(rec.value.nr) else None
  {
    hide Lookup, Checksum;
  }

  /** The turn of a match. */
  lemma StepOnMatch(x: Scanner, w: Window, s: Scan, nr: nat)
    requires x.bs >= 1 && w.Valid() && InWindow(x, w, s) && s.Scanning?
    requires x.find(w.file[s.p..s.p + x.bs]) == Some(nr)
    ensures var q := s.p + x.bs;
            var acc := (if s.p > s.lit then s.acc + [Lit(w.file[s.lit..s.p])] else s.acc) + [Dup(nr)];
            Step(x, w, s) == if w.end - q >= x.bs then Scanning(acc, q, q)
                             else if w.last then Stopped(acc + [Lit(w.file[q..w.end])], w.end)
                             else Stopped(acc, q)
  {
    var acc := (if s.p > s.lit then s.acc + [Lit(w.file[s.lit..s.p])] else s.acc) + [Dup(nr)];
    assert acc == s.acc + Matched(w.file, s.lit, s.p, nr);
  }

  /** The turn without a match at the end of the buffer. */
  lemma StepAtEnd(x: Scanner, w: Window, s: Scan)
    requires x.bs >= 1 && w.Valid() && InWindow(x, w, s) && s.Scanning? && s.p + x.bs == w.end
    requires x.find(w.file[s.p..s.p + x.bs]) == None
    ensures Step(x, w, s) == Stopped(s.acc + [Lit(w.file[s.lit..s.p + 1])], s.p + 1)
  {
  }

  lemma LoopStep(x: Scanner, w: Window, s: Scan)
    requires TurnOk(x, w, s)
    ensures ScanLoop(x, w, s) == ScanLoop(x, w, Step(x, w, s))
  {
  }

  lemma NothingPacked(before: Tally, ps: seq<Packet>)
    requires ps == []
    ensures EncodeAll(ps) == [] && Count(before, ps) == Wrapped(before)
  {
  }

  /** One byte forward: the rolled checksum is the direct one. */
  lemma Slide(b: seq<byte>, i: nat, bs: nat)
    requires 1 <= bs && i + bs < |b|
    ensures RollingChecksum(Checksum(b[i..i + bs]), bs, b[i], b[i + bs]) == Checksum(b[i + 1..i + 1 + bs])
  {
    hide Checksum, RollingChecksum;
    var mid := b[i + 1..i + bs];
    assert b[i..i + bs] == [b[i]] + mid;
    assert b[i + 1..i + 1 + bs] == mid + [b[i + bs]];
    RollingIsDirect(b[i], mid, b[i + bs]);
  }

  lemma LiteralParts(data: seq<byte>)
    ensures PacketHeader(Lit(data)) == Header(FLAG_NDUP, |data|)
    ensures Encode(Lit(data)) == Header(FLAG_NDUP, |data|) + data
  {
  }

  lemma EncodedLength(p: Packet)
    ensures p.Lit? && |p.data| <= BUF_SIZE ==> |Encode(p)| <= |p.data| + 9
    ensures p.Dup? && p.nr < U32 ==> |Encode(p)| <= 14
  {
    HeaderLength(p);
  }
}
