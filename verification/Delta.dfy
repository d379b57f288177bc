/** The delta as values: what a greedy scan of the whole file would send, the packets one
    prepare_delta call sends, their wire form and what they rebuild. */
module Delta {
  import opened Bytes
  import opened Decimal
  import opened Adler32
  import opened HashTable

  type Strong = seq<byte> -> Digest

  /** A legal block size: 1 to 16 KB in whole KB. */
  predicate LegalBlockSize(bs: nat) {
    1024 <= bs <= 16384 && bs % 1024 == 0
  }

  /** What a scan depends on: the block size, and which old block, if any, a window is taken for. */
  datatype Scanner = Scanner(bs: nat, find: seq<byte> -> Option<nat>)

  function Block(basis: seq<byte>, bs: nat, nr: nat): (b: seq<byte>)
  {
    if nr * bs + bs <= |basis| then basis[nr * bs..nr * bs + bs] else []
  }

  /** The record of old block `i`. */
  function BlockRecord(basis: seq<byte>, bs: nat, strong: Strong, i: nat): (rec: Record) {
    Record(i, Checksum(Block(basis, bs, i)), strong(Block(basis, bs, i)))
  }

  /** Records from, from + 1, ... of the old file. */
  function RecordRange(basis: seq<byte>, bs: nat, strong: Strong, from: nat, n: nat): (rs: seq<Record>)
    ensures |rs| == n
  {
    seq(n, i requires 0 <= i < n => BlockRecord(basis, bs, strong, from + i))
  }

  /** The records of all whole blocks of the old file. */
  function Records(basis: seq<byte>, bs: nat, strong: Strong): (rs: seq<Record>)
    requires bs >= 1
    ensures |rs| == |basis| / bs
  {
    RecordRange(basis, bs, strong, 0, |basis| / bs)
  }

  /** The old block a window is taken for: that of the latest record with its rolling checksum,
      provided that one record also has its strong hash. */
  function Match(table: seq<Record>, strong: Strong, window: seq<byte>): (m: Option<nat>)
  {
    match Lookup(table, Checksum(window))
    case Some(rec) => if strong(window) == rec.md5 then Some(rec.nr) else None
    case None => None
  }

  /** The scanner the received checksums give. */
  function IndexScanner(bs: nat, table: seq<Record>, strong: Strong): (x: Scanner)
    ensures x.bs == bs
    ensures forall w :: x.find(w) == Match(table, strong, w)
  {
    Scanner(bs, w => Match(table, strong, w))
  }

  // ---------------------------------------------------------------- greedy scan of the whole file

  /** One decision of the scan: a literal byte, or a reference to an old block. */
  datatype Atom = Literal(b: byte) | Reference(nr: nat)

  function Literals(s: seq<byte>): (a: seq<Atom>)
    ensures |a| == |s|
  {
    seq(|s|, i requires 0 <= i < |s| => Literal(s[i]))
  }

  /** Left to right from `p`, recomputing the checksum at every position, with no buffer. */
  function Greedy(x: Scanner, file: seq<byte>, p: nat): (a: seq<Atom>)
    requires x.bs >= 1 && p <= |file|
    decreases |file| - p
  {
    if |file| - p < x.bs then Literals(file[p..])
    else
      match x.find(file[p..p + x.bs])
      case Some(nr) => [Reference(nr)] + Greedy(x, file, p + x.bs)
      case None => [Literal(file[p])] + Greedy(x, file, p + 1)
  }

  // ---------------------------------------------------------------- packets

  datatype Packet = Lit(data: seq<byte>) | Dup(nr: nat)

  function Header(flag: byte, n: nat): (h: seq<byte>)
    ensures |h| == 4 + |Dec(n)|
  {
    [DOLLAR, flag, DOLLAR] + Dec(n) + [NEWLINE]
  }

  function PacketHeader(p: Packet): (h: seq<byte>) {
    match p
    case Lit(data) => Header(FLAG_NDUP, |data|)
    case Dup(nr) => Header(FLAG_DUP, nr)
  }

  function PacketBody(p: Packet): (b: seq<byte>) {
    match p
    case Lit(data) => data
    case Dup(_) => []
  }

  function Encode(p: Packet): (w: seq<byte>)
    ensures |w| >= 5
  {
    PacketHeader(p) + PacketBody(p)
  }

  function EncodeAll(ps: seq<Packet>): (w: seq<byte>) {
    if |ps| == 0 then [] else EncodeAll(ps[..|ps| - 1]) + Encode(ps[|ps| - 1])
  }

  function PacketAtoms(p: Packet): (a: seq<Atom>) {
    match p
    case Lit(data) => Literals(data)
    case Dup(nr) => [Reference(nr)]
  }

  function AtomsOf(ps: seq<Packet>): (a: seq<Atom>) {
    if |ps| == 0 then [] else AtomsOf(ps[..|ps| - 1]) + PacketAtoms(ps[|ps| - 1])
  }

  /** The counters prepare_delta keeps. */
  datatype Tally = Tally(dups: nat, dupHeaders: nat, ndupHeaders: nat, data: nat)

  function Plus(s: Tally, t: Tally): Tally {
    Tally(s.dups + t.dups, s.dupHeaders + t.dupHeaders, s.ndupHeaders + t.ndupHeaders, s.data + t.data)
  }

  function PacketTally(p: Packet): (t: Tally) {
    match p
    case Lit(data) => Tally(0, 0, |PacketHeader(p)|, |data|)
    case Dup(_) => Tally(1, |PacketHeader(p)|, 0, 0)
  }

  function TallyOf(ps: seq<Packet>): (t: Tally) {
    if |ps| == 0 then Tally(0, 0, 0, 0) else Plus(TallyOf(ps[..|ps| - 1]), PacketTally(ps[|ps| - 1]))
  }

  lemma DropLast<T>(a: seq<T>, b: seq<T>)
    requires |b| > 0
    ensures (a + b)[..|a + b| - 1] == a + b[..|b| - 1] && (a + b)[|a + b| - 1] == b[|b| - 1]
  {
  }

  lemma Assoc<T>(a: seq<T>, b: seq<T>, c: seq<T>)
    ensures (a + b) + c == a + (b + c)
  {
  }

  lemma {:induction false} EncodeConcat(a: seq<Packet>, b: seq<Packet>)
    ensures EncodeAll(a + b) == EncodeAll(a) + EncodeAll(b)
  {
    if |b| == 0 {
      assert a + b == a;
    } else {
      var init := b[..|b| - 1];
      EncodeConcat(a, init);
      DropLast(a, b);
      Assoc(EncodeAll(a), EncodeAll(init), Encode(b[|b| - 1]));
    }
  }

  lemma {:induction false} AtomsConcat(a: seq<Packet>, b: seq<Packet>)
    ensures AtomsOf(a + b) == AtomsOf(a) + AtomsOf(b)
  {
    if |b| == 0 {
      assert a + b == a;
    } else {
      var init := b[..|b| - 1];
      AtomsConcat(a, init);
      DropLast(a, b);
      Assoc(AtomsOf(a), AtomsOf(init), PacketAtoms(b[|b| - 1]));
    }
  }

  lemma {:induction false} TallyConcat(a: seq<Packet>, b: seq<Packet>)
    ensures TallyOf(a + b) == Plus(TallyOf(a), TallyOf(b))
  {
    if |b| == 0 {
      assert a + b == a;
    } else {
      TallyConcat(a, b[..|b| - 1]);
      DropLast(a, b);
    }
  }

  /** Every encoded byte is header or data, each counted once. */
  lemma {:induction false} TallyIsLength(ps: seq<Packet>)
    ensures var t := TallyOf(ps); |EncodeAll(ps)| == t.dupHeaders + t.ndupHeaders + t.data
  {
    if |ps| > 0 { TallyIsLength(ps[..|ps| - 1]); }
  }

  // ---------------------------------------------------------------- one prepare_delta call

  /** The file bytes one call works on: those before `end` are buffered, and `last` says the file
      buffer is not full. */
  datatype Window = Window(file: seq<byte>, end: nat, last: bool) {
    predicate Valid() {
      end <= |file| && (last ==> end == |file|)
    }
  }

  /** The packing loop: packets so far, start of the unsent literal and of the window checked; or
      packets of the whole call and the position it stops at. */
  datatype Scan =
    | Scanning(acc: seq<Packet>, lit: nat, p: nat)
    | Stopped(acc: seq<Packet>, pos: nat)

  predicate InWindow(x: Scanner, w: Window, s: Scan) {
    match s
    case Scanning(_, lit, p) => lit <= p && p + x.bs <= w.end
    case Stopped(_, pos) => pos <= w.end
  }

  /** One turn of the loop. */
  function Step(x: Scanner, w: Window, s: Scan): (t: Scan)
    requires x.bs >= 1 && w.Valid() && s.Scanning? && InWindow(x, w, s)
    ensures InWindow(x, w, t)
    ensures match t case Scanning(_, _, p) => s.p < p case Stopped(_, pos) => s.p < pos
  {
    var q := s.p + x.bs;
    match x.find(w.file[s.p..q])
    case None =>
      if q == w.end then Stopped(s.acc + [Lit(w.file[s.lit..s.p + 1])], s.p + 1)
      else s.(p := s.p + 1)
    case Some(nr) =>
      var acc := s.acc + Matched(w.file, s.lit, s.p, nr);
      if w.end - q >= x.bs then Scanning(acc, q, q)
      else if w.last then Stopped(acc + [Lit(w.file[q..w.end])], w.end)
      else Stopped(acc, q)
  }

  /** The loop run to its end. */
  function ScanLoop(x: Scanner, w: Window, s: Scan): (t: Scan)
    requires x.bs >= 1 && w.Valid() && InWindow(x, w, s)
    ensures t.Stopped? && InWindow(x, w, t)
    ensures if s.Scanning? then s.p < t.pos else t == s
    decreases if s.Scanning? then w.end - s.p else 0
  {
    if s.Stopped? then s else ScanLoop(x, w, Step(x, w, s))
  }

  /** The packets of a match: the literal before it, if any, and the reference. */
  function Matched(file: seq<byte>, lit: nat, p: nat, nr: nat): (ps: seq<Packet>)
    requires lit <= p <= |file|
  {
    if p > lit then [Lit(file[lit..p]), Dup(nr)] else [Dup(nr)]
  }

  /** End of the file buffer after a refill at `pos`. */
  function BufEnd(file: seq<byte>, pos: nat): (e: nat)
    requires pos <= |file|
    ensures pos <= e <= |file|
  {
    Min(pos + BUF_SIZE, |file|)
  }

  function FilledWindow(file: seq<byte>, pos: nat): (w: Window)
    requires pos <= |file|
    ensures w.Valid() && w.file == file && w.end == BufEnd(file, pos)
  {
    Window(file, BufEnd(file, pos), BufEnd(file, pos) - pos < BUF_SIZE)
  }

  /** One call with `pos` source bytes already packed: the packets it puts in the socket buffer
      and how many source bytes are packed afterwards. */
  function DeltaCall(x: Scanner, file: seq<byte>, pos: nat): (r: (seq<Packet>, nat))
    requires x.bs >= 1 && pos < |file|
    ensures pos < r.1 <= |file|
  {
    var w := FilledWindow(file, pos);
    if w.end - pos < x.bs then ([Lit(file[pos..w.end])], w.end)
    else
      var t := ScanLoop(x, w, Scanning([], pos, pos));
      (t.acc, t.pos)
  }

  /** All calls from `pos` to the end of the file. */
  function DeltaRun(x: Scanner, file: seq<byte>, pos: nat): (ps: seq<Packet>)
    requires x.bs >= 1 && pos <= |file|
    decreases |file| - pos
  {
    if pos == |file| then []
    else
      var r := DeltaCall(x, file, pos);
      r.0 + DeltaRun(x, file, r.1)
  }

  // ---------------------------------------------------------------- refinement of the greedy scan

  lemma MatchedAtoms(file: seq<byte>, lit: nat, p: nat, nr: nat)
    requires lit <= p <= |file|
    ensures AtomsOf(Matched(file, lit, p, nr)) == Literals(file[lit..p]) + [Reference(nr)]
  {
    AtomsOfOne(Dup(nr));
    if p > lit {
      AtomsOfOne(Lit(file[lit..p]));
      AtomsConcat([Lit(file[lit..p])], [Dup(nr)]);
      assert Matched(file, lit, p, nr) == [Lit(file[lit..p])] + [Dup(nr)];
    }
  }

  lemma AtomsOfOne(p: Packet)
    ensures AtomsOf([p]) == PacketAtoms(p)
    ensures EncodeAll([p]) == Encode(p)
  {
    assert [p][..0] == [];
  }

  /** What has been packed, the literal pending, and a fresh greedy scan from here on. */
  function Decisions(x: Scanner, w: Window, s: Scan): (a: seq<Atom>)
    requires x.bs >= 1 && w.Valid() && InWindow(x, w, s)
  {
    match s
    case Scanning(acc, lit, p) => AtomsOf(acc) + (Literals(w.file[lit..p]) + Greedy(x, w.file, p))
    case Stopped(acc, pos) => AtomsOf(acc) + Greedy(x, w.file, pos)
  }

  /** No turn of the loop changes a decision of the greedy scan. */
  lemma StepRefinesGreedy(x: Scanner, w: Window, s: Scan)
    requires x.bs >= 1 && w.Valid() && s.Scanning? && InWindow(x, w, s)
    ensures Decisions(x, w, Step(x, w, s)) == Decisions(x, w, s)
  {
    hide AtomsOf, Greedy, Literals, Matched;
    var q := s.p + x.bs;
    if x.find(w.file[s.p..q]).None? {
      LiteralStep(x, w.file, s.lit, s.p);
      if q == w.end {
        LiteralPacked(x, w.file, s.acc, s.lit, s.p + 1);
      }
    } else if w.end - q >= x.bs {
      MatchStep(x, w.file, s.acc, s.lit, s.p);
      assert Literals(w.file[q..q]) + Greedy(x, w.file, q) == Greedy(x, w.file, q);
    } else if w.last {
      LastStep(x, w.file, s.acc, s.lit, s.p);
    } else {
      MatchStep(x, w.file, s.acc, s.lit, s.p);
    }
  }

  /** A match with less than a block of the file left: the rest goes out as one literal. */
  lemma LastStep(x: Scanner, file: seq<byte>, acc: seq<Packet>, lit: nat, p: nat)
    requires x.bs >= 1 && lit <= p && p + x.bs <= |file| < p + x.bs + x.bs
    requires x.find(file[p..p + x.bs]).Some?
    ensures var nr := x.find(file[p..p + x.bs]).value;
            AtomsOf(acc + Matched(file, lit, p, nr) + [Lit(file[p + x.bs..|file|])]) + Greedy(x, file, |file|)
            == AtomsOf(acc) + (Literals(file[lit..p]) + Greedy(x, file, p))
  {
    hide AtomsOf, Greedy, Literals, Matched;
    var nr := x.find(file[p..p + x.bs]).value;
    MatchStep(x, file, acc, lit, p);
    LiteralPacked(x, file, acc + Matched(file, lit, p, nr), p + x.bs, |file|);
    GreedyTail(x, file, p + x.bs);
  }

  lemma {:induction false} ScanRefinesGreedy(x: Scanner, w: Window, s: Scan)
    requires x.bs >= 1 && w.Valid() && InWindow(x, w, s)
    ensures Decisions(x, w, ScanLoop(x, w, s)) == Decisions(x, w, s)
    decreases if s.Scanning? then w.end - s.p else 0
  {
    if s.Scanning? {
      StepRefinesGreedy(x, w, s);
      ScanRefinesGreedy(x, w, Step(x, w, s));
    }
  }

  /** No match: the pending literal grows by one byte. */
  lemma LiteralStep(x: Scanner, file: seq<byte>, lit: nat, p: nat)
    requires x.bs >= 1 && lit <= p && p + x.bs <= |file|
    requires x.find(file[p..p + x.bs]).None?
    ensures Literals(file[lit..p + 1]) + Greedy(x, file, p + 1) == Literals(file[lit..p]) + Greedy(x, file, p)
  {
    assert Literals(file[lit..p + 1]) == Literals(file[lit..p]) + [Literal(file[p])];
    Assoc(Literals(file[lit..p]), [Literal(file[p])], Greedy(x, file, p + 1));
  }

  /** A match: the pending literal and the reference are packed. */
  lemma MatchStep(x: Scanner, file: seq<byte>, acc: seq<Packet>, lit: nat, p: nat)
    requires x.bs >= 1 && lit <= p && p + x.bs <= |file|
    requires x.find(file[p..p + x.bs]).Some?
    ensures var nr := x.find(file[p..p + x.bs]).value;
            AtomsOf(acc + Matched(file, lit, p, nr)) + Greedy(x, file, p + x.bs)
            == AtomsOf(acc) + (Literals(file[lit..p]) + Greedy(x, file, p))
  {
    hide AtomsOf, Literals, Matched;
    var nr := x.find(file[p..p + x.bs]).value;
    var g := Greedy(x, file, p + x.bs);
    MatchedAtoms(file, lit, p, nr);
    AtomsConcat(acc, Matched(file, lit, p, nr));
    Assoc(Literals(file[lit..p]), [Reference(nr)], g);
    Assoc(AtomsOf(acc), Literals(file[lit..p]) + [Reference(nr)], g);
  }

  /** A literal packet stands for its bytes. */
  lemma LiteralPacked(x: Scanner, file: seq<byte>, acc: seq<Packet>, lit: nat, p: nat)
    requires x.bs >= 1 && lit <= p <= |file|
    ensures AtomsOf(acc + [Lit(file[lit..p])]) + Greedy(x, file, p)
         == AtomsOf(acc) + (Literals(file[lit..p]) + Greedy(x, file, p))
  {
    AtomsOfOne(Lit(file[lit..p]));
    AtomsConcat(acc, [Lit(file[lit..p])]);
    Assoc(AtomsOf(acc), Literals(file[lit..p]), Greedy(x, file, p));
  }

  /** With less than a block left the greedy scan is all literals. */
  lemma GreedyTail(x: Scanner, file: seq<byte>, q: nat)
    requires x.bs >= 1 && q <= |file| < q + x.bs
    ensures Greedy(x, file, q) == Literals(file[q..|file|]) + Greedy(x, file, |file|)
  {
    assert file[|file|..] == [];
    assert Greedy(x, file, |file|) == [];
    assert file[q..] == file[q..|file|];
  }

  /** One call makes exactly the decisions the greedy scan makes on the bytes it consumes. */
  lemma CallRefinesGreedy(x: Scanner, file: seq<byte>, pos: nat)
    requires 1 <= x.bs <= BUF_SIZE && pos < |file|
    ensures var r := DeltaCall(x, file, pos);
            AtomsOf(r.0) + Greedy(x, file, r.1) == Greedy(x, file, pos)
  {
    var e := BufEnd(file, pos);
    var g := Greedy(x, file, pos);
    if e - pos < x.bs {
      LiteralPacked(x, file, [], pos, e);
      GreedyTail(x, file, pos);
      assert AtomsOf([]) + g == g;
      assert [] + [Lit(file[pos..e])] == [Lit(file[pos..e])];
    } else {
      ScanRefinesGreedy(x, FilledWindow(file, pos), Scanning([], pos, pos));
      assert AtomsOf([]) + (Literals(file[pos..pos]) + g) == g;
    }
  }

  /** Over a whole run the matches and the literal bytes are those of the greedy scan of the whole
      file, whatever the buffer boundaries. */
  lemma {:induction false} RunRefinesGreedy(x: Scanner, file: seq<byte>, pos: nat)
    requires 1 <= x.bs <= BUF_SIZE && pos <= |file|
    ensures AtomsOf(DeltaRun(x, file, pos)) == Greedy(x, file, pos)
    decreases |file| - pos
  {
    if pos < |file| {
      var r := DeltaCall(x, file, pos);
      CallRefinesGreedy(x, file, pos);
      RunRefinesGreedy(x, file, r.1);
      AtomsConcat(r.0, DeltaRun(x, file, r.1));
    }
  }

  // ---------------------------------------------------------------- sizes

  const MAX_LITERAL := 31745

  /** A packet the encoder can send: a literal of at most BUF_SIZE - 1024 + 1 bytes, or a
      reference to an existing block. */
  predicate GoodPacket(p: Packet, blockNr: nat) {
    match p
    case Lit(data) => |data| <= MAX_LITERAL
    case Dup(nr) => nr < blockNr
  }

  predicate GoodPackets(ps: seq<Packet>, blockNr: nat) {
    forall i :: 0 <= i < |ps| ==> GoodPacket(ps[i], blockNr)
  }

  /** Every reference found is to one of the first `blockNr` blocks. */
  ghost predicate FindsBelow(x: Scanner, blockNr: nat) {
    forall w :: x.find(w).Some? ==> x.find(w).value < blockNr
  }

  lemma TableFindsBelow(bs: nat, table: seq<Record>, strong: Strong, blockNr: nat)
    requires forall i :: 0 <= i < |table| ==> table[i].nr < blockNr
    ensures FindsBelow(IndexScanner(bs, table, strong), blockNr)
  {
    var x := IndexScanner(bs, table, strong);
    forall w | x.find(w).Some?
      ensures x.find(w).value < blockNr
    {
      var rec := Lookup(table, Checksum(w)).value;
      assert rec in table;
    }
  }

  lemma HeaderLength(p: Packet)
    ensures p.Lit? && |p.data| < 10_0000 ==> |PacketHeader(p)| <= 9
    ensures p.Dup? && p.nr < U32 ==> |PacketHeader(p)| <= 14
  {
    match p
    case Lit(data) => DecLengths(|data|);
    case Dup(nr) => DecLengths(nr);
  }

  /** Room used so far: what is packed is at most what has been consumed, and clearly less once
      anything has been packed. */
  predicate Fits(x: Scanner, w: Window, start: nat, blockNr: nat, s: Scan) {
    && InWindow(x, w, s) && GoodPackets(s.acc, blockNr) && w.end - start <= BUF_SIZE
    && match s
       case Scanning(acc, lit, p) =>
         start <= lit && |EncodeAll(acc)| <= lit - start && (acc == [] <==> lit == start)
         && (acc != [] ==> |EncodeAll(acc)| <= lit - start - 1001)
       case Stopped(acc, pos) =>
         acc != [] && |EncodeAll(acc)| <= w.end - start - 992 && w.end - pos < x.bs
  }

  lemma StepFits(x: Scanner, w: Window, start: nat, blockNr: nat, s: Scan)
    requires LegalBlockSize(x.bs) && FindsBelow(x, blockNr) && blockNr <= U32
    requires w.Valid() && s.Scanning? && Fits(x, w, start, blockNr, s)
    ensures Fits(x, w, start, blockNr, Step(x, w, s))
  {
    hide EncodeAll, Matched;
    var q := s.p + x.bs;
    var m := x.find(w.file[s.p..q]);
    if m.None? {
      if q == w.end {
        LiteralSize(s.acc, w.file, s.lit, s.p + 1);
      }
    } else {
      assert m.value < blockNr;
      MatchFits(w.file, s.acc, s.lit, s.p, m.value, start, x.bs, blockNr);
      if w.end - q < x.bs && w.last {
        LiteralSize(s.acc + Matched(w.file, s.lit, s.p, m.value), w.file, q, w.end);
      }
    }
  }

  /** A match saves at least 1001 bytes of room. */
  lemma MatchFits(file: seq<byte>, acc: seq<Packet>, lit: nat, p: nat, nr: nat, start: nat, bs: nat, blockNr: nat)
    requires LegalBlockSize(bs) && nr < blockNr <= U32 && GoodPackets(acc, blockNr)
    requires start <= lit <= p && p + bs <= |file| && p + bs - start <= BUF_SIZE
    requires |EncodeAll(acc)| <= lit - start
    ensures var acc' := acc + Matched(file, lit, p, nr);
            && acc' != [] && GoodPackets(acc', blockNr) && |EncodeAll(acc')| <= p + bs - start - 1001
  {
    MatchedSize(acc, file, lit, p, nr);
  }

  /** A scan adds fewer bytes to the socket buffer than the stretch it scans has, every packet is
      good, and less than one block stays unpacked. */
  lemma {:induction false} ScanFits(x: Scanner, w: Window, start: nat, blockNr: nat, s: Scan)
    requires LegalBlockSize(x.bs) && FindsBelow(x, blockNr) && blockNr <= U32
    requires w.Valid() && Fits(x, w, start, blockNr, s)
    ensures Fits(x, w, start, blockNr, ScanLoop(x, w, s))
    decreases if s.Scanning? then w.end - s.p else 0
  {
    if s.Scanning? {
      StepFits(x, w, start, blockNr, s);
      ScanFits(x, w, start, blockNr, Step(x, w, s));
    }
  }

  lemma LiteralSize(acc: seq<Packet>, file: seq<byte>, lit: nat, p: nat)
    requires lit <= p <= |file| && p - lit < 10_0000
    ensures |EncodeAll(acc + [Lit(file[lit..p])])| <= |EncodeAll(acc)| + p - lit + 9
  {
    HeaderLength(Lit(file[lit..p]));
    AtomsOfOne(Lit(file[lit..p]));
    EncodeConcat(acc, [Lit(file[lit..p])]);
  }

  lemma MatchedSize(acc: seq<Packet>, file: seq<byte>, lit: nat, p: nat, nr: nat)
    requires lit <= p <= |file| && p - lit < 10_0000 && nr < U32
    ensures |EncodeAll(acc + Matched(file, lit, p, nr))| <= |EncodeAll(acc)| + p - lit + 23
  {
    AtomsOfOne(Dup(nr));
    HeaderLength(Dup(nr));
    var before := if p > lit then acc + [Lit(file[lit..p])] else acc;
    EncodeConcat(before, [Dup(nr)]);
    assert acc + Matched(file, lit, p, nr) == before + [Dup(nr)];
    if p > lit { LiteralSize(acc, file, lit, p); }
  }

  /** Whatever the mix of matches and literals, one call fills less than the socket buffer. */
  lemma CallSize(x: Scanner, file: seq<byte>, pos: nat, blockNr: nat)
    requires LegalBlockSize(x.bs) && FindsBelow(x, blockNr) && blockNr <= U32 && pos < |file|
    ensures var r := DeltaCall(x, file, pos);
            && 0 < |EncodeAll(r.0)| <= BUF_SIZE - 992
            && |r.0| > 0 && GoodPackets(r.0, blockNr)
            && Min(pos + BUF_SIZE, |file|) - r.1 < x.bs
  {
    var e := BufEnd(file, pos);
    var r := DeltaCall(x, file, pos);
    if e - pos < x.bs {
      LiteralSize([], file, pos, e);
      assert [] + [Lit(file[pos..e])] == [Lit(file[pos..e])];
    } else {
      ScanFits(x, FilledWindow(file, pos), pos, blockNr, Scanning([], pos, pos));
    }
    var n := |r.0| - 1;
    assert EncodeAll(r.0) == EncodeAll(r.0[..n]) + Encode(r.0[n]);
  }

  // ---------------------------------------------------------------- how decisions are packed

  /** Literals are packed in one piece: each but the last is not empty and a reference follows it. */
  predicate InOnePiece(ps: seq<Packet>) {
    forall i :: 0 <= i < |ps| - 1 && ps[i].Lit? ==> |ps[i].data| > 0 && ps[i + 1].Dup?
  }

  predicate EndsInReference(ps: seq<Packet>) {
    |ps| > 0 ==> ps[|ps| - 1].Dup?
  }

  predicate EndsInLiteral(ps: seq<Packet>) {
    |ps| > 0 && ps[|ps| - 1].Lit?
  }

  predicate Packs(w: Window, s: Scan) {
    && InOnePiece(s.acc)
    && match s
       case Scanning(acc, _, _) => EndsInReference(acc)
       case Stopped(acc, pos) => w.last && pos == w.end ==> EndsInLiteral(acc)
  }

  lemma StepPacks(x: Scanner, w: Window, s: Scan)
    requires x.bs >= 1 && w.Valid() && s.Scanning? && InWindow(x, w, s) && Packs(w, s)
    ensures Packs(w, Step(x, w, s))
  {
  }

  lemma {:induction false} ScanPacks(x: Scanner, w: Window, s: Scan)
    requires x.bs >= 1 && w.Valid() && InWindow(x, w, s) && Packs(w, s)
    ensures Packs(w, ScanLoop(x, w, s))
    decreases if s.Scanning? then w.end - s.p else 0
  {
    hide Step;
    if s.Scanning? {
      StepPacks(x, w, s);
      ScanPacks(x, w, Step(x, w, s));
    }
  }

  /** One call packs each literal in one piece; a call that ends with the file while the file buffer is
      not full ends in a literal, which may be empty. */
  lemma CallPacksInOnePiece(x: Scanner, file: seq<byte>, pos: nat)
    requires x.bs >= 1 && pos < |file|
    ensures var r := DeltaCall(x, file, pos);
            InOnePiece(r.0) && (|file| - pos < BUF_SIZE && r.1 == |file| ==> EndsInLiteral(r.0))
  {
    hide Step;
    var w := FilledWindow(file, pos);
    if w.end - pos >= x.bs {
      ScanPacks(x, w, Scanning([], pos, pos));
    }
  }

  /** A file that is one old block: the reference, and the empty literal after it. */
  lemma TrailingLiteral(x: Scanner, file: seq<byte>, nr: nat)
    requires 1 <= x.bs == |file| < BUF_SIZE && x.find(file) == Some(nr)
    ensures DeltaCall(x, file, 0) == ([Dup(nr), Lit([])], |file|)
  {
    var w := FilledWindow(file, 0);
    var s := Scanning([], 0, 0);
    assert file[0..|file|] == file && file[|file|..|file|] == [];
    assert Step(x, w, s) == Stopped([Dup(nr), Lit([])], |file|);
    assert ScanLoop(x, w, s) == ScanLoop(x, w, Step(x, w, s));
  }

  /** References are counted as blocks and reference headers, and literals as literal headers and data. */
  lemma {:induction false} TallyByKind(ps: seq<Packet>)
    ensures (forall i :: 0 <= i < |ps| ==> ps[i].Dup?) ==> TallyOf(ps) == Tally(|ps|, |EncodeAll(ps)|, 0, 0)
    ensures (forall i :: 0 <= i < |ps| ==> ps[i].Lit?) ==> TallyOf(ps).dups == TallyOf(ps).dupHeaders == 0
  {
    hide PacketHeader;
    if |ps| > 0 { TallyByKind(ps[..|ps| - 1]); }
  }

  // ---------------------------------------------------------------- source bytes per decision

  function Weight(bs: nat, a: seq<Atom>): (w: nat) {
    if |a| == 0 then 0
    else Weight(bs, a[..|a| - 1]) + match a[|a| - 1] case Literal(_) => 1 case Reference(_) => bs
  }

  lemma {:induction false} WeightConcat(bs: nat, a: seq<Atom>, b: seq<Atom>)
    ensures Weight(bs, a + b) == Weight(bs, a) + Weight(bs, b)
  {
    if |b| == 0 {
      assert a + b == a;
    } else {
      WeightConcat(bs, a, b[..|b| - 1]);
      assert (a + b)[..|a + b| - 1] == a + b[..|b| - 1];
    }
  }

  lemma {:induction false} WeightLiterals(bs: nat, s: seq<byte>)
    ensures Weight(bs, Literals(s)) == |s|
  {
    if |s| > 0 {
      WeightLiterals(bs, s[..|s| - 1]);
      assert Literals(s)[..|s| - 1] == Literals(s[..|s| - 1]);
    }
  }

  lemma {:induction false} GreedyWeight(x: Scanner, file: seq<byte>, p: nat)
    requires x.bs >= 1 && p <= |file|
    ensures Weight(x.bs, Greedy(x, file, p)) == |file| - p
    decreases |file| - p
  {
    if |file| - p < x.bs {
      WeightLiterals(x.bs, file[p..]);
    } else {
      var q := if x.find(file[p..p + x.bs]).Some? then p + x.bs else p + 1;
      GreedyWeight(x, file, q);
      var first := Greedy(x, file, p)[0];
      assert Greedy(x, file, p) == [first] + Greedy(x, file, q);
      assert [first][..0] == [];
      WeightConcat(x.bs, [first], Greedy(x, file, q));
    }
  }

  lemma WeightFirst(bs: nat, a: seq<Atom>)
    requires |a| > 0
    ensures Weight(bs, a) == (match a[0] case Literal(_) => 1 case Reference(_) => bs) + Weight(bs, a[1..])
  {
    assert a == [a[0]] + a[1..];
    assert [a[0]][..0] == [];
    WeightConcat(bs, [a[0]], a[1..]);
  }

  // ---------------------------------------------------------------- what packets rebuild

  /** What the destination knows: block size, its old copy, the size of the new file, and whether
      the new file is the old copy itself, which opening it for writing has emptied. */
  datatype Target = Target(bs: nat, basis: seq<byte>, size: nat, shared: bool)

  /** The bytes lseek and read give at offset `off`. */
  function ReadAt(f: seq<byte>, off: nat, n: nat): (r: seq<byte>)
    ensures |r| <= n
  {
    f[Min(off, |f|)..Min(off + n, |f|)]
  }

  /** One block read through the old copy's descriptor once `out` has been written to the new file.
      The seek offset is a 32-bit product. */
  function ReadBlock(d: Target, out: seq<byte>, nr: nat): (b: seq<byte>)
    ensures |b| <= d.bs
  {
    ReadAt(if d.shared then out else d.basis, ToU32(d.bs * nr), d.bs)
  }

  /** The seek product is exact below 2^32, and then the block read is the one named. */
  lemma SeekIsExact(d: Target, out: seq<byte>, nr: nat)
    ensures ToU32(d.bs * nr) == d.bs * nr <==> d.bs * nr < U32
    ensures !d.shared && d.bs * nr < U32 && nr * d.bs + d.bs <= |d.basis| ==>
      ReadBlock(d, out, nr) == Block(d.basis, d.bs, nr)
  {
    assert d.bs * nr == nr * d.bs;
  }

  /** From offset 2^32 on a different block is read: here block 2^22 of 1024 bytes, in whose place the
      destination reads block 0. */
  lemma SeekWraps(d: Target, out: seq<byte>, nr: nat)
    requires d.bs == 1024 && nr == 0x40_0000
    ensures ToU32(d.bs * nr) == 0 && ReadBlock(d, out, nr) == ReadBlock(d, out, 0)
  {
  }

  /** Whether a read with `n` bytes written gives a whole block. */
  predicate CanRead(d: Target, n: nat, nr: nat) {
    ToU32(d.bs * nr) + d.bs <= if d.shared then n else |d.basis|
  }

  lemma ReadIsWhole(d: Target, out: seq<byte>, nr: nat)
    requires d.bs >= 1
    ensures |ReadBlock(d, out, nr)| == d.bs <==> CanRead(d, |out|, nr)
  {
    hide ToU32;
  }

  function AtomBytes(d: Target, out: seq<byte>, a: Atom): (s: seq<byte>) {
    match a
    case Literal(b) => [b]
    case Reference(nr) => ReadBlock(d, out, nr)
  }

  /** The new file after `atoms`, starting from `out`. */
  function Play(d: Target, out: seq<byte>, atoms: seq<Atom>): (r: seq<byte>)
    ensures out <= r
    decreases |atoms|
  {
    if |atoms| == 0 then out else Play(d, out + AtomBytes(d, out, atoms[0]), atoms[1..])
  }

  lemma {:induction false} PlayConcat(d: Target, out: seq<byte>, a: seq<Atom>, b: seq<Atom>)
    ensures Play(d, out, a + b) == Play(d, Play(d, out, a), b)
    decreases |a|
  {
    hide AtomBytes;
    if |a| == 0 {
      assert a + b == b;
    } else {
      assert (a + b)[0] == a[0] && (a + b)[1..] == a[1..] + b;
      PlayConcat(d, out + AtomBytes(d, out, a[0]), a[1..], b);
    }
  }

  lemma {:induction false} PlayLiterals(d: Target, out: seq<byte>, s: seq<byte>)
    ensures Play(d, out, Literals(s)) == out + s
    decreases |s|
  {
    if |s| == 0 {
      assert out + s == out;
    } else {
      assert Literals(s)[1..] == Literals(s[1..]);
      PlayLiterals(d, out + [s[0]], s[1..]);
      assert out + [s[0]] + s[1..] == out + s;
    }
  }

  /** With `n` bytes written, every reference among `atoms` finds a whole block at its turn. */
  predicate Readable(d: Target, n: nat, atoms: seq<Atom>)
    decreases |atoms|
  {
    |atoms| == 0 ||
      match atoms[0]
      case Literal(_) => Readable(d, n + 1, atoms[1..])
      case Reference(nr) => CanRead(d, n, nr) && Readable(d, n + d.bs, atoms[1..])
  }

  lemma {:induction false} ReadableConcat(d: Target, n: nat, a: seq<Atom>, b: seq<Atom>)
    ensures Readable(d, n, a + b) <==> Readable(d, n, a) && Readable(d, n + Weight(d.bs, a), b)
    decreases |a|
  {
    hide CanRead;
    if |a| == 0 {
      assert a + b == b;
    } else {
      assert (a + b)[0] == a[0] && (a + b)[1..] == a[1..] + b;
      WeightFirst(d.bs, a);
      ReadableConcat(d, n + (if a[0].Literal? then 1 else d.bs), a[1..], b);
    }
  }

  lemma {:induction false} ReadableLiterals(d: Target, n: nat, s: seq<byte>)
    ensures Readable(d, n, Literals(s))
    decreases |s|
  {
    if |s| > 0 {
      assert Literals(s)[1..] == Literals(s[1..]);
      ReadableLiterals(d, n + 1, s[1..]);
    }
  }

  /** Readable decisions write as many bytes as they stand for. */
  lemma {:induction false} PlayLength(d: Target, out: seq<byte>, atoms: seq<Atom>)
    requires d.bs >= 1 && Readable(d, |out|, atoms)
    ensures |Play(d, out, atoms)| == |out| + Weight(d.bs, atoms)
    decreases |atoms|
  {
    hide ReadBlock, CanRead;
    if |atoms| > 0 {
      if atoms[0].Reference? { ReadIsWhole(d, out, atoms[0].nr); }
      WeightFirst(d.bs, atoms);
      PlayLength(d, out + AtomBytes(d, out, atoms[0]), atoms[1..]);
    }
  }

  /** Every reference among `atoms`, the decisions from source position `p` on, reads the bytes of
      the source window it stands for. */
  predicate Right(d: Target, file: seq<byte>, p: nat, atoms: seq<Atom>)
    decreases |atoms|
  {
    |atoms| == 0 ||
      match atoms[0]
      case Literal(_) => Right(d, file, p + 1, atoms[1..])
      case Reference(nr) =>
        && p + d.bs <= |file| && ReadBlock(d, file[..p], nr) == file[p..p + d.bs]
        && Right(d, file, p + d.bs, atoms[1..])
  }

  /** A source window and an old block that differ although both their hashes agree. */
  ghost predicate CollisionAt(basis: seq<byte>, file: seq<byte>, bs: nat, strong: Strong, nr: nat, p: nat) {
    && nr * bs + bs <= |basis| && p + bs <= |file|
    && file[p..p + bs] != Block(basis, bs, nr)
    && Checksum(file[p..p + bs]) == Checksum(Block(basis, bs, nr))
    && strong(file[p..p + bs]) == strong(Block(basis, bs, nr))
  }

  ghost predicate Collision(basis: seq<byte>, file: seq<byte>, bs: nat, strong: Strong)
    requires bs >= 1
  {
    exists nr: nat, p: nat :: CollisionAt(basis, file, bs, strong, nr, p)
  }

  lemma BlockFits(basis: seq<byte>, bs: nat, nr: nat)
    requires bs >= 1 && nr < |basis| / bs
    ensures nr * bs + bs <= |basis| && |Block(basis, bs, nr)| == bs
  {
    assert (nr + 1) * bs <= |basis| / bs * bs <= |basis|;
  }

  /** A reference found at `p` names a whole old block with the bytes of the window, or `collides`. */
  ghost predicate SoundAt(x: Scanner, basis: seq<byte>, file: seq<byte>, p: nat, collides: bool)
    requires p + x.bs <= |file|
  {
    var w := file[p..p + x.bs];
    x.find(w).Some? ==>
      var b := Block(basis, x.bs, x.find(w).value);
      |b| == x.bs && (b == w || collides)
  }

  ghost predicate Sound(x: Scanner, basis: seq<byte>, file: seq<byte>, collides: bool) {
    forall p: nat {:trigger SoundAt(x, basis, file, p, collides)} ::
      p + x.bs <= |file| ==> SoundAt(x, basis, file, p, collides)
  }

  lemma MatchIsSound(basis: seq<byte>, file: seq<byte>, bs: nat, strong: Strong, p: nat)
    requires bs >= 1 && p + bs <= |file|
    requires Match(Records(basis, bs, strong), strong, file[p..p + bs]).Some?
    ensures var b := Block(basis, bs, Match(Records(basis, bs, strong), strong, file[p..p + bs]).value);
            |b| == bs && (b == file[p..p + bs] || Collision(basis, file, bs, strong))
  {
    hide Checksum, Block;
    var w, table := file[p..p + bs], Records(basis, bs, strong);
    var rec := Lookup(table, Checksum(w)).value;
    var i :| 0 <= i < |table| && table[i] == rec;
    BlockFits(basis, bs, rec.nr);
    if Block(basis, bs, rec.nr) != w {
      BlockFits(basis, bs, i);
      assert CollisionAt(basis, file, bs, strong, rec.nr, p);
    }
  }

  /** With the records of the old file as index, a match is the same bytes or a collision. */
  lemma IndexIsSound(basis: seq<byte>, file: seq<byte>, bs: nat, strong: Strong)
    requires bs >= 1
    ensures Sound(IndexScanner(bs, Records(basis, bs, strong), strong), basis, file,
                  Collision(basis, file, bs, strong))
  {
    hide Collision, Match, Records;
    var x := IndexScanner(bs, Records(basis, bs, strong), strong);
    forall p: nat | p + bs <= |file|
      ensures SoundAt(x, basis, file, p, Collision(basis, file, bs, strong))
    {
      if x.find(file[p..p + bs]).Some? { MatchIsSound(basis, file, bs, strong, p); }
    }
  }

  lemma GreedyFirst(x: Scanner, file: seq<byte>, p: nat)
    requires x.bs >= 1 && p + x.bs <= |file|
    ensures var m := x.find(file[p..p + x.bs]);
            var g := Greedy(x, file, p);
            && |g| > 0
            && g[0] == (if m.Some? then Reference(m.value) else Literal(file[p]))
            && g[1..] == Greedy(x, file, if m.Some? then p + x.bs else p + 1)
  {
  }

  /** Applied to what has been rebuilt so far, readable greedy decisions give a file of the right
      length, and the right file if and only if every reference reads its own window. */
  lemma {:induction false} GreedyRebuilds(x: Scanner, d: Target, file: seq<byte>, p: nat)
    requires x.bs == d.bs >= 1 && p <= |file| && Readable(d, p, Greedy(x, file, p))
    ensures var r := Play(d, file[..p], Greedy(x, file, p));
            |r| == |file| && (r == file <==> Right(d, file, p, Greedy(x, file, p)))
    decreases |file| - p
  {
    hide Greedy, ReadBlock, CanRead;
    if |file| - p < x.bs {
      LastLiterals(x, d, file, p);
    } else {
      GreedyFirst(x, file, p);
      var m := x.find(file[p..p + x.bs]);
      if m.None? {
        assert file[..p] + [file[p]] == file[..p + 1];
        GreedyRebuilds(x, d, file, p + 1);
      } else {
        ReadIsWhole(d, file[..p], m.value);
        WindowRead(x, d, file, p, m.value);
      }
    }
  }

  lemma LastLiterals(x: Scanner, d: Target, file: seq<byte>, p: nat)
    requires x.bs >= 1 && p <= |file| < p + x.bs
    ensures Play(d, file[..p], Greedy(x, file, p)) == file && Right(d, file, p, Greedy(x, file, p))
  {
    PlayLiterals(d, file[..p], file[p..]);
    assert file[..p] + file[p..] == file;
    RightLiterals(d, file, p, file[p..]);
  }

  lemma {:induction false} RightLiterals(d: Target, file: seq<byte>, p: nat, s: seq<byte>)
    ensures Right(d, file, p, Literals(s))
    decreases |s|
  {
    if |s| > 0 {
      assert Literals(s)[1..] == Literals(s[1..]);
      RightLiterals(d, file, p + 1, s[1..]);
    }
  }

  /** A reference at `p`: bytes other than the window's stay in the new file. */
  lemma {:induction false} WindowRead(x: Scanner, d: Target, file: seq<byte>, p: nat, nr: nat)
    requires x.bs == d.bs >= 1 && p + x.bs <= |file| && |ReadBlock(d, file[..p], nr)| == d.bs
    requires x.find(file[p..p + x.bs]) == Some(nr) && Readable(d, p, Greedy(x, file, p))
    ensures var r := Play(d, file[..p], Greedy(x, file, p));
            |r| == |file| && (r == file <==> Right(d, file, p, Greedy(x, file, p)))
    decreases |file| - p, 0
  {
    hide Greedy, ReadBlock, CanRead;
    var g := Greedy(x, file, p);
    var b, w := ReadBlock(d, file[..p], nr), file[p..p + x.bs];
    GreedyFirst(x, file, p);
    if b == w {
      assert file[..p] + w == file[..p + x.bs];
      GreedyRebuilds(x, d, file, p + x.bs);
    } else {
      var out := file[..p] + b;
      var r := Play(d, out, g[1..]);
      GreedyWeight(x, file, p + x.bs);
      PlayLength(d, out, g[1..]);
      assert r[p..p + x.bs] == out[p..p + x.bs] == b;
    }
  }

  /** Decisions that have already rebuilt as many bytes as the file has are all of them. */
  lemma PrefixRebuilds(x: Scanner, d: Target, file: seq<byte>, done: seq<Atom>, todo: seq<Atom>)
    requires x.bs == d.bs >= 1 && done + todo == Greedy(x, file, 0) && Readable(d, 0, done)
    ensures |Play(d, [], done)| == Weight(d.bs, done) <= |file|
    ensures |Play(d, [], done)| == |file| <==> todo == []
    ensures todo == [] ==> (Play(d, [], done) == file <==> Right(d, file, 0, Greedy(x, file, 0)))
  {
    hide Greedy, Readable, Right, Play;
    GreedyWeight(x, file, 0);
    WeightConcat(d.bs, done, todo);
    PlayLength(d, [], done);
    if todo == [] {
      assert done + todo == done && file[..0] == [];
      GreedyRebuilds(x, d, file, 0);
    } else {
      WeightFirst(d.bs, todo);
    }
  }

  lemma {:induction false} RightIsReadable(d: Target, file: seq<byte>, p: nat, atoms: seq<Atom>)
    requires d.bs >= 1 && Right(d, file, p, atoms)
    ensures Readable(d, p, atoms)
    decreases |atoms|
  {
    hide ReadBlock, CanRead;
    if |atoms| > 0 {
      match atoms[0]
      case Literal(_) => RightIsReadable(d, file, p + 1, atoms[1..]);
      case Reference(nr) =>
        ReadIsWhole(d, file[..p], nr);
        RightIsReadable(d, file, p + d.bs, atoms[1..]);
    }
  }

  /** When every reference is right, what is written is the beginning of the file at every moment. */
  lemma WrittenSoFar(x: Scanner, d: Target, file: seq<byte>, done: seq<Atom>, todo: seq<Atom>)
    requires x.bs == d.bs >= 1 && done + todo == Greedy(x, file, 0) && Right(d, file, 0, done + todo)
    ensures Play(d, [], done) <= file
  {
    hide Greedy, Readable, Right, Play;
    RightIsReadable(d, file, 0, done + todo);
    assert file[..0] == [];
    GreedyRebuilds(x, d, file, 0);
    PlayConcat(d, [], done, todo);
    PlayGrows(d, Play(d, [], done), todo);
  }

  lemma PlayGrows(d: Target, out: seq<byte>, atoms: seq<Atom>)
    ensures out <= Play(d, out, atoms)
  {
  }

  ghost predicate Refers(atoms: seq<Atom>, nr: nat) {
    Reference(nr) in atoms
  }

  /** Some reference names a block from offset 2^32 on. */
  ghost predicate HighReference(d: Target, atoms: seq<Atom>) {
    exists nr: nat :: Refers(atoms, nr) && d.bs * nr >= U32
  }

  /** The new file is the old copy itself, and some reference reads from it. */
  ghost predicate SelfReference(d: Target, atoms: seq<Atom>) {
    d.shared && exists nr: nat :: Refers(atoms, nr)
  }

  /** References are right, or there is one of three reasons why not. */
  lemma {:induction false} GreedyIsRight(x: Scanner, d: Target, file: seq<byte>, p: nat, collides: bool)
    requires x.bs == d.bs >= 1 && p <= |file| && Sound(x, d.basis, file, collides)
    ensures var g := Greedy(x, file, p);
            Right(d, file, p, g) || collides || HighReference(d, g) || SelfReference(d, g)
    decreases |file| - p
  {
    hide Greedy, ReadBlock;
    if |file| - p < x.bs {
      LastLiterals(x, d, file, p);
    } else {
      GreedyFirst(x, file, p);
      var g := Greedy(x, file, p);
      var m := x.find(file[p..p + x.bs]);
      var q := if m.Some? then p + x.bs else p + 1;
      GreedyIsRight(x, d, file, q, collides);
      assert forall nr: nat :: Refers(g[1..], nr) ==> Refers(g, nr);
      if m.Some? {
        assert SoundAt(x, d.basis, file, p, collides);
        assert Refers(g, m.value);
        SeekIsExact(d, file[..p], m.value);
      }
    }
  }

  /** References to whole blocks can always be read from an old copy that is left alone. */
  lemma {:induction false} GreedyIsReadable(x: Scanner, d: Target, file: seq<byte>, p: nat, collides: bool)
    requires x.bs == d.bs >= 1 && p <= |file| && Sound(x, d.basis, file, collides) && !d.shared
    ensures Readable(d, p, Greedy(x, file, p))
    decreases |file| - p
  {
    hide Greedy, ToU32;
    if |file| - p < x.bs {
      OnlyLiterals(x, d, file, p);
    } else {
      GreedyFirst(x, file, p);
      var m := x.find(file[p..p + x.bs]);
      GreedyIsReadable(x, d, file, if m.Some? then p + x.bs else p + 1, collides);
      if m.Some? {
        assert SoundAt(x, d.basis, file, p, collides);
        WrapsDown(d.bs, m.value);
      }
    }
  }

  lemma OnlyLiterals(x: Scanner, d: Target, file: seq<byte>, p: nat)
    requires x.bs >= 1 && p <= |file| < p + x.bs
    ensures Readable(d, p, Greedy(x, file, p))
  {
    ReadableLiterals(d, p, file[p..]);
  }

  lemma WrapsDown(bs: nat, nr: nat)
    ensures ToU32(bs * nr) <= nr * bs
  {
    assert bs * nr == nr * bs;
    assert Wraps32(bs * nr) >= 0;
  }

  /** Without a match the scan makes no reference. */
  lemma {:induction false} NothingFound(x: Scanner, file: seq<byte>, p: nat)
    requires x.bs >= 1 && p <= |file| && forall w :: x.find(w).None?
    ensures Greedy(x, file, p) == Literals(file[p..])
    decreases |file| - p
  {
    if |file| - p >= x.bs {
      NothingFound(x, file, p + 1);
      assert Literals(file[p..]) == [Literal(file[p])] + Literals(file[p + 1..]);
    }
  }

  // ---------------------------------------------------------------- conservation

  lemma Distribute(n: nat, bs: nat)
    ensures (n + 1) * bs == n * bs + bs
  {
  }

  lemma PacketWeight(bs: nat, p: Packet)
    ensures Weight(bs, PacketAtoms(p)) == match p case Lit(data) => |data| case Dup(_) => bs
  {
    match p
    case Lit(data) => WeightLiterals(bs, data);
    case Dup(nr) => assert [Reference(nr)][..0] == [];
  }

  lemma {:induction false} TallyWeight(bs: nat, ps: seq<Packet>)
    ensures Weight(bs, AtomsOf(ps)) == TallyOf(ps).dups * bs + TallyOf(ps).data
  {
    hide PacketAtoms, Literals, Header, PacketHeader;
    if |ps| > 0 {
      var init, p := ps[..|ps| - 1], ps[|ps| - 1];
      TallyWeight(bs, init);
      WeightConcat(bs, AtomsOf(init), PacketAtoms(p));
      PacketWeight(bs, p);
      Distribute(TallyOf(init).dups, bs);
    }
  }

  /** Referenced blocks and literal bytes of the packets sent add up to the source bytes packed. */
  lemma Conservation(x: Scanner, file: seq<byte>, ps: seq<Packet>, pos: nat)
    requires x.bs >= 1 && pos <= |file|
    requires AtomsOf(ps) + Greedy(x, file, pos) == Greedy(x, file, 0)
    ensures TallyOf(ps).dups * x.bs + TallyOf(ps).data == pos
  {
    GreedyWeight(x, file, 0);
    GreedyWeight(x, file, pos);
    TallyWeight(x.bs, ps);
    WeightConcat(x.bs, AtomsOf(ps), Greedy(x, file, pos));
  }
}
