/** The fixed-size frames before the delta: sync request (512 bytes), checksum header (32) and
    checksum records (64 each), as printed by one side and parsed by the other. */
module Frames {
  import opened Bytes
  import opened Decimal
  import opened HashTable

  /** A zeroed frame of `size` bytes with `text` printed into it. */
  function Framed(text: seq<byte>, size: nat): (f: seq<byte>)
    ensures |f| == size
    ensures |text| < size ==> f == text + Zeros(size - |text|)
  {
    Splice(Zeros(size), 0, Printed(text, size))
  }

  /** A number as printed, between its start character and a newline. */
  function NumField(start: byte, n: nat): (t: seq<byte>)
    ensures |t| == |Dec(n)| + 2
  {
    [start] + Dec(n) + [NEWLINE]
  }

  /** A string as printed, after a dollar sign and before a newline. */
  function StrField(t: seq<byte>): (u: seq<byte>)
    ensures |u| == |t| + 2
  {
    [DOLLAR] + t + [NEWLINE]
  }

  lemma AtCut(s: seq<byte>, p: nat, t: seq<byte>)
    requires At(s, p, t)
    ensures s == s[..p] + t + s[p + |t|..]
  {
    assert s == s[..p] + s[p..p + |t|] + s[p + |t|..];
  }

  lemma FieldAt(s: seq<byte>, p: nat, start: byte, n: nat)
    requires At(s, p, NumField(start, n))
    ensures p < |s| && Field(s, p, start, NEWLINE) == Some((n, p + |Dec(n)| + 2))
  {
    hide Field, Dec;
    AtCut(s, p, NumField(start, n));
    FieldRoundTrip(s[..p], n, start, NEWLINE, s[p + |Dec(n)| + 2..]);
  }

  /** str2i or str2ll at `p`, with a result of -1 taken for a failure, as every caller does. Running
      off the end of the buffer counts as a failure here. */
  function Number(s: seq<byte>, p: nat, start: byte, half: int): (r: Option<(int, nat)>)
    requires half == I32 || half == I64
    ensures r.Some? ==> p + 2 <= r.value.1 <= |s|
  {
    if p >= |s| then None
    else
      match Field(s, p, start, NEWLINE)
      case None => None
      case Some((n, q)) => if Signed(n, half) == -1 then None else Some((Signed(n, half), q))
  }

  /** A digit run ends inside a buffer that ends in NUL. */
  lemma DigitsEndInside(s: seq<byte>, p: nat)
    requires p < |s| && s[|s| - 1] == 0
    ensures DigitsEnd(s, p) < |s|
  {
  }

  /** A field that parses ends with its newline. */
  lemma FieldEndsInside(s: seq<byte>, p: nat, start: byte)
    requires p < |s|
    ensures var f := Field(s, p, start, NEWLINE); f.Some? ==> s[f.value.1 - 1] == NEWLINE
  {
    hide Value;
  }

  /** str2i and str2ll look at a field at `p` without leaving the buffer. */
  predicate Inside(s: seq<byte>, p: nat, start: byte) {
    p < |s| && (s[p] == start ==> DigitsEnd(s, p + 1) < |s|)
  }

  /** In a buffer that ends in NUL they never leave it. */
  lemma NulKeepsInside(s: seq<byte>, p: nat, start: byte, half: int)
    requires half == I32 || half == I64
    requires p < |s| && s[|s| - 1] == 0 && start != 0
    ensures Inside(s, p, start)
    ensures var r := Number(s, p, start, half); r.Some? ==> r.value.1 < |s|
  {
    hide Value, Signed;
    if p + 1 < |s| { DigitsEndInside(s, p + 1); }
    FieldEndsInside(s, p, start);
  }

  /** str2i or str2ll at `p` and the test for failure. */
  method ReadNumber(buf: array<byte>, p: nat, start: byte, half: int) returns (r: Option<(int, nat)>)
    requires half == I32 || half == I64
    requires Inside(buf[..], p, start)
    ensures r == Number(buf[..], p, start, half)
    ensures r.Some? ==> -half <= r.value.0 < half && r.value.1 <= buf.Length && buf[r.value.1 - 1] == NEWLINE
  {
    FieldEndsInside(buf[..], p, start);
    hide Field, Signed;
    var i, q := Str2Int(buf, p, start, NEWLINE, half);
    return if i == -1 then None else Some((i, q));
  }

  lemma NumberAt(s: seq<byte>, p: nat, start: byte, n: nat, half: int)
    requires half == I32 || half == I64
    requires At(s, p, NumField(start, n)) && n < half
    ensures Number(s, p, start, half) == Some((n, p + |Dec(n)| + 2))
  {
    hide Dec, At, NumField, Field;
    FieldAt(s, p, start, n);
  }

  /** A printed unsigned int comes back through str2i, all but 2^32 - 1. */
  lemma UnsignedAt(s: seq<byte>, p: nat, n: nat)
    requires At(s, p, NumField(DOLLAR, n)) && n < U32
    ensures var r := Number(s, p, DOLLAR, I32);
            if n == U32 - 1 then r == None
            else r.Some? && ToU32(r.value.0) == n && r.value.1 == p + |Dec(n)| + 2
  {
    hide Signed, ToU32, Dec, At, NumField, Field;
    FieldAt(s, p, DOLLAR, n);
    ReadingOfU32(n);
  }

  /** A signed 64-bit number printed with %llu comes back through str2ll, all but -1. */
  lemma LongAt(s: seq<byte>, p: nat, m: int)
    requires -I64 <= m < I64 && At(s, p, NumField(DOLLAR, Unsigned(m)))
    ensures Number(s, p, DOLLAR, I64) == if m == -1 then None else Some((m, p + |Dec(Unsigned(m))| + 2))
  {
    hide Dec, At, NumField, Field;
    FieldAt(s, p, DOLLAR, Unsigned(m));
  }

  lemma StrParts(s: seq<byte>, p: nat, t: seq<byte>)
    requires At(s, p, StrField(t))
    ensures p < |s| && s[p] == DOLLAR && At(s, p + 1, t)
  {
    AtSplit(s, p, [DOLLAR] + t, [NEWLINE]);
    AtSplit(s, p, [DOLLAR], t);
    AtFirst(s, p, DOLLAR);
  }

  /** Length of the string at `p`, looking at no more than `n` characters. */
  function StrLen(s: seq<byte>, p: nat, n: nat): (k: nat)
    requires p <= |s|
    ensures k <= n && p + k <= |s|
    ensures forall i :: p <= i < p + k ==> s[i] != 0
    ensures k < n && p + k < |s| ==> s[p + k] == 0
    decreases n
  {
    if n > 0 && p < |s| && s[p] != 0 then 1 + StrLen(s, p + 1, n - 1) else 0
  }

  /** The C string a buffer holds: the characters before the first NUL. */
  function CString(s: seq<byte>): (t: seq<byte>)
    ensures t <= s && NoNul(t)
    ensures |t| < |s| ==> s[|t|] == 0
    ensures NoNul(s) ==> t == s
  {
    s[..StrLen(s, 0, |s|)]
  }

  /** strncpy(dst, s + p, n): the string at `p`, then NULs. */
  function Strncpy(s: seq<byte>, p: nat, n: nat): (t: seq<byte>)
    requires p <= |s|
    ensures |t| == n
  {
    var k := StrLen(s, p, n);
    s[p..p + k] + Zeros(n - k)
  }

  lemma StrncpyAt(s: seq<byte>, p: nat, t: seq<byte>)
    requires At(s, p, t) && NoNul(t)
    ensures Strncpy(s, p, |t|) == t
  {
    var w := s[p..p + |t|];
    forall i | p <= i < p + |t|
      ensures s[i] != 0
    {
      assert s[i] == w[i - p] == t[i - p];
    }
  }

  // ---------------------------------------------------------------- checksum header

  function HeaderFrame(blockNr: nat): (f: seq<byte>)
    ensures |f| == CHECKSUM_HEADER_SIZE
  {
    Framed(NumField(DOLLAR, blockNr), CHECKSUM_HEADER_SIZE)
  }

  /** parse_checksum_header */
  function ParseHeaderFrame(s: seq<byte>): (r: Option<nat>)
  {
    match Number(s, 0, DOLLAR, I32)
    case None => None
    case Some((n, _)) => Some(ToU32(n))
  }

  lemma HeaderFrameRoundTrip(blockNr: nat, post: seq<byte>)
    requires blockNr < U32
    ensures ParseHeaderFrame(HeaderFrame(blockNr) + post) == if blockNr == U32 - 1 then None else Some(blockNr)
  {
    DecLengths(blockNr);
    var s := HeaderFrame(blockNr) + post;
    assert At(s, 0, NumField(DOLLAR, blockNr));
    UnsignedAt(s, 0, blockNr);
  }

  // ---------------------------------------------------------------- checksum records

  function RecordText(rec: Record): (t: seq<byte>)
    ensures |t| == |Dec(rec.nr)| + |Dec(rec.rcksm)| + |rec.md5| + 6
  {
    NumField(DOLLAR, rec.nr) + (NumField(DOLLAR, rec.rcksm) + StrField(rec.md5))
  }

  function RecordFrame(rec: Record): (f: seq<byte>)
    ensures |f| == CHECKSUM_SIZE
  {
    Framed(RecordText(rec), CHECKSUM_SIZE)
  }

  /** parse_checksum at `p` of the receive buffer. */
  function ParseRecord(s: seq<byte>, p: nat): (r: Option<Record>)
  {
    match Number(s, p, DOLLAR, I32)
    case None => None
    case Some((nr, q)) =>
      match Number(s, q, DOLLAR, I32)
      case None => None
      case Some((rcksm, e)) =>
        if e < |s| && s[e] == DOLLAR then Some(Record(ToU32(nr), ToU32(rcksm), Strncpy(s, e + 1, 32))) else None
  }

  /** parse_checksum at `p` stays inside the buffer. */
  predicate RecordInside(s: seq<byte>, p: nat) {
    && Inside(s, p, DOLLAR)
    && var nr := Number(s, p, DOLLAR, I32);
       nr.Some? ==>
         && Inside(s, nr.value.1, DOLLAR)
         && var rcksm := Number(s, nr.value.1, DOLLAR, I32);
            rcksm.Some? ==> rcksm.value.1 < |s|
  }

  lemma NulKeepsRecordInside(s: seq<byte>, p: nat)
    requires p < |s| && s[|s| - 1] == 0
    ensures RecordInside(s, p)
  {
    hide Number, Inside;
    NulKeepsInside(s, p, DOLLAR, I32);
    var nr := Number(s, p, DOLLAR, I32);
    if nr.Some? { NulKeepsInside(s, nr.value.1, DOLLAR, I32); }
  }

  /** A record the destination can send. */
  predicate LegalRecord(rec: Record) {
    rec.nr < U32 - 1 && rec.rcksm < U32 && |rec.md5| == 32 && NoNul(rec.md5)
  }

  lemma RecordFits(rec: Record)
    requires LegalRecord(rec)
    ensures |RecordText(rec)| < CHECKSUM_SIZE
  {
    DecLengths(rec.nr);
    DecLengths(rec.rcksm);
  }

  /** A printed record reads back as itself, except that a rolling checksum of 2^32 - 1 is taken
      for a parse failure. */
  lemma RecordRoundTrip(rec: Record, s: seq<byte>, p: nat)
    requires LegalRecord(rec) && At(s, p, RecordFrame(rec))
    ensures ParseRecord(s, p) == if rec.rcksm == U32 - 1 then None else Some(rec)
  {
    hide At, NumField, StrField, Number, Strncpy, Dec, RecordFrame, ParseRecord, NoNul;
    var q := p + |Dec(rec.nr)| + 2;
    var e := q + |Dec(rec.rcksm)| + 2;
    RecordParts(rec, s, p);
    UnsignedAt(s, p, rec.nr);
    UnsignedAt(s, q, rec.rcksm);
    MdAt(s, e, rec.md5);
    RecordCompose(rec, s, p, q, e);
  }

  lemma RecordCompose(rec: Record, s: seq<byte>, p: nat, q: nat, e: nat)
    requires e < |s| && s[e] == DOLLAR && Strncpy(s, e + 1, 32) == rec.md5
    requires var n := Number(s, p, DOLLAR, I32); n.Some? && ToU32(n.value.0) == rec.nr && n.value.1 == q
    requires var c := Number(s, q, DOLLAR, I32);
             if rec.rcksm == U32 - 1 then c == None
             else c.Some? && ToU32(c.value.0) == rec.rcksm && c.value.1 == e
    ensures ParseRecord(s, p) == if rec.rcksm == U32 - 1 then None else Some(rec)
  {
    hide Number, Strncpy, ToU32;
  }

  lemma RecordParts(rec: Record, s: seq<byte>, p: nat)
    requires LegalRecord(rec) && At(s, p, RecordFrame(rec))
    ensures var q := p + |Dec(rec.nr)| + 2;
            var e := q + |Dec(rec.rcksm)| + 2;
            && At(s, p, NumField(DOLLAR, rec.nr)) && At(s, q, NumField(DOLLAR, rec.rcksm))
            && At(s, e, StrField(rec.md5))
  {
    hide NumField, StrField, At, RecordFrame, NoNul;
    RecordTextAt(rec, s, p);
    var nr, rc, md := NumField(DOLLAR, rec.nr), NumField(DOLLAR, rec.rcksm), StrField(rec.md5);
    AtSplit(s, p, nr, rc + md);
    AtSplit(s, p + |nr|, rc, md);
  }

  lemma RecordTextAt(rec: Record, s: seq<byte>, p: nat)
    requires LegalRecord(rec) && At(s, p, RecordFrame(rec))
    ensures At(s, p, RecordText(rec))
  {
    hide RecordText, At, NoNul;
    RecordFits(rec);
    AtSplit(s, p, RecordText(rec), Zeros(CHECKSUM_SIZE - |RecordText(rec)|));
  }

  /** The records of a batch, in order; None as soon as one does not parse. */
  function ParseBatch(s: seq<byte>, count: nat): (r: Option<seq<Record>>)
    requires count * CHECKSUM_SIZE <= |s|
    ensures r.Some? ==> |r.value| == count
  {
    if count == 0 then Some([])
    else
      match ParseBatch(s, count - 1)
      case None => None
      case Some(rs) =>
        match ParseRecord(s, (count - 1) * CHECKSUM_SIZE)
        case None => None
        case Some(rec) => Some(rs + [rec])
  }

  /** The parse loop of receive_checksums stays inside the buffer. */
  predicate BatchInside(s: seq<byte>, count: nat)
    requires count * CHECKSUM_SIZE <= |s|
  {
    forall i :: 0 <= i < count && ParseBatch(s, i).Some? ==> RecordInside(s, i * CHECKSUM_SIZE)
  }

  lemma NulKeepsBatchInside(s: seq<byte>, count: nat)
    requires 0 < count * CHECKSUM_SIZE <= |s| && s[|s| - 1] == 0
    ensures BatchInside(s, count)
  {
    hide RecordInside, ParseBatch;
    forall i | 0 <= i < count
      ensures RecordInside(s, i * CHECKSUM_SIZE)
    {
      NulKeepsRecordInside(s, i * CHECKSUM_SIZE);
    }
  }

  function FramesOf(rs: seq<Record>): (f: seq<byte>)
    ensures |f| == |rs| * CHECKSUM_SIZE
  {
    if |rs| == 0 then [] else FramesOf(rs[..|rs| - 1]) + RecordFrame(rs[|rs| - 1])
  }

  /** Every frame ends in NUL. */
  lemma FramesEndInNul(rs: seq<Record>)
    requires |rs| > 0 && LegalRecords(rs)
    ensures FramesOf(rs)[|rs| * CHECKSUM_SIZE - 1] == 0
  {
    hide RecordFrame;
    FrameEndsInNul(rs[|rs| - 1]);
    var f := FramesOf(rs[..|rs| - 1]);
    assert FramesOf(rs) == f + RecordFrame(rs[|rs| - 1]);
  }

  lemma FrameEndsInNul(rec: Record)
    requires LegalRecord(rec)
    ensures RecordFrame(rec)[CHECKSUM_SIZE - 1] == 0
  {
    hide RecordText;
    RecordFits(rec);
  }

  predicate LegalRecords(rs: seq<Record>) {
    forall i :: 0 <= i < |rs| ==> LegalRecord(rs[i])
  }

  /** No record has the one checksum that does not survive the wire. */
  predicate AllReadable(rs: seq<Record>) {
    forall i :: 0 <= i < |rs| ==> rs[i].rcksm != U32 - 1
  }

  /** A batch parses to exactly the records sent when none of them has the checksum 2^32 - 1, and
      otherwise not at all. */
  lemma {:induction false} BatchRoundTrip(rs: seq<Record>, s: seq<byte>)
    requires LegalRecords(rs) && At(s, 0, FramesOf(rs))
    ensures ParseBatch(s, |rs|) == if AllReadable(rs) then Some(rs) else None
  {
    hide ParseRecord, RecordFrame;
    if |rs| > 0 {
      var init, rec := rs[..|rs| - 1], rs[|rs| - 1];
      AtSplit(s, 0, FramesOf(init), RecordFrame(rec));
      BatchRoundTrip(init, s);
      RecordRoundTrip(rec, s, |init| * CHECKSUM_SIZE);
      assert AllReadable(rs) <==> AllReadable(init) && rec.rcksm != U32 - 1;
      assert init + [rec] == rs;
    }
  }

  lemma {:induction false} FramesConcat(a: seq<Record>, b: seq<Record>)
    ensures FramesOf(a + b) == FramesOf(a) + FramesOf(b)
  {
    hide RecordFrame;
    if |b| == 0 {
      assert a + b == a;
    } else {
      var init := b[..|b| - 1];
      FramesConcat(a, init);
      assert (a + b)[..|a + b| - 1] == a + init && (a + b)[|a + b| - 1] == b[|b| - 1];
      var f := RecordFrame(b[|b| - 1]);
      assert FramesOf(a) + FramesOf(init) + f == FramesOf(a) + (FramesOf(init) + f);
    }
  }

  // ---------------------------------------------------------------- sync request

  datatype Request = Request(name: seq<byte>, size: nat, bs: nat, mtime: int, md5: seq<byte>)

  /** Conversion of a `long long` to `unsigned long long`, which %llu prints. */
  function Unsigned(x: int): (r: nat)
    ensures r < U64
    ensures -I64 <= x < I64 ==> Signed(r, I64) == x
  {
    x % U64
  }

  function RequestText(r: Request): (t: seq<byte>)
    ensures |t| == |Dec(|r.name|)| + |r.name| + |Dec(r.size)| + |Dec(r.bs)| + |Dec(Unsigned(r.mtime))| + |r.md5| + 12
  {
    NumField(HASH, |r.name|) + (StrField(r.name) + RequestTailText(r))
  }

  function RequestTailText(r: Request): (t: seq<byte>)
    ensures |t| == |Dec(r.size)| + |Dec(r.bs)| + |Dec(Unsigned(r.mtime))| + |r.md5| + 8
  {
    NumField(DOLLAR, r.size) + (NumField(DOLLAR, r.bs) + (NumField(DOLLAR, Unsigned(r.mtime)) + StrField(r.md5)))
  }

  /** The first 512 bytes of the zeroed 32 KB buffer the request was printed into. */
  function RequestFrame(r: Request): (f: seq<byte>)
    ensures |f| == FILE_INFO_SIZE
  {
    Framed(RequestText(r), BUF_SIZE)[..FILE_INFO_SIZE]
  }

  /** The parsing half of on_read_recv_sync_req. A negative name length other than the failure
      value -1 counts as illegal here; the C has no such check. */
  function ParseRequest(s: seq<byte>): (r: Option<Request>)
  {
    match Number(s, 0, HASH, I32)
    case None => None
    case Some((len, p)) =>
      if len < 0 || len > MAX_NAME_LENGTH - 1 || p >= |s| || s[p] != DOLLAR then None
      else ParseRequestTail(s, Strncpy(s, p + 1, len), p + len + 2)
  }

  /** The fields after the name, starting at `p`. */
  function ParseRequestTail(s: seq<byte>, name: seq<byte>, p: nat): (r: Option<Request>)
  {
    match Number(s, p, DOLLAR, I64)
    case None => None
    case Some((size, q)) =>
      match Number(s, q, DOLLAR, I32)
      case None => None
      case Some((bs, e)) =>
        match Number(s, e, DOLLAR, I64)
        case None => None
        case Some((mtime, m)) =>
          if m < |s| && s[m] == DOLLAR
          then Some(Request(name, size % U64, ToU32(bs), mtime, Strncpy(s, m + 1, 32)))
          else None
  }

  predicate LegalRequest(r: Request) {
    && |r.name| <= MAX_NAME_LENGTH - 1 && NoNul(r.name)
    && r.size < I64 && -I64 <= r.mtime < I64 && r.bs < I32
    && |r.md5| == 32 && NoNul(r.md5)
  }

  lemma RequestFits(r: Request)
    requires LegalRequest(r)
    ensures |RequestText(r)| <= 363 < FILE_INFO_SIZE
    ensures RequestFrame(r) == RequestText(r) + Zeros(FILE_INFO_SIZE - |RequestText(r)|)
  {
    DecLengths(|r.name|);
    DecLengths(r.size);
    DecLengths(r.bs);
    DecLengths(Unsigned(r.mtime));
  }

  /** Every legal request, newlines in the name included, fits its frame and is recovered whole
      from any buffer that starts with the frame, except that a modification time of -1 is taken
      for a parse failure. */
  lemma RequestRoundTrip(r: Request, post: seq<byte>)
    requires LegalRequest(r)
    ensures ParseRequest(RequestFrame(r) + post) == if r.mtime == -1 then None else Some(r)
  {
    hide At, Number, NumField, StrField, Strncpy, Dec, RequestFrame, RequestText, RequestTailText, ParseRequestTail,
         NoNul;
    var s := RequestFrame(r) + post;
    var p := |Dec(|r.name|)| + 2;
    RequestParts(r, post);
    NumberAt(s, 0, HASH, |r.name|, I32);
    StrParts(s, p, r.name);
    StrncpyAt(s, p + 1, r.name);
    TailRoundTrip(r, s, p + |r.name| + 2);
  }

  lemma RequestAtFront(r: Request, post: seq<byte>)
    requires LegalRequest(r)
    ensures At(RequestFrame(r) + post, 0, RequestText(r))
  {
    hide RequestText;
    RequestFits(r);
  }

  lemma RequestParts(r: Request, post: seq<byte>)
    requires LegalRequest(r)
    ensures var s := RequestFrame(r) + post;
            var p := |Dec(|r.name|)| + 2;
            && At(s, 0, NumField(HASH, |r.name|)) && At(s, p, StrField(r.name))
            && At(s, p + |r.name| + 2, RequestTailText(r))
  {
    hide NumField, StrField, RequestTailText, RequestFrame, At;
    RequestAtFront(r, post);
    var s := RequestFrame(r) + post;
    var name, tail := StrField(r.name), RequestTailText(r);
    AtSplit(s, 0, NumField(HASH, |r.name|), name + tail);
    AtSplit(s, |NumField(HASH, |r.name|)|, name, tail);
  }

  lemma TailRoundTrip(r: Request, s: seq<byte>, p: nat)
    requires LegalRequest(r) && At(s, p, RequestTailText(r))
    ensures ParseRequestTail(s, r.name, p) == if r.mtime == -1 then None else Some(r)
  {
    hide At, NumField, StrField, Number, Strncpy, Dec, RequestTailText, ParseRequestTail, NoNul;
    var q := p + |Dec(r.size)| + 2;
    var e := q + |Dec(r.bs)| + 2;
    var m := e + |Dec(Unsigned(r.mtime))| + 2;
    TailParts(r, s, p);
    NumberAt(s, p, DOLLAR, r.size, I64);
    NumberAt(s, q, DOLLAR, r.bs, I32);
    LongAt(s, e, r.mtime);
    MdAt(s, m, r.md5);
    TailCompose(r, s, p, q, e, m);
  }

  lemma MdAt(s: seq<byte>, p: nat, t: seq<byte>)
    requires At(s, p, StrField(t)) && NoNul(t)
    ensures p < |s| && s[p] == DOLLAR && Strncpy(s, p + 1, |t|) == t
  {
    hide Strncpy, At, StrField, NoNul;
    StrParts(s, p, t);
    StrncpyAt(s, p + 1, t);
  }

  lemma TailCompose(r: Request, s: seq<byte>, p: nat, q: nat, e: nat, m: nat)
    requires LegalRequest(r) && m < |s| && s[m] == DOLLAR && Strncpy(s, m + 1, 32) == r.md5
    requires Number(s, p, DOLLAR, I64) == Some((r.size, q))
    requires Number(s, q, DOLLAR, I32) == Some((r.bs, e))
    requires Number(s, e, DOLLAR, I64) == if r.mtime == -1 then None else Some((r.mtime, m))
    ensures ParseRequestTail(s, r.name, p) == if r.mtime == -1 then None else Some(r)
  {
    hide Number, Strncpy;
  }

  lemma TailParts(r: Request, s: seq<byte>, p: nat)
    requires LegalRequest(r) && At(s, p, RequestTailText(r))
    ensures var q := p + |Dec(r.size)| + 2;
            var e := q + |Dec(r.bs)| + 2;
            var m := e + |Dec(Unsigned(r.mtime))| + 2;
            && At(s, p, NumField(DOLLAR, r.size)) && At(s, q, NumField(DOLLAR, r.bs))
            && At(s, e, NumField(DOLLAR, Unsigned(r.mtime))) && At(s, m, StrField(r.md5))
  {
    hide NumField, StrField, At;
    var size, bs, mtime := NumField(DOLLAR, r.size), NumField(DOLLAR, r.bs), NumField(DOLLAR, Unsigned(r.mtime));
    var md := StrField(r.md5);
    AtSplit(s, p, size, bs + (mtime + md));
    AtSplit(s, p + |size|, bs, mtime + md);
    AtSplit(s, p + |size| + |bs|, mtime, md);
  }

  /** The name length of a legal request is read back as it is. */
  lemma NameLengthArrives(r: Request, post: seq<byte>)
    requires LegalRequest(r)
    ensures var len := Number(RequestFrame(r) + post, 0, HASH, I32);
            len.Some? && len.value.0 == |r.name|
  {
    hide At, NumField, StrField, Number, RequestFrame, RequestText, RequestTailText, NoNul, Dec;
    RequestParts(r, post);
    NumberAt(RequestFrame(r) + post, 0, HASH, |r.name|, I32);
  }
}
