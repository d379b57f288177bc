/** The delta stream as the destination reads it: a parser over values that consumes packets from
    the front of the bytes received so far and asks for more when a packet is incomplete. */
module DeltaParse {
  import opened Bytes
  import opened Decimal
  import opened Delta

  datatype HeaderResult = Incomplete | Malformed | Parsed(flag: byte, nr: nat, len: nat)

  /** parse_delta_header on the unconsumed bytes `s`: nothing is looked at before a newline is
      there. `nr` is the wrapped reading of str2i stored in an unsigned int. */
  function ParseHeader(s: seq<byte>): (h: HeaderResult)
    ensures h.Parsed? ==> 4 <= h.len <= |s|
  {
    if NEWLINE !in s then Incomplete
    else if s[0] != DOLLAR then Malformed
    else if s[1] != FLAG_DUP && s[1] != FLAG_NDUP then Malformed
    else
      assert exists i :: 0 <= i < |s| && s[i] == NEWLINE;
      match Field(s, 2, DOLLAR, NEWLINE)
      case None => Malformed
      case Some((n, next)) =>
        var nr := ToU32(Signed(n, I32));
        if nr == U32 - 1 then Malformed else Parsed(s[1], nr, next)
  }

  datatype PacketResult = NeedMore | Bad | Write(data: seq<byte>, used: nat)

  /** One turn of the loop of parse_delta_file, with `out` already written. */
  function ParsePacket(d: Target, s: seq<byte>, out: seq<byte>): (r: PacketResult)
    ensures r.Write? ==> 4 <= r.used <= |s|
  {
    match ParseHeader(s)
    case Incomplete => NeedMore
    case Malformed => Bad
    case Parsed(flag, nr, len) =>
      if flag == FLAG_DUP then
        var block := ReadBlock(d, out, nr);
        if |block| != d.bs then Bad else Write(block, len)
      else if |s| - len < nr then NeedMore
      else Write(s[len..len + nr], len + nr)
  }

  /** What parsing stops with; `out` is everything written to the new file so far. */
  datatype Outcome =
    | More(rest: seq<byte>, out: seq<byte>)
    | AllDone(out: seq<byte>)
    | Failed(out: seq<byte>)

  /** parse_delta_file from unconsumed bytes `s` with `out` already written. The size is compared
      only after a write. */
  function Parse(d: Target, s: seq<byte>, out: seq<byte>): (r: Outcome)
    decreases |s|
  {
    match ParsePacket(d, s, out)
    case NeedMore => More(s, out)
    case Bad => Failed(out)
    case Write(data, used) =>
      if |out + data| == d.size then AllDone(out + data) else Parse(d, s[used..], out + data)
  }

  // ---------------------------------------------------------------- any split of the stream

  lemma {:induction false} DigitsEndStable(s: seq<byte>, t: seq<byte>, k: nat)
    requires k <= |s| && DigitsEnd(s, k) < |s|
    ensures DigitsEnd(s + t, k) == DigitsEnd(s, k)
    decreases |s| - k
  {
    assert (s + t)[k] == s[k];
    if IsDigit(s[k]) {
      DigitsEndStable(s, t, k + 1);
    }
  }

  /** A complete header stays what it is when more bytes arrive. */
  lemma HeaderStable(s: seq<byte>, t: seq<byte>)
    requires ParseHeader(s) != Incomplete
    ensures ParseHeader(s + t) == ParseHeader(s)
  {
    var i :| 0 <= i < |s| && s[i] == NEWLINE;
    assert (s + t)[i] == NEWLINE && (s + t)[0] == s[0];
    if s[0] == DOLLAR && (s[1] == FLAG_DUP || s[1] == FLAG_NDUP) {
      assert i >= 2 && (s + t)[1] == s[1] && (s + t)[2] == s[2];
      if s[2] == DOLLAR {
        var e := DigitsEnd(s, 3);
        assert e <= i;
        DigitsEndStable(s, t, 3);
        assert (s + t)[3..e] == s[3..e] && (s + t)[e] == s[e];
      }
    }
  }

  lemma PacketStable(d: Target, s: seq<byte>, t: seq<byte>, out: seq<byte>)
    requires ParsePacket(d, s, out) != NeedMore
    ensures ParsePacket(d, s + t, out) == ParsePacket(d, s, out)
  {
    hide ReadBlock;
    HeaderStable(s, t);
    match ParseHeader(s)
    case Incomplete =>
    case Malformed =>
    case Parsed(flag, nr, len) =>
      if flag != FLAG_DUP {
        assert (s + t)[len..len + nr] == s[len..len + nr];
      }
  }

  /** Continue from an earlier stop with more bytes. */
  function Resume(d: Target, r: Outcome, t: seq<byte>): (q: Outcome)
  {
    match r
    case More(rest, out) => Parse(d, rest + t, out)
    case AllDone(_) => r
    case Failed(_) => r
  }

  /** Stopping after `s` and resuming with `t` is parsing `s + t`, for every byte stream and
      wherever it is cut. */
  lemma {:induction false} ParseSplit(d: Target, s: seq<byte>, t: seq<byte>, out: seq<byte>)
    ensures Parse(d, s + t, out) == Resume(d, Parse(d, s, out), t)
    decreases |s|
  {
    hide ParseHeader, ParsePacket;
    var r := ParsePacket(d, s, out);
    if r != NeedMore {
      PacketStable(d, s, t, out);
      if r.Write? && |out + r.data| != d.size {
        ParseSplit(d, s[r.used..], t, out + r.data);
        assert (s + t)[r.used..] == s[r.used..] + t;
      }
    }
  }

  /** One read after another, each followed by parse_delta_file on what is left in the buffer. */
  function Receive(d: Target, chunks: seq<seq<byte>>): (r: Outcome) {
    if |chunks| == 0 then More([], []) else Resume(d, Receive(d, chunks[..|chunks| - 1]), chunks[|chunks| - 1])
  }

  lemma ParseEmpty(d: Target, out: seq<byte>)
    ensures Parse(d, [], out) == More([], out)
  {
  }

  /** Whatever the reads, the result is that of one parse of the whole stream. */
  lemma {:induction false} AnySplit(d: Target, chunks: seq<seq<byte>>)
    ensures Receive(d, chunks) == Parse(d, Concat(chunks), [])
  {
    if |chunks| == 0 {
      ParseEmpty(d, []);
    } else {
      var init := chunks[..|chunks| - 1];
      AnySplit(d, init);
      ParseSplit(d, Concat(init), chunks[|chunks| - 1], []);
    }
  }

  // ---------------------------------------------------------------- streams the encoder sends

  function PacketBytes(d: Target, out: seq<byte>, p: Packet): (s: seq<byte>) {
    match p
    case Lit(data) => data
    case Dup(nr) => ReadBlock(d, out, nr)
  }

  /** Reading a printed header back. */
  lemma HeaderRoundTrip(flag: byte, n: nat, post: seq<byte>)
    requires (flag == FLAG_DUP || flag == FLAG_NDUP) && n < U32 - 1
    ensures ParseHeader(Header(flag, n) + post) == Parsed(flag, n, |Header(flag, n)|)
  {
    var s := Header(flag, n) + post;
    var k := |Header(flag, n)| - 1;
    assert s[k] == NEWLINE && s[0] == DOLLAR && s[1] == flag;
    FieldRoundTrip([DOLLAR, flag], n, DOLLAR, NEWLINE, post);
    assert s == [DOLLAR, flag] + ([DOLLAR] + Dec(n) + [NEWLINE]) + post;
    ReadingOfU32(n);
  }

  /** A whole packet at the front of the buffer is consumed and writes its bytes; a reference whose
      block cannot be read whole is an error. */
  lemma PacketRoundTrip(d: Target, p: Packet, post: seq<byte>, out: seq<byte>)
    requires d.bs >= 1 && GoodPacket(p, U32 - 1)
    ensures ParsePacket(d, Encode(p) + post, out)
         == if p.Dup? && !CanRead(d, |out|, p.nr) then Bad else Write(PacketBytes(d, out, p), |Encode(p)|)
  {
    hide ReadBlock, CanRead;
    var s := Encode(p) + post;
    match p
    case Lit(data) =>
      assert s == Header(FLAG_NDUP, |data|) + (data + post);
      HeaderRoundTrip(FLAG_NDUP, |data|, data + post);
      var len := |Header(FLAG_NDUP, |data|)|;
      assert s[len..len + |data|] == data;
    case Dup(nr) =>
      ReadIsWhole(d, out, nr);
      assert s == Header(FLAG_DUP, nr) + post;
      HeaderRoundTrip(FLAG_DUP, nr, post);
  }

  /** A packet cut anywhere before its end asks for more. */
  lemma PacketCut(d: Target, p: Packet, n: nat, out: seq<byte>)
    requires GoodPacket(p, U32 - 1) && n < |Encode(p)|
    ensures ParsePacket(d, Encode(p)[..n], out) == NeedMore
  {
    hide ReadBlock;
    var s := Encode(p)[..n];
    var h := PacketHeader(p);
    if n < |h| {
      assert forall i :: 0 <= i < n ==> s[i] == h[i] && h[i] != NEWLINE;
    } else {
      var body := PacketBody(p);
      assert p.Lit?;
      assert s == Header(FLAG_NDUP, |p.data|) + body[..n - |h|];
      HeaderRoundTrip(FLAG_NDUP, |p.data|, body[..n - |h|]);
    }
  }

  /** The first packet, then the others. */
  lemma FirstPacket(d: Target, out: seq<byte>, ps: seq<Packet>)
    requires |ps| > 0 && d.bs >= 1
    ensures EncodeAll(ps) == Encode(ps[0]) + EncodeAll(ps[1..])
    ensures var o := out + PacketBytes(d, out, ps[0]);
            && Play(d, out, AtomsOf(ps)) == Play(d, o, AtomsOf(ps[1..]))
            && (Readable(d, |out|, AtomsOf(ps)) <==>
                  (ps[0].Dup? ==> CanRead(d, |out|, ps[0].nr)) && Readable(d, |o|, AtomsOf(ps[1..])))
  {
    hide ReadBlock, CanRead, Encode, Weight;
    var p, rest := ps[0], ps[1..];
    assert ps == [p] + rest;
    AtomsOfOne(p);
    AtomsConcat([p], rest);
    EncodeConcat([p], rest);
    PlayConcat(d, out, PacketAtoms(p), AtomsOf(rest));
    ReadableConcat(d, |out|, PacketAtoms(p), AtomsOf(rest));
    OnePacket(d, out, p);
  }

  lemma OnePacket(d: Target, out: seq<byte>, p: Packet)
    requires d.bs >= 1
    ensures Play(d, out, PacketAtoms(p)) == out + PacketBytes(d, out, p)
    ensures Readable(d, |out|, PacketAtoms(p)) <==> (p.Dup? ==> CanRead(d, |out|, p.nr))
    ensures Readable(d, |out|, PacketAtoms(p)) ==>
      |out + PacketBytes(d, out, p)| == |out| + Weight(d.bs, PacketAtoms(p))
  {
    hide ReadBlock, CanRead;
    match p
    case Lit(data) =>
      PlayLiterals(d, out, data);
      ReadableLiterals(d, |out|, data);
      WeightLiterals(d.bs, data);
    case Dup(nr) =>
      ReadIsWhole(d, out, nr);
      WeightFirst(d.bs, [Reference(nr)]);
  }

  /** What parsing the bytes `w`, a prefix of the encoding of `ps`, has come to: the first `k`
      packets are written, and the bytes left over are the beginning of the next packet, or the next
      packet is a reference whose block cannot be read whole. */
  ghost predicate Progress(d: Target, ps: seq<Packet>, w: seq<byte>, out: seq<byte>, r: Outcome, k: nat) {
    && k <= |ps| && Readable(d, |out|, AtomsOf(ps[..k]))
    && match r
       case Failed(o) =>
         && o == Play(d, out, AtomsOf(ps[..k]))
         && k < |ps| && ps[k].Dup? && !CanRead(d, |o|, ps[k].nr)
       case AllDone(o) => k > 0 && o == Play(d, out, AtomsOf(ps[..k])) && |o| == d.size
       case More(rest, o) =>
         && o == Play(d, out, AtomsOf(ps[..k])) && (k > 0 ==> |o| != d.size)
         && w == EncodeAll(ps[..k]) + rest
         && |rest| < if k < |ps| then |Encode(ps[k])| else 1
  }

  /** Parsing any prefix of what an encoder sends stops with less than one packet in the buffer, so
      with room for the next read; it fails only at a reference that cannot be read. */
  lemma {:induction false} ParseOfPrefix(d: Target, ps: seq<Packet>, w: seq<byte>, out: seq<byte>) returns (k: nat)
    requires d.bs >= 1 && GoodPackets(ps, U32 - 1) && w <= EncodeAll(ps)
    ensures Progress(d, ps, w, out, Parse(d, w, out), k)
    decreases |ps|
  {
    hide ParsePacket, Encode, EncodeAll, PacketBytes, Play, Readable, AtomsOf, CanRead;
    k := 0;
    assert ps[..0] == [];
    StartOfStream(d, ps, w, out, ps[..0]);
    if |ps| == 0 {
      ParseEmpty(d, out);
      return;
    }
    var p := ps[0];
    assert GoodPacket(p, U32 - 1);
    FirstPacket(d, out, ps);
    if |w| < |Encode(p)| {
      assert w == Encode(p)[..|w|];
      PacketCut(d, p, |w|, out);
      return;
    }
    var w', rest := w[|Encode(p)|..], ps[1..];
    assert w == Encode(p) + w' && w' <= EncodeAll(rest);
    PacketRoundTrip(d, p, w', out);
    if p.Dup? && !CanRead(d, |out|, p.nr) {
      return;
    }
    var o := out + PacketBytes(d, out, p);
    if |o| == d.size {
      k := 1;
      FirstPackets(d, out, ps, 0);
      StartOfStream(d, rest, [], o, ps[1..][..0]);
    } else {
      var j := ParseOfPrefix(d, rest, w', o);
      k := j + 1;
      FirstPackets(d, out, ps, j);
      Extend(d, ps, w, out, j, w', o);
    }
  }

  lemma StartOfStream(d: Target, ps: seq<Packet>, w: seq<byte>, out: seq<byte>, none: seq<Packet>)
    requires w <= EncodeAll(ps) && none == []
    ensures EncodeAll(none) == [] && Play(d, out, AtomsOf(none)) == out && Readable(d, |out|, AtomsOf(none))
    ensures |ps| == 0 ==> w == []
    ensures w == [] + w
  {
  }

  /** The first j + 1 packets are the first packet and j of the others. */
  lemma FirstPackets(d: Target, out: seq<byte>, ps: seq<Packet>, j: nat)
    requires j < |ps| && d.bs >= 1
    ensures var o := out + PacketBytes(d, out, ps[0]);
            && Play(d, out, AtomsOf(ps[..j + 1])) == Play(d, o, AtomsOf(ps[1..][..j]))
            && (Readable(d, |out|, AtomsOf(ps[..j + 1])) <==>
                  (ps[0].Dup? ==> CanRead(d, |out|, ps[0].nr)) && Readable(d, |o|, AtomsOf(ps[1..][..j])))
    ensures EncodeAll(ps[..j + 1]) == Encode(ps[0]) + EncodeAll(ps[1..][..j])
  {
    hide Play, Readable, AtomsOf, EncodeAll, Encode, PacketBytes, CanRead;
    FirstPacket(d, out, ps[..j + 1]);
    assert ps[..j + 1][1..] == ps[1..][..j];
  }

  lemma Extend(d: Target, ps: seq<Packet>, w: seq<byte>, out: seq<byte>, j: nat, w': seq<byte>, o: seq<byte>)
    requires |ps| > 0 && w == Encode(ps[0]) + w' && |o| != d.size
    requires j < |ps| && Progress(d, ps[1..], w', o, Parse(d, w', o), j)
    requires Play(d, out, AtomsOf(ps[..j + 1])) == Play(d, o, AtomsOf(ps[1..][..j]))
    requires Readable(d, |out|, AtomsOf(ps[..j + 1]))
    requires EncodeAll(ps[..j + 1]) == Encode(ps[0]) + EncodeAll(ps[1..][..j])
    ensures Progress(d, ps, w, out, Parse(d, w', o), j + 1)
  {
    hide EncodeAll, Encode, PacketBytes, Parse, AtomsOf, Play, Readable, CanRead;
    var r := Parse(d, w', o);
    if r.More? {
      if j == 0 {
        StartOfStream(d, [], [], o, ps[1..][..0]);
        assert r.out == o;
      }
      Assoc(Encode(ps[0]), EncodeAll(ps[1..][..j]), r.rest);
    }
  }

  /** On any stream the encoder can send, a buffer that waits for more is not full. */
  lemma RoomForMore(d: Target, ps: seq<Packet>, w: seq<byte>)
    requires d.bs >= 1 && GoodPackets(ps, U32 - 1) && w <= EncodeAll(ps)
    ensures Parse(d, w, []).More? ==> |Parse(d, w, []).rest| < MAX_LITERAL + 9 < BUF_SIZE
  {
    hide Parse, Encode, EncodeAll, Play, Readable, AtomsOf, CanRead;
    var k := ParseOfPrefix(d, ps, w, []);
    if k < |ps| {
      assert GoodPacket(ps[k], U32 - 1);
      PacketLength(ps[k]);
    }
  }

  lemma PacketLength(p: Packet)
    requires GoodPacket(p, U32 - 1)
    ensures |Encode(p)| <= MAX_LITERAL + 9
  {
    HeaderLength(p);
  }

  /** Parsing a prefix of a stream whose references can all be read never fails. */
  lemma ReadableNeverFails(d: Target, ps: seq<Packet>, w: seq<byte>)
    requires d.bs >= 1 && GoodPackets(ps, U32 - 1) && w <= EncodeAll(ps) && Readable(d, 0, AtomsOf(ps))
    ensures !Parse(d, w, []).Failed?
  {
    hide Parse, Encode, EncodeAll, Play, Readable, AtomsOf, CanRead, Weight;
    var k := ParseOfPrefix(d, ps, w, []);
    if Parse(d, w, []).Failed? {
      assert ps == ps[..k] + ps[k..];
      AtomsConcat(ps[..k], ps[k..]);
      ReadableConcat(d, 0, AtomsOf(ps[..k]), AtomsOf(ps[k..]));
      PlayLength(d, [], AtomsOf(ps[..k]));
      FirstPacket(d, Parse(d, w, []).out, ps[k..]);
    }
  }
}
