/** list_head.h and the checksum hash table of rzsrc.c: slots of intrusive circular lists, against
    a linear search of the records in insertion order. */
module HashTable {
  import opened Bytes

  /** The fields of checksum_t other than its list link. */
  datatype Record = Record(nr: nat, rcksm: nat, md5: seq<byte>)

  /** The linear specification: the most recently inserted record with this rolling checksum. */
  function Lookup(records: seq<Record>, rcksm: int): (r: Option<Record>)
    ensures r.Some? ==> r.value in records && r.value.rcksm == rcksm
    ensures r.None? <==> forall x :: x in records ==> x.rcksm != rcksm
  {
    if |records| == 0 then None
    else if records[|records| - 1].rcksm == rcksm then Some(records[|records| - 1])
    else
      assert forall x :: x in records ==> x in records[..|records| - 1] || x == records[|records| - 1];
      Lookup(records[..|records| - 1], rcksm)
  }

  /** No later record has the checksum of the one Lookup returns. */
  lemma {:induction false} LookupIsLatest(records: seq<Record>, rcksm: int)
    requires Lookup(records, rcksm).Some?
    ensures exists i :: 0 <= i < |records| && records[i] == Lookup(records, rcksm).value
                        && forall j :: i < j < |records| ==> records[j].rcksm != rcksm
  {
    var n := |records| - 1;
    if records[n].rcksm == rcksm {
    } else {
      LookupIsLatest(records[..n], rcksm);
      var i :| 0 <= i < n && records[..n][i] == Lookup(records, rcksm).value
               && forall j :: i < j < n ==> records[..n][j].rcksm != rcksm;
      assert records[i] == records[..n][i];
      assert forall j :: i < j < n ==> records[j] == records[..n][j];
    }
  }

  function Pow2(k: nat): (p: nat)
    ensures p >= 1
  {
    if k == 0 then 1 else 2 * Pow2(k - 1)
  }

  /** Bitwise and of two numbers, digit by digit. */
  function And(x: nat, y: nat): (r: nat) {
    if x == 0 || y == 0 then 0 else 2 * And(x / 2, y / 2) + (x % 2) * (y % 2)
  }

  /** A mask of `bits` ones leaves the remainder by 2^bits. */
  lemma {:induction false} MaskIsRemainder(x: nat, bits: nat)
    ensures And(x, Pow2(bits) - 1) == x % Pow2(bits)
    decreases bits
  {
    hide And;
    if bits == 0 {
      AndZero(x, Pow2(bits) - 1);
    } else {
      var m := Pow2(bits - 1);
      MaskIsRemainder(x / 2, bits - 1);
      AndOdd(x, m);
      HalvesOfRemainder(x, m);
    }
  }

  lemma AndZero(x: nat, y: nat)
    requires y == 0
    ensures And(x, y) == 0 == x % 1
  {
  }

  lemma AndOdd(x: nat, m: nat)
    requires m >= 1
    ensures And(x, 2 * m - 1) == 2 * And(x / 2, m - 1) + x % 2
  {
    assert (2 * m - 1) / 2 == m - 1 && (2 * m - 1) % 2 == 1;
  }

  lemma HalvesOfRemainder(x: nat, m: nat)
    requires m >= 1
    ensures x % (2 * m) == 2 * (x / 2 % m) + x % 2
  {
    var q, r := x / 2 / m, x / 2 % m;
    assert x / 2 == m * q + r;
    assert x == (2 * m) * q + (2 * r + x % 2);
    RemainderIs(x, 2 * m, q, 2 * r + x % 2);
  }

  lemma RemainderIs(x: nat, d: nat, q: nat, r: nat)
    requires x == d * q + r && r < d
    ensures x % d == r
  {
    var p := x / d;
    assert x == d * p + x % d;
    Grows(d, p, q);
    Grows(d, q, p);
  }

  lemma Grows(d: nat, a: nat, b: nat)
    ensures a < b ==> d * a + d <= d * b
  {
    if a < b { assert d * (a + 1) <= d * b; }
  }

  /** nr/4 upward to the first power of two. */
  method ChooseHashBits(nr: nat) returns (bits: nat)
    requires nr < U32
    ensures Pow2(bits) >= nr / 4
    ensures bits > 0 ==> Pow2(bits - 1) < nr / 4
    ensures bits <= 30
  {
    var slotsNr := nr / 4;
    bits := 0;
    var shifted := 1;  // 1 << bits
    assert Pow2(15) == 0x8000;
    assert Pow2(30) == 0x4000_0000 by { assert Pow2(20) == 0x10_0000; assert Pow2(25) == 0x200_0000; }
    while shifted < slotsNr
      invariant shifted == Pow2(bits) && bits <= 30
      invariant bits > 0 ==> Pow2(bits - 1) < slotsNr
      decreases 30 - bits
    {
      if bits == 30 { assert false; }
      bits := bits + 1;
      shifted := shifted * 2;
    }
  }

  /** The records of slot `s` of `m`, most recent first. */
  function SlotView(records: seq<Record>, s: int, m: nat): (v: seq<Record>)
    requires m >= 1
  {
    if |records| == 0 then []
    else
      var init, last := records[..|records| - 1], records[|records| - 1];
      if last.rcksm % m == s then [last] + SlotView(init, s, m) else SlotView(init, s, m)
  }

  /** First record of a slot list with this checksum. */
  function FirstMatch(v: seq<Record>, rcksm: int): (r: Option<Record>)
  {
    if |v| == 0 then None else if v[0].rcksm == rcksm then Some(v[0]) else FirstMatch(v[1..], rcksm)
  }

  /** Walking the one slot a checksum hashes to finds what a linear search of everything finds. */
  lemma {:induction false} SlotSearchIsLookup(records: seq<Record>, rcksm: int, m: nat)
    requires m >= 1
    ensures FirstMatch(SlotView(records, rcksm % m, m), rcksm) == Lookup(records, rcksm)
  {
    if |records| > 0 {
      var init, last := records[..|records| - 1], records[|records| - 1];
      SlotSearchIsLookup(init, rcksm, m);
      var rest := SlotView(init, rcksm % m, m);
      assert ([last] + rest)[1..] == rest;
    }
  }

  /** All slots one after the other. */
  function AllSlots(records: seq<Record>, s: nat, m: nat): (v: seq<Record>)
    requires s <= m && m >= 1
  {
    if s == 0 then [] else AllSlots(records, s - 1, m) + SlotView(records, s - 1, m)
  }

  /** The slots partition the records: each record sits in exactly one slot. */
  lemma {:induction false} SlotsPartition(records: seq<Record>, m: nat)
    requires m >= 1
    ensures multiset(AllSlots(records, m, m)) == multiset(records)
    ensures forall s, r :: r in SlotView(records, s, m) ==> r.rcksm % m == s
  {
    if |records| == 0 {
      EmptySlots(m, m);
    } else {
      var init, last := records[..|records| - 1], records[|records| - 1];
      SlotsPartition(init, m);
      SlotsGrow(records, m, m);
      assert records == init + [last];
    }
  }

  lemma {:induction false} EmptySlots(s: nat, m: nat)
    requires s <= m && m >= 1
    ensures AllSlots([], s, m) == []
  {
    if s > 0 { EmptySlots(s - 1, m); }
  }

  /** The last record adds itself to the slots from its own onward. */
  lemma {:induction false} SlotsGrow(records: seq<Record>, s: nat, m: nat)
    requires s <= m && m >= 1 && |records| > 0
    ensures var init, last := records[..|records| - 1], records[|records| - 1];
            multiset(AllSlots(records, s, m))
            == multiset(AllSlots(init, s, m)) + (if last.rcksm % m < s then multiset{last} else multiset{})
  {
    if s > 0 { SlotsGrow(records, s - 1, m); }
  }

  /** struct list_head. `owner` stands for containerof: the record the link is embedded in, or
      None for the head of a slot; `slot` is the number of the slot the link belongs to. */
  class ListHead {
    var prev: ListHead?
    var next: ListHead?
    const owner: Option<Record>
    ghost const slot: int

    constructor (owner: Option<Record>, ghost slot: int)
      ensures this.owner == owner && this.slot == slot
    {
      this.owner := owner;
      this.slot := slot;
      prev, next := null, null;
    }
  }

  method ListHeadInit(lh: ListHead)
    modifies lh
    ensures lh.prev == lh && lh.next == lh
  {
    lh.prev := lh;
    lh.next := lh;
  }

  /** __list_add */
  method ListAddBetween(n: ListHead, prev: ListHead, next: ListHead)
    requires n != prev && n != next
    modifies n, prev, next
    ensures n.prev == prev && n.next == next && next.prev == n && prev.next == n
    ensures next != prev ==> next.next == old(next.next) && prev.prev == old(prev.prev)
  {
    n.prev := prev;
    n.next := next;
    next.prev := n;
    prev.next := n;
  }

  /** `ring` is head, its nodes and head again, linked both ways. */
  ghost predicate Linked(ring: seq<ListHead>)
    reads ring
  {
    && |ring| >= 2 && ring[0] == ring[|ring| - 1]
    && (forall i {:trigger ring[i].next} :: 0 <= i < |ring| - 1 ==> ring[i].next == ring[i + 1])
    && (forall i {:trigger ring[i].prev} :: 1 <= i < |ring| ==> ring[i].prev == ring[i - 1])
    && (forall i, j :: 0 <= i < j < |ring| - 1 ==> ring[i] != ring[j])
  }

  /** list_add: the new node goes right after the head of the ring. */
  method ListAdd(n: ListHead, head: ListHead, ghost ring: seq<ListHead>) returns (ghost grown: seq<ListHead>)
    requires Linked(ring) && head == ring[0] && n !in ring
    modifies n, ring
    ensures grown == [head, n] + ring[1..]
    ensures Linked(grown)
  {
    assert head.next == ring[1];
    grown := [head, n] + ring[1..];
    ListAddBetween(n, head, head.next);
  }

  /** The records of the nodes of a ring, head left out. */
  ghost function Payload(ring: seq<ListHead>): (v: seq<Record>)
    requires |ring| >= 2
    requires forall i :: 1 <= i < |ring| - 1 ==> ring[i].owner.Some?
    ensures |v| == |ring| - 2
  {
    seq(|ring| - 2, i requires 0 <= i < |ring| - 2 => ring[i + 1].owner.value)
  }

  class ChecksumHashTable {
    var hashNr: nat
    var hashMask: nat
    var slots: array<ListHead>

    ghost var hashBits: nat
    ghost var rings: seq<seq<ListHead>>
    ghost var records: seq<Record>
    ghost var Repr: set<object>

    /** Slot `s` is a well-formed circular list holding exactly the records that hash to it, most
        recently inserted first, and no node sits in two slots. */
    ghost predicate Valid()
      reads this, Repr
    {
      && this in Repr && slots in Repr && slots.Length == hashNr == |rings| && hashNr >= 1
      && hashNr == Pow2(hashBits) && hashMask == hashNr - 1
      && (forall s, i :: 0 <= s < hashNr && 0 <= i < |rings[s]| ==> rings[s][i] in Repr && rings[s][i].slot == s)
      && (forall s :: 0 <= s < hashNr ==> SlotValid(s))
    }

    ghost predicate SlotValid(s: int)
      requires 0 <= s < |rings| == slots.Length && hashNr >= 1
      reads this, slots, rings[s]
    {
      && Linked(rings[s]) && slots[s] == rings[s][0]
      && (forall i :: 1 <= i < |rings[s]| - 1 ==> rings[s][i].owner.Some?)
      && Payload(rings[s]) == SlotView(records, s, hashNr)
    }

    /** checksum_hashtable_init */
    constructor (hashBits: nat)
      ensures Valid() && fresh(Repr)
      ensures records == [] && hashNr == Pow2(hashBits)
    {
      var nr := Pow2(hashBits);
      var head0 := new ListHead(None, -1);
      var heads := new ListHead[nr](_ => head0);
      hashNr, hashMask, slots, records := nr, nr - 1, heads, [];
      this.hashBits := hashBits;
      new;
      var i := 0;
      rings := [];
      Repr := {this, heads};
      while i < nr
        invariant 0 <= i <= nr && |rings| == i
        invariant hashNr == nr == Pow2(hashBits) && hashMask == nr - 1 && this.hashBits == hashBits
        invariant slots == heads && records == []
        invariant this in Repr && heads in Repr && fresh(Repr)
        invariant forall s :: 0 <= s < i ==> heads[s] in Repr
        invariant forall s :: 0 <= s < i ==> rings[s] == [heads[s], heads[s]]
        invariant forall s :: 0 <= s < i ==> heads[s].next == heads[s] && heads[s].prev == heads[s]
        invariant forall s :: 0 <= s < i ==> heads[s].slot == s
      {
        var h := new ListHead(None, i);
        heads[i] := h;
        ListHeadInit(h);
        rings := rings + [[h, h]];
        Repr := Repr + {h};
        i := i + 1;
      }
    }

    /** very_simple_hash */
    method Hash(num: nat) returns (pos: nat)
      requires Valid()
      ensures pos == num % hashNr < slots.Length
    {
      MaskIsRemainder(num, hashBits);
      return And(num, hashMask);
    }

    /** hash_insert */
    method HashInsert(rec: Record)
      requires Valid()
      modifies Repr
      ensures Valid() && fresh(Repr - old(Repr))
      ensures records == old(records) + [rec]
      ensures hashNr == old(hashNr)
    {
      var pos := Hash(rec.rcksm);
      assert SlotValid(pos);
      ghost var ring := rings[pos];
      assert ring[0] in Repr;
      var node := new ListHead(Some(rec), pos);
      ghost var grown := ListAdd(node, slots[pos], ring);
      records := records + [rec];
      rings := rings[pos := grown];
      Repr := Repr + {node};
      assert records[..|records| - 1] == old(records);
      assert SlotValid(pos) by {
        assert forall i :: 1 <= i < |grown| - 1 ==> grown[i] == (if i == 1 then node else ring[i - 1]);
        assert Payload(grown) == [rec] + Payload(ring);
      }
      forall s | 0 <= s < hashNr && s != pos
        ensures SlotValid(s)
      {
        OtherSlot(s);
      }
    }

    /** Relinking one slot leaves every other slot as it was. */
    twostate lemma OtherSlot(s: int)
      requires |old(rings)| == |rings| == slots.Length == hashNr && slots == old(slots) && hashNr == old(hashNr)
      requires 0 <= s < hashNr && rings[s] == old(rings)[s] && old(SlotValid(s))
      requires unchanged(slots) && |records| > 0 && records[..|records| - 1] == old(records)
      requires records[|records| - 1].rcksm % hashNr != s
      requires forall i :: 0 <= i < |rings[s]| ==> unchanged(rings[s][i])
      ensures SlotValid(s)
    {
    }

    /** hash_search: walks the slot from the head's next until it is back at the head. */
    method HashSearch(rcksm: nat) returns (r: Option<Record>)
      requires Valid()
      ensures r == Lookup(records, rcksm)
    {
      var pos := Hash(rcksm);
      ghost var ring := rings[pos];
      ghost var view := SlotView(records, pos, hashNr);
      assert SlotValid(pos);
      SlotSearchIsLookup(records, rcksm, hashNr);
      var lh := slots[pos].next;
      ghost var k := 1;
      while lh != slots[pos]
        invariant 1 <= k <= |ring| - 1 && lh == ring[k]
        invariant FirstMatch(view[k - 1..], rcksm) == FirstMatch(view, rcksm)
        decreases |ring| - k
      {
        assert lh.owner.value == view[k - 1];
        if lh.owner.value.rcksm == rcksm {
          return lh.owner;
        }
        assert view[k - 1..][1..] == view[k..];
        lh := lh.next;
        k := k + 1;
      }
      assert k == |ring| - 1;
      return None;
    }
  }
}
