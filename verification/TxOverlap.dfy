/**
 When the transmit loop ends.  It re-reads the available index on every turn, so a
 used ring in the same place decides how far the loop believes the driver to be.
 */
module TxOverlap {
  import opened Wrappers
  import opened Bytes
  import opened Arithmetic
  import opened GuestMemory
  import opened Virtqueue
  import opened UsedRing
  import opened NetDevice
  import opened AvailRing
  import opened TxDelivery

  lemma CursorsAgree(a: u16, b: u16)
    ensures WrapInc(a) == WrapInc(b) <==> a == b
  {
  }

  /** With both rings at one address, the next pop finds the ring empty iff the two cursors agree. */
  lemma OverlapEmptiesIff(m: Mem, q: QueueState)
    requires WellFormed(m) && q.usedRing == q.availRing && Serves(m, q) && SlotWritable(m, q)
    ensures var (m', q') := TxNext(m, q);
            && ReadU16(m', q'.availRing + 2) == Ok(WrapInc(q.nextUsed))
            && q' == q.(nextAvail := WrapInc(q.nextAvail), nextUsed := WrapInc(q.nextUsed))
            && (Pop(m', q') == Ok(None) <==> q.nextUsed == q.nextAvail)
  {
    hide Read, AsU16, WellFormed, Walk, TableAt, CanAccess, Put, UsedElem, U16LE, WrapInc;
    CursorsAgree(q.nextUsed, q.nextAvail);
    var chain := Pop(m, q).value.value;
    var m1 := Put(m, UsedSlot(q, q.nextUsed), UsedElem(chain.headIndex, 0));
    PutAt(m, UsedSlot(q, q.nextUsed), UsedElem(chain.headIndex, 0));
    LayoutAccess(m, m1);
    ReadAt(m, q.availRing + 2, 2);
    ReadBack(m1, q.usedRing + 2, U16LE(WrapInc(q.nextUsed)));
    U16RoundTrip(WrapInc(q.nextUsed));
  }

  // ---------------------------------------------------------------- a loop that goes on

  /**
   Both rings at one address and writable, the descriptor table elsewhere, and every
   slot of the ring, as well as the value 0, naming a chain that can be walked.
   */
  ghost predicate Endless(m: Mem, q: QueueState) {
    && WellFormed(m) && q.ready && q.size > 0 && q.usedRing == q.availRing
    && CanAccess(m, q.usedRing + 2, UsedLen(q))
    && Apart(q.descTable, 16 * q.size, q.usedRing + 2, UsedLen(q))
    && GoodHead(m, q, 0)
    && (forall j: nat :: j < q.size ==> GoodSlot(m, q, j))
  }

  ghost predicate GoodHead(m: Mem, q: QueueState, head: u16) {
    PathInTable(TableAt(m, q.descTable), head, q.size) && !Cyclic(TableAt(m, q.descTable), head)
  }

  ghost predicate GoodSlot(m: Mem, q: QueueState, j: nat)
    requires q.size > 0
  {
    var r := ReadU16(m, AvailSlot(q, j)); r.Ok? && GoodHead(m, q, r.value)
  }

  lemma SlotRange(q: QueueState, c: nat)
    requires q.size > 0
    ensures c % q.size < q.size && (c < q.size ==> c % q.size == c)
    ensures AvailSlot(q, c) == q.availRing + 4 + c % q.size * 2 == AvailSlot(q, c % q.size)
    ensures UsedSlot(q, c) == q.usedRing + 4 + c % q.size * 8
  {
    ModFacts(c, q.size);
    ModFacts(c % q.size, q.size);
  }

  /** Such a queue always has something to serve, unless its index says it is empty. */
  lemma EndlessServes(m: Mem, q: QueueState)
    requires Endless(m, q)
    ensures SlotWritable(m, q)
    ensures Serves(m, q) <==> ReadU16(m, q.availRing + 2) != Ok(q.nextAvail)
    ensures Serves(m, q) ==> GoodHead(m, q, Pop(m, q).value.value.headIndex)
  {
    hide Read, AsU16, WellFormed, Walk, Cyclic, PathInTable, TableAt, CanAccess;
    SlotRange(q, q.nextUsed);
    SlotRange(q, q.nextAvail);
    AccessPart(m, q.usedRing + 2, UsedLen(q), UsedSlot(q, q.nextUsed), 8);
    AccessPart(m, q.usedRing + 2, UsedLen(q), q.availRing + 2, 2);
    ReadAt(m, q.availRing + 2, 2);
    var c := q.nextAvail % q.size;
    assert GoodSlot(m, q, c);
    WalkExact(TableAt(m, q.descTable), ReadU16(m, AvailSlot(q, c)).value, q.size);
  }

  /** The table is not written, so a chain that could be walked still can be. */
  lemma HeadStaysGood(m: Mem, m': Mem, q: QueueState, q': QueueState, head: u16)
    requires WellFormed(m) && SameOutside(m, m', q.usedRing + 2, UsedLen(q))
    requires Apart(q.descTable, 16 * q.size, q.usedRing + 2, UsedLen(q))
    requires GoodHead(m, q, head) && q'.descTable == q.descTable && q'.size == q.size
    ensures GoodHead(m', q', head)
  {
    hide WellFormed, SameOutside, DescAt;
    var t, t' := TableAt(m, q.descTable), TableAt(m', q.descTable);
    forall i: u16 | i < q.size
      ensures t(i) == t'(i)
    {
      TableEntrySame(m, m', q, i);
    }
    forall n: nat
      ensures Follow(t', head, n) == Follow(t, head, n)
    {
      FollowSame(t, t', head, q.size, n);
    }
  }

  lemma TableEntrySame(m: Mem, m': Mem, q: QueueState, i: u16)
    requires WellFormed(m) && SameOutside(m, m', q.usedRing + 2, UsedLen(q)) && i < q.size
    requires Apart(q.descTable, 16 * q.size, q.usedRing + 2, UsedLen(q))
    ensures DescAt(m, q.descTable, i) == DescAt(m', q.descTable, i)
  {
    hide Read, WellFormed, SameOutside, DecodeDesc;
    ReadOutside(m, m', q.usedRing + 2, UsedLen(q), q.descTable + i * 16, 16);
  }

  lemma {:induction false} FollowSame(t: Table, t': Table, head: u16, size: u16, n: nat)
    requires PathInTable(t, head, size)
    requires forall i: u16 :: i < size ==> t(i) == t'(i)
    ensures Follow(t', head, n) == Follow(t, head, n)
    decreases n
  {
    if n > 0 {
      FollowSame(t, t', head, size, n - 1);
    }
  }

  /** A used element put into the ring reads as its head, or as 0, through the slots of the available ring. */
  lemma SlotAfterElement(m: Mem, a: nat, head: u16, b: nat)
    requires WellFormed(m) && CanAccess(m, a, 8) && a <= b && b + 2 <= a + 8 && (b - a) % 2 == 0
    ensures ReadU16(Put(m, a, UsedElem(head, 0)), b) == Ok(if b == a then head else 0)
  {
    hide WellFormed, Put, CanAccess, UsedElem;
    var m' := Put(m, a, UsedElem(head, 0));
    PutAt(m, a, UsedElem(head, 0));
    LayoutAccess(m, m');
    AccessPart(m', a, 8, b, 2);
    ReadAt(m', b, 2);
    var s := Read(m', b, 2).value;
    assert At(m', b) == Some(s[0]) && At(m', b + 1) == Some(s[1]);
    ElementBytes(head, b - a);
    assert s == [UsedElem(head, 0)[b - a], UsedElem(head, 0)[b - a + 1]];
  }

  lemma ElementBytes(head: u16, k: nat)
    requires k in {0, 2, 4, 6}
    ensures AsU16([UsedElem(head, 0)[k], UsedElem(head, 0)[k + 1]]) == if k == 0 then head else 0
  {
    hide AsU16, ToLE;
    U32Bytes(head);
    U32Bytes(0);
    HalfwordOf(head % 256, head / 256);
    HalfwordOf(0, 0);
  }

  lemma U32Bytes(v: u16)
    ensures U32LE(v) == [v % 256, v / 256, 0, 0]
  {
    assert ToLE(v, 4) == [v % 256] + ToLE(v / 256, 3);
    assert ToLE(v / 256, 3) == [v / 256] + ToLE(0, 2);
    assert ToLE(0, 2) == [0] + ToLE(0, 1);
    assert ToLE(0, 1) == [0] + ToLE(0, 0);
  }

  lemma HalfwordOf(low: byte, high: byte)
    ensures AsU16([low, high]) == low + 256 * high
  {
    assert [low, high][1..] == [high] && [high][1..] == [];
    assert FromLE([high]) == high;
  }

  /** The turn as a completion on memory and one step of both cursors. */
  lemma TurnIs(m: Mem, q: QueueState)
    requires Serves(m, q) && SlotWritable(m, q)
    ensures var (m', q') := TxNext(m, q);
            && m' == AddUsed(m, q, Pop(m, q).value.value.headIndex, 0)
            && q' == q.(nextAvail := WrapInc(q.nextAvail), nextUsed := WrapInc(q.nextUsed))
  {
    hide Pop, PopDefined, AddUsed, WrapInc, CanAccess;
  }

  /** After a turn every slot holds what it held, the served head, or 0. */
  lemma SlotValue(m: Mem, q: QueueState, head: u16, j: nat)
    requires WellFormed(m) && q.size > 0 && q.usedRing == q.availRing && SlotWritable(m, q) && j < q.size
    ensures ReadU16(AddUsed(m, q, head, 0), AvailSlot(q, j)) in {ReadU16(m, AvailSlot(q, j)), Ok(head), Ok(0)}
  {
    hide WellFormed, Put, CanAccess, UsedElem, U16LE, ReadU16;
    SlotRange(q, q.nextUsed);
    SlotRange(q, j);
    var a, b := UsedSlot(q, q.nextUsed), AvailSlot(q, j);
    var m1 := Put(m, a, UsedElem(head, 0));
    PutAt(m, a, UsedElem(head, 0));
    SlotRead(m, a, head, b, 4 * (q.nextUsed % q.size), j % q.size, q.usedRing + 4);
    IndexApart(m1, q.usedRing + 2, U16LE(WrapInc(q.nextUsed)), b);
  }

  lemma SlotStaysGood(m: Mem, m': Mem, q: QueueState, q': QueueState, head: u16, j: nat)
    requires Endless(m, q) && GoodHead(m, q, head) && SlotWritable(m, q) && j < q.size
    requires m' == AddUsed(m, q, head, 0)
    requires q' == q.(nextAvail := q'.nextAvail, nextUsed := q'.nextUsed)
    ensures GoodSlot(m', q', j)
  {
    hide WellFormed, GoodHead, AddUsed, CanAccess, ReadU16, UsedLen, Apart, SameOutside, SlotWritable;
    SlotValue(m, q, head, j);
    OutsideSelf(m, q, head);
    assert GoodSlot(m, q, j);
    HeadStaysGood(m, m', q, q', head);
    HeadStaysGood(m, m', q, q', 0);
    HeadStaysGood(m, m', q, q', ReadU16(m, AvailSlot(q, j)).value);
    assert AvailSlot(q', j) == AvailSlot(q, j);
  }

  lemma IndexApart(m: Mem, a: nat, d: seq<byte>, b: nat)
    requires WellFormed(m) && |d| == 2 && a + 2 <= b
    ensures ReadU16(Poke(m, a, d), b) == ReadU16(m, b)
  {
    hide WellFormed;
    ReadApartU16(m, a, d, b);
  }

  /** Slot `j` after the element at slot `k` of the overlapping ring was written. */
  lemma SlotRead(m: Mem, a: nat, head: u16, b: nat, k: nat, j: nat, base: nat)
    requires WellFormed(m) && CanAccess(m, a, 8) && a == base + 2 * k && b == base + 2 * j
    ensures ReadU16(Put(m, a, UsedElem(head, 0)), b) ==
              if j == k then Ok(head) else if k < j < k + 4 then Ok(0) else ReadU16(m, b)
  {
    hide WellFormed, Put, CanAccess, UsedElem, ReadU16;
    if k <= j < k + 4 {
      SlotAfterElement(m, a, head, b);
    } else {
      ReadApartU16(m, a, UsedElem(head, 0), b);
    }
  }

  lemma EndlessKept(m: Mem, q: QueueState)
    requires Endless(m, q) && Serves(m, q)
    ensures var (m', q') := TxNext(m, q); Endless(m', q')
  {
    hide WellFormed, GoodHead, AddUsed, CanAccess, GoodSlot, Pop, PopDefined, Apart, SameOutside, TxNext, SlotWritable;
    EndlessServes(m, q);
    TurnIs(m, q);
    var head := Pop(m, q).value.value.headIndex;
    var (m', q') := TxNext(m, q);
    AddUsedLayout(m, q, head, 0);
    LayoutAccess(m, m');
    OutsideSelf(m, q, head);
    HeadStaysGood(m, m', q, q', 0);
    forall j: nat | j < q.size
      ensures GoodSlot(m', q', j)
    {
      SlotStaysGood(m, m', q, q', head, j);
    }
  }

  lemma OutsideSelf(m: Mem, q: QueueState, head: u16)
    requires WellFormed(m) && q.size > 0
    ensures SameOutside(m, AddUsed(m, q, head, 0), q.usedRing + 2, UsedLen(q))
  {
    hide WellFormed, AddUsed;
    AddUsedOutside(m, m, q, head, 0);
  }

  /** With different cursors such a queue is served on and on: no number of turns ends the loop. */
  lemma {:induction false} NeverEnds(m: Mem, q: QueueState, n: nat)
    requires Endless(m, q) && Serves(m, q) && q.nextUsed != q.nextAvail
    ensures !StopsAfter(m, q, n)
    decreases n
  {
    hide Endless, Pop, PopDefined, TxNext, SlotWritable, ReadU16, WrapInc;
    if n > 0 {
      var (m', q') := TxNext(m, q);
      EndlessServes(m, q);
      EndlessFacts(m, q);
      OverlapEmptiesIff(m, q);
      CursorsAgree(q.nextUsed, q.nextAvail);
      EndlessKept(m, q);
      EndlessServes(m', q');
      NeverEnds(m', q', n - 1);
    }
  }

  lemma EndlessFacts(m: Mem, q: QueueState)
    requires Endless(m, q)
    ensures WellFormed(m) && q.size > 0 && q.usedRing == q.availRing
  {
  }

  /** For these queues the loop ends iff there is nothing to serve or the cursors agree. */
  lemma OverlapEndsIff(m: Mem, q: QueueState)
    requires Endless(m, q)
    ensures TxEnds(m, q) <==> ReadU16(m, q.availRing + 2) == Ok(q.nextAvail) || q.nextUsed == q.nextAvail
  {
    hide Endless, Pop, TxNext, ReadU16, SlotWritable;
    EndlessFacts(m, q);
    EndlessServes(m, q);
    if !Serves(m, q) {
      assert StopsAfter(m, q, 0);
    } else if q.nextUsed == q.nextAvail {
      SharedAddressEnds(m, q);
    } else {
      forall n: nat
        ensures !StopsAfter(m, q, n)
      {
        NeverEnds(m, q, n);
      }
    }
  }

  // ---------------------------------------------------------------- from activation

  /** A used ring that cannot be written changes nothing, so the loop drains the ring. */
  lemma {:induction false} UnwritableEnds(m: Mem, q: QueueState)
    requires q.size > 0 && !SlotWritable(m, q)
    ensures TxEnds(m, q)
    decreases Backlog(m, q)
  {
    hide Pop, CanAccess, ReadU16, WrapInc;
    if Serves(m, q) {
      var (m', q') := TxNext(m, q);
      assert m' == m && q' == q.(nextAvail := WrapInc(q.nextAvail));
      IndexReadable(m, q);
      BacklogShrinks(ReadU16(m, q.availRing + 2).value, q.nextAvail);
      UnwritableEnds(m', q');
      var n: nat :| StopsAfter(m', q', n);
      assert StopsAfter(m, q, n + 1);
    } else {
      assert StopsAfter(m, q, 0);
    }
  }

  lemma IndexReadable(m: Mem, q: QueueState)
    requires Serves(m, q)
    ensures ReadU16(m, q.availRing + 2).Ok? && ReadU16(m, q.availRing + 2) != Ok(q.nextAvail)
  {
    hide ReadU16, Walk, TableAt;
  }

  /** With both rings at one address, cursors that agree end the loop after one chain. */
  lemma SharedAddressEnds(m: Mem, q: QueueState)
    requires WellFormed(m) && q.size > 0 && q.usedRing == q.availRing && q.nextUsed == q.nextAvail
    ensures TxEnds(m, q)
  {
    hide Pop, TxNext, ReadU16, SlotWritable, WellFormed;
    if !Serves(m, q) {
      assert StopsAfter(m, q, 0);
    } else if !SlotWritable(m, q) {
      UnwritableEnds(m, q);
    } else {
      OverlapEmptiesIff(m, q);
      var (m', q') := TxNext(m, q);
      assert StopsAfter(m', q', 0);
      assert StopsAfter(m, q, 1);
    }
  }

  /** A queue restored from saved cursors 1 and 0, with both rings at address 0 of blank memory, is served forever. */
  lemma RestoredCursorsRunOn(m: Mem, q: QueueState)
    requires m == [Region(0, Zeros(64))]
    requires q == QueueState(256, 1, true, 32, 0, 0, 1, 0)
    ensures !TxEnds(m, q)
  {
    hide Endless, TxEnds, ReadU16;
    BlankIsEndless(m, q);
    OverlapEndsIff(m, q);
    BlankRead(m, 2);
  }

  lemma BlankRead(m: Mem, a: nat)
    requires m == [Region(0, Zeros(64))] && a + 2 <= 64
    ensures ReadU16(m, a) == Ok(0)
  {
    assert FindRegion(m, a) == 0;
    var s := Read(m, a, 2).value;
    assert s == [0, 0];
    HalfwordOf(0, 0);
  }

  lemma BlankIsEndless(m: Mem, q: QueueState)
    requires m == [Region(0, Zeros(64))]
    requires q == QueueState(256, 1, true, 32, 0, 0, 1, 0)
    ensures Endless(m, q)
  {
    hide ReadU16, TableAt;
    assert FindRegion(m, 2) == 0;
    BlankRead(m, 4);
    BlankHead(m, q);
    assert AvailSlot(q, 0) == 4;
  }

  lemma BlankHead(m: Mem, q: QueueState)
    requires m == [Region(0, Zeros(64))] && q.descTable == 32 && q.size == 1
    ensures GoodHead(m, q, 0)
  {
    var t := TableAt(m, 32);
    BlankDesc(m);
    assert Follow(t, 0, 0) == Some(0);
    forall n: nat | n > 0
      ensures Follow(t, 0, n) == None
    {
      PathEnds(t, n);
    }
  }

  lemma {:induction false} PathEnds(t: Table, n: nat)
    requires n > 0 && t(0).Ok? && !t(0).value.HasNext()
    ensures Follow(t, 0, n) == None
  {
    if n > 1 {
      PathEnds(t, n - 1);
    }
  }

  lemma BlankDesc(m: Mem)
    requires m == [Region(0, Zeros(64))]
    ensures DescAt(m, 32, 0).Ok? && !DescAt(m, 32, 0).value.HasNext()
  {
    assert FindRegion(m, 32) == 0;
    var s := Read(m, 32, 16).value;
    assert s == Zeros(16);
    assert s[12..14] == [0, 0];
    HalfwordOf(0, 0);
  }
}
