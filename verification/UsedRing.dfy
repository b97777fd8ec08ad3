/**
 The used ring as a log of completions: what `add_used` leaves in guest memory
 for the driver to find, across the wrap of its 16-bit index.
 */
module UsedRing {
  import opened Wrappers
  import opened Bytes
  import opened Arithmetic
  import opened GuestMemory
  import opened Virtqueue

  datatype Completion = Completion(id: u16, len: u32)

  /** Length of the device-written part of the ring, from its index field on. */
  function UsedLen(q: QueueState): (n: nat) {
    2 + 8 * q.size
  }

  ghost predicate GoodUsed(m: Mem, q: QueueState) {
    && WellFormed(m)
    && q.size > 0 && 0x1_0000 % q.size == 0
    && CanAccess(m, q.usedRing + 2, UsedLen(q))
  }

  /**
   After the completions of `log`: the cursor and the index in memory count them
   modulo 65536, and each of the last `size` sits in its own slot.
   */
  ghost predicate Recorded(m: Mem, q: QueueState, log: seq<Completion>) {
    && GoodUsed(m, q)
    && q.nextUsed == |log| % 0x1_0000
    && ReadU16(m, q.usedRing + 2) == Ok(|log| % 0x1_0000)
    && forall j: nat :: j < |log| <= j + q.size ==>
         Read(m, UsedSlot(q, j), 8) == Ok(UsedElem(log[j].id, log[j].len))
  }

  lemma UsedSlotBounds(q: QueueState, n: nat)
    requires q.size > 0 && 0x1_0000 % q.size == 0
    ensures UsedSlot(q, n % 0x1_0000) == UsedSlot(q, n)
    ensures q.usedRing + 4 <= UsedSlot(q, n) && UsedSlot(q, n) + 8 <= q.usedRing + 2 + UsedLen(q)
  {
    ModOfMod(n, 0x1_0000, q.size);
    DivMod(n, q.size);
  }

  lemma UsedSlotsApart(q: QueueState, k: nat, n: nat)
    requires q.size > 0 && k < n < k + q.size
    ensures Apart(UsedSlot(q, n), 8, UsedSlot(q, k), 8)
  {
    ModDistinct(q.size, k, n);
  }

  /** Two completions have different bytes in the ring: the log can be read back. */
  lemma UsedElemInjective(c: Completion, d: Completion)
    requires UsedElem(c.id, c.len) == UsedElem(d.id, d.len)
    ensures c == d
  {
    var s, t := UsedElem(c.id, c.len), UsedElem(d.id, d.len);
    assert s[..4] == U32LE(c.id) && s[4..] == U32LE(c.len);
    assert t[..4] == U32LE(d.id) && t[4..] == U32LE(d.len);
    U32RoundTrip(c.id); U32RoundTrip(d.id);
    U32RoundTrip(c.len); U32RoundTrip(d.len);
  }

  /** The log only depends on the bytes of the used ring. */
  lemma RecordedSame(m: Mem, m': Mem, q: QueueState, log: seq<Completion>)
    requires Recorded(m, q, log) && SameLayout(m, m')
    requires forall x: nat :: q.usedRing + 2 <= x < q.usedRing + 2 + UsedLen(q) ==> At(m, x) == At(m', x)
    ensures Recorded(m', q, log)
  {
    hide Read, At, CanAccess, UsedSlot, UsedElem, AsU16;
    LayoutAccess(m, m');
    ReadSame(m, m', q.usedRing + 2, 2);
    forall j: nat | j < |log| <= j + q.size
      ensures Read(m', UsedSlot(q, j), 8) == Read(m, UsedSlot(q, j), 8)
    {
      UsedSlotBounds(q, j);
      ReadSame(m, m', UsedSlot(q, j), 8);
    }
  }

  /** A write clear of the used ring leaves the log alone. */
  lemma RecordedKept(m: Mem, q: QueueState, log: seq<Completion>, a: nat, d: seq<byte>)
    requires Recorded(m, q, log) && Apart(a, |d|, q.usedRing + 2, UsedLen(q))
    ensures Recorded(Poke(m, a, d), q, log)
  {
    hide Read, At, CanAccess, UsedSlot, UsedElem, AsU16, Put, WellFormed, ReadU16;
    PokeLayout(m, a, d);
    if CanAccess(m, a, |d|) {
      PutAt(m, a, d);
    }
    RecordedSame(m, Poke(m, a, d), q, log);
  }

  /** Writing the next element into its slot disturbs none of the `size - 1` before it. */
  lemma ElementWritten(m: Mem, q: QueueState, log: seq<Completion>, c: Completion)
    requires Recorded(m, q, log)
    ensures SlotWritable(m, q)
    ensures var m1 := Put(m, UsedSlot(q, q.nextUsed), UsedElem(c.id, c.len));
            && GoodUsed(m1, q) && SameLayout(m, m1)
            && forall j: nat :: j < |log| + 1 <= j + q.size ==>
                 Read(m1, UsedSlot(q, j), 8) == Ok(UsedElem((log + [c])[j].id, (log + [c])[j].len))
  {
    hide Read, CanAccess, UsedSlot, UsedElem, Put, At, WellFormed, ReadU16, Apart;
    var n := |log|;
    var a, d := UsedSlot(q, n), UsedElem(c.id, c.len);
    UsedSlotBounds(q, n);
    AccessPart(m, q.usedRing + 2, UsedLen(q), a, 8);
    var m1 := Put(m, a, d);
    PutAt(m, a, d);
    LayoutAccess(m, m1);
    ReadBack(m, a, d);
    forall j: nat | j < n < j + q.size
      ensures Read(m1, UsedSlot(q, j), 8) == Read(m, UsedSlot(q, j), 8)
    {
      UsedSlotsApart(q, j, n);
      ReadApart(m, a, d, UsedSlot(q, j), 8);
    }
  }

  /** `add_used` appends one completion to the log. */
  lemma AddUsedRecords(m: Mem, q: QueueState, log: seq<Completion>, c: Completion)
    requires Recorded(m, q, log)
    ensures Recorded(AddUsed(m, q, c.id, c.len), AfterUsed(m, q), log + [c])
    ensures SameLayout(m, AddUsed(m, q, c.id, c.len))
    ensures AfterUsed(m, q) == q.(nextUsed := WrapInc(q.nextUsed))
  {
    hide Read, CanAccess, UsedElem, Put, WellFormed, U16LE, AsU16, WrapInc;
    var n := |log|;
    var q' := AfterUsed(m, q);
    var a := q.usedRing + 2;
    ElementWritten(m, q, log, c);
    var m1 := Put(m, UsedSlot(q, q.nextUsed), UsedElem(c.id, c.len));
    var idx := U16LE(WrapInc(q.nextUsed));
    var m2 := Poke(m1, a, idx);
    PokeLayout(m1, a, idx);
    LayoutAccess(m1, m2);
    WrapIncCounts(n);
    AccessPart(m1, a, UsedLen(q), a, 2);
    ReadBack(m1, a, idx);
    U16RoundTrip(WrapInc(q.nextUsed));
    forall j: nat
      ensures Read(m2, UsedSlot(q', j), 8) == Read(m1, UsedSlot(q, j), 8)
    {
      UsedSlotBounds(q, j);
      ReadApart(m1, a, idx, UsedSlot(q, j), 8);
    }
  }

  /** `add_used` touches nothing outside the used ring. */
  lemma AddUsedElsewhere(m: Mem, q: QueueState, id: u16, len: u32, x: nat)
    requires WellFormed(m) && q.size > 0
    requires x < q.usedRing + 2 || q.usedRing + 2 + UsedLen(q) <= x
    ensures At(AddUsed(m, q, id, len), x) == At(m, x)
  {
    hide At, CanAccess, Put, UsedElem, U16LE, WellFormed;
    DivMod(q.nextUsed, q.size);
    var a, d := UsedSlot(q, q.nextUsed), UsedElem(id, len);
    if SlotWritable(m, q) {
      var m1 := Put(m, a, d);
      PutAt(m, a, d);
      var idx := U16LE(WrapInc(q.nextUsed));
      if CanAccess(m1, q.usedRing + 2, 2) {
        PutAt(m1, q.usedRing + 2, idx);
      }
    }
  }

  /** A completion on one queue leaves the log of another queue alone. */
  lemma OtherQueueKept(m: Mem, q: QueueState, id: u16, len: u32, other: QueueState, log: seq<Completion>)
    requires WellFormed(m) && q.size > 0 && Recorded(m, other, log)
    requires Apart(q.usedRing + 2, UsedLen(q), other.usedRing + 2, UsedLen(other))
    ensures Recorded(AddUsed(m, q, id, len), other, log)
  {
    hide At, CanAccess, AddUsed, WellFormed, Recorded;
    AddUsedLayout(m, q, id, len);
    forall x: nat | other.usedRing + 2 <= x < other.usedRing + 2 + UsedLen(other)
      ensures At(m, x) == At(AddUsed(m, q, id, len), x)
    {
      AddUsedElsewhere(m, q, id, len, x);
    }
    RecordedSame(m, AddUsed(m, q, id, len), other, log);
  }
}
