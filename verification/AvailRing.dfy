/**
 The available ring as a two-party protocol (VIRTIO 1.2, section 2.7.6).

 The driver writes a head into a slot and then advances the index in memory; the
 device pops.  Both sides hold 16-bit wrapping counters.  The lemmas speak about
 every interleaving of these steps, with arbitrary other guest and device writes
 in between.
 */
module AvailRing {
  import opened Wrappers
  import opened Bytes
  import opened Arithmetic
  import opened GuestMemory
  import opened Virtqueue

  // ---------------------------------------------------------------- slots of wrapped counters

  /** The slot both sides compute for entry `n`. */
  function WrappedSlot(size: u16, n: nat): (k: nat)
    requires size > 0
  {
    n % 0x1_0000 % size
  }

  /** Entries that can be outstanding together never share a slot iff the size divides 65536. */
  lemma SlotsDistinctIff(size: u16)
    requires size > 0
    ensures (forall k: nat, n: nat :: k < n < k + size ==> WrappedSlot(size, k) != WrappedSlot(size, n))
            <==> 0x1_0000 % size == 0
  {
    if 0x1_0000 % size == 0 {
      forall k: nat, n: nat | k < n < k + size
        ensures WrappedSlot(size, k) != WrappedSlot(size, n)
      {
        ModOfMod(k, 0x1_0000, size);
        ModOfMod(n, 0x1_0000, size);
        ModDistinct(size, k, n);
      }
    } else {
      var r := 0x1_0000 % size;
      SlotsCollide(size);
      assert 0xFFFF < 0xFFFF + r < 0xFFFF + size;
    }
  }

  /** Where the counter wraps, two entries fewer than `size` apart fall into one slot. */
  lemma SlotsCollide(size: u16)
    requires size > 0 && 0x1_0000 % size != 0
    ensures var r := 0x1_0000 % size;
            && 0 < r < size && WrappedSlot(size, 0xFFFF) == r - 1
            && (0xFFFF + r) % 0x1_0000 == r - 1 && WrappedSlot(size, 0xFFFF + r) == r - 1
  {
    var r := 0x1_0000 % size;
    DivMod(0x1_0000, size);
    DivModUnique(size, 0xFFFF, 0x1_0000 / size, r - 1);
    DivModUnique(size, r - 1, 0, r - 1);
    DivModUnique(0x1_0000, 0xFFFF + r, 1, r - 1);
  }

  /** The sizes whose slots survive the wrap are exactly the powers of two. */
  lemma GoodSizesArePowersOfTwo(size: u16)
    requires size > 0
    ensures 0x1_0000 % size == 0 <==> exists j: nat :: j < 16 && size == Pow2(j)
  {
    Pow2Of16();
    if 0x1_0000 % size == 0 {
      DivMod(0x1_0000, size);
      DivisorOfPow2(size, 0x1_0000 / size, 16);
    }
    if j: nat :| j < 16 && size == Pow2(j) {
      Pow2Splits(j, 16);
      ModShift(size, Pow2(16 - j), 0);
    }
  }

  // ---------------------------------------------------------------- the protocol

  /**
   The shared memory, the device's queue, everything the driver has published and
   everything the device has popped, and a head the driver has written into its
   slot without advancing the index yet.
   */
  datatype Ring = Ring(mem: Mem, q: QueueState, published: seq<u16>, popped: seq<u16>, staged: Option<u16>)

  datatype Action =
    | StageHead(head: u16)
    | AdvanceIdx
    | DevicePop
    | DeviceUsed(id: u16, len: u32)
    | GuestWrite(addr: nat, data: seq<byte>)

  /** Length of the driver-written part of the ring, from its index field on. */
  function AvailLen(q: QueueState): (n: nat) {
    2 + 2 * q.size
  }

  predicate UsedClear(q: QueueState)
    requires q.size > 0
  {
    && Apart(UsedSlot(q, q.nextUsed), 8, q.availRing + 2, AvailLen(q))
    && Apart(q.usedRing + 2, 2, q.availRing + 2, AvailLen(q))
  }

  predicate Enabled(s: Ring, a: Action)
    requires s.q.size > 0
  {
    match a
    case StageHead(_) => s.staged.None? && |s.published| < |s.popped| + s.q.size
    case AdvanceIdx => s.staged.Some?
    case DevicePop => true
    case DeviceUsed(_, _) => UsedClear(s.q)
    case GuestWrite(addr, data) => Apart(addr, |data|, s.q.availRing + 2, AvailLen(s.q))
  }

  /** One step.  The driver, like the device, works from the 16-bit value of its counter. */
  function Step(s: Ring, a: Action): (s': Ring)
    requires s.q.size > 0
  {
    match a
    case StageHead(head) =>
      s.(mem := Poke(s.mem, AvailSlot(s.q, |s.published| % 0x1_0000), U16LE(head)), staged := Some(head))
    case AdvanceIdx =>
      if s.staged.None? then s else
      s.(mem := Poke(s.mem, s.q.availRing + 2, U16LE((|s.published| + 1) % 0x1_0000)),
         published := s.published + [s.staged.value], staged := None)
    case DevicePop =>
      var r := Pop(s.mem, s.q);
      s.(q := AfterPop(s.q, r), popped := if Popped(r) then s.popped + [r.value.value.headIndex] else s.popped)
    case DeviceUsed(id, len) =>
      s.(mem := AddUsed(s.mem, s.q, id, len), q := AfterUsed(s.mem, s.q))
    case GuestWrite(addr, data) =>
      s.(mem := Poke(s.mem, addr, data))
  }

  ghost predicate Run(s: Ring, actions: seq<Action>, s': Ring)
    requires s.q.size > 0
    decreases |actions|
  {
    if actions == [] then s' == s
    else Enabled(s, actions[0]) && Run(Step(s, actions[0]), actions[1..], s')
  }

  /** The ring is mapped, its size survives the wrap, and the queue has been made ready. */
  ghost predicate GoodRing(m: Mem, q: QueueState) {
    && WellFormed(m)
    && q.ready && q.size > 0 && 0x1_0000 % q.size == 0
    && CanAccess(m, q.availRing + 2, AvailLen(q))
  }

  /** What lies in memory: the index, the outstanding heads, and a staged head. */
  ghost predicate InMemory(s: Ring)
    requires s.q.size > 0
  {
    && ReadU16(s.mem, s.q.availRing + 2) == Ok(|s.published| % 0x1_0000)
    && (forall k :: |s.popped| <= k < |s.published| ==> ReadU16(s.mem, AvailSlot(s.q, k)) == Ok(s.published[k]))
    && (s.staged.Some? ==> ReadU16(s.mem, AvailSlot(s.q, |s.published|)) == Ok(s.staged.value))
  }

  ghost predicate Inv(s: Ring) {
    && GoodRing(s.mem, s.q)
    && |s.popped| <= |s.published| <= |s.popped| + s.q.size
    && s.popped == s.published[..|s.popped|]
    && (s.staged.Some? ==> |s.published| < |s.popped| + s.q.size)
    && s.q.nextAvail == |s.popped| % 0x1_0000
    && InMemory(s)
  }

  /** A queue that neither side has used yet. */
  ghost predicate Fresh(s: Ring) {
    && GoodRing(s.mem, s.q)
    && s.published == [] && s.popped == [] && s.staged == None
    && s.q.nextAvail == 0 && ReadU16(s.mem, s.q.availRing + 2) == Ok(0)
  }

  lemma SlotOfWrapped(q: QueueState, n: nat)
    requires q.size > 0 && 0x1_0000 % q.size == 0
    ensures AvailSlot(q, n % 0x1_0000) == AvailSlot(q, n)
    ensures q.availRing + 4 <= AvailSlot(q, n) && AvailSlot(q, n) + 2 <= q.availRing + 2 + AvailLen(q)
  {
    ModOfMod(n, 0x1_0000, q.size);
    DivMod(n, q.size);
  }

  lemma SlotsApart(q: QueueState, k: nat, n: nat)
    requires q.size > 0 && k != n && k < n + q.size && n < k + q.size
    ensures Apart(AvailSlot(q, k), 2, AvailSlot(q, n), 2)
  {
    if k < n { ModDistinct(q.size, k, n); } else { ModDistinct(q.size, n, k); }
  }

  lemma ReadBackU16(m: Mem, a: nat, v: u16)
    requires WellFormed(m) && CanAccess(m, a, 2)
    ensures ReadU16(Poke(m, a, U16LE(v)), a) == Ok(v)
  {
    ReadBack(m, a, U16LE(v));
    U16RoundTrip(v);
  }

  lemma ReadApartU16(m: Mem, a: nat, d: seq<byte>, b: nat)
    requires WellFormed(m) && Apart(a, |d|, b, 2)
    ensures ReadU16(Poke(m, a, d), b) == ReadU16(m, b)
  {
    ReadApart(m, a, d, b, 2);
  }

  /** A write that stays clear of the ring leaves its contents alone. */
  lemma InMemoryKept(s: Ring, a: nat, d: seq<byte>)
    requires Inv(s) && Apart(a, |d|, s.q.availRing + 2, AvailLen(s.q))
    ensures GoodRing(Poke(s.mem, a, d), s.q)
    ensures InMemory(s.(mem := Poke(s.mem, a, d)))
  {
    hide ReadU16, Read, AvailSlot, Put, CanAccess;
    var m' := Poke(s.mem, a, d);
    PokeLayout(s.mem, a, d);
    LayoutAccess(s.mem, m');
    ReadApartU16(s.mem, a, d, s.q.availRing + 2);
    forall k: nat
      ensures ReadU16(m', AvailSlot(s.q, k)) == ReadU16(s.mem, AvailSlot(s.q, k))
    {
      SlotOfWrapped(s.q, k);
      ReadApartU16(s.mem, a, d, AvailSlot(s.q, k));
    }
  }

  lemma StageKeeps(s: Ring, head: u16)
    requires Inv(s) && Enabled(s, StageHead(head))
    ensures Inv(Step(s, StageHead(head)))
  {
    hide ReadU16, Read, AvailSlot, Put, CanAccess, U16LE;
    var n := |s.published|;
    var a := AvailSlot(s.q, n);
    var m' := Poke(s.mem, a, U16LE(head));
    SlotOfWrapped(s.q, n);
    PokeLayout(s.mem, a, U16LE(head));
    LayoutAccess(s.mem, m');
    AccessPart(s.mem, s.q.availRing + 2, AvailLen(s.q), a, 2);
    ReadBackU16(s.mem, a, head);
    ReadApartU16(s.mem, a, U16LE(head), s.q.availRing + 2);
    forall k | |s.popped| <= k < n
      ensures ReadU16(m', AvailSlot(s.q, k)) == ReadU16(s.mem, AvailSlot(s.q, k))
    {
      SlotsApart(s.q, n, k);
      ReadApartU16(s.mem, a, U16LE(head), AvailSlot(s.q, k));
    }
  }

  lemma AdvanceKeeps(s: Ring)
    requires Inv(s) && Enabled(s, AdvanceIdx)
    ensures Inv(Step(s, AdvanceIdx))
  {
    hide ReadU16, Read, AvailSlot, Put, CanAccess, U16LE;
    var n := |s.published|;
    var a, d := s.q.availRing + 2, U16LE((n + 1) % 0x1_0000);
    var m' := Poke(s.mem, a, d);
    PokeLayout(s.mem, a, d);
    LayoutAccess(s.mem, m');
    AccessPart(s.mem, a, AvailLen(s.q), a, 2);
    ReadBackU16(s.mem, a, (n + 1) % 0x1_0000);
    forall k: nat
      ensures ReadU16(m', AvailSlot(s.q, k)) == ReadU16(s.mem, AvailSlot(s.q, k))
    {
      SlotOfWrapped(s.q, k);
      ReadApartU16(s.mem, a, d, AvailSlot(s.q, k));
    }
  }

  /** In a reachable state "empty" means that nothing is outstanding, and a popped head is the oldest outstanding one. */
  lemma PopIsFifo(s: Ring)
    requires Inv(s)
    ensures Pop(s.mem, s.q) == Ok(None) <==> |s.popped| == |s.published|
    ensures Popped(Pop(s.mem, s.q)) ==>
              |s.popped| < |s.published| && Pop(s.mem, s.q).value.value.headIndex == s.published[|s.popped|]
  {
    hide ReadU16, Walk, TableAt, AvailSlot, CanAccess, WellFormed;
    SlotOfWrapped(s.q, |s.popped|);
    if |s.popped| < |s.published| {
      ModDistinct(0x1_0000, |s.popped|, |s.published|);
      assert ReadU16(s.mem, AvailSlot(s.q, |s.popped|)) == Ok(s.published[|s.popped|]);
    }
  }

  /** Moving the device's cursors moves no part of the ring. */
  lemma CursorsMove(s: Ring, q': QueueState)
    requires Inv(s) && q' == s.q.(nextAvail := q'.nextAvail, nextUsed := q'.nextUsed)
    ensures GoodRing(s.mem, q') && InMemory(s.(q := q'))
    ensures forall k: nat :: AvailSlot(q', k) == AvailSlot(s.q, k)
  {
    hide ReadU16, CanAccess, WellFormed;
  }

  lemma UsedKeeps(s: Ring, id: u16, len: u32)
    requires Inv(s) && UsedClear(s.q)
    ensures Inv(Step(s, DeviceUsed(id, len)))
  {
    hide ReadU16, Read, AvailSlot, Put, CanAccess, U16LE, UsedElem, WellFormed;
    var slot, elem := UsedSlot(s.q, s.q.nextUsed), UsedElem(id, len);
    InMemoryKept(s, slot, elem);
    var t := s.(mem := Poke(s.mem, slot, elem));
    if SlotWritable(s.mem, s.q) {
      var idx := U16LE(WrapInc(s.q.nextUsed));
      InMemoryKept(t, s.q.usedRing + 2, idx);
      CursorsMove(t.(mem := Poke(t.mem, s.q.usedRing + 2, idx)), AfterUsed(s.mem, s.q));
    }
  }

  lemma WriteKeeps(s: Ring, addr: nat, data: seq<byte>)
    requires Inv(s) && Enabled(s, GuestWrite(addr, data))
    ensures Inv(Step(s, GuestWrite(addr, data)))
  {
    hide ReadU16, Poke, CanAccess, WellFormed, AvailSlot;
    InMemoryKept(s, addr, data);
  }

  lemma PopKeeps(s: Ring)
    requires Inv(s)
    ensures Inv(Step(s, DevicePop))
  {
    hide ReadU16, Pop, CanAccess, WellFormed, AvailSlot, WrapInc;
    PopIsFifo(s);
    WrapIncCounts(|s.popped|);
    var r := Pop(s.mem, s.q);
    CursorsMove(s, AfterPop(s.q, r));
    if Popped(r) {
      var s' := Step(s, DevicePop);
      assert s'.popped == s.published[..|s.popped| + 1];
      assert InMemory(s');
    }
  }

  lemma StepKeeps(s: Ring, a: Action)
    requires Inv(s) && Enabled(s, a)
    ensures Inv(Step(s, a))
  {
    hide Inv, Step;
    match a
    case StageHead(head) => StageKeeps(s, head);
    case AdvanceIdx => AdvanceKeeps(s);
    case DevicePop => PopKeeps(s);
    case DeviceUsed(id, len) => UsedKeeps(s, id, len);
    case GuestWrite(addr, data) => WriteKeeps(s, addr, data);
  }

  lemma InvSize(s: Ring)
    requires Inv(s)
    ensures s.q.size > 0
  {
  }

  lemma {:induction false} RunKeeps(s: Ring, actions: seq<Action>, s': Ring)
    requires Inv(s) && Run(s, actions, s')
    ensures Inv(s')
    decreases |actions|
  {
    hide Inv, Step, Enabled;
    InvSize(s);
    if actions != [] {
      StepKeeps(s, actions[0]);
      RunKeeps(Step(s, actions[0]), actions[1..], s');
    }
  }

  /**
   FIFO over every interleaving: whatever the driver and the device did, the heads
   popped so far are the heads published first, in order and once each, at most
   `size` are outstanding, and a further pop finds the ring empty iff none is.
   */
  lemma FifoForever(s: Ring, actions: seq<Action>, s': Ring)
    requires Fresh(s) && Run(s, actions, s')
    ensures s'.q.size > 0
    ensures s'.popped <= s'.published
    ensures |s'.published| <= |s'.popped| + s'.q.size
    ensures s'.q.nextAvail == |s'.popped| % 0x1_0000
    ensures AvailSlot(s'.q, s'.q.nextAvail) == AvailSlot(s'.q, |s'.popped|)
    ensures Pop(s'.mem, s'.q) == Ok(None) <==> s'.popped == s'.published
    ensures Popped(Pop(s'.mem, s'.q)) ==>
              s'.popped + [Pop(s'.mem, s'.q).value.value.headIndex] <= s'.published
  {
    hide ReadU16, Pop, AvailSlot, CanAccess, WellFormed;
    RunKeeps(s, actions, s');
    PopIsFifo(s');
    SlotOfWrapped(s'.q, |s'.popped|);
  }
}
