/**
 From the driver's ring to the wire: one call of `process_tx` sends the frame of
 every published chain, in publication order, and leaves nothing outstanding.
 */
module TxDelivery {
  import opened Wrappers
  import opened Bytes
  import opened GuestMemory
  import opened Virtqueue
  import opened ScatterGather
  import opened UsedRing
  import opened NetDevice
  import opened AvailRing

  /** The two memories differ at most inside the given range. */
  ghost predicate SameOutside(m: Mem, m': Mem, a: nat, n: nat) {
    && SameLayout(m, m')
    && forall x: nat :: (x < a || a + n <= x) ==> At(m, x) == At(m', x)
  }

  lemma ReadOutside(m: Mem, m': Mem, a: nat, n: nat, b: nat, k: nat)
    requires WellFormed(m) && SameOutside(m, m', a, n) && Apart(b, k, a, n)
    ensures Read(m, b, k) == Read(m', b, k)
  {
    ReadSame(m, m', b, k);
  }

  lemma {:induction false} WalkSame(t: Table, t': Table, idx: u16, size: u16, budget: nat)
    requires PathInTable(t, idx, size)
    requires forall i: u16 :: i < size ==> t(i) == t'(i)
    ensures Walk(t, idx, budget) == Walk(t', idx, budget)
    decreases budget
  {
    assert Follow(t, idx, 0) == Some(idx);
    if budget > 0 && t(idx).Ok? && t(idx).value.HasNext() {
      var next := t(idx).value.next;
      assert Follow(t, idx, 1) == Some(next);
      forall n: nat | Follow(t, next, n).Some?
        ensures Follow(t, next, n).value < size && t(Follow(t, next, n).value).Ok?
      {
        FollowShift(t, idx, n);
      }
      WalkSame(t, t', next, size, budget - 1);
    }
  }

  lemma {:induction false} GatherSame(m: Mem, m': Mem, ds: seq<VirtqDesc>, skip: nat, a: nat, n: nat)
    requires WellFormed(m) && SameOutside(m, m', a, n) && ClearOf(ds, a, n)
    ensures Gather(m, ds, skip) == Gather(m', ds, skip)
    decreases |ds|
  {
    hide Read, WellFormed, SameOutside;
    if ds != [] {
      assert Apart(ds[0].addr, ds[0].len, a, n);
      if skip >= ds[0].len {
        GatherSame(m, m', ds[1..], skip - ds[0].len, a, n);
      } else {
        ReadOutside(m, m', a, n, ds[0].addr + skip, ds[0].len - skip);
        GatherSame(m, m', ds[1..], 0, a, n);
      }
    }
  }

  /** The chain that starts at `head`, when it is well formed. */
  ghost function ChainOf(m: Mem, q: QueueState, head: u16): (c: DescriptorChain) {
    var w := Walk(TableAt(m, q.descTable), head, q.size);
    DescriptorChain(head, if w.Ok? then w.value else [])
  }

  /** An acyclic chain inside the table whose readable buffers stay clear of the used ring. */
  ghost predicate Deliverable(m: Mem, q: QueueState, head: u16) {
    && PathInTable(TableAt(m, q.descTable), head, q.size)
    && !Cyclic(TableAt(m, q.descTable), head)
    && ClearOf(ChainOf(m, q, head).Readable(), q.usedRing + 2, UsedLen(q))
  }

  /** The used ring overlaps neither the available ring nor the descriptor table. */
  predicate LayoutApart(q: QueueState) {
    && Apart(q.usedRing + 2, UsedLen(q), q.availRing + 2, AvailLen(q))
    && Apart(q.descTable, 16 * q.size, q.usedRing + 2, UsedLen(q))
  }

  /** The non-empty frames of the given chains, in order. */
  ghost function FramesOf(m: Mem, q: QueueState, heads: seq<u16>): (fs: seq<seq<byte>>) {
    if heads == [] then []
    else
      var frame := TxFrame(m, ChainOf(m, q, heads[0]));
      (if frame == [] then [] else [frame]) + FramesOf(m, q, heads[1..])
  }

  lemma DescSame(m: Mem, m': Mem, q: QueueState, i: u16)
    requires WellFormed(m) && SameOutside(m, m', q.usedRing + 2, UsedLen(q)) && LayoutApart(q) && i < q.size
    ensures DescAt(m, q.descTable, i) == DescAt(m', q.descTable, i)
  {
    hide Read, WellFormed, SameOutside, DecodeDesc;
    ReadOutside(m, m', q.usedRing + 2, UsedLen(q), q.descTable + i * 16, 16);
  }

  /** Completions do not change the chains that are still outstanding. */
  lemma ChainSame(m: Mem, m': Mem, q: QueueState, head: u16)
    requires WellFormed(m) && SameOutside(m, m', q.usedRing + 2, UsedLen(q))
    requires LayoutApart(q) && Deliverable(m, q, head)
    ensures Walk(TableAt(m', q.descTable), head, q.size) == Ok(ChainOf(m, q, head).descriptors)
    ensures TxFrame(m', ChainOf(m, q, head)) == TxFrame(m, ChainOf(m, q, head))
  {
    hide Read, WellFormed, SameOutside, DescAt, Gather, Walk, Cyclic, Follow;
    var t, t' := TableAt(m, q.descTable), TableAt(m', q.descTable);
    forall i: u16 | i < q.size
      ensures t(i) == t'(i)
    {
      DescSame(m, m', q, i);
    }
    WalkSame(t, t', head, q.size, q.size);
    WalkExact(t, head, q.size);
    GatherSame(m, m', ChainOf(m, q, head).Readable(), VNET_HDR_SIZE, q.usedRing + 2, UsedLen(q));
  }

  lemma AddUsedOutside(m0: Mem, m: Mem, q: QueueState, head: u16, len: u32)
    requires WellFormed(m) && q.size > 0 && SameOutside(m0, m, q.usedRing + 2, UsedLen(q))
    ensures SameOutside(m0, AddUsed(m, q, head, len), q.usedRing + 2, UsedLen(q))
  {
    hide AddUsed, WellFormed, At;
    AddUsedLayout(m, q, head, len);
    forall x: nat | x < q.usedRing + 2 || q.usedRing + 2 + UsedLen(q) <= x
      ensures At(m0, x) == At(AddUsed(m, q, head, len), x)
    {
      AddUsedElsewhere(m, q, head, len, x);
    }
  }

  /** A pop followed by the completion of the popped head. */
  ghost function Serve(s: Ring, head: u16): (s': Ring)
    requires s.q.size > 0
    ensures s'.q == s.q.(nextAvail := s'.q.nextAvail, nextUsed := s'.q.nextUsed)
  {
    Step(Step(s, DevicePop), DeviceUsed(head, 0))
  }

  lemma InvFacts(s: Ring)
    requires Inv(s)
    ensures WellFormed(s.mem) && s.q.size > 0 && |s.popped| <= |s.published|
    ensures LayoutApart(s.q) ==> TxSafe(s.mem, s.q)
  {
  }

  lemma UsedStepKeeps(s: Ring, head: u16, len: u32)
    requires Inv(s) && LayoutApart(s.q)
    ensures s.q.size > 0 && Inv(Step(s, DeviceUsed(head, len)))
  {
    UsedStaysClear(s.q);
    UsedKeeps(s, head, len);
  }

  /** The oldest outstanding chain is the one served next, and serving it is two steps of the ring protocol. */
  lemma ServeNext(m0: Mem, s: Ring)
    requires Inv(s) && LayoutApart(s.q) && |s.popped| < |s.published|
    requires WellFormed(m0) && SameOutside(m0, s.mem, s.q.usedRing + 2, UsedLen(s.q))
    requires Deliverable(m0, s.q, s.published[|s.popped|])
    ensures Pop(s.mem, s.q) == Ok(Some(ChainOf(m0, s.q, s.published[|s.popped|])))
    ensures var chain := ChainOf(m0, s.q, s.published[|s.popped|]);
            var s' := Serve(s, chain.headIndex);
            && Inv(s') && s'.mem == TxMem(s.mem, s.q, chain) && s'.q == Served(s.mem, s.q)
            && s'.published == s.published && |s'.popped| == |s.popped| + 1
            && SameOutside(m0, s'.mem, s.q.usedRing + 2, UsedLen(s.q))
  {
    hide Inv, Pop, AddUsed, WellFormed, SameOutside, ChainOf, Deliverable, Apart;
    InvFacts(s);
    var head := s.published[|s.popped|];
    ChainPops(m0, s, head);
    var s1 := Step(s, DevicePop);
    StepKeeps(s, DevicePop);
    UsedStepKeeps(s1, head, 0);
    CompletesServed(s.mem, s.q, head, 0);
    AddUsedOutside(m0, s.mem, s.q, head, 0);
  }

  lemma ChainPops(m0: Mem, s: Ring, head: u16)
    requires Inv(s) && LayoutApart(s.q) && |s.popped| < |s.published| && head == s.published[|s.popped|]
    requires WellFormed(m0) && SameOutside(m0, s.mem, s.q.usedRing + 2, UsedLen(s.q))
    requires Deliverable(m0, s.q, head)
    ensures Pop(s.mem, s.q) == Ok(Some(ChainOf(m0, s.q, head)))
  {
    hide ReadU16, Walk, TableAt, WellFormed, CanAccess, SameOutside, Deliverable;
    PopIsFifo(s);
    ChainSame(m0, s.mem, s.q, head);
    SlotOfWrapped(s.q, |s.popped|);
    assert ReadU16(s.mem, AvailSlot(s.q, |s.popped|)) == Ok(head);
  }

  lemma UsedStaysClear(q: QueueState)
    requires q.size > 0 && 0x1_0000 % q.size == 0 && LayoutApart(q)
    ensures UsedClear(q)
  {
    UsedSlotBounds(q, q.nextUsed);
  }

  lemma {:induction false} DrainFrom(m0: Mem, s: Ring)
    requires Inv(s) && LayoutApart(s.q)
    requires WellFormed(m0) && SameOutside(m0, s.mem, s.q.usedRing + 2, UsedLen(s.q))
    requires forall k :: |s.popped| <= k < |s.published| ==> Deliverable(m0, s.q, s.published[k])
    ensures TxEnds(s.mem, s.q)
    ensures var o := TxLoop(s.mem, s.q);
            && o.heads == s.published[|s.popped|..]
            && o.frames == FramesOf(m0, s.q, s.published[|s.popped|..])
            && Pop(o.mem, o.q) == Ok(None)
    decreases |s.published| - |s.popped|
  {
    hide Inv, Pop, ReadU16, Serve, Deliverable, SameOutside, TxMem, TxFrame, ChainOf, WellFormed, Served, Apart, TxSafe, TxEnds, Turns, TxLoop;
    InvFacts(s);
    SafeEnds(s.mem, s.q);
    PopIsFifo(s);
    if |s.popped| < |s.published| {
      var head := s.published[|s.popped|];
      ServeNext(m0, s);
      var chain := ChainOf(m0, s.q, head);
      var s' := Serve(s, chain.headIndex);
      TxFirst(s.mem, s.q);
      DeliverableSame(m0, s.q, s'.q, s.published);
      DrainFrom(m0, s');
      ChainSame(m0, s.mem, s.q, head);
      FramesSame(m0, s.q, s'.q, s'.published[|s'.popped|..]);
      assert s.published[|s.popped|..] == [head] + s.published[|s.popped| + 1..];
    } else {
      TxNothing(s.mem, s.q);
    }
  }

  lemma ChainIgnoresCursors(m: Mem, q: QueueState, q': QueueState, head: u16)
    requires q' == q.(nextAvail := q'.nextAvail, nextUsed := q'.nextUsed)
    ensures ChainOf(m, q', head) == ChainOf(m, q, head)
    ensures Deliverable(m, q', head) <==> Deliverable(m, q, head)
  {
    hide Walk, TableAt, Cyclic, PathInTable, ClearOf;
  }

  lemma DeliverableSame(m: Mem, q: QueueState, q': QueueState, heads: seq<u16>)
    requires q' == q.(nextAvail := q'.nextAvail, nextUsed := q'.nextUsed)
    ensures forall k :: 0 <= k < |heads| ==> (Deliverable(m, q', heads[k]) <==> Deliverable(m, q, heads[k]))
  {
    forall k | 0 <= k < |heads|
      ensures Deliverable(m, q', heads[k]) <==> Deliverable(m, q, heads[k])
    {
      ChainIgnoresCursors(m, q, q', heads[k]);
    }
  }

  lemma {:induction false} FramesSame(m: Mem, q: QueueState, q': QueueState, heads: seq<u16>)
    requires q' == q.(nextAvail := q'.nextAvail, nextUsed := q'.nextUsed)
    ensures FramesOf(m, q', heads) == FramesOf(m, q, heads)
  {
    hide ChainOf, TxFrame;
    if heads != [] {
      ChainIgnoresCursors(m, q, q', heads[0]);
      FramesSame(m, q, q', heads[1..]);
    }
  }

  /**
   One transmit call drains the ring: the frames written to the TAP are those of
   the outstanding chains as the driver left them, in publication order, each once.
   */
  lemma TransmitDelivers(s: Ring)
    requires Inv(s) && LayoutApart(s.q)
    requires forall k :: |s.popped| <= k < |s.published| ==> Deliverable(s.mem, s.q, s.published[k])
    ensures TxEnds(s.mem, s.q)
    ensures var o := TxLoop(s.mem, s.q);
            && o.heads == s.published[|s.popped|..]
            && o.frames == FramesOf(s.mem, s.q, s.published[|s.popped|..])
            && Pop(o.mem, o.q) == Ok(None)
  {
    hide Inv, Pop, TxLoop, TxSafe, TxEnds, FramesOf, Deliverable, LayoutApart, WellFormed, At;
    InvFacts(s);
    DrainFrom(s.mem, s);
  }
}
