/**
 From the wire to the driver's buffers: one call of `process_rx` puts frame after
 frame into the published chains, in publication order, and disturbs nothing else.
 */
module RxDelivery {
  import opened Wrappers
  import opened Bytes
  import opened GuestMemory
  import opened Virtqueue
  import opened ScatterGather
  import opened UsedRing
  import opened NetDevice
  import opened AvailRing
  import opened TxDelivery

  /** The driver-owned parts of the queue, available ring and descriptor table, are the same in both memories. */
  ghost predicate SameDriver(m: Mem, m': Mem, q: QueueState) {
    && SameLayout(m, m')
    && (forall x: nat :: q.availRing + 2 <= x < q.availRing + 2 + AvailLen(q) ==> At(m, x) == At(m', x))
    && (forall x: nat :: q.descTable <= x < q.descTable + 16 * q.size ==> At(m, x) == At(m', x))
  }

  /** The buffers of a chain that the device fills. */
  ghost function Buffers(m: Mem, q: QueueState, head: u16): (ds: seq<VirtqDesc>) {
    ChainOf(m, q, head).Writable()
  }

  /** An acyclic chain in the table with mapped, disjoint buffers that overlap no part of the queue. */
  ghost predicate Receivable(m: Mem, q: QueueState, head: u16) {
    var ds := Buffers(m, q, head);
    && PathInTable(TableAt(m, q.descTable), head, q.size) && !Cyclic(TableAt(m, q.descTable), head)
    && Mapped(m, ds) && Disjoint(ds)
    && ClearOf(ds, q.availRing + 2, AvailLen(q))
    && ClearOf(ds, q.descTable, 16 * q.size)
    && ClearOf(ds, q.usedRing + 2, UsedLen(q))
  }

  ghost predicate BuffersApart(a: seq<VirtqDesc>, b: seq<VirtqDesc>) {
    forall i :: 0 <= i < |a| ==> ClearOf(b, a[i].addr, a[i].len)
  }

  /** The buffers start with the virtio-net header and the frame, as far as they reach. */
  ghost predicate Delivered(m: Mem, chain: DescriptorChain, frame: seq<byte>) {
    var w := RxWritten(chain, frame);
    var held := Joined(m, chain.Writable());
    w <= |held| && held[..w] == Payload(frame)[..w]
  }

  // ---------------------------------------------------------------- what filling a chain leaves alone

  lemma ScatterSameDriver(m0: Mem, m: Mem, q: QueueState, ds: seq<VirtqDesc>, payload: seq<byte>)
    requires WellFormed(m) && SameDriver(m0, m, q)
    requires ClearOf(ds, q.availRing + 2, AvailLen(q)) && ClearOf(ds, q.descTable, 16 * q.size)
    ensures SameDriver(m0, Scatter(m, ds, payload), q)
  {
    hide At, WellFormed, Scatter, Covers, Apart;
    ScatterLayout(m, ds, payload);
    var m' := Scatter(m, ds, payload);
    forall x: nat | q.availRing + 2 <= x < q.availRing + 2 + AvailLen(q)
      ensures At(m0, x) == At(m', x)
    {
      CoversOnlyBuffers(ds, |payload|, q.availRing + 2, AvailLen(q), x);
      ScatterElsewhere(m, ds, payload, x);
    }
    forall x: nat | q.descTable <= x < q.descTable + 16 * q.size
      ensures At(m0, x) == At(m', x)
    {
      CoversOnlyBuffers(ds, |payload|, q.descTable, 16 * q.size, x);
      ScatterElsewhere(m, ds, payload, x);
    }
  }

  lemma AddUsedSameDriver(m0: Mem, m: Mem, q: QueueState, head: u16, len: u32)
    requires WellFormed(m) && q.size > 0 && SameDriver(m0, m, q) && LayoutApart(q)
    ensures SameDriver(m0, AddUsed(m, q, head, len), q)
  {
    hide At, WellFormed, AddUsed;
    AddUsedLayout(m, q, head, len);
    var m' := AddUsed(m, q, head, len);
    forall x: nat | q.availRing + 2 <= x < q.availRing + 2 + AvailLen(q) || q.descTable <= x < q.descTable + 16 * q.size
      ensures At(m0, x) == At(m', x)
    {
      AddUsedElsewhere(m, q, head, len, x);
    }
  }

  /** The ring protocol does not see changes outside the available ring. */
  lemma RingKept(s: Ring, m': Mem)
    requires Inv(s) && SameDriver(s.mem, m', s.q)
    ensures Inv(s.(mem := m'))
  {
    hide Read, At, AsU16, AvailSlot, CanAccess;
    LayoutAccess(s.mem, m');
    ReadSame(s.mem, m', s.q.availRing + 2, 2);
    forall k: nat
      ensures ReadU16(m', AvailSlot(s.q, k)) == ReadU16(s.mem, AvailSlot(s.q, k))
    {
      SlotOfWrapped(s.q, k);
      ReadSame(s.mem, m', AvailSlot(s.q, k), 2);
    }
  }

  lemma DescKept(m: Mem, m': Mem, q: QueueState, i: u16)
    requires WellFormed(m) && SameDriver(m, m', q) && i < q.size
    ensures DescAt(m, q.descTable, i) == DescAt(m', q.descTable, i)
  {
    hide Read, WellFormed, At, DecodeDesc;
    ReadSame(m, m', q.descTable + i * 16, 16);
  }

  /** Chains are read from the descriptor table alone. */
  lemma ChainKept(m: Mem, m': Mem, q: QueueState, head: u16)
    requires WellFormed(m) && SameDriver(m, m', q) && Receivable(m, q, head)
    ensures Walk(TableAt(m', q.descTable), head, q.size) == Ok(ChainOf(m, q, head).descriptors)
  {
    hide WellFormed, SameDriver, DescAt, Walk, Cyclic, Follow, Mapped, Disjoint, ClearOf;
    var t, t' := TableAt(m, q.descTable), TableAt(m', q.descTable);
    forall i: u16 | i < q.size
      ensures t(i) == t'(i)
    {
      DescKept(m, m', q, i);
    }
    WalkSame(t, t', head, q.size, q.size);
    WalkExact(t, head, q.size);
  }

  lemma ChainPopsRx(m0: Mem, s: Ring, head: u16)
    requires Inv(s) && |s.popped| < |s.published| && head == s.published[|s.popped|]
    requires WellFormed(m0) && SameDriver(m0, s.mem, s.q) && Receivable(m0, s.q, head)
    ensures Pop(s.mem, s.q) == Ok(Some(ChainOf(m0, s.q, head)))
  {
    hide ReadU16, Walk, TableAt, WellFormed, CanAccess, SameDriver, Receivable;
    PopIsFifo(s);
    ChainKept(m0, s.mem, s.q, head);
    SlotOfWrapped(s.q, |s.popped|);
    assert ReadU16(s.mem, AvailSlot(s.q, |s.popped|)) == Ok(head);
  }

  // ---------------------------------------------------------------- serving one frame

  /** The ring after the oldest chain was filled with `frame` and completed. */
  ghost function FillNext(m0: Mem, s: Ring, frame: seq<byte>): (s': Ring)
    requires s.q.size > 0 && |s.popped| < |s.published| && |frame| <= MAX_FRAME_SIZE
  {
    var chain := ChainOf(m0, s.q, s.published[|s.popped|]);
    s.(mem := RxMem(s.mem, s.q, chain, frame),
       q := Served(Scatter(s.mem, chain.Writable(), Payload(frame)), s.q),
       popped := s.popped + [chain.headIndex])
  }

  lemma FillKeepsRing(m0: Mem, s: Ring, frame: seq<byte>)
    requires Inv(s) && LayoutApart(s.q) && |s.popped| < |s.published| && |frame| <= MAX_FRAME_SIZE
    requires WellFormed(m0) && SameDriver(m0, s.mem, s.q) && Receivable(m0, s.q, s.published[|s.popped|])
    ensures s.q.size > 0
    ensures var s' := FillNext(m0, s, frame);
            && Inv(s') && SameDriver(m0, s'.mem, s.q)
            && s'.q == s.q.(nextAvail := s'.q.nextAvail, nextUsed := s'.q.nextUsed)
  {
    hide Inv, Pop, Scatter, AddUsed, SameDriver, WellFormed, Mapped, Disjoint, Cyclic, PathInTable, TableAt, Payload, RxWritten, Apart;
    InvFacts(s);
    var head := s.published[|s.popped|];
    var chain := ChainOf(m0, s.q, head);
    var ds, payload := chain.Writable(), Payload(frame);
    ChainPopsRx(m0, s, head);
    var s1 := Step(s, DevicePop);
    StepKeeps(s, DevicePop);
    ScatterSameDriver(s.mem, s.mem, s.q, ds, payload) by { SameDriverRefl(s.mem, s.q); }
    ScatterSameDriver(m0, s.mem, s.q, ds, payload);
    var m1 := Scatter(s.mem, ds, payload);
    SameDriverCursors(s.mem, m1, s.q, s1.q);
    RingKept(s1, m1);
    var s2 := s1.(mem := m1);
    UsedStepKeeps(s2, head, RxWritten(chain, frame));
    CompletesServed(m1, s.q, head, RxWritten(chain, frame));
    InvFacts(s2);
    AddUsedSameDriver(m0, m1, s.q, head, RxWritten(chain, frame));
  }

  lemma SameDriverRefl(m: Mem, q: QueueState)
    ensures SameDriver(m, m, q)
  {
  }

  lemma SameDriverCursors(m: Mem, m': Mem, q: QueueState, q': QueueState)
    requires SameDriver(m, m', q) && q' == q.(nextAvail := q'.nextAvail, nextUsed := q'.nextUsed)
    ensures SameDriver(m, m', q')
  {
    hide At;
  }

  /** Right after the step the chain holds the frame. */
  lemma FillDelivers(m0: Mem, s: Ring, frame: seq<byte>)
    requires Inv(s) && s.q.size > 0 && |s.popped| < |s.published| && |frame| <= MAX_FRAME_SIZE
    requires WellFormed(m0) && SameDriver(m0, s.mem, s.q) && Receivable(m0, s.q, s.published[|s.popped|])
    ensures Delivered(FillNext(m0, s, frame).mem, ChainOf(m0, s.q, s.published[|s.popped|]), frame)
  {
    hide Inv, Scatter, AddUsed, WellFormed, Cyclic, PathInTable, TableAt, Payload, Joined, At, CanAccess, Read, Capacity, Served, Apart;
    InvFacts(s);
    var chain := ChainOf(m0, s.q, s.published[|s.popped|]);
    var ds, payload := chain.Writable(), Payload(frame);
    LayoutAccess(m0, s.mem);
    ScatterStores(s.mem, ds, payload);
    var m1 := Scatter(s.mem, ds, payload);
    ScatterLayout(s.mem, ds, payload);
    var m2 := AddUsed(m1, s.q, chain.headIndex, RxWritten(chain, frame));
    forall i | 0 <= i < |ds|
      ensures Read(m1, ds[i].addr, ds[i].len) == Read(m2, ds[i].addr, ds[i].len)
    {
      UsedReadApart(m1, s.q, chain.headIndex, RxWritten(chain, frame), ds[i].addr, ds[i].len);
    }
    JoinedSame(m1, m2, ds);
  }

  /** A completion is invisible to reads outside the used ring. */
  lemma UsedReadApart(m: Mem, q: QueueState, head: u16, len: u32, a: nat, n: nat)
    requires WellFormed(m) && q.size > 0 && Apart(a, n, q.usedRing + 2, UsedLen(q))
    ensures Read(AddUsed(m, q, head, len), a, n) == Read(m, a, n)
  {
    hide At, WellFormed, AddUsed, Read;
    AddUsedLayout(m, q, head, len);
    forall x | a <= x < a + n
      ensures At(m, x) == At(AddUsed(m, q, head, len), x)
    {
      AddUsedElsewhere(m, q, head, len, x);
    }
    ReadSame(m, AddUsed(m, q, head, len), a, n);
  }

  // ---------------------------------------------------------------- whole calls

  /** The next `n` outstanding chains can be filled. */
  ghost predicate AllReceivable(m: Mem, s: Ring, n: nat) {
    && |s.popped| + n <= |s.published|
    && forall k :: |s.popped| <= k < |s.popped| + n ==> Receivable(m, s.q, s.published[k])
  }

  /** Their buffers do not overlap between chains. */
  ghost predicate ChainsApart(m: Mem, s: Ring, n: nat)
    requires |s.popped| + n <= |s.published|
  {
    forall j, k :: |s.popped| <= j < k < |s.popped| + n ==>
      BuffersApart(Buffers(m, s.q, s.published[j]), Buffers(m, s.q, s.published[k]))
  }

  lemma ChainsIgnoreCursors(m: Mem, q: QueueState, q': QueueState, head: u16)
    requires q' == q.(nextAvail := q'.nextAvail, nextUsed := q'.nextUsed)
    ensures ChainOf(m, q', head) == ChainOf(m, q, head)
    ensures Receivable(m, q', head) <==> Receivable(m, q, head)
  {
    hide Walk, TableAt, Cyclic, PathInTable, ClearOf, Mapped, Disjoint;
  }

  lemma NextHypotheses(m0: Mem, s: Ring, frame: seq<byte>, n: nat)
    requires n > 0 && Inv(s) && LayoutApart(s.q) && WellFormed(m0) && SameDriver(m0, s.mem, s.q)
    requires AllReceivable(m0, s, n) && ChainsApart(m0, s, n) && |frame| <= MAX_FRAME_SIZE
    ensures s.q.size > 0 && |s.popped| < |s.published|
    ensures var s' := FillNext(m0, s, frame);
            && Inv(s') && LayoutApart(s'.q) && SameDriver(m0, s'.mem, s'.q)
            && AllReceivable(m0, s', n - 1) && ChainsApart(m0, s', n - 1)
  {
    hide Inv, SameDriver, WellFormed, Receivable, BuffersApart, RxMem, Served, Scatter, Payload, ChainOf, Apart;
    assert Receivable(m0, s.q, s.published[|s.popped|]);
    FillKeepsRing(m0, s, frame);
    var s' := FillNext(m0, s, frame);
    SameDriverCursors(m0, s'.mem, s.q, s'.q);
    forall k | 0 <= k < |s.published|
      ensures ChainOf(m0, s'.q, s.published[k]) == ChainOf(m0, s.q, s.published[k])
      ensures Receivable(m0, s'.q, s.published[k]) <==> Receivable(m0, s.q, s.published[k])
    {
      ChainsIgnoreCursors(m0, s.q, s'.q, s.published[k]);
    }
  }

  /** How the receive loop unfolds when a chain is there for the first frame. */
  lemma LoopStep(m0: Mem, s: Ring, incoming: seq<seq<byte>>)
    requires Inv(s) && s.q.size > 0 && |s.popped| < |s.published| && incoming != [] && incoming[0] != []
    requires WellFormed(m0) && SameDriver(m0, s.mem, s.q) && Receivable(m0, s.q, s.published[|s.popped|])
    ensures var frame := Truncated(incoming[0]);
            var chain := ChainOf(m0, s.q, s.published[|s.popped|]);
            var s' := FillNext(m0, s, frame);
            s'.q.size > 0 &&
            var o, rest := RxLoop(s.mem, s.q, incoming), RxLoop(s'.mem, s'.q, incoming[1..]);
            && o.mem == rest.mem && o.q == rest.q && o.rest == rest.rest
            && o.done == [Completion(chain.headIndex, RxWritten(chain, frame))] + rest.done
  {
    hide Inv, SameDriver, WellFormed, Receivable, ChainOf, AddUsed, Scatter, Payload, Pop, RxWritten, CanAccess;
    ChainPopsRx(m0, s, s.published[|s.popped|]);
    assert Truncated(incoming[0]) != [];
  }

  /** How many frames find a chain. */
  function FilledBy(s: Ring, incoming: seq<seq<byte>>): (n: nat)
    requires |s.popped| <= |s.published|
    ensures n <= |incoming| && |s.popped| + n <= |s.published|
  {
    Min(|s.published| - |s.popped|, |incoming|)
  }

  /** Without a chain the frame that was read is lost, and the loop ends. */
  lemma NoChain(s: Ring, incoming: seq<seq<byte>>)
    requires Inv(s) && |s.popped| <= |s.published| && FilledBy(s, incoming) == 0
    ensures s.q.size > 0 && RxLoop(s.mem, s.q, incoming) == RxOutcome(s.mem, s.q, Unread(s, incoming), [])
  {
    hide Inv, Pop, Truncated;
    InvFacts(s);
    PopIsFifo(s);
  }

  /** The conditions on the chains and frames of one receive call. */
  ghost predicate CanReceive(m0: Mem, s: Ring, incoming: seq<seq<byte>>) {
    && Inv(s) && LayoutApart(s.q) && WellFormed(m0) && SameDriver(m0, s.mem, s.q)
    && |s.popped| <= |s.published|
    && AllReceivable(m0, s, FilledBy(s, incoming)) && ChainsApart(m0, s, FilledBy(s, incoming))
    && (forall i :: 0 <= i < FilledBy(s, incoming) ==> incoming[i] != [])
  }

  /** They hold again for the rest of the frames. */
  lemma NextReceive(m0: Mem, s: Ring, incoming: seq<seq<byte>>)
    requires CanReceive(m0, s, incoming) && FilledBy(s, incoming) > 0
    ensures s.q.size > 0 && Receivable(m0, s.q, s.published[|s.popped|])
    ensures var s' := FillNext(m0, s, Truncated(incoming[0]));
            && CanReceive(m0, s', incoming[1..]) && FilledBy(s', incoming[1..]) == FilledBy(s, incoming) - 1
            && s'.q == s.q.(nextAvail := s'.q.nextAvail, nextUsed := s'.q.nextUsed)
            && s'.published == s.published && |s'.popped| == |s.popped| + 1
  {
    hide Inv, SameDriver, WellFormed, Receivable, LayoutApart, RxMem, Served, ChainOf, Truncated, BuffersApart;
    assert Receivable(m0, s.q, s.published[|s.popped|]);
    NextHypotheses(m0, s, Truncated(incoming[0]), FilledBy(s, incoming));
    FillKeepsRing(m0, s, Truncated(incoming[0]));
  }

  /** A range that touches none of the buffers to be filled, nor the used ring, reads the same afterwards. */
  lemma {:induction false} ReceiveElsewhere(m0: Mem, s: Ring, incoming: seq<seq<byte>>, a: nat, n: nat)
    requires CanReceive(m0, s, incoming)
    requires forall k :: |s.popped| <= k < |s.popped| + FilledBy(s, incoming) ==> ClearOf(Buffers(m0, s.q, s.published[k]), a, n)
    requires Apart(a, n, s.q.usedRing + 2, UsedLen(s.q))
    ensures s.q.size > 0 && Read(RxLoop(s.mem, s.q, incoming).mem, a, n) == Read(s.mem, a, n)
    decreases |incoming|
  {
    hide CanReceive, Inv, SameDriver, WellFormed, ChainOf, ClearOf, Apart, Read, Truncated, FillNext, Receivable, RxLoop, ReadU16;
    CallFacts(m0, s, incoming);
    if FilledBy(s, incoming) > 0 {
      var frame := Truncated(incoming[0]);
      NextReceive(m0, s, incoming);
      LoopStep(m0, s, incoming);
      var s' := FillNext(m0, s, frame);
      FillElsewhere(m0, s, frame, a, n);
      forall k | |s'.popped| <= k < |s'.popped| + FilledBy(s', incoming[1..])
        ensures ClearOf(Buffers(m0, s'.q, s'.published[k]), a, n)
      {
        ChainsIgnoreCursors(m0, s.q, s'.q, s.published[k]);
      }
      ReceiveElsewhere(m0, s', incoming[1..], a, n);
    } else {
      NoChain(s, incoming);
    }
  }

  lemma CallFacts(m0: Mem, s: Ring, incoming: seq<seq<byte>>)
    requires CanReceive(m0, s, incoming)
    ensures Inv(s) && WellFormed(m0) && s.q.size > 0 && SameDriver(m0, s.mem, s.q)
    ensures |s.popped| <= |s.published| && (FilledBy(s, incoming) > 0 ==> incoming[0] != [])
  {
    hide Inv, SameDriver, Receivable, LayoutApart, WellFormed, BuffersApart;
    InvFacts(s);
  }

  lemma FillElsewhere(m0: Mem, s: Ring, frame: seq<byte>, a: nat, n: nat)
    requires Inv(s) && s.q.size > 0 && |s.popped| < |s.published| && |frame| <= MAX_FRAME_SIZE
    requires ClearOf(Buffers(m0, s.q, s.published[|s.popped|]), a, n) && Apart(a, n, s.q.usedRing + 2, UsedLen(s.q))
    ensures Read(FillNext(m0, s, frame).mem, a, n) == Read(s.mem, a, n)
  {
    hide Inv, Scatter, AddUsed, Payload, Read, WellFormed, Apart, Served, ChainOf;
    InvFacts(s);
    var chain := ChainOf(m0, s.q, s.published[|s.popped|]);
    var ds, payload := chain.Writable(), Payload(frame);
    ScatterLayout(s.mem, ds, payload);
    ScatterReadApart(s.mem, ds, payload, a, n);
    UsedReadApart(Scatter(s.mem, ds, payload), s.q, chain.headIndex, RxWritten(chain, frame), a, n);
  }

  /** Frame `i` sits in the `i`th outstanding chain, which is completed with the length written. */
  ghost predicate Arrived(m0: Mem, s: Ring, incoming: seq<seq<byte>>, o: RxOutcome, i: nat)
    requires i < |incoming| && i < |o.done| && |s.popped| + i < |s.published|
  {
    var chain := ChainOf(m0, s.q, s.published[|s.popped| + i]);
    && o.done[i] == Completion(chain.headIndex, RxWritten(chain, Truncated(incoming[i])))
    && Delivered(o.mem, chain, Truncated(incoming[i]))
  }

  /** What the loop has not read: nothing, or all but the frame for which no chain was left. */
  function Unread(s: Ring, incoming: seq<seq<byte>>): (rest: seq<seq<byte>>)
    requires |s.popped| <= |s.published|
  {
    if FilledBy(s, incoming) < |incoming| then incoming[FilledBy(s, incoming) + 1..] else []
  }

  /**
   One receive call: as many frames as there are chains are delivered, each into the
   chain whose turn it is and completed with its length, in publication order.  With
   more frames than chains the next one is lost and the others stay on the TAP.
   */
  lemma {:induction false} ReceiveDelivers(m0: Mem, s: Ring, incoming: seq<seq<byte>>)
    requires CanReceive(m0, s, incoming)
    ensures s.q.size > 0
    ensures var o, n := RxLoop(s.mem, s.q, incoming), FilledBy(s, incoming);
            && |o.done| == n && o.rest == Unread(s, incoming)
            && forall i :: 0 <= i < n ==> Arrived(m0, s, incoming, o, i)
    decreases |incoming|
  {
    hide CanReceive, Inv, SameDriver, WellFormed, ChainOf, Truncated, FillNext, Receivable, Delivered, RxWritten, RxLoop, ReadU16;
    CallFacts(m0, s, incoming);
    if FilledBy(s, incoming) > 0 {
      var frame := Truncated(incoming[0]);
      NextReceive(m0, s, incoming);
      LoopStep(m0, s, incoming);
      FillDelivers(m0, s, frame);
      var s' := FillNext(m0, s, frame);
      ReceiveDelivers(m0, s', incoming[1..]);
      FirstStaysDelivered(m0, s, incoming);
      var o, rest := RxLoop(s.mem, s.q, incoming), RxLoop(s'.mem, s'.q, incoming[1..]);
      forall i | 0 <= i < FilledBy(s, incoming)
        ensures Arrived(m0, s, incoming, o, i)
      {
        ChainsIgnoreCursors(m0, s.q, s'.q, s.published[|s.popped| + i]);
        assert i > 0 ==> Arrived(m0, s', incoming[1..], rest, i - 1);
      }
    } else {
      NoChain(s, incoming);
    }
  }

  /** The frames that follow leave the first chain as it was filled. */
  lemma FirstStaysDelivered(m0: Mem, s: Ring, incoming: seq<seq<byte>>)
    requires CanReceive(m0, s, incoming) && FilledBy(s, incoming) > 0
    ensures s.q.size > 0
    ensures var frame := Truncated(incoming[0]);
            var chain := ChainOf(m0, s.q, s.published[|s.popped|]);
            var s' := FillNext(m0, s, frame);
            s'.q.size > 0 &&
            (Delivered(s'.mem, chain, frame) ==> Delivered(RxLoop(s'.mem, s'.q, incoming[1..]).mem, chain, frame))
  {
    hide CanReceive, Inv, SameDriver, WellFormed, ReadU16, Payload, RxWritten, LayoutApart, Apart, Read, Mapped, Disjoint, Cyclic, PathInTable, TableAt, Walk,
      RxLoop, Joined, FillNext, Truncated, ClearOf, Receivable;
    var frame := Truncated(incoming[0]);
    var chain := ChainOf(m0, s.q, s.published[|s.popped|]);
    var ds := chain.Writable();
    CallFacts(m0, s, incoming);
    NextReceive(m0, s, incoming);
    var s' := FillNext(m0, s, frame);
    var m' := RxLoop(s'.mem, s'.q, incoming[1..]).mem;
    forall d | 0 <= d < |ds|
      ensures Read(s'.mem, ds[d].addr, ds[d].len) == Read(m', ds[d].addr, ds[d].len)
    {
      forall k | |s'.popped| <= k < |s'.popped| + FilledBy(s', incoming[1..])
        ensures ClearOf(Buffers(m0, s'.q, s'.published[k]), ds[d].addr, ds[d].len)
      {
        ChainsIgnoreCursors(m0, s.q, s'.q, s.published[k]);
        LaterBuffersClear(m0, s, incoming, d, k);
      }
      UsedRingClear(m0, s, incoming, d);
      ReceiveElsewhere(m0, s', incoming[1..], ds[d].addr, ds[d].len);
    }
    JoinedSame(s'.mem, m', ds);
  }

  lemma UsedRingClear(m0: Mem, s: Ring, incoming: seq<seq<byte>>, d: nat)
    requires CanReceive(m0, s, incoming) && FilledBy(s, incoming) > 0
    requires d < |Buffers(m0, s.q, s.published[|s.popped|])|
    ensures var b := Buffers(m0, s.q, s.published[|s.popped|])[d]; Apart(b.addr, b.len, s.q.usedRing + 2, UsedLen(s.q))
  {
    hide Inv, SameDriver, WellFormed, LayoutApart, Mapped, Disjoint, Cyclic, PathInTable, ChainOf, Apart, ChainsApart;
    assert Receivable(m0, s.q, s.published[|s.popped|]);
  }

  /** A buffer of the first chain is clear of the buffers of the chains after it. */
  lemma LaterBuffersClear(m0: Mem, s: Ring, incoming: seq<seq<byte>>, d: nat, k: nat)
    requires CanReceive(m0, s, incoming) && |s.popped| < k < |s.popped| + FilledBy(s, incoming)
    requires d < |Buffers(m0, s.q, s.published[|s.popped|])|
    ensures var b := Buffers(m0, s.q, s.published[|s.popped|])[d]; ClearOf(Buffers(m0, s.q, s.published[k]), b.addr, b.len)
  {
    hide Inv, SameDriver, WellFormed, LayoutApart, Receivable, ChainOf, ClearOf;
    assert BuffersApart(Buffers(m0, s.q, s.published[|s.popped|]), Buffers(m0, s.q, s.published[k]));
  }
}
