/**
 The virtio network device: frames move between a TAP interface and the guest's
 transmit and receive queues.
 */
module NetDevice {
  import opened Bytes
  import opened GuestMemory
  import opened Virtqueue
  import opened ScatterGather
  import opened UsedRing

  const MAX_FRAME_SIZE: nat := 1514

  // ---------------------------------------------------------------- one pass of a loop body

  /** The queue after a chain was popped and completed. */
  function Served(m: Mem, q: QueueState): (q': QueueState)
    requires q.size > 0
  {
    AfterUsed(m, q.(nextAvail := WrapInc(q.nextAvail)))
  }

  /** Completing after the pop is the same as the combined step of the loops. */
  lemma CompletesServed(m: Mem, s: QueueState, head: u16, len: u32)
    requires s.size > 0
    ensures var s' := s.(nextAvail := WrapInc(s.nextAvail));
            AddUsed(m, s', head, len) == AddUsed(m, s, head, len) && AfterUsed(m, s') == Served(m, s)
  {
    hide Poke, Put, CanAccess, UsedElem, U16LE, WrapInc;
  }

  function TxFrame(m: Mem, chain: DescriptorChain): (frame: seq<byte>) {
    Gather(m, chain.Readable(), VNET_HDR_SIZE)
  }

  function TxMem(m: Mem, q: QueueState, chain: DescriptorChain): (m': Mem)
    requires q.size > 0
  {
    AddUsed(m, q, chain.headIndex, 0)
  }

  function Payload(frame: seq<byte>): (p: seq<byte>) {
    Zeros(VNET_HDR_SIZE) + frame
  }

  function RxWritten(chain: DescriptorChain, frame: seq<byte>): (n: nat)
    ensures n <= VNET_HDR_SIZE + |frame|
  {
    Min(Capacity(chain.Writable()), |Payload(frame)|)
  }

  function RxMem(m: Mem, q: QueueState, chain: DescriptorChain, frame: seq<byte>): (m': Mem)
    requires q.size > 0 && |frame| <= MAX_FRAME_SIZE
  {
    AddUsed(Scatter(m, chain.Writable(), Payload(frame)), q, chain.headIndex, RxWritten(chain, frame))
  }

  /** What a read of the TAP with the program's buffer returns for a frame of the network. */
  function Truncated(frame: seq<byte>): (f: seq<byte>)
    ensures |f| <= MAX_FRAME_SIZE
  {
    if |frame| <= MAX_FRAME_SIZE then frame else frame[..MAX_FRAME_SIZE]
  }

  // ---------------------------------------------------------------- the transmit loop

  /** The device's completions do not overwrite the driver's available index. */
  ghost predicate TxSafe(m: Mem, q: QueueState) {
    && WellFormed(m) && q.size > 0
    && Apart(q.usedRing + 2, UsedLen(q), q.availRing + 2, 2)
  }

  /** How far the driver's index is ahead of the device's cursor. */
  ghost function Backlog(m: Mem, q: QueueState): (n: nat) {
    match ReadU16(m, q.availRing + 2)
    case Ok(idx) => (idx - q.nextAvail) % 0x1_0000
    case Err(_) => 0
  }

  lemma BacklogShrinks(idx: u16, cursor: u16)
    requires idx != cursor
    ensures (idx - WrapInc(cursor)) % 0x1_0000 == (idx - cursor) % 0x1_0000 - 1
  {
    var d := (idx - cursor) % 0x1_0000;
    assert 1 <= d;
    assert (idx - WrapInc(cursor)) % 0x1_0000 == d - 1;
  }

  /** A served chain brings the cursor one step closer to the driver's index. */
  lemma TxProgress(m: Mem, q: QueueState)
    requires TxSafe(m, q) && Popped(Pop(m, q))
    ensures var chain := Pop(m, q).value.value;
            && TxSafe(TxMem(m, q, chain), Served(m, q))
            && Backlog(TxMem(m, q, chain), Served(m, q)) == Backlog(m, q) - 1
  {
    hide At, Read, AsU16, AddUsed, WellFormed, WrapInc, Walk, TableAt;
    var chain := Pop(m, q).value.value;
    var m' := TxMem(m, q, chain);
    AddUsedLayout(m, q, chain.headIndex, 0);
    forall x: nat | q.availRing + 2 <= x < q.availRing + 4
      ensures At(m, x) == At(m', x)
    {
      AddUsedElsewhere(m, q, chain.headIndex, 0, x);
    }
    ReadSame(m, m', q.availRing + 2, 2);
    BacklogShrinks(ReadU16(m, q.availRing + 2).value, q.nextAvail);
  }

  /** A chain is there to be popped, so the loop takes another turn. */
  predicate Serves(m: Mem, q: QueueState)
    ensures Serves(m, q) ==> q.size > 0
  {
    PopDefined(m, q) && Popped(Pop(m, q))
  }

  /** Nothing is there to be popped, or it cannot be. */
  predicate Stops(m: Mem, q: QueueState) {
    PopDefined(m, q) && !Popped(Pop(m, q))
  }

  /** Memory and queue after one turn of the transmit loop. */
  function TxNext(m: Mem, q: QueueState): (r: (Mem, QueueState))
    requires Serves(m, q)
  {
    (TxMem(m, q, Pop(m, q).value.value), Served(m, q))
  }

  /** The transmit loop takes exactly `n` turns and then finds nothing more to pop. */
  predicate StopsAfter(m: Mem, q: QueueState, n: nat)
    decreases n
  {
    if n == 0 then Stops(m, q)
    else Serves(m, q) && var next := TxNext(m, q); StopsAfter(next.0, next.1, n - 1)
  }

  ghost predicate TxEnds(m: Mem, q: QueueState) {
    exists n: nat :: StopsAfter(m, q, n)
  }

  lemma {:induction false} StopsOnce(m: Mem, q: QueueState, n: nat, k: nat)
    requires StopsAfter(m, q, n) && StopsAfter(m, q, k)
    ensures n == k
    decreases n
  {
    hide Pop, PopDefined, TxNext;
    if n > 0 && k > 0 {
      StopsOnce(TxNext(m, q).0, TxNext(m, q).1, n - 1, k - 1);
    }
  }

  /** How many turns the loop still takes. */
  ghost function Turns(m: Mem, q: QueueState): (n: nat)
    requires TxEnds(m, q)
    ensures StopsAfter(m, q, n)
  {
    var n: nat :| StopsAfter(m, q, n);
    n
  }

  lemma TurnsShrink(m: Mem, q: QueueState)
    requires TxEnds(m, q) && Serves(m, q)
    ensures var (m', q') := TxNext(m, q); TxEnds(m', q') && Turns(m', q') == Turns(m, q) - 1
  {
    hide Pop, PopDefined, TxNext;
    var n := Turns(m, q);
    var (m', q') := TxNext(m, q);
    assert n > 0;
    assert StopsAfter(m', q', n - 1);
    StopsOnce(m', q', n - 1, Turns(m', q'));
  }

  /** With the used ring clear of the available index the loop ends: every turn shortens the backlog. */
  lemma {:induction false} SafeEnds(m: Mem, q: QueueState)
    requires TxSafe(m, q)
    ensures TxEnds(m, q)
    decreases Backlog(m, q)
  {
    hide Pop, TxMem, Served, Backlog, TxSafe;
    assert q.size > 0 by { SafeSize(m, q); }
    if Popped(Pop(m, q)) {
      TxProgress(m, q);
      var (m', q') := TxNext(m, q);
      SafeEnds(m', q');
      var n: nat :| StopsAfter(m', q', n);
      assert StopsAfter(m, q, n + 1);
    } else {
      assert StopsAfter(m, q, 0);
    }
  }

  lemma SafeSize(m: Mem, q: QueueState)
    requires TxSafe(m, q)
    ensures q.size > 0 && WellFormed(m)
  {
    hide WellFormed;
  }

  datatype TxOutcome = TxOutcome(mem: Mem, q: QueueState, frames: seq<seq<byte>>, heads: seq<u16>)

  /** The whole of `process_tx`: serve chains until `pop` returns none or fails. */
  ghost function TxLoop(m: Mem, q: QueueState): (o: TxOutcome)
    requires TxEnds(m, q)
    ensures o.q == q.(nextAvail := o.q.nextAvail, nextUsed := o.q.nextUsed)
    decreases Turns(m, q)
  {
    if !Serves(m, q) then TxOutcome(m, q, [], [])
    else
      var chain := Pop(m, q).value.value;
      TurnsShrink(m, q);
      var rest := TxLoop(TxMem(m, q, chain), Served(m, q));
      TxOutcome(rest.mem, rest.q, FrameOrNone(m, chain) + rest.frames, [chain.headIndex] + rest.heads)
  }

  function FrameOrNone(m: Mem, chain: DescriptorChain): (frames: seq<seq<byte>>) {
    if TxFrame(m, chain) == [] then [] else [TxFrame(m, chain)]
  }

  /** The first turn of the loop and the rest. */
  lemma TxFirst(m: Mem, q: QueueState)
    requires TxEnds(m, q) && Serves(m, q)
    ensures var chain := Pop(m, q).value.value;
            var m', q' := TxMem(m, q, chain), Served(m, q);
            && TxEnds(m', q')
            && var o, rest := TxLoop(m, q), TxLoop(m', q');
            && o.mem == rest.mem && o.q == rest.q
            && o.heads == [chain.headIndex] + rest.heads && o.frames == FrameOrNone(m, chain) + rest.frames
  {
    hide Pop, PopDefined, TxMem, Served;
    TurnsShrink(m, q);
  }

  lemma TxNothing(m: Mem, q: QueueState)
    requires TxEnds(m, q) && !Serves(m, q)
    ensures TxLoop(m, q) == TxOutcome(m, q, [], [])
  {
    hide Pop, PopDefined;
  }

  /** The loop from the next chain on, behind what was already sent. */
  lemma TxUnfolds(m: Mem, q: QueueState, sent: seq<seq<byte>>)
    requires TxEnds(m, q)
    ensures PopDefined(m, q)
    ensures var o := TxLoop(m, q);
            if !Serves(m, q) then o.mem == m && o.q == q && sent + o.frames == sent && o.heads == []
            else
              var chain := Pop(m, q).value.value;
              var m', q' := TxMem(m, q, chain), Served(m, q);
              && TxEnds(m', q') && Turns(m', q') < Turns(m, q)
              && var rest := TxLoop(m', q');
              && o.mem == rest.mem && o.q == rest.q && |o.heads| == 1 + |rest.heads|
              && sent + o.frames == sent + FrameOrNone(m, chain) + rest.frames
  {
    hide Pop, PopDefined, TxMem, Served;
    var _ := Turns(m, q);
    if Serves(m, q) {
      TurnsShrink(m, q);
    }
  }

  // ---------------------------------------------------------------- the receive loop

  datatype RxOutcome = RxOutcome(mem: Mem, q: QueueState, rest: seq<seq<byte>>, done: seq<Completion>)

  /** `pop` is reached only with a frame in hand, and divides by the size only if an entry is published. */
  predicate RxDefined(m: Mem, q: QueueState, incoming: seq<seq<byte>>) {
    incoming == [] || Truncated(incoming[0]) == [] || PopDefined(m, q)
  }

  /**
   The whole of `process_rx`.  A frame taken from the TAP when no chain is
   available is lost; an empty read ends the loop.
   */
  function RxLoop(m: Mem, q: QueueState, incoming: seq<seq<byte>>): (o: RxOutcome)
    requires RxDefined(m, q, incoming)
    ensures o.q == q.(nextAvail := o.q.nextAvail, nextUsed := o.q.nextUsed)
    decreases |incoming|
  {
    if incoming == [] then RxOutcome(m, q, [], [])
    else
      var frame := Truncated(incoming[0]);
      if frame == [] || !Serves(m, q) then RxOutcome(m, q, incoming[1..], [])
      else
        var chain := Pop(m, q).value.value;
        var done := Completion(chain.headIndex, RxWritten(chain, frame));
        var rest := RxLoop(RxMem(m, q, chain, frame), Served(Scatter(m, chain.Writable(), Payload(frame)), q), incoming[1..]);
        RxOutcome(rest.mem, rest.q, rest.rest, [done] + rest.done)
  }

  // ---------------------------------------------------------------- conservation

  /** Every transmitted chain is completed once, in order, with length 0. */
  ghost function TxDone(heads: seq<u16>): (log: seq<Completion>)
    ensures |log| == |heads|
    ensures forall i :: 0 <= i < |heads| ==> log[i] == Completion(heads[i], 0)
  {
    seq(|heads|, i requires 0 <= i < |heads| => Completion(heads[i], 0))
  }

  lemma ServedCursors(m: Mem, q: QueueState, log: seq<Completion>)
    requires Recorded(m, q, log)
    ensures Served(m, q) == q.(nextAvail := WrapInc(q.nextAvail), nextUsed := WrapInc(q.nextUsed))
    ensures Served(m, q) == AfterUsed(m, q).(nextAvail := WrapInc(q.nextAvail))
  {
    hide Read, Put, CanAccess, UsedElem, WellFormed;
    ElementWritten(m, q, log, Completion(0, 0));
  }

  lemma RecordedIgnoresAvail(m: Mem, q: QueueState, log: seq<Completion>, c: u16)
    requires Recorded(m, q, log)
    ensures Recorded(m, q.(nextAvail := c), log)
  {
    hide Read, CanAccess, WellFormed, UsedElem;
    var q' := q.(nextAvail := c);
    assert forall j: nat :: UsedSlot(q', j) == UsedSlot(q, j);
  }

  /** `process_tx` appends exactly the heads it popped to the used ring. */
  lemma {:induction false} TxConserves(m: Mem, q: QueueState, log: seq<Completion>)
    requires TxEnds(m, q) && Recorded(m, q, log) && q.nextUsed == q.nextAvail
    ensures var o := TxLoop(m, q);
            && Recorded(o.mem, o.q, log + TxDone(o.heads))
            && o.q.nextUsed == o.q.nextAvail
            && SameLayout(m, o.mem)
    decreases Turns(m, q)
  {
    hide Pop, PopDefined, AddUsed, Recorded, WellFormed, Served, UsedLen, WrapInc, Gather;
    if Serves(m, q) {
      var chain := Pop(m, q).value.value;
      var c := Completion(chain.headIndex, 0);
      var m1, q1 := TxMem(m, q, chain), Served(m, q);
      AddUsedRecords(m, q, log, c);
      ServedCursors(m, q, log);
      RecordedIgnoresAvail(m1, AfterUsed(m, q), log + [c], WrapInc(q.nextAvail));
      TurnsShrink(m, q);
      TxConserves(m1, q1, log + [c]);
      var rest := TxLoop(m1, q1);
      assert (log + [c]) + TxDone(rest.heads) == log + TxDone([chain.headIndex] + rest.heads);
    } else {
      assert log + TxDone([]) == log;
    }
  }

  ghost predicate ClearOf(ds: seq<VirtqDesc>, a: nat, n: nat) {
    forall i :: 0 <= i < |ds| ==> Apart(ds[i].addr, ds[i].len, a, n)
  }

  /** No buffer that this call of `process_rx` will fill overlaps the given range. */
  ghost predicate RxClear(m: Mem, q: QueueState, incoming: seq<seq<byte>>, a: nat, n: nat)
    requires q.size > 0
    decreases |incoming|
  {
    incoming == [] || Truncated(incoming[0]) == [] || !Popped(Pop(m, q)) ||
    var frame := Truncated(incoming[0]);
    var chain := Pop(m, q).value.value;
    && ClearOf(chain.Writable(), a, n)
    && RxClear(RxMem(m, q, chain, frame), Served(Scatter(m, chain.Writable(), Payload(frame)), q), incoming[1..], a, n)
  }

  lemma ScatterKeepsLog(m: Mem, ds: seq<VirtqDesc>, payload: seq<byte>, q: QueueState, log: seq<Completion>)
    requires Recorded(m, q, log) && ClearOf(ds, q.usedRing + 2, UsedLen(q))
    ensures Recorded(Scatter(m, ds, payload), q, log)
  {
    hide At, CanAccess, Scatter, WellFormed, Read, UsedElem, Covers;
    ScatterLayout(m, ds, payload);
    forall x: nat | q.usedRing + 2 <= x < q.usedRing + 2 + UsedLen(q)
      ensures At(m, x) == At(Scatter(m, ds, payload), x)
    {
      CoversOnlyBuffers(ds, |payload|, q.usedRing + 2, UsedLen(q), x);
      ScatterElsewhere(m, ds, payload, x);
    }
    RecordedSame(m, Scatter(m, ds, payload), q, log);
  }

  /** `process_rx` completes exactly the chains it popped, with the bytes it wrote. */
  lemma {:induction false} RxConserves(m: Mem, q: QueueState, incoming: seq<seq<byte>>, log: seq<Completion>)
    requires Recorded(m, q, log) && q.nextUsed == q.nextAvail
    requires q.size > 0 && RxClear(m, q, incoming, q.usedRing + 2, UsedLen(q))
    ensures var o := RxLoop(m, q, incoming);
            && Recorded(o.mem, o.q, log + o.done)
            && o.q.nextUsed == o.q.nextAvail
            && SameLayout(m, o.mem)
    decreases |incoming|
  {
    hide Pop, AddUsed, Recorded, WellFormed, Served, WrapInc, Scatter, Payload, Truncated, RxWritten, Apart;
    if incoming != [] && Truncated(incoming[0]) != [] && Popped(Pop(m, q)) {
      var frame := Truncated(incoming[0]);
      var chain := Pop(m, q).value.value;
      var m0 := Scatter(m, chain.Writable(), Payload(frame));
      var c := Completion(chain.headIndex, RxWritten(chain, frame));
      var m1, q1 := RxMem(m, q, chain, frame), Served(m0, q);
      ScatterLayout(m, chain.Writable(), Payload(frame));
      ScatterKeepsLog(m, chain.Writable(), Payload(frame), q, log);
      AddUsedRecords(m0, q, log, c);
      ServedCursors(m0, q, log);
      RecordedIgnoresAvail(m1, AfterUsed(m0, q), log + [c], WrapInc(q.nextAvail));
      RxConserves(m1, q1, incoming[1..], log + [c]);
      var rest := RxLoop(m1, q1, incoming[1..]);
      assert (log + [c]) + rest.done == log + ([c] + rest.done);
    } else {
      assert log + [] == log;
    }
  }

  /** A whole transmit pass leaves the used ring of another queue alone. */
  lemma {:induction false} TxKeepsOther(m: Mem, q: QueueState, other: QueueState, log: seq<Completion>)
    requires WellFormed(m) && TxEnds(m, q) && Recorded(m, other, log)
    requires Apart(q.usedRing + 2, UsedLen(q), other.usedRing + 2, UsedLen(other))
    ensures Recorded(TxLoop(m, q).mem, other, log)
    decreases Turns(m, q)
  {
    hide Pop, PopDefined, AddUsed, Recorded, WellFormed, WrapInc, Gather;
    if Serves(m, q) {
      var chain := Pop(m, q).value.value;
      OtherQueueKept(m, q, chain.headIndex, 0, other, log);
      AddUsedLayout(m, q, chain.headIndex, 0);
      TurnsShrink(m, q);
      TxKeepsOther(TxMem(m, q, chain), Served(m, q), other, log);
    }
  }

  /** A whole receive pass leaves the used ring of another queue alone. */
  lemma {:induction false} RxKeepsOther(m: Mem, q: QueueState, incoming: seq<seq<byte>>, other: QueueState, log: seq<Completion>)
    requires WellFormed(m) && q.size > 0 && Recorded(m, other, log)
    requires Apart(q.usedRing + 2, UsedLen(q), other.usedRing + 2, UsedLen(other))
    requires RxClear(m, q, incoming, other.usedRing + 2, UsedLen(other))
    ensures Recorded(RxLoop(m, q, incoming).mem, other, log)
    decreases |incoming|
  {
    hide Pop, AddUsed, Recorded, WellFormed, WrapInc, Scatter, Payload, Truncated, RxWritten, ClearOf;
    if incoming != [] && Truncated(incoming[0]) != [] && Popped(Pop(m, q)) {
      var frame := Truncated(incoming[0]);
      var chain := Pop(m, q).value.value;
      var m0 := Scatter(m, chain.Writable(), Payload(frame));
      ScatterLayout(m, chain.Writable(), Payload(frame));
      ScatterKeepsLog(m, chain.Writable(), Payload(frame), other, log);
      OtherQueueKept(m0, q, chain.headIndex, RxWritten(chain, frame), other, log);
      AddUsedLayout(m0, q, chain.headIndex, RxWritten(chain, frame));
      RxKeepsOther(RxMem(m, q, chain, frame), Served(m0, q), incoming[1..], other, log);
    }
  }
}
