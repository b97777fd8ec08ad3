/**
 The network device never hangs its transport: from activation on, every step of
 every run is defined, wherever the driver puts its rings and whatever it stores.
 */
module NetLiveness {
  import opened Bytes
  import opened GuestMemory
  import opened Virtqueue
  import opened ScatterGather
  import opened NetDevice
  import opened TxOverlap
  import opened TxTermination
  import opened Mmio
  import opened NetTransport

  /** The cursors agree, or completions cannot be recorded any more. */
  ghost predicate Quiescent(m: Mem, q: QueueState) {
    q.size > 0 && (q.nextUsed == q.nextAvail || !SlotWritable(m, q))
  }

  lemma QuiescentEnds(m: Mem, q: QueueState)
    requires WellFormed(m) && Quiescent(m, q)
    ensures TxEnds(m, q)
  {
    hide WellFormed, TxEnds, SlotWritable;
    if q.nextUsed == q.nextAvail {
      EqualCursorsEnd(m, q);
    } else {
      UnwritableEnds(m, q);
    }
  }

  /** Serving a chain keeps it so: both cursors move, or the slot stays unwritable. */
  lemma TurnKeepsQuiescent(m: Mem, q: QueueState, head: u16)
    requires Quiescent(m, q)
    ensures Quiescent(AddUsed(m, q, head, 0), NetDevice.Served(m, q))
  {
    hide Put, Poke, WrapInc, CanAccess;
  }

  /** So does a change of memory that keeps its regions. */
  lemma LayoutKeepsQuiescent(m: Mem, m': Mem, q: QueueState)
    requires Quiescent(m, q) && SameLayout(m, m')
    ensures Quiescent(m', q)
  {
    hide CanAccess;
    LayoutAccess(m, m');
  }

  lemma {:induction false} TransmitKeepsQuiescent(m: Mem, q: QueueState)
    requires WellFormed(m) && Quiescent(m, q) && TxEnds(m, q)
    ensures var o := TxLoop(m, q); WellFormed(o.mem) && SameLayout(m, o.mem) && Quiescent(o.mem, o.q)
    decreases Turns(m, q)
  {
    hide WellFormed, Quiescent, Pop, PopDefined, AddUsed, TxEnds, TxLoop, Turns, NetDevice.Served;
    if Serves(m, q) {
      TxFirst(m, q);
      TurnsShrink(m, q);
      var head := Pop(m, q).value.value.headIndex;
      AddUsedLayout(m, q, head, 0);
      TurnKeepsQuiescent(m, q, head);
      TransmitKeepsQuiescent(AddUsed(m, q, head, 0), NetDevice.Served(m, q));
    } else {
      TxNothing(m, q);
    }
  }

  lemma {:induction false} ReceiveKeepsLayout(m: Mem, q: QueueState, incoming: seq<seq<byte>>)
    requires WellFormed(m) && RxDefined(m, q, incoming)
    ensures var o := RxLoop(m, q, incoming); WellFormed(o.mem) && SameLayout(m, o.mem)
    decreases |incoming|
  {
    hide WellFormed, Pop, AddUsed, Scatter, Payload, RxWritten, ReadU16, Truncated;
    if incoming != [] && Truncated(incoming[0]) != [] && Serves(m, q) {
      var frame, chain := Truncated(incoming[0]), Pop(m, q).value.value;
      var m1 := Scatter(m, chain.Writable(), Payload(frame));
      ScatterLayout(m, chain.Writable(), Payload(frame));
      AddUsedLayout(m1, q, chain.headIndex, RxWritten(chain, frame));
      ReceiveKeepsLayout(RxMem(m, q, chain, frame), NetDevice.Served(m1, q), incoming[1..]);
    }
  }

  // ---------------------------------------------------------------- whole machines

  /** The queues the device holds can be served at any time. */
  ghost predicate Servable(m: Mem, qs: seq<QueueState>) {
    (|qs| > 0 ==> qs[0].size > 0) && (|qs| > 1 ==> Quiescent(m, qs[1]))
  }

  ghost predicate Live(s: Machine) {
    && WellFormed(s.mem) && Alike(s, s) && Servable(s.mem, s.transport.device.given.value)
  }

  lemma LiveIsDefined(s: Machine, e: Event)
    requires Live(s)
    ensures Defined(s, e)
  {
    hide WellFormed, Quiescent, TxEnds, ReadU16;
    if Kicks(s, e) {
      QuiescentEnds(s.mem, s.transport.device.given.value[1]);
    }
  }

  /** A register write other than a notification that is served leaves the held queues alone. */
  lemma WriteKeepsGiven(t: Transport, w: Access)
    requires |t.driverFeatures| == 2 && t.activated && t.device.given.Some? && !Resets(w) && w.reply.cursors == []
    ensures WriteReg(t, w).device.given == t.device.given
  {
    hide SetQueue, HasBit;
    assert Moved(t.device.given.value, []) == t.device.given.value;
  }

  lemma StepKeepsLive(s: Machine, e: Event)
    requires Live(s) && !IsReset(e)
    ensures Defined(s, e) && Live(Next(s, e))
  {
    hide WellFormed, Quiescent, TxEnds, TxLoop, RxLoop, RxDefined, WriteReg, Poke;
    LiveIsDefined(s, e);
    StepAlike(s, s, e);
    var qs := s.transport.device.given.value;
    match e {
      case Register(offset, value) =>
        if Kicks(s, e) {
          KickTransmits(s, e);
          TransmitKeepsQuiescent(s.mem, qs[1]);
        } else {
          WriteKeepsGiven(s.transport, Access(offset, value, Reply(true, [])));
        }
      case Poll =>
        if Receives(s, e) {
          var o := RxLoop(s.mem, qs[0], s.waiting);
          ReceiveKeepsLayout(s.mem, qs[0], s.waiting);
          if |qs| > 1 {
            LayoutKeepsQuiescent(s.mem, o.mem, qs[1]);
          }
        }
      case GuestStore(addr, data) =>
        PokeLayout(s.mem, addr, data);
        if |qs| > 1 {
          LayoutKeepsQuiescent(s.mem, Poke(s.mem, addr, data), qs[1]);
        }
      case Arrive(_) =>
    }
  }

  /** Every run without a reset goes through. */
  lemma {:induction false} NeverHangs(s: Machine, events: seq<Event>)
    requires Live(s) && forall i :: 0 <= i < |events| ==> !IsReset(events[i])
    ensures |s.transport.driverFeatures| == 2 && Runs(s, events) && Live(After(s, events))
    decreases |events|
  {
    hide Live, Defined, Next, IsReset;
    LiveShape(s);
    if events != [] {
      StepKeepsLive(s, events[0]);
      NeverHangs(Next(s, events[0]), events[1..]);
    }
  }

  lemma LiveShape(s: Machine)
    requires Live(s)
    ensures |s.transport.driverFeatures| == 2
  {
    hide WellFormed, Servable;
  }

  /** Activation starts such a run: the driver only has to have written non-zero queue sizes. */
  lemma ActivationIsLive(device: Device, ws: seq<Access>, w: Access, m: Mem, tap: bool, waiting: seq<seq<byte>>)
    requires NeverTurnsOn(ws) && TurnsOn(w) && w.reply.accepts && WellFormed(m)
    requires forall k :: 0 <= k < device.numQueues ==> Described(ws, k).size > 0
    ensures Live(Machine(m, WriteAll(Fresh(device, true), ws + [w]), tap, waiting, []))
  {
    hide WriteReg, HasBit, WellFormed, Last, LastAddress, SlotWritable;
    FirstActivation(device, true, ws, w);
    MemoryStays(Fresh(device, true), ws + [w]);
  }
}
