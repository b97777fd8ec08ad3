/**
 The network device behind its MMIO transport: register writes, among them the
 notifications that make the device transmit, polls that make it receive, guest
 stores and frames arriving on the TAP.
 */
module NetTransport {
  import opened Wrappers
  import opened Bytes
  import opened GuestMemory
  import opened Virtqueue
  import opened NetDevice
  import opened Mmio

  /** `waiting` are the frames on the TAP, if one is attached, that the device has not read, `sent` those it has written. */
  datatype Machine = Machine(mem: Mem, transport: Transport, tap: bool, waiting: seq<seq<byte>>, sent: seq<seq<byte>>)

  datatype Event =
    | Register(offset: u64, value: u32)
    | Poll
    | GuestStore(addr: nat, data: seq<byte>)
    | Arrive(frame: seq<byte>)

  /** The device holds a queue with index `i`. */
  predicate Holds(t: Transport, i: nat) {
    t.device.given.Some? && i < |t.device.given.value|
  }

  /** The write makes the device transmit: a notification of queue 1 that it holds, with a TAP to write to. */
  predicate Kicks(s: Machine, e: Event) {
    && e.Register? && e.offset == QUEUE_NOTIFY && e.value % 0x1_0000 == 1
    && s.tap && s.transport.hasMemory && Holds(s.transport, 1)
  }

  /** The device looks at the TAP. */
  predicate Receives(s: Machine, e: Event) {
    e.Poll? && s.tap && s.transport.activated && Holds(s.transport, 0)
  }

  /** The step ends and does not divide by a zero queue size. */
  ghost predicate Defined(s: Machine, e: Event) {
    && (Kicks(s, e) ==> TxEnds(s.mem, s.transport.device.given.value[1]))
    && (Receives(s, e) ==> RxDefined(s.mem, s.transport.device.given.value[0], s.waiting))
  }

  function CursorsOf(qs: seq<QueueState>): (cs: seq<Cursors>)
    ensures |cs| == |qs| && forall i :: 0 <= i < |qs| ==> cs[i] == Cursors(qs[i].nextAvail, qs[i].nextUsed)
  {
    seq(|qs|, i requires 0 <= i < |qs| => Cursors(qs[i].nextAvail, qs[i].nextUsed))
  }

  /** The device with its queue `i` replaced. */
  function WithQueue(d: Device, i: nat, q: QueueState): (d': Device)
    requires d.given.Some? && i < |d.given.value|
  {
    d.(given := Some(d.given.value[i := q]))
  }

  ghost function Next(s: Machine, e: Event): (s': Machine)
    requires Defined(s, e) && |s.transport.driverFeatures| == 2
    ensures |s'.transport.driverFeatures| == 2
  {
    var t := s.transport;
    match e
    case Register(offset, value) =>
      if Kicks(s, e) then
        var qs := t.device.given.value;
        var o := TxLoop(s.mem, qs[1]);
        var w := Access(offset, value, Reply(true, CursorsOf(qs[1 := o.q])));
        s.(mem := o.mem, sent := s.sent + o.frames, transport := WriteReg(t, w))
      else s.(transport := WriteReg(t, Access(offset, value, Reply(true, []))))
    case Poll =>
      if Receives(s, e) then
        var o := RxLoop(s.mem, t.device.given.value[0], s.waiting);
        s.(mem := o.mem, waiting := o.rest,
           transport := t.(device := WithQueue(t.device, 0, o.q), interruptStatus := if o.done != [] then 1 else t.interruptStatus))
      else s
    case GuestStore(addr, data) => s.(mem := Poke(s.mem, addr, data))
    case Arrive(frame) => s.(waiting := s.waiting + [frame])
  }

  /** What a notification does to the device: its transmit queue advances as the loop says, nothing else changes. */
  lemma KickTransmits(s: Machine, e: Event)
    requires |s.transport.driverFeatures| == 2 && Defined(s, e) && Kicks(s, e)
    ensures var o := TxLoop(s.mem, s.transport.device.given.value[1]);
            Next(s, e).transport.device.given == Some(s.transport.device.given.value[1 := o.q])
  {
    hide TxLoop, TxEnds, RxDefined, SetStatus;
    var qs := s.transport.device.given.value;
    var o := TxLoop(s.mem, qs[1]);
    assert Moved(qs, CursorsOf(qs[1 := o.q])) == qs[1 := o.q];
  }

  // ---------------------------------------------------------------- runs

  /** Every step of the run is defined. */
  ghost predicate Runs(s: Machine, events: seq<Event>)
    requires |s.transport.driverFeatures| == 2
    decreases |events|
  {
    events == [] || (Defined(s, events[0]) && Runs(Next(s, events[0]), events[1..]))
  }

  ghost function After(s: Machine, events: seq<Event>): (s': Machine)
    requires |s.transport.driverFeatures| == 2 && Runs(s, events)
    ensures |s'.transport.driverFeatures| == 2
    decreases |events|
  {
    if events == [] then s else After(Next(s, events[0]), events[1..])
  }

  predicate IsReset(e: Event) {
    e.Register? && e.offset == STATUS && e.value == 0
  }

  // ---------------------------------------------------------------- machines that cannot be told apart

  /**
   Both devices are active and hold the same queues over the same memory and TAP.
   The register files may differ in queue list, selections, features and status.
   */
  ghost predicate Alike(s: Machine, r: Machine) {
    && s.mem == r.mem && s.tap == r.tap && s.waiting == r.waiting && s.sent == r.sent
    && |s.transport.driverFeatures| == 2 && |r.transport.driverFeatures| == 2
    && s.transport.activated && r.transport.activated
    && s.transport.hasMemory && r.transport.hasMemory
    && s.transport.device.given.Some? && r.transport.device.given == s.transport.device.given
  }

  lemma WriteAlike(t: Transport, u: Transport, w: Access)
    requires |t.driverFeatures| == 2 && |u.driverFeatures| == 2
    requires t.activated && u.activated && t.hasMemory && u.hasMemory && !Resets(w)
    requires t.device.given.Some? && t.device.given == u.device.given
    ensures var t', u' := WriteReg(t, w), WriteReg(u, w);
            && t'.activated && u'.activated && t'.hasMemory && u'.hasMemory
            && t'.device.given.Some? && t'.device.given == u'.device.given
  {
    hide SetQueue, HasBit;
  }

  lemma StepAlike(s: Machine, r: Machine, e: Event)
    requires Alike(s, r) && !IsReset(e)
    ensures Defined(s, e) <==> Defined(r, e)
    ensures Defined(s, e) ==> Alike(Next(s, e), Next(r, e))
  {
    hide TxLoop, RxLoop, TxEnds, RxDefined, WriteReg, Poke;
    if Defined(s, e) && e.Register? {
      var t := s.transport;
      if Kicks(s, e) {
        var qs := t.device.given.value;
        WriteAlike(t, r.transport, Access(e.offset, e.value, Reply(true, CursorsOf(qs[1 := TxLoop(s.mem, qs[1]).q]))));
      } else {
        WriteAlike(t, r.transport, Access(e.offset, e.value, Reply(true, [])));
      }
    }
  }

  /** Over every run without a reset, the two do the same to memory, TAP and queues. */
  lemma {:induction false} RunAlike(s: Machine, r: Machine, events: seq<Event>)
    requires Alike(s, r) && forall i :: 0 <= i < |events| ==> !IsReset(events[i])
    ensures |s.transport.driverFeatures| == 2 && |r.transport.driverFeatures| == 2
    ensures Runs(s, events) <==> Runs(r, events)
    ensures Runs(s, events) ==> Alike(After(s, events), After(r, events))
    decreases |events|
  {
    hide Defined, Next, IsReset;
    if events != [] {
      StepAlike(s, r, events[0]);
      if Defined(s, events[0]) {
        RunAlike(Next(s, events[0]), Next(r, events[0]), events[1..]);
      }
    }
  }

  /** Over every run without a reset the rings stay where they are; only the cursors move. */
  lemma {:induction false} RingsStay(s: Machine, events: seq<Event>)
    requires Alike(s, s) && Runs(s, events)
    requires forall i :: 0 <= i < |events| ==> !IsReset(events[i])
    ensures var s' := After(s, events);
            && Alike(s', s') && SameRings(s.transport.device.given.value, s'.transport.device.given.value)
    decreases |events|
  {
    hide Defined, Next, IsReset;
    if events != [] {
      StepAlike(s, s, events[0]);
      StepKeepsRings(s, events[0]);
      RingsStay(Next(s, events[0]), events[1..]);
    }
  }

  lemma StepKeepsRings(s: Machine, e: Event)
    requires Alike(s, s) && !IsReset(e) && Defined(s, e)
    ensures var s' := Next(s, e);
            s'.transport.device.given.Some? && SameRings(s.transport.device.given.value, s'.transport.device.given.value)
  {
    hide TxLoop, RxLoop, TxEnds, RxDefined, Poke, SetQueue, HasBit;
  }
}
