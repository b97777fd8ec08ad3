/** The network device as an object, with the loops of `process_tx` and `process_rx`. */
module Net {
  import opened Wrappers
  import opened Bytes
  import opened GuestMemory
  import opened Virtqueue
  import opened ScatterGather
  import opened NetDevice

  /** The TAP interface: frames waiting to be read and frames written so far. */
  class Tap {
    var incoming: seq<seq<byte>>
    var outgoing: seq<seq<byte>>

    constructor (incoming: seq<seq<byte>>)
      ensures this.incoming == incoming && outgoing == []
    {
      this.incoming, outgoing := incoming, [];
    }

    /** A non-blocking read: empty when nothing is waiting. */
    method ReadFrame() returns (frame: seq<byte>)
      modifies this
      ensures outgoing == old(outgoing)
      ensures old(incoming) == [] ==> frame == [] && incoming == []
      ensures old(incoming) != [] ==> frame == Truncated(old(incoming)[0]) && incoming == old(incoming)[1..]
    {
      if incoming == [] {
        return [];
      }
      frame := Truncated(incoming[0]);
      incoming := incoming[1..];
    }

    method WriteFrame(frame: seq<byte>)
      modifies this
      ensures outgoing == old(outgoing) + [frame] && incoming == old(incoming)
    {
      outgoing := outgoing + [frame];
    }
  }

  /** The loop over the readable descriptors of one chain. */
  method GatherFrame(mem: GuestMemoryMmap, ds: seq<VirtqDesc>) returns (frame: seq<byte>)
    requires mem.Valid()
    ensures frame == Gather(mem.contents, ds, VNET_HDR_SIZE)
  {
    hide GuestMemoryMmap.Valid, Read;
    frame := [];
    var skip: nat := VNET_HDR_SIZE;
    for i := 0 to |ds|
      invariant mem.Valid()
      invariant Gather(mem.contents, ds, VNET_HDR_SIZE) == frame + Gather(mem.contents, ds[i..], skip)
    {
      var desc := ds[i];
      ghost var before := frame;
      assert ds[i..][1..] == ds[i + 1..];
      if skip >= desc.len {
        skip := skip - desc.len;
        continue;
      }
      var part := mem.ReadSlice(desc.addr + skip, desc.len - skip);
      if part.Ok? {
        frame := frame + part.value;
      }
      skip := 0;
      ghost var rest := Gather(mem.contents, ds[i + 1..], 0);
      assert part.Ok? ==> before + (part.value + rest) == frame + rest;
    }
  }

  /** The loop over the writable descriptors of one chain. */
  method ScatterPayload(mem: GuestMemoryMmap, ds: seq<VirtqDesc>, payload: seq<byte>) returns (written: nat)
    requires mem.Valid()
    modifies mem.Repr
    ensures mem.Valid()
    ensures mem.contents == Scatter(old(mem.contents), ds, payload)
    ensures written == Min(Capacity(ds), |payload|)
  {
    hide GuestMemoryMmap.Valid, Poke;
    written := 0;
    var i := 0;
    while i < |ds|
      invariant 0 <= i <= |ds| && 0 <= written <= |payload|
      invariant mem.Valid()
      invariant Scatter(old(mem.contents), ds, payload) == Scatter(mem.contents, ds[i..], payload[written..])
      invariant Min(Capacity(ds), |payload|) == written + Min(Capacity(ds[i..]), |payload| - written)
    {
      if written >= |payload| {
        break;
      }
      var desc := ds[i];
      var writeLen := Min(desc.len, |payload| - written);
      assert ds[i..][1..] == ds[i + 1..];
      assert payload[written..][..writeLen] == payload[written..written + writeLen];
      assert payload[written..][writeLen..] == payload[written + writeLen..];
      var _ := mem.WriteSlice(desc.addr, payload[written..written + writeLen]);
      written := written + writeLen;
      i := i + 1;
    }
  }

  /** One turn of the transmit loop: pop a chain, send its frame, complete it. */
  method TransmitOne(tap: Tap, q: Queue, mem: GuestMemoryMmap) returns (served: bool)
    requires mem.Valid() && q !in mem.Repr && tap !in mem.Repr && PopDefined(mem.contents, q.State())
    modifies tap, q, mem.Repr
    ensures mem.Valid() && tap.incoming == old(tap.incoming)
    ensures served <==> Serves(old(mem.contents), old(q.State()))
    ensures !served ==> mem.contents == old(mem.contents) && q.State() == old(q.State()) && tap.outgoing == old(tap.outgoing)
    ensures served ==>
              var m, s := old(mem.contents), old(q.State());
              var chain := Pop(m, s).value.value;
              && mem.contents == TxMem(m, s, chain) && q.State() == Served(m, s)
              && tap.outgoing == old(tap.outgoing) + FrameOrNone(m, chain)
  {
    hide GuestMemoryMmap.Valid, Pop, AddUsed, AfterUsed, Gather, Served;
    ghost var m, s := mem.contents, q.State();
    var r := q.PopChain(mem);
    if !Popped(r) {
      return false;
    }
    assert Serves(m, s);
    var chain := r.value.value;
    var frame := GatherFrame(mem, chain.Readable());
    if frame != [] {
      tap.WriteFrame(frame);
    }
    CompletesServed(m, s, chain.headIndex, 0);
    var _ := q.AddUsedElem(mem, chain.headIndex, 0);
    return true;
  }

  method TransmitAll(tap: Tap, q: Queue, mem: GuestMemoryMmap) returns (count: nat)
    requires mem.Valid() && q !in mem.Repr && tap !in mem.Repr
    requires TxEnds(mem.contents, q.State())
    modifies tap, q, mem.Repr
    ensures mem.Valid()
    ensures var o := TxLoop(old(mem.contents), old(q.State()));
            && mem.contents == o.mem && q.State() == o.q
            && tap.outgoing == old(tap.outgoing) + o.frames && tap.incoming == old(tap.incoming)
            && count == |o.heads|
  {
    hide GuestMemoryMmap.Valid, Pop, PopDefined, TxMem, Served, Turns, TxLoop, TxEnds, FrameOrNone, Serves;
    ghost var whole := TxLoop(mem.contents, q.State());
    count := 0;
    while true
      invariant mem.Valid() && TxEnds(mem.contents, q.State())
      invariant tap.incoming == old(tap.incoming)
      invariant var rest := TxLoop(mem.contents, q.State());
                && rest.mem == whole.mem && rest.q == whole.q
                && tap.outgoing + rest.frames == old(tap.outgoing) + whole.frames
                && count + |rest.heads| == |whole.heads|
      decreases Turns(mem.contents, q.State())
    {
      TxUnfolds(mem.contents, q.State(), tap.outgoing);
      var served := TransmitOne(tap, q, mem);
      if !served {
        return;
      }
      count := count + 1;
    }
  }

  method ReceiveAll(tap: Tap, q: Queue, mem: GuestMemoryMmap) returns (received: bool)
    requires mem.Valid() && q !in mem.Repr && tap !in mem.Repr
    requires RxDefined(mem.contents, q.State(), tap.incoming)
    modifies tap, q, mem.Repr
    ensures mem.Valid()
    ensures var o := RxLoop(old(mem.contents), old(q.State()), old(tap.incoming));
            && mem.contents == o.mem && q.State() == o.q
            && tap.incoming == o.rest && tap.outgoing == old(tap.outgoing)
            && (received <==> o.done != [])
  {
    hide GuestMemoryMmap.Valid, Pop, ReadU16, AddUsed, CanAccess, Scatter, Payload, Truncated;
    ghost var whole := RxLoop(mem.contents, q.State(), tap.incoming);
    received := false;
    while true
      invariant mem.Valid() && RxDefined(mem.contents, q.State(), tap.incoming)
      invariant tap.outgoing == old(tap.outgoing)
      invariant var rest := RxLoop(mem.contents, q.State(), tap.incoming);
                && rest.mem == whole.mem && rest.q == whole.q && rest.rest == whole.rest
                && (received || rest.done != [] <==> whole.done != [])
      decreases |tap.incoming|
    {
      ghost var m, s, waiting := mem.contents, q.State(), tap.incoming;
      var frame := tap.ReadFrame();
      if frame == [] {
        return;
      }
      var r := q.PopChain(mem);
      if !Popped(r) {
        return;
      }
      var chain := r.value.value;
      assert Serves(m, s);
      var payload := Payload(frame);
      var written := ScatterPayload(mem, chain.Writable(), payload);
      CompletesServed(mem.contents, s, chain.headIndex, written);
      var _ := q.AddUsedElem(mem, chain.headIndex, written);
      received := true;
    }
  }

  /** Queue 0 receives, queue 1 transmits; both exist once the device is activated. */
  class NetDev {
    var tap: Option<Tap>
    var queues: Option<seq<Queue>>
    var mem: Option<GuestMemoryMmap>

    constructor ()
      ensures tap == None && queues == None && mem == None
    {
      tap, queues, mem := None, None, None;
    }

    ghost predicate Ready(i: nat)
      reads this
    {
      tap.Some? && queues.Some? && mem.Some? && i < |queues.value|
    }

    ghost predicate Owns(i: nat)
      requires Ready(i)
      reads this, mem.value, mem.value.Repr
    {
      && mem.value.Valid()
      && queues.value[i] !in mem.value.Repr && tap.value !in mem.value.Repr && this !in mem.value.Repr
    }

    ghost function Touches(i: nat): (s: set<object>)
      reads this
    {
      if Ready(i) then {tap.value, queues.value[i]} + mem.value.Repr else {}
    }

    method Activate(queues: seq<Queue>, mem: GuestMemoryMmap)
      modifies this
      ensures this.queues == Some(queues) && this.mem == Some(mem) && tap == old(tap)
    {
      this.queues, this.mem := Some(queues), Some(mem);
    }

    method Reset()
      modifies this
      ensures queues == None && mem == None && tap == old(tap)
    {
      queues, mem := None, None;
    }

    method ProcessTx() returns (count: nat)
      requires Ready(1) ==> Owns(1) && TxEnds(mem.value.contents, queues.value[1].State())
      modifies Touches(1)
      ensures !old(Ready(1)) ==> count == 0
      ensures old(Ready(1)) ==> Ready(1) && tap == old(tap) && queues == old(queues) && mem == old(mem) && Owns(1)
      ensures old(Ready(1)) ==>
                var o := TxLoop(old(mem.value.contents), old(queues.value[1].State()));
                && mem.value.contents == o.mem && queues.value[1].State() == o.q
                && tap.value.outgoing == old(tap.value.outgoing) + o.frames && count == |o.heads|
    {
      if tap.None? || queues.None? || mem.None? || |queues.value| <= 1 {
        return 0;
      }
      hide TxLoop, TxEnds, GuestMemoryMmap.Valid;
      count := TransmitAll(tap.value, queues.value[1], mem.value);
    }

    method ProcessRx() returns (received: bool)
      requires Ready(0) ==> Owns(0) && RxDefined(mem.value.contents, queues.value[0].State(), tap.value.incoming)
      modifies Touches(0)
      ensures !old(Ready(0)) ==> !received
      ensures old(Ready(0)) ==> Ready(0) && tap == old(tap) && queues == old(queues) && mem == old(mem) && Owns(0)
      ensures old(Ready(0)) ==>
                var o := RxLoop(old(mem.value.contents), old(queues.value[0].State()), old(tap.value.incoming));
                && mem.value.contents == o.mem && queues.value[0].State() == o.q
                && tap.value.incoming == o.rest && (received <==> o.done != [])
    {
      if tap.None? || queues.None? || mem.None? || |queues.value| <= 0 {
        return false;
      }
      hide RxLoop, RxDefined, GuestMemoryMmap.Valid;
      received := ReceiveAll(tap.value, queues.value[0], mem.value);
    }
  }
}
