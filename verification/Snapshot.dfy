/** The restored machine against the saved one: where they agree, and where they part. */
module Snapshot {
  import opened Wrappers
  import opened Bytes
  import opened GuestMemory
  import opened Virtqueue
  import opened SnapshotMemory
  import opened Mmio
  import opened DeviceSnapshot
  import NetTransport

  /** The transport of the first network device on a bus. */
  function NetTransportOf(devices: seq<BusDevice>): (t: Option<Transport>) {
    if devices == [] then None
    else if devices[0].transport.device.deviceType == NET_DEVICE_TYPE then Some(devices[0].transport)
    else NetTransportOf(devices[1..])
  }

  /** The bus has one network device, and it is active. */
  ghost predicate NetActive(devices: seq<BusDevice>) {
    && OneNetDevice(devices) && NetTransportOf(devices).Some?
    && var t := NetTransportOf(devices).value;
    && |t.driverFeatures| == 2 && t.activated && t.hasMemory && t.device.given.Some?
  }

  function RestoredTransport(qs: seq<QueueState>): (t: Transport) {
    Mmio.Restored(Fresh(FreshDevice(NET_DEVICE_TYPE), true), qs, true)
  }

  lemma {:induction false} NetQueuesOfTransport(devices: seq<BusDevice>)
    requires NetTransportOf(devices).Some?
    ensures NetQueues(devices) == NetTransportOf(devices).value.device.given
  {
    if devices[0].transport.device.deviceType != NET_DEVICE_TYPE {
      NetQueuesOfTransport(devices[1..]);
    }
  }

  /** The network device that a restore produces: a new transport with the saved queues forced in. */
  lemma RestoredNet(devices: seq<BusDevice>)
    requires NetActive(devices)
    ensures NetTransportOf(ForceAll(RestoredBus(true), SaveAll(devices))) ==
              Some(RestoredTransport(NetTransportOf(devices).value.device.given.value))
  {
    hide ForceAll, SaveAll, OneNetDevice;
    NetQueuesOfTransport(devices);
    RestoreIsLast(devices, true);
    LastIsFirst(devices);
    var bus := BusWith(true, NetQueues(devices));
    assert NetTransportOf(bus) == NetTransportOf(bus[1..]);
  }

  ghost function MachineOf(m: Mem, t: Transport, tap: bool, waiting: seq<seq<byte>>, sent: seq<seq<byte>>): (s: NetTransport.Machine) {
    NetTransport.Machine(m, t, tap, waiting, sent)
  }

  /**
   Save a machine and restore it with a network device.  It comes back iff the dumped
   regions start at page boundaries of the file, and is then like the saved one.
   */
  method SaveAndRestore(mem: GuestMemoryMmap, bus: MmioBus) returns (r: Result<(GuestMemoryMmap, MmioBus), MemError>)
    requires mem.Valid() && WellFormed(mem.contents)
    ensures r.Ok? <==> PageAligned(LayoutOf(mem.contents), 0)
    ensures r.Ok? ==> r.value.0.Valid() && r.value.0.contents == mem.contents
    ensures r.Ok? && NetActive(bus.devices) ==>
              && NetTransportOf(r.value.1.devices) == Some(RestoredTransport(NetTransportOf(bus.devices).value.device.given.value))
              && forall tap, waiting, sent ::
                   NetTransport.Alike(MachineOf(mem.contents, NetTransportOf(bus.devices).value, tap, waiting, sent),
                                      MachineOf(r.value.0.contents, NetTransportOf(r.value.1.devices).value, tap, waiting, sent))
  {
    hide GuestMemoryMmap.Valid, WellFormed, PageAligned, LayoutOf, NetTransportOf, ForceAll, SaveAll, OneNetDevice;
    var back := RoundTripLazy(mem);
    if back.Err? {
      return Err(back.error);
    }
    var saved := bus.SnapshotQueues();
    var restored := RestoreBus(saved, true);
    if NetActive(bus.devices) {
      RestoredNet(bus.devices);
    }
    return Ok((back.value, restored));
  }

  /**
   Over every run without a reset the restored machine does what the saved one
   would have done: the same steps are defined, and memory, frames and queues agree.
   */
  lemma RestoredRunsAlike(m: Mem, devices: seq<BusDevice>, tap: bool, waiting: seq<seq<byte>>, sent: seq<seq<byte>>,
                          events: seq<NetTransport.Event>)
    requires WellFormed(m) && PageAligned(LayoutOf(m), 0) && NetActive(devices)
    requires forall i :: 0 <= i < |events| ==> !NetTransport.IsReset(events[i])
    ensures Total(LayoutOf(m)) <= |Flat(m)|
    ensures NetTransportOf(ForceAll(RestoredBus(true), SaveAll(devices))).Some?
    ensures var back := NetTransportOf(ForceAll(RestoredBus(true), SaveAll(devices))).value;
            var s := MachineOf(m, NetTransportOf(devices).value, tap, waiting, sent);
            var r := MachineOf(SortByBase(Cut(LayoutOf(m), Flat(m), 0)), back, tap, waiting, sent);
            && |back.driverFeatures| == 2
            && (NetTransport.Runs(s, events) <==> NetTransport.Runs(r, events))
            && (NetTransport.Runs(s, events) ==> NetTransport.Alike(NetTransport.After(s, events), NetTransport.After(r, events)))
  {
    hide NetTransport.Runs, NetTransport.After, NetTransportOf, ForceAll, SaveAll, OneNetDevice, WellFormed, Cut, Flat, SortByBase, PageAligned;
    SnapshotPreservesBytes(m);
    RestoredNet(devices);
    var t := NetTransportOf(devices).value;
    var r := MachineOf(m, RestoredTransport(t.device.given.value), tap, waiting, sent);
    NetTransport.RunAlike(MachineOf(m, t, tap, waiting, sent), r, events);
  }

  /**
   A reset tells them apart: after it, and a new set-up, the saved device gets no
   queues and the restored one those the driver described since the restore.
   */
  lemma RestoredResetDiffers(devices: seq<BusDevice>, before: seq<Access>, setup: seq<Access>, w: Access)
    requires NetActive(devices) && Consistent(NetTransportOf(devices).value)
    requires forall i :: 0 <= i < |before| ==> !Resets(before[i])
    requires setup != [] && Resets(setup[0]) && NeverTurnsOn(setup)
    requires TurnsOn(w) && w.reply.accepts
    ensures NetTransportOf(ForceAll(RestoredBus(true), SaveAll(devices))).Some?
    ensures var back := NetTransportOf(ForceAll(RestoredBus(true), SaveAll(devices))).value;
            var ws := before + setup + [w];
            && |back.driverFeatures| == 2
            && WriteAll(NetTransportOf(devices).value, ws).device.given == Some([])
            && WriteAll(back, ws).device.given == Some(AllDescribed(before + setup, 2))
  {
    hide NetTransportOf, ForceAll, SaveAll, OneNetDevice, WriteAll, AllDescribed, HasBit;
    RestoredNet(devices);
    var t := NetTransportOf(devices).value;
    ResetTellsApart(t, FreshDevice(NET_DEVICE_TYPE), t.device.given.value, before, setup, w);
  }
}
