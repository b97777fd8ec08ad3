/**
 Virtio devices in a snapshot: the queues of activated devices are saved from the
 MMIO bus and, after the bus is rebuilt, forced back into the device of the same type.
 */
module DeviceSnapshot {
  import opened Wrappers
  import opened Bytes
  import opened Virtqueue
  import opened Mmio

  const MMIO_BASE: u64 := 0xD000_0000
  const MMIO_SIZE: u64 := 0x1000
  const NET_DEVICE_TYPE: u32 := 1
  const CONSOLE_DEVICE_TYPE: u32 := 3

  datatype BusDevice = BusDevice(base: u64, size: u64, transport: Transport, irq: Option<u32>)

  /** A queue as the snapshot stores it. */
  datatype SavedQueue = SavedQueue(
    maxSize: u16, size: u16, ready: bool, descTable: u64, availRing: u64, usedRing: u64, nextAvail: u16, nextUsed: u16)

  datatype SavedDevice = SavedDevice(deviceType: u32, queues: seq<SavedQueue>)

  function SaveQueue(q: QueueState): (s: SavedQueue) {
    SavedQueue(q.maxSize, q.size, q.ready, q.descTable, q.availRing, q.usedRing, q.nextAvail, q.nextUsed)
  }

  function FromSaved(s: SavedQueue): (q: QueueState) {
    QueueState(s.maxSize, s.size, s.ready, s.descTable, s.availRing, s.usedRing, s.nextAvail, s.nextUsed)
  }

  function SaveQueues(qs: seq<QueueState>): (ss: seq<SavedQueue>)
    ensures |ss| == |qs| && forall i :: 0 <= i < |qs| ==> ss[i] == SaveQueue(qs[i])
  {
    seq(|qs|, i requires 0 <= i < |qs| => SaveQueue(qs[i]))
  }

  function QueuesFromSaved(ss: seq<SavedQueue>): (qs: seq<QueueState>)
    ensures |qs| == |ss| && forall i :: 0 <= i < |ss| ==> qs[i] == FromSaved(ss[i])
  {
    seq(|ss|, i requires 0 <= i < |ss| => FromSaved(ss[i]))
  }

  lemma QueuesRoundTrip(qs: seq<QueueState>)
    ensures QueuesFromSaved(SaveQueues(qs)) == qs
  {
    forall i | 0 <= i < |qs|
      ensures FromSaved(SaveQueue(qs[i])) == qs[i]
    {
    }
  }

  /** `activated_queues`: only the network device exposes the queues it was activated with. */
  function Exposed(t: Transport): (qs: Option<seq<QueueState>>) {
    if t.device.deviceType == NET_DEVICE_TYPE then t.device.given else None
  }

  /** `snapshot_virtio_queues` and the mapping into the snapshot, device by device. */
  function SaveAll(devices: seq<BusDevice>): (saved: seq<SavedDevice>) {
    if devices == [] then []
    else
      var last := devices[|devices| - 1].transport;
      SaveAll(devices[..|devices| - 1]) +
      (if Exposed(last).Some? then [SavedDevice(last.device.deviceType, SaveQueues(Exposed(last).value))] else [])
  }

  /** Force-activate the first device of the type. */
  function Force(devices: seq<BusDevice>, deviceType: u32, queues: seq<QueueState>): (ds: seq<BusDevice>)
    ensures |ds| == |devices|
  {
    if devices == [] then []
    else if devices[0].transport.device.deviceType == deviceType then
      [devices[0].(transport := Mmio.Restored(devices[0].transport, queues, true))] + devices[1..]
    else [devices[0]] + Force(devices[1..], deviceType, queues)
  }

  function ForceAll(devices: seq<BusDevice>, saved: seq<SavedDevice>): (ds: seq<BusDevice>) {
    if saved == [] then devices
    else
      var last := saved[|saved| - 1];
      Force(ForceAll(devices, saved[..|saved| - 1]), last.deviceType, QueuesFromSaved(last.queues))
  }

  function FreshDevice(deviceType: u32): (d: Device) {
    Device(deviceType, 2, None, [])
  }

  /** The bus that restoring builds: a console, and a network device when a TAP is named. */
  function RestoredBus(withNet: bool): (ds: seq<BusDevice>) {
    [BusDevice(MMIO_BASE, MMIO_SIZE, Fresh(FreshDevice(CONSOLE_DEVICE_TYPE), true), Some(5))] +
    (if withNet then [BusDevice(MMIO_BASE + MMIO_SIZE, MMIO_SIZE, Fresh(FreshDevice(NET_DEVICE_TYPE), true), Some(6))] else [])
  }

  // ---------------------------------------------------------------- what comes back

  /** The queues of the first network device on a bus. */
  function NetQueues(devices: seq<BusDevice>): (qs: Option<seq<QueueState>>) {
    if devices == [] then None
    else if devices[0].transport.device.deviceType == NET_DEVICE_TYPE then Exposed(devices[0].transport)
    else NetQueues(devices[1..])
  }

  /** The queues of the last network device that has any. */
  function LastExposed(devices: seq<BusDevice>): (qs: Option<seq<QueueState>>) {
    if devices == [] then None
    else
      var last := Exposed(devices[|devices| - 1].transport);
      if last.Some? then last else LastExposed(devices[..|devices| - 1])
  }

  /** The restored bus with the network device holding `qs`. */
  function BusWith(withNet: bool, qs: Option<seq<QueueState>>): (ds: seq<BusDevice>) {
    var bus := RestoredBus(withNet);
    if withNet && qs.Some? then [bus[0], bus[1].(transport := Mmio.Restored(bus[1].transport, qs.value, true))] else bus
  }

  lemma ForceOnRestored(withNet: bool, before: Option<seq<QueueState>>, qs: seq<QueueState>)
    ensures Force(BusWith(withNet, before), NET_DEVICE_TYPE, qs) == BusWith(withNet, Some(qs))
  {
    hide SetQueue;
    var bus := BusWith(withNet, before);
    assert bus == [bus[0]] + bus[1..];
    if withNet {
      assert bus[1..] == [bus[1]] && bus[1..][1..] == [];
    }
  }

  /** Restoring replays the saved devices in order, so the last one of a type prevails. */
  lemma {:induction false} RestoreIsLast(devices: seq<BusDevice>, withNet: bool)
    ensures ForceAll(RestoredBus(withNet), SaveAll(devices)) == BusWith(withNet, LastExposed(devices))
    decreases |devices|
  {
    hide Force, BusWith, RestoredBus, QueuesFromSaved, SaveQueues;
    if devices == [] {
      BusWithNone(withNet);
    } else {
      var init := devices[..|devices| - 1];
      var last := Exposed(devices[|devices| - 1].transport);
      RestoreIsLast(init, withNet);
      if last.Some? {
        var entry := SavedDevice(NET_DEVICE_TYPE, SaveQueues(last.value));
        var saved := SaveAll(devices);
        assert saved == SaveAll(init) + [entry];
        assert saved[..|saved| - 1] == SaveAll(init);
        QueuesRoundTrip(last.value);
        ForceOnRestored(withNet, LastExposed(init), last.value);
      } else {
        assert SaveAll(devices) == SaveAll(init) + [];
        assert SaveAll(init) + [] == SaveAll(init);
      }
    }
  }

  lemma BusWithNone(withNet: bool)
    ensures BusWith(withNet, None) == RestoredBus(withNet)
  {
  }

  lemma NetQueuesOfBusWith(withNet: bool, qs: Option<seq<QueueState>>)
    ensures NetQueues(BusWith(withNet, qs)) == if withNet then qs else None
  {
    var bus := BusWith(withNet, qs);
    assert NetQueues(bus) == NetQueues(bus[1..]);
  }

  ghost predicate OneNetDevice(devices: seq<BusDevice>) {
    forall i, j :: 0 <= i < j < |devices| ==>
      devices[i].transport.device.deviceType != NET_DEVICE_TYPE || devices[j].transport.device.deviceType != NET_DEVICE_TYPE
  }

  lemma {:induction false} LastIsFirst(devices: seq<BusDevice>)
    requires OneNetDevice(devices)
    ensures LastExposed(devices) == NetQueues(devices)
    decreases |devices|
  {
    if devices != [] {
      if devices[0].transport.device.deviceType == NET_DEVICE_TYPE {
        OnlyFirst(devices);
      } else {
        LastIsFirst(devices[1..]);
        DropFirst(devices);
      }
    }
  }

  lemma {:induction false} OnlyFirst(devices: seq<BusDevice>)
    requires devices != [] && forall i :: 0 < i < |devices| ==> devices[i].transport.device.deviceType != NET_DEVICE_TYPE
    ensures LastExposed(devices) == Exposed(devices[0].transport)
    decreases |devices|
  {
    if |devices| > 1 {
      OnlyFirst(devices[..|devices| - 1]);
    } else {
      assert devices[..0] == [];
    }
  }

  lemma {:induction false} DropFirst(devices: seq<BusDevice>)
    requires devices != [] && Exposed(devices[0].transport) == None
    ensures LastExposed(devices) == LastExposed(devices[1..])
    decreases |devices|
  {
    if |devices| > 1 {
      DropFirst(devices[..|devices| - 1]);
      assert devices[1..][..|devices| - 2] == devices[..|devices| - 1][1..];
    }
  }

  /**
   With at most one network device, its queues come back unchanged, cursors
   included, exactly when restoring re-creates the device or there were none.
   */
  lemma QueuesComeBackIff(devices: seq<BusDevice>, withNet: bool)
    requires OneNetDevice(devices)
    ensures NetQueues(ForceAll(RestoredBus(withNet), SaveAll(devices))) == NetQueues(devices)
            <==> withNet || NetQueues(devices).None?
  {
    RestoreIsLast(devices, withNet);
    NetQueuesOfBusWith(withNet, LastExposed(devices));
    LastIsFirst(devices);
  }

  lemma {:induction false} ForceAt(devices: seq<BusDevice>, deviceType: u32, queues: seq<QueueState>, i: nat)
    requires i < |devices| && devices[i].transport.device.deviceType == deviceType
    requires forall k :: 0 <= k < i ==> devices[k].transport.device.deviceType != deviceType
    ensures Force(devices, deviceType, queues) ==
              devices[i := devices[i].(transport := Mmio.Restored(devices[i].transport, queues, true))]
    decreases i
  {
    hide Mmio.Restored;
    if i > 0 {
      ForceAt(devices[1..], deviceType, queues, i - 1);
      assert devices == [devices[0]] + devices[1..];
    }
  }

  lemma {:induction false} ForceNone(devices: seq<BusDevice>, deviceType: u32, queues: seq<QueueState>)
    requires forall k :: 0 <= k < |devices| ==> devices[k].transport.device.deviceType != deviceType
    ensures Force(devices, deviceType, queues) == devices
  {
    hide Mmio.Restored;
    if devices != [] {
      ForceNone(devices[1..], deviceType, queues);
      assert devices == [devices[0]] + devices[1..];
    }
  }

  // ---------------------------------------------------------------- the bus object

  class MmioBus {
    var devices: seq<BusDevice>

    constructor ()
      ensures devices == []
    {
      devices := [];
    }

    method Register(base: u64, size: u64, transport: Transport, irq: Option<u32>)
      modifies this
      ensures devices == old(devices) + [BusDevice(base, size, transport, irq)]
    {
      devices := devices + [BusDevice(base, size, transport, irq)];
    }

    method SnapshotQueues() returns (saved: seq<SavedDevice>)
      ensures saved == SaveAll(devices)
    {
      hide SaveQueues;
      saved := [];
      for i := 0 to |devices|
        invariant saved == SaveAll(devices[..i])
      {
        var t := devices[i].transport;
        assert devices[..i + 1][..i] == devices[..i];
        if Exposed(t).Some? {
          saved := saved + [SavedDevice(t.device.deviceType, SaveQueues(Exposed(t).value))];
        }
      }
      assert devices[..|devices|] == devices;
    }

    method ForceActivateDevice(deviceType: u32, queues: seq<QueueState>)
      modifies this
      ensures devices == Force(old(devices), deviceType, queues)
    {
      hide Mmio.Restored, Force;
      for i := 0 to |devices|
        invariant devices == old(devices)
        invariant forall k :: 0 <= k < i ==> devices[k].transport.device.deviceType != deviceType
      {
        if devices[i].transport.device.deviceType == deviceType {
          ForceAt(devices, deviceType, queues, i);
          devices := devices[i := devices[i].(transport := Mmio.Restored(devices[i].transport, queues, true))];
          return;
        }
      }
      ForceNone(devices, deviceType, queues);
    }
  }

  /** Steps 8 to 10 of `restore_snapshot`: rebuild the bus, then replay the saved devices. */
  method RestoreBus(saved: seq<SavedDevice>, withNet: bool) returns (bus: MmioBus)
    ensures fresh(bus) && bus.devices == ForceAll(RestoredBus(withNet), saved)
  {
    hide Force, QueuesFromSaved;
    bus := new MmioBus();
    bus.Register(MMIO_BASE, MMIO_SIZE, Fresh(FreshDevice(CONSOLE_DEVICE_TYPE), true), Some(5));
    if withNet {
      bus.Register(MMIO_BASE + MMIO_SIZE, MMIO_SIZE, Fresh(FreshDevice(NET_DEVICE_TYPE), true), Some(6));
    }
    for i := 0 to |saved|
      invariant fresh(bus) && bus.devices == ForceAll(RestoredBus(withNet), saved[..i])
    {
      assert saved[..i + 1][..i] == saved[..i];
      bus.ForceActivateDevice(saved[i].deviceType, QueuesFromSaved(saved[i].queues));
    }
    assert saved[..|saved|] == saved;
  }
}
