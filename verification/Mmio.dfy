/**
 The virtio-mmio transport (VIRTIO 1.2, section 4.2.2): a register file through
 which the driver describes its queues and switches the device on.
 */
module Mmio {
  import opened Wrappers
  import opened Bytes
  import opened Virtqueue

  const DEVICE_FEATURES_SEL: u64 := 0x014
  const DRIVER_FEATURES: u64 := 0x020
  const DRIVER_FEATURES_SEL: u64 := 0x024
  const QUEUE_SEL: u64 := 0x030
  const QUEUE_NUM: u64 := 0x038
  const QUEUE_READY: u64 := 0x044
  const QUEUE_NOTIFY: u64 := 0x050
  const INTERRUPT_ACK: u64 := 0x064
  const STATUS: u64 := 0x070
  const QUEUE_DESC_LOW: u64 := 0x080
  const QUEUE_DESC_HIGH: u64 := 0x084
  const QUEUE_AVAIL_LOW: u64 := 0x090
  const QUEUE_AVAIL_HIGH: u64 := 0x094
  const QUEUE_USED_LOW: u64 := 0x0A0
  const QUEUE_USED_HIGH: u64 := 0x0A4
  const CONFIG_SPACE: u64 := 0x100

  const STATUS_DRIVER_OK: u32 := 4
  const STATUS_FAILED: u32 := 128
  /** ACKNOWLEDGE | DRIVER | FEATURES_OK | DRIVER_OK */
  const STATUS_RESTORED: u32 := 15

  const QUEUE_MAX: u16 := 256
  const TWO32: nat := 0x1_0000_0000

  /** Only the used-buffer bit of the interrupt status is ever set. */
  type bit = x: int | 0 <= x <= 1

  /** The device behind the transport: the queues it was activated with, and the notifications it has received. */
  datatype Device = Device(deviceType: u32, numQueues: nat, given: Option<seq<QueueState>>, notified: seq<u16>)

  datatype Transport = Transport(
    device: Device, queues: seq<QueueState>, queueSel: u32, status: u32, interruptStatus: bit,
    deviceFeaturesSel: u32, driverFeaturesSel: u32, driverFeatures: seq<u32>,
    configGeneration: u32, activated: bool, hasMemory: bool)

  datatype Cursors = Cursors(nextAvail: u16, nextUsed: u16)

  /**
   What the device does if the write reaches it: whether it accepts an activation,
   and where the cursors of its queues stand after it has handled a notification.
   */
  datatype Reply = Reply(accepts: bool, cursors: seq<Cursors>)

  /** One register write of the driver. */
  datatype Access = Access(offset: u64, value: u32, reply: Reply)

  /** The queues with new cursors; a device moves nothing else. */
  function Moved(qs: seq<QueueState>, cs: seq<Cursors>): (r: seq<QueueState>)
    ensures |r| == |qs|
    ensures forall i :: 0 <= i < |qs| ==>
              r[i] == if i < |cs| then qs[i].(nextAvail := cs[i].nextAvail, nextUsed := cs[i].nextUsed) else qs[i]
  {
    seq(|qs|, i requires 0 <= i < |qs| =>
      if i < |cs| then qs[i].(nextAvail := cs[i].nextAvail, nextUsed := cs[i].nextUsed) else qs[i])
  }

  function Notified(d: Device, index: u16, cs: seq<Cursors>): (d': Device) {
    d.(notified := d.notified + [index], given := if d.given.Some? then Some(Moved(d.given.value, cs)) else None)
  }

  function Fresh(device: Device, hasMemory: bool): (t: Transport) {
    Transport(device, seq(device.numQueues, _ => NewQueue(QUEUE_MAX)), 0, 0, 0, 0, 0, [0, 0], 0, false, hasMemory)
  }

  function SetLow(a: u64, v: u32): (r: u64) {
    a / TWO32 * TWO32 + v
  }

  function SetHigh(a: u64, v: u32): (r: u64) {
    a % TWO32 + v * TWO32
  }

  predicate IsQueueRegister(offset: u64) {
    offset in {QUEUE_NUM, QUEUE_READY, QUEUE_DESC_LOW, QUEUE_DESC_HIGH, QUEUE_AVAIL_LOW, QUEUE_AVAIL_HIGH,
               QUEUE_USED_LOW, QUEUE_USED_HIGH}
  }

  /** A write to a register of the selected queue. */
  function SetQueue(q: QueueState, w: Access): (q': QueueState) {
    if w.offset == QUEUE_NUM then q.(size := w.value % 0x1_0000)
    else if w.offset == QUEUE_READY then q.(ready := w.value == 1)
    else if w.offset == QUEUE_DESC_LOW then q.(descTable := SetLow(q.descTable, w.value))
    else if w.offset == QUEUE_DESC_HIGH then q.(descTable := SetHigh(q.descTable, w.value))
    else if w.offset == QUEUE_AVAIL_LOW then q.(availRing := SetLow(q.availRing, w.value))
    else if w.offset == QUEUE_AVAIL_HIGH then q.(availRing := SetHigh(q.availRing, w.value))
    else if w.offset == QUEUE_USED_LOW then q.(usedRing := SetLow(q.usedRing, w.value))
    else if w.offset == QUEUE_USED_HIGH then q.(usedRing := SetHigh(q.usedRing, w.value))
    else q
  }

  function WithFailed(status: u32): (s: u32) {
    if HasBit(status, STATUS_FAILED) then status else (status + STATUS_FAILED) % TWO32
  }

  /** A write to the status register: reset, activation, or a plain store. */
  function SetStatus(t: Transport, value: u32, accepts: bool): (t': Transport) {
    if value == 0 then
      t.(status := 0, device := t.device.(given := None), activated := false)
    else if HasBit(value, STATUS_DRIVER_OK) && !t.activated then
      if t.hasMemory && accepts then
        t.(status := value, device := t.device.(given := Some(t.queues)), queues := [], activated := true)
      else
        t.(status := WithFailed(value), queues := [])
    else
      t.(status := value)
  }

  function WriteReg(t: Transport, w: Access): (t': Transport)
    requires |t.driverFeatures| == 2
    ensures |t'.driverFeatures| == 2
  {
    if IsQueueRegister(w.offset) then
      if t.queueSel < |t.queues| then t.(queues := t.queues[t.queueSel := SetQueue(t.queues[t.queueSel], w)]) else t
    else if w.offset == DEVICE_FEATURES_SEL then t.(deviceFeaturesSel := w.value)
    else if w.offset == DRIVER_FEATURES then
      if t.driverFeaturesSel < 2 then t.(driverFeatures := t.driverFeatures[t.driverFeaturesSel := w.value]) else t
    else if w.offset == DRIVER_FEATURES_SEL then t.(driverFeaturesSel := w.value)
    else if w.offset == QUEUE_SEL then t.(queueSel := w.value)
    else if w.offset == QUEUE_NOTIFY then
      if t.hasMemory then t.(device := Notified(t.device, w.value % 0x1_0000, w.reply.cursors)) else t
    else if w.offset == INTERRUPT_ACK then
      if HasBit(w.value, 1) then t.(interruptStatus := 0) else t
    else if w.offset == STATUS then SetStatus(t, w.value, w.reply.accepts)
    else if w.offset >= CONFIG_SPACE then t.(configGeneration := (t.configGeneration + 1) % TWO32)
    else t
  }

  function WriteAll(t: Transport, ws: seq<Access>): (t': Transport)
    requires |t.driverFeatures| == 2
    ensures |t'.driverFeatures| == 2
  {
    if ws == [] then t else WriteReg(WriteAll(t, ws[..|ws| - 1]), ws[|ws| - 1])
  }

  // ---------------------------------------------------------------- reference: last write wins

  /** The queue selected after the writes. */
  function Selected(ws: seq<Access>): (sel: u32) {
    if ws == [] then 0
    else
      var w := ws[|ws| - 1];
      if w.offset == QUEUE_SEL then w.value else Selected(ws[..|ws| - 1])
  }

  /** The last value written to `reg` while queue `k` was selected. */
  function Last(ws: seq<Access>, k: nat, reg: u64): (v: Option<u32>) {
    if ws == [] then None
    else
      var w, before := ws[|ws| - 1], ws[..|ws| - 1];
      if w.offset == reg && Selected(before) == k then Some(w.value) else Last(before, k, reg)
  }

  function OrZero(v: Option<u32>): (r: u32) {
    if v.Some? then v.value else 0
  }

  /** An address whose halves are the last values written to the two registers. */
  function LastAddress(ws: seq<Access>, k: nat, low: u64, high: u64): (a: u64) {
    OrZero(Last(ws, k, high)) * TWO32 + OrZero(Last(ws, k, low))
  }

  /** Queue `k` as the driver last described it. */
  function Described(ws: seq<Access>, k: nat): (q: QueueState) {
    var num := Last(ws, k, QUEUE_NUM);
    QueueState(
      QUEUE_MAX,
      if num.Some? then num.value % 0x1_0000 else QUEUE_MAX,
      Last(ws, k, QUEUE_READY) == Some(1),
      LastAddress(ws, k, QUEUE_DESC_LOW, QUEUE_DESC_HIGH),
      LastAddress(ws, k, QUEUE_AVAIL_LOW, QUEUE_AVAIL_HIGH),
      LastAddress(ws, k, QUEUE_USED_LOW, QUEUE_USED_HIGH),
      0, 0)
  }

  function AllDescribed(ws: seq<Access>, n: nat): (qs: seq<QueueState>)
    ensures |qs| == n && forall k :: 0 <= k < n ==> qs[k] == Described(ws, k)
  {
    seq(n, k requires 0 <= k < n => Described(ws, k))
  }

  predicate TurnsOn(w: Access) {
    w.offset == STATUS && HasBit(w.value, STATUS_DRIVER_OK)
  }

  predicate NeverTurnsOn(ws: seq<Access>) {
    forall i :: 0 <= i < |ws| ==> !TurnsOn(ws[i])
  }

  // ---------------------------------------------------------------- set-up refines the reference

  lemma HalvesMeet(low: u32, high: u32, v: u32)
    ensures SetLow(high * TWO32 + low, v) == high * TWO32 + v
    ensures SetHigh(high * TWO32 + low, v) == v * TWO32 + low
  {
  }

  lemma LastSnoc(ws: seq<Access>, w: Access, k: nat, reg: u64)
    ensures Last(ws + [w], k, reg) == if w.offset == reg && Selected(ws) == k then Some(w.value) else Last(ws, k, reg)
  {
    assert (ws + [w])[..|ws|] == ws;
  }

  lemma AddressSnoc(ws: seq<Access>, w: Access, k: nat, low: u64, high: u64)
    requires low != high
    ensures LastAddress(ws + [w], k, low, high) ==
              if Selected(ws) != k then LastAddress(ws, k, low, high)
              else if w.offset == low then SetLow(LastAddress(ws, k, low, high), w.value)
              else if w.offset == high then SetHigh(LastAddress(ws, k, low, high), w.value)
              else LastAddress(ws, k, low, high)
  {
    hide SetLow, SetHigh, Last, Selected;
    LastSnoc(ws, w, k, low);
    LastSnoc(ws, w, k, high);
    HalvesMeet(OrZero(Last(ws, k, low)), OrZero(Last(ws, k, high)), w.value);
  }

  /** One more write changes the description of the selected queue only, as the transport does. */
  lemma DescribedSnoc(ws: seq<Access>, w: Access, k: nat)
    ensures Described(ws + [w], k) == if Selected(ws) == k then SetQueue(Described(ws, k), w) else Described(ws, k)
  {
    hide SetLow, SetHigh, Last, LastAddress, Selected;
    LastSnoc(ws, w, k, QUEUE_NUM);
    LastSnoc(ws, w, k, QUEUE_READY);
    AddressSnoc(ws, w, k, QUEUE_DESC_LOW, QUEUE_DESC_HIGH);
    AddressSnoc(ws, w, k, QUEUE_AVAIL_LOW, QUEUE_AVAIL_HIGH);
    AddressSnoc(ws, w, k, QUEUE_USED_LOW, QUEUE_USED_HIGH);
  }

  lemma SelectedSnoc(ws: seq<Access>, w: Access)
    ensures Selected(ws + [w]) == if w.offset == QUEUE_SEL then w.value else Selected(ws)
  {
    assert (ws + [w])[..|ws|] == ws;
  }

  /** What one write does to the parts that set-up depends on. */
  lemma WriteEffect(t: Transport, w: Access)
    requires |t.driverFeatures| == 2 && (TurnsOn(w) ==> t.activated)
    ensures var t' := WriteReg(t, w);
            && t'.queueSel == (if w.offset == QUEUE_SEL then w.value else t.queueSel)
            && |t'.queues| == |t.queues|
            && (forall k :: 0 <= k < |t.queues| ==>
                  t'.queues[k] == if k == t.queueSel then SetQueue(t.queues[k], w) else t.queues[k])
            && t'.hasMemory == t.hasMemory && (!t.activated ==> !t'.activated)
  {
    hide SetLow, SetHigh;
  }

  /**
   Up to the first DRIVER_OK, each queue holds per field the last value written
   while it was selected, with halves in any order and queues interleaved.
   */
  lemma {:induction false} SetupIsLastWriteWins(device: Device, hasMemory: bool, ws: seq<Access>)
    requires NeverTurnsOn(ws)
    ensures var t := WriteAll(Fresh(device, hasMemory), ws);
            && t.queues == AllDescribed(ws, device.numQueues)
            && t.queueSel == Selected(ws)
            && !t.activated && t.hasMemory == hasMemory
    decreases |ws|
  {
    if ws != [] {
      hide WriteReg, SetQueue, Described, Selected;
      var w, before := ws[|ws| - 1], ws[..|ws| - 1];
      assert ws == before + [w];
      SetupIsLastWriteWins(device, hasMemory, before);
      var t := WriteAll(Fresh(device, hasMemory), before);
      WriteEffect(t, w);
      SelectedSnoc(before, w);
      forall k | 0 <= k < device.numQueues
        ensures WriteReg(t, w).queues[k] == Described(ws, k)
      {
        DescribedSnoc(before, w, k);
      }
    } else {
      hide WriteReg, SetQueue;
    }
  }

  /** The first DRIVER_OK hands the device exactly the described queues, or fails and drops them. */
  lemma FirstActivation(device: Device, hasMemory: bool, ws: seq<Access>, w: Access)
    requires NeverTurnsOn(ws) && TurnsOn(w)
    ensures var t := WriteAll(Fresh(device, hasMemory), ws + [w]);
            && t.queues == []
            && (t.activated <==> hasMemory && w.reply.accepts)
            && (t.activated ==> t.device.given == Some(AllDescribed(ws, device.numQueues)) && t.status == w.value)
            && (!t.activated ==> HasBit(t.status, STATUS_FAILED))
  {
    hide Described, Selected, SetQueue, WriteReg, AllDescribed, SetStatus, HasBit;
    SetupIsLastWriteWins(device, hasMemory, ws);
    assert (ws + [w])[..|ws|] == ws;
    StatusWrite(WriteAll(Fresh(device, hasMemory), ws), w);
    ActivationOutcome(WriteAll(Fresh(device, hasMemory), ws), w.value, w.reply.accepts);
  }

  lemma StatusWrite(t: Transport, w: Access)
    requires |t.driverFeatures| == 2 && TurnsOn(w)
    ensures WriteReg(t, w) == SetStatus(t, w.value, w.reply.accepts)
  {
    hide SetStatus, SetQueue;
  }

  /** What a status write with DRIVER_OK does to a transport that is not active. */
  lemma ActivationOutcome(t: Transport, value: u32, accepts: bool)
    requires HasBit(value, STATUS_DRIVER_OK) && !t.activated
    ensures var t' := SetStatus(t, value, accepts);
            && t'.queues == [] && (t'.activated <==> t.hasMemory && accepts)
            && (t'.activated ==> t'.device.given == Some(t.queues) && t'.status == value)
            && (!t'.activated ==> HasBit(t'.status, STATUS_FAILED))
  {
    assert value != 0;
    FailedIsSet(value);
    hide HasBit, WithFailed;
  }

  lemma FailedIsSet(status: u32)
    ensures HasBit(WithFailed(status), STATUS_FAILED)
  {
  }

  predicate Resets(w: Access) {
    w.offset == STATUS && w.value == 0
  }

  /** The same queues up to their cursors. */
  ghost predicate SameRings(qs: seq<QueueState>, qs': seq<QueueState>) {
    && |qs| == |qs'|
    && forall i :: 0 <= i < |qs| ==> qs'[i] == qs[i].(nextAvail := qs'[i].nextAvail, nextUsed := qs'[i].nextUsed)
  }

  /**
   Until reset no register write alters size, ready flag or addresses of the queues
   the device holds, and only a notification lets it move their cursors.
   */
  lemma {:induction false} HeldUntilReset(t: Transport, ws: seq<Access>)
    requires |t.driverFeatures| == 2 && t.activated && t.device.given.Some?
    requires forall i :: 0 <= i < |ws| ==> !Resets(ws[i])
    ensures var t' := WriteAll(t, ws);
            && t'.activated && t'.device.given.Some? && SameRings(t.device.given.value, t'.device.given.value)
            && t'.hasMemory == t.hasMemory
            && ((forall i :: 0 <= i < |ws| ==> ws[i].offset != QUEUE_NOTIFY) ==> t'.device.given == t.device.given)
    decreases |ws|
  {
    hide SetQueue, HasBit;
    if ws != [] {
      HeldUntilReset(t, ws[..|ws| - 1]);
    }
  }

  /** An activated transport has a non-zero status and no queue left to configure. */
  ghost predicate Consistent(t: Transport) {
    |t.driverFeatures| == 2 && (t.activated ==> t.status != 0 && t.queues == [] && t.device.given.Some?)
  }

  lemma {:induction false} AlwaysConsistent(device: Device, hasMemory: bool, ws: seq<Access>)
    ensures Consistent(WriteAll(Fresh(device, hasMemory), ws))
    decreases |ws|
  {
    hide SetQueue;
    if ws != [] {
      AlwaysConsistent(device, hasMemory, ws[..|ws| - 1]);
    }
  }

  /** Once spent, the queue list stays empty under every sequence of writes. */
  lemma {:induction false} EmptyForever(t: Transport, ws: seq<Access>)
    requires |t.driverFeatures| == 2 && t.queues == []
    ensures WriteAll(t, ws).queues == []
    decreases |ws|
  {
    hide SetQueue, HasBit;
    if ws != [] {
      EmptyForever(t, ws[..|ws| - 1]);
    }
  }

  lemma {:induction false} WriteAllConcat(t: Transport, xs: seq<Access>, ys: seq<Access>)
    requires |t.driverFeatures| == 2
    ensures WriteAll(t, xs + ys) == WriteAll(WriteAll(t, xs), ys)
    decreases |ys|
  {
    hide WriteReg;
    if ys == [] {
      assert xs + ys == xs;
    } else {
      WriteAllConcat(t, xs, ys[..|ys| - 1]);
      assert (xs + ys)[..|xs + ys| - 1] == xs + ys[..|ys| - 1];
    }
  }

  lemma {:induction false} FirstTurnOn(ws: seq<Access>) returns (i: nat)
    requires !NeverTurnsOn(ws)
    ensures i < |ws| && TurnsOn(ws[i]) && NeverTurnsOn(ws[..i])
    decreases |ws|
  {
    hide HasBit;
    i := |ws| - 1;
    if !NeverTurnsOn(ws[..i]) {
      i := FirstTurnOn(ws[..i]);
      assert ws[..|ws| - 1][..i] == ws[..i];
    }
  }

  /** The first DRIVER_OK, successful or not, spends the queue list for good. */
  lemma SpentByTurnOn(device: Device, hasMemory: bool, ws: seq<Access>)
    requires !NeverTurnsOn(ws)
    ensures WriteAll(Fresh(device, hasMemory), ws).queues == []
  {
    hide WriteReg, HasBit, AllDescribed, WriteAll;
    var i := FirstTurnOn(ws);
    assert ws == (ws[..i] + [ws[i]]) + ws[i + 1..];
    FirstActivation(device, hasMemory, ws[..i], ws[i]);
    WriteAllConcat(Fresh(device, hasMemory), ws[..i] + [ws[i]], ws[i + 1..]);
    EmptyForever(WriteAll(Fresh(device, hasMemory), ws[..i] + [ws[i]]), ws[i + 1..]);
  }

  /**
   Whatever was written before, an activation that succeeds hands over the queues
   the driver described iff DRIVER_OK was never set before, and otherwise none.
   */
  lemma ActivationHandsOverIff(device: Device, ws: seq<Access>, w: Access)
    requires device.numQueues > 0 && TurnsOn(w) && w.reply.accepts && !WriteAll(Fresh(device, true), ws).activated
    ensures var given := WriteAll(Fresh(device, true), ws + [w]).device.given;
            && given == Some(if NeverTurnsOn(ws) then AllDescribed(ws, device.numQueues) else [])
            && (given == Some(AllDescribed(ws, device.numQueues)) <==> NeverTurnsOn(ws))
  {
    hide WriteReg, HasBit, Described, Fresh;
    FreshHasMemory(device);
    if NeverTurnsOn(ws) {
      FirstActivation(device, true, ws, w);
    } else {
      SpentByTurnOn(device, true, ws);
      var t := WriteAll(Fresh(device, true), ws);
      assert (ws + [w])[..|ws|] == ws;
      MemoryStays(Fresh(device, true), ws);
      StatusWrite(t, w);
      ActivationOutcome(t, w.value, true);
    }
  }

  lemma FreshHasMemory(device: Device)
    ensures Fresh(device, true).hasMemory && |Fresh(device, true).driverFeatures| == 2
  {
  }

  lemma {:induction false} MemoryStays(t: Transport, ws: seq<Access>)
    requires |t.driverFeatures| == 2
    ensures WriteAll(t, ws).hasMemory == t.hasMemory
    decreases |ws|
  {
    hide SetQueue, HasBit;
    if ws != [] {
      MemoryStays(t, ws[..|ws| - 1]);
    }
  }

  // ---------------------------------------------------------------- the class

  class MmioTransport {
    var device: Device
    var queues: seq<QueueState>
    var queueSel: u32
    var status: u32
    var interruptStatus: bit
    var deviceFeaturesSel: u32
    var driverFeaturesSel: u32
    var driverFeatures: seq<u32>
    var configGeneration: u32
    var activated: bool
    var hasMemory: bool

    ghost predicate Valid()
      reads this
    {
      |driverFeatures| == 2
    }

    ghost function State(): (t: Transport)
      reads this
    {
      Transport(device, queues, queueSel, status, interruptStatus, deviceFeaturesSel, driverFeaturesSel,
                driverFeatures, configGeneration, activated, hasMemory)
    }

    constructor (device: Device, hasMemory: bool)
      ensures Valid() && State() == Fresh(device, hasMemory)
    {
      this.device, queues := device, seq(device.numQueues, _ => NewQueue(QUEUE_MAX));
      queueSel, status, interruptStatus, deviceFeaturesSel, driverFeaturesSel := 0, 0, 0, 0, 0;
      driverFeatures, configGeneration, activated := [0, 0], 0, false;
      this.hasMemory := hasMemory;
    }

    /** A register write; `reply` is what the device behind the transport does with it. */
    method Write(offset: u64, value: u32, reply: Reply)
      requires Valid()
      modifies this
      ensures Valid() && State() == WriteReg(old(State()), Access(offset, value, reply))
    {
      hide SetQueue, HasBit, WithFailed;
      if IsQueueRegister(offset) {
        if queueSel < |queues| {
          queues := queues[queueSel := SetQueue(queues[queueSel], Access(offset, value, reply))];
        }
      } else if offset == DEVICE_FEATURES_SEL {
        deviceFeaturesSel := value;
      } else if offset == DRIVER_FEATURES {
        if driverFeaturesSel < 2 {
          driverFeatures := driverFeatures[driverFeaturesSel := value];
        }
      } else if offset == DRIVER_FEATURES_SEL {
        driverFeaturesSel := value;
      } else if offset == QUEUE_SEL {
        queueSel := value;
      } else if offset == QUEUE_NOTIFY {
        if hasMemory {
          device := Notified(device, value % 0x1_0000, reply.cursors);
        }
      } else if offset == INTERRUPT_ACK {
        if HasBit(value, 1) {
          interruptStatus := 0;
        }
      } else if offset == STATUS {
        WriteStatus(value, reply.accepts);
      } else if offset >= CONFIG_SPACE {
        configGeneration := (configGeneration + 1) % TWO32;
      }
    }

    method WriteStatus(value: u32, accepts: bool)
      requires Valid()
      modifies this
      ensures Valid() && State() == SetStatus(old(State()), value, accepts)
    {
      hide HasBit, WithFailed;
      status := value;
      if value == 0 {
        device := device.(given := None);
        activated := false;
      } else if HasBit(value, STATUS_DRIVER_OK) && !activated {
        var drained := queues;
        queues := [];
        if hasMemory && accepts {
          device := device.(given := Some(drained));
          activated := true;
        } else {
          status := WithFailed(status);
        }
      }
    }

    /** Activation with the queues of a snapshot; the register-file queues stay in place. */
    method ForceActivate(saved: seq<QueueState>, accepts: bool)
      modifies this
      ensures old(Valid()) ==> Valid()
      ensures State() == Restored(old(State()), saved, accepts)
    {
      if hasMemory && accepts {
        device := device.(given := Some(saved));
        status := STATUS_RESTORED;
        activated := true;
      }
    }
  }

  /** The transport after `force_activate`. */
  function Restored(t: Transport, queues: seq<QueueState>, accepts: bool): (t': Transport) {
    if t.hasMemory && accepts then
      t.(device := t.device.(given := Some(queues)), status := STATUS_RESTORED, activated := true)
    else t
  }

  // ---------------------------------------------------------------- reset after a restore

  /**
   Up to a reset and further up to the next DRIVER_OK, the register-file queues of a
   restored transport follow the driver's writes as those of a new one do.
   */
  lemma {:induction false} RestoredSetup(device: Device, saved: seq<QueueState>, ws: seq<Access>, reset: nat)
    requires reset <= |ws| && (forall i :: 0 <= i < reset ==> !Resets(ws[i])) && NeverTurnsOn(ws[reset..])
    ensures var t := WriteAll(Restored(Fresh(device, true), saved, true), ws);
            && t.queues == AllDescribed(ws, device.numQueues) && t.queueSel == Selected(ws) && t.hasMemory
            && (reset == |ws| ==> t.activated)
    decreases |ws|
  {
    hide WriteReg, SetQueue, Described, Selected, HasBit;
    var start := Restored(Fresh(device, true), saved, true);
    if ws != [] {
      var w, before := ws[|ws| - 1], ws[..|ws| - 1];
      assert ws == before + [w];
      var k := if reset == |ws| then |before| else reset;
      assert before[k..] == ws[k..|ws| - 1];
      RestoredSetup(device, saved, before, k);
      var t := WriteAll(start, before);
      WriteEffect(t, w);
      SelectedSnoc(before, w);
      forall i | 0 <= i < device.numQueues
        ensures WriteReg(t, w).queues[i] == Described(ws, i)
      {
        DescribedSnoc(before, w, i);
      }
      if reset == |ws| {
        StaysActivated(t, w);
      }
    } else {
      NothingDescribed(device.numQueues);
    }
  }

  lemma NothingDescribed(n: nat)
    ensures AllDescribed([], n) == seq(n, _ => NewQueue(QUEUE_MAX)) && Selected([]) == 0
  {
  }

  lemma StaysActivated(t: Transport, w: Access)
    requires |t.driverFeatures| == 2 && t.activated && !Resets(w)
    ensures WriteReg(t, w).activated
  {
    hide SetQueue, HasBit;
  }

  lemma {:induction false} ResetDeactivates(t: Transport, ws: seq<Access>)
    requires |t.driverFeatures| == 2 && ws != [] && Resets(ws[0]) && NeverTurnsOn(ws)
    ensures !WriteAll(t, ws).activated
    decreases |ws|
  {
    hide SetQueue, HasBit;
    if |ws| > 1 {
      ResetDeactivates(t, ws[..|ws| - 1]);
    }
  }

  /**
   Where a restored transport parts from the saved one: after a reset and a new
   set-up, the saved device is activated with no queue at all, the restored one
   with the queues the driver has just described.
   */
  lemma ResetTellsApart(saved: Transport, device: Device, qs: seq<QueueState>, before: seq<Access>, setup: seq<Access>, w: Access)
    requires |saved.driverFeatures| == 2 && saved.queues == [] && saved.hasMemory
    requires forall i :: 0 <= i < |before| ==> !Resets(before[i])
    requires setup != [] && Resets(setup[0]) && NeverTurnsOn(setup)
    requires TurnsOn(w) && w.reply.accepts
    ensures var ws, restored := before + setup, Restored(Fresh(device, true), qs, true);
            && WriteAll(saved, ws + [w]).device.given == Some([])
            && WriteAll(restored, ws + [w]).device.given == Some(AllDescribed(ws, device.numQueues))
  {
    hide WriteReg, HasBit, Described, AllDescribed, Selected, WriteAll, SetStatus;
    var ws := before + setup;
    var restored := Restored(Fresh(device, true), qs, true);
    assert ws[|before|..] == setup;
    RestoredSetup(device, qs, ws, |before|);
    EmptyForever(saved, ws);
    MemoryStays(saved, ws);
    WriteAllConcat(saved, before, setup);
    WriteAllConcat(restored, before, setup);
    ResetDeactivates(WriteAll(saved, before), setup);
    ResetDeactivates(WriteAll(restored, before), setup);
    LastWrite(saved, ws, w);
    LastWrite(restored, ws, w);
  }

  lemma LastWrite(t: Transport, ws: seq<Access>, w: Access)
    requires |t.driverFeatures| == 2 && TurnsOn(w) && w.reply.accepts
    requires !WriteAll(t, ws).activated && WriteAll(t, ws).hasMemory
    ensures WriteAll(t, ws + [w]).device.given == Some(WriteAll(t, ws).queues)
  {
    hide WriteReg, HasBit, SetStatus;
    assert (ws + [w])[..|ws|] == ws;
    StatusWrite(WriteAll(t, ws), w);
    ActivationOutcome(WriteAll(t, ws), w.value, true);
  }
}
