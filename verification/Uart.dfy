/**
 The emulated COM1 port: a register file with divisor latch, interrupt-driven
 transmission and a queue of input bytes.
 */
module Uart {
  import opened Wrappers
  import opened Bytes

  const COM1: u16 := 0x3F8
  const COM1_LAST: u16 := 0x3FF

  datatype UartState = UartState(
    ier: byte, lcr: byte, mcr: byte, scr: byte, dll: byte, dlm: byte, threPending: bool, input: seq<byte>)
  {
    predicate Dlab() {
      HasBit(lcr, 0x80)
    }

    predicate ThreEnabled() {
      HasBit(ier, 2)
    }

    predicate RdaEnabled() {
      HasBit(ier, 1)
    }

    predicate RdaPending() {
      input != [] && RdaEnabled()
    }

    predicate NeedsIrq() {
      threPending || RdaPending()
    }
  }

  function NewUart(): (u: UartState) {
    UartState(0, 0, 0, 0, 1, 0, false, [])
  }

  // ---------------------------------------------------------------- single accesses

  /** The write is a byte for the wire. */
  predicate Transmits(u: UartState, port: u16) {
    port == 0x3F8 && !u.Dlab()
  }

  function AfterWrite(u: UartState, port: u16, v: byte): (u': UartState) {
    match port
    case 0x3F8 =>
      if u.Dlab() then u.(dll := v) else u.(threPending := u.threPending || u.ThreEnabled())
    case 0x3F9 =>
      if u.Dlab() then u.(dlm := v)
      else u.(ier := v, threPending := u.threPending || HasBit(v, 2))
    case 0x3FB => u.(lcr := v)
    case 0x3FC => u.(mcr := v)
    case 0x3FF => u.(scr := v)
    case _ => u
  }

  /** The read takes a byte from the input queue. */
  predicate Receives(u: UartState, port: u16) {
    port == 0x3F8 && !u.Dlab() && u.input != []
  }

  function ReadValue(u: UartState, port: u16): (v: byte) {
    match port
    case 0x3F8 => if u.Dlab() then u.dll else if u.input != [] then u.input[0] else 0
    case 0x3F9 => if u.Dlab() then u.dlm else u.ier
    case 0x3FA => if u.RdaPending() then 4 else if u.threPending then 2 else 1
    case 0x3FB => u.lcr
    case 0x3FC => u.mcr
    case 0x3FD => if u.input != [] then 0x61 else 0x60
    case 0x3FE => 0
    case 0x3FF => u.scr
    case _ => 0xFF
  }

  function AfterRead(u: UartState, port: u16): (u': UartState) {
    if Receives(u, port) then u.(input := u.input[1..])
    else if port == 0x3FA && !u.RdaPending() then u.(threPending := false)
    else u
  }

  // ---------------------------------------------------------------- runs

  datatype PortOp = Out(port: u16, value: byte) | In(port: u16) | Input(data: seq<byte>)

  function After(u: UartState, op: PortOp): (u': UartState) {
    match op
    case Out(port, value) => AfterWrite(u, port, value)
    case In(port) => AfterRead(u, port)
    case Input(data) => u.(input := u.input + data)
  }

  function AfterAll(u: UartState, ops: seq<PortOp>): (u': UartState) {
    if ops == [] then u else After(AfterAll(u, ops[..|ops| - 1]), ops[|ops| - 1])
  }

  /** The bytes the guest has put on the wire. */
  function Sent(u: UartState, ops: seq<PortOp>): (s: seq<byte>) {
    if ops == [] then []
    else
      var op, before := ops[|ops| - 1], ops[..|ops| - 1];
      Sent(u, before) + if op.Out? && Transmits(AfterAll(u, before), op.port) then [op.value] else []
  }

  /** The bytes the guest has read from the receive buffer while data was ready. */
  function Received(u: UartState, ops: seq<PortOp>): (s: seq<byte>) {
    if ops == [] then []
    else
      var op, before := ops[|ops| - 1], ops[..|ops| - 1];
      Received(u, before) +
      if op.In? && Receives(AfterAll(u, before), op.port) then [ReadValue(AfterAll(u, before), op.port)] else []
  }

  function Queued(ops: seq<PortOp>): (s: seq<byte>) {
    if ops == [] then []
    else Queued(ops[..|ops| - 1]) + if ops[|ops| - 1].Input? then ops[|ops| - 1].data else []
  }

  /** One access takes from the front what it returns, and new input goes to the end. */
  lemma StepConserves(v: UartState, op: PortOp)
    ensures var now := if op.In? && Receives(v, op.port) then [ReadValue(v, op.port)] else [];
            var more := if op.Input? then op.data else [];
            now + After(v, op).input == v.input + more
  {
    hide HasBit;
    match op {
      case Out(_, _) => assert After(v, op).input == v.input;
      case In(port) => assert Receives(v, port) ==> [v.input[0]] + v.input[1..] == v.input;
      case Input(_) =>
    }
  }

  lemma SumsExtend(a: seq<byte>, b: seq<byte>, c: seq<byte>, d: seq<byte>, x: seq<byte>, b': seq<byte>, y: seq<byte>)
    requires a + b == c + d && x + b' == b + y
    ensures (a + x) + b' == c + (d + y)
  {
    assert (a + x) + b' == a + (x + b') == (a + b) + y;
    assert (c + d) + y == c + (d + y);
  }

  /** Input is neither lost, repeated nor reordered: what was read, then what still waits, is what was queued. */
  lemma {:induction false} InputConserved(u: UartState, ops: seq<PortOp>)
    ensures Received(u, ops) + AfterAll(u, ops).input == u.input + Queued(ops)
    decreases |ops|
  {
    if ops == [] {
      assert [] + u.input == u.input + [];
    } else {
      var op, before := ops[|ops| - 1], ops[..|ops| - 1];
      InputConserved(u, before);
      var v := AfterAll(u, before);
      var got := Received(u, before);
      var all := Queued(before);
      StepConserves(v, op);
      hide After, Receives, ReadValue;
      var now := if op.In? && Receives(v, op.port) then [ReadValue(v, op.port)] else [];
      var more := if op.Input? then op.data else [];
      assert Received(u, ops) == got + now && Queued(ops) == all + more;
      assert AfterAll(u, ops) == After(v, op);
      hide Received, Queued, AfterAll;
      SumsExtend(got, v.input, u.input, all, now, After(v, op).input, more);
    }
  }

  /** Reading never raises the interrupt. */
  lemma ReadsNeverRaise(u: UartState, port: u16)
    ensures AfterRead(u, port).NeedsIrq() ==> u.NeedsIrq()
  {
    hide HasBit;
  }

  // ---------------------------------------------------------------- reference: what a run amounts to

  datatype Reg = Ier | Lcr | Mcr | Scr | Dll | Dlm

  /** The register behind a port; the divisor latch shares ports with the data and interrupt registers. */
  function RegAt(dlab: bool, port: u16): (r: Option<Reg>) {
    match port
    case 0x3F8 => if dlab then Some(Dll) else None
    case 0x3F9 => Some(if dlab then Dlm else Ier)
    case 0x3FB => Some(Lcr)
    case 0x3FC => Some(Mcr)
    case 0x3FF => Some(Scr)
    case _ => None
  }

  function Get(u: UartState, reg: Reg): (v: byte) {
    match reg
    case Ier => u.ier
    case Lcr => u.lcr
    case Mcr => u.mcr
    case Scr => u.scr
    case Dll => u.dll
    case Dlm => u.dlm
  }

  /** The last value written to the register, in the latch mode that the writes before had selected. */
  function LastTo(u: UartState, ops: seq<PortOp>, reg: Reg): (v: byte)
    decreases |ops|
  {
    if ops == [] then Get(u, reg)
    else
      var op, before := ops[|ops| - 1], ops[..|ops| - 1];
      if op.Out? && RegAt(HasBit(LastTo(u, before, Lcr), 0x80), op.port) == Some(reg) then op.value
      else LastTo(u, before, reg)
  }

  /** Over every run each register holds what was last written to it, and reads back as such. */
  lemma {:induction false} RegistersHoldLastWrite(u: UartState, ops: seq<PortOp>, reg: Reg)
    ensures Get(AfterAll(u, ops), reg) == LastTo(u, ops, reg)
    ensures forall port: u16 :: RegAt(HasBit(LastTo(u, ops, Lcr), 0x80), port) == Some(reg) ==>
              ReadValue(AfterAll(u, ops), port) == LastTo(u, ops, reg)
    decreases |ops|, if reg == Lcr then 0 else 1
  {
    hide HasBit;
    if reg != Lcr {
      RegistersHoldLastWrite(u, ops, Lcr);
    }
    if ops != [] {
      var op, before := ops[|ops| - 1], ops[..|ops| - 1];
      RegistersHoldLastWrite(u, before, reg);
      RegistersHoldLastWrite(u, before, Lcr);
      StepHolds(AfterAll(u, before), op, reg);
    }
  }

  lemma StepHolds(v: UartState, op: PortOp, reg: Reg)
    ensures Get(After(v, op), reg) == if op.Out? && RegAt(v.Dlab(), op.port) == Some(reg) then op.value else Get(v, reg)
  {
    hide HasBit;
  }

  /** Bytes that were queued and not yet read. */
  predicate Unread(u: UartState, ops: seq<PortOp>) {
    |Received(u, ops)| < |u.input| + |Queued(ops)|
  }

  lemma UnreadIsInput(u: UartState, ops: seq<PortOp>)
    ensures Unread(u, ops) <==> AfterAll(u, ops).input != []
  {
    hide Received, AfterAll, Queued;
    InputConserved(u, ops);
    assert |Received(u, ops) + AfterAll(u, ops).input| == |u.input + Queued(ops)|;
  }

  /** Access `i` makes the transmitter interrupt pending: a byte sent, or the interrupt enabled. */
  predicate RaisesThre(u: UartState, ops: seq<PortOp>, i: nat)
    requires i < |ops|
  {
    && ops[i].Out? && !AfterAll(u, ops[..i]).Dlab()
    && ((ops[i].port == 0x3F8 && AfterAll(u, ops[..i]).ThreEnabled()) || (ops[i].port == 0x3F9 && HasBit(ops[i].value, 2)))
  }

  /** Access `i` reads the transmitter interrupt from the identification register. */
  predicate AcksThre(u: UartState, ops: seq<PortOp>, i: nat)
    requires i < |ops|
  {
    ops[i] == In(0x3FA) && ReadValue(AfterAll(u, ops[..i]), 0x3FA) == 2
  }

  ghost predicate NoAckFrom(u: UartState, ops: seq<PortOp>, i: nat) {
    forall j: nat :: i <= j < |ops| ==> !AcksThre(u, ops, j)
  }

  /** The transmitter interrupt was raised, or pending from the start, and has not been read since. */
  ghost predicate ThreDue(u: UartState, ops: seq<PortOp>) {
    || (u.threPending && NoAckFrom(u, ops, 0))
    || (exists i: nat :: i < |ops| && RaisesThre(u, ops, i) && NoAckFrom(u, ops, i + 1))
  }

  lemma EarlierAccess(u: UartState, ops: seq<PortOp>, op: PortOp, i: nat)
    requires i < |ops|
    ensures RaisesThre(u, ops + [op], i) == RaisesThre(u, ops, i)
    ensures AcksThre(u, ops + [op], i) == AcksThre(u, ops, i)
  {
    hide AfterAll, ReadValue, HasBit;
    assert (ops + [op])[..i] == ops[..i];
  }

  lemma NoAckSnoc(u: UartState, ops: seq<PortOp>, op: PortOp, i: nat)
    requires i <= |ops|
    ensures NoAckFrom(u, ops + [op], i) <==> NoAckFrom(u, ops, i) && !AcksThre(u, ops + [op], |ops|)
    ensures NoAckFrom(u, ops + [op], |ops| + 1)
  {
    hide AcksThre;
    forall j: nat | j < |ops|
      ensures AcksThre(u, ops + [op], j) == AcksThre(u, ops, j)
    {
      EarlierAccess(u, ops, op, j);
    }
    if NoAckFrom(u, ops + [op], i) {
      forall j: nat | i <= j < |ops| ensures !AcksThre(u, ops, j) {
        assert !AcksThre(u, ops + [op], j);
      }
    }
  }

  lemma ThreDueSnoc(u: UartState, ops: seq<PortOp>, op: PortOp)
    ensures ThreDue(u, ops + [op]) <==>
              RaisesThre(u, ops + [op], |ops|) || (ThreDue(u, ops) && !AcksThre(u, ops + [op], |ops|))
  {
    hide AcksThre, RaisesThre, NoAckFrom;
    var more := ops + [op];
    forall i: nat | i <= |ops|
      ensures NoAckFrom(u, more, i) <==> NoAckFrom(u, ops, i) && !AcksThre(u, more, |ops|)
      ensures NoAckFrom(u, more, |ops| + 1)
    {
      NoAckSnoc(u, ops, op, i);
    }
    forall i: nat | i < |ops|
      ensures RaisesThre(u, more, i) == RaisesThre(u, ops, i)
    {
      EarlierAccess(u, ops, op, i);
    }
    NoAckSnoc(u, ops, op, 0);
    if i: nat :| i < |ops| && RaisesThre(u, ops, i) && NoAckFrom(u, ops, i + 1) && !AcksThre(u, more, |ops|) {
      assert RaisesThre(u, more, i) && NoAckFrom(u, more, i + 1);
    }
    if i: nat :| i < |more| && RaisesThre(u, more, i) && NoAckFrom(u, more, i + 1) {
      assert i < |ops| ==> RaisesThre(u, ops, i) && NoAckFrom(u, ops, i + 1);
    }
  }

  /** Over every run the transmitter interrupt is pending exactly when it is due. */
  lemma {:induction false} ThrePendingIffDue(u: UartState, ops: seq<PortOp>)
    ensures AfterAll(u, ops).threPending <==> ThreDue(u, ops)
    decreases |ops|
  {
    if ops != [] {
      hide ThreDue, HasBit;
      var op, before := ops[|ops| - 1], ops[..|ops| - 1];
      assert ops == before + [op] && ops[..|before|] == before;
      ThrePendingIffDue(u, before);
      ThreDueSnoc(u, before, op);
    }
  }

  /**
   What the driver finds in the identification and line status registers after any
   run: unread input first if its interrupt is enabled, then an unread transmitter
   interrupt, else none; and data ready exactly while input is unread.
   */
  lemma StatusOverRuns(u: UartState, ops: seq<PortOp>)
    ensures var v, rda := AfterAll(u, ops), Unread(u, ops) && HasBit(LastTo(u, ops, Ier), 1);
            && ReadValue(v, 0x3FA) == (if rda then 4 else if ThreDue(u, ops) then 2 else 1)
            && (v.NeedsIrq() <==> rda || ThreDue(u, ops))
            && (HasBit(ReadValue(v, 0x3FD), 1) <==> Unread(u, ops))
  {
    hide AfterAll, LastTo, ThreDue, Unread;
    UnreadIsInput(u, ops);
    RegistersHoldLastWrite(u, ops, Ier);
    ThrePendingIffDue(u, ops);
  }

  // ---------------------------------------------------------------- the object

  class SerialState {
    var ier: byte
    var lcr: byte
    var mcr: byte
    var scr: byte
    var dll: byte
    var dlm: byte
    var threPending: bool
    var input: seq<byte>

    ghost function State(): (u: UartState)
      reads this
    {
      UartState(ier, lcr, mcr, scr, dll, dlm, threPending, input)
    }

    constructor (ier: byte)
      ensures State() == NewUart().(ier := ier)
    {
      this.ier, lcr, mcr, scr, dll, dlm := ier, 0, 0, 0, 1, 0;
      threPending, input := false, [];
    }

    method Write(port: u16, value: byte) returns (transmitted: bool)
      modifies this
      ensures State() == AfterWrite(old(State()), port, value)
      ensures transmitted == Transmits(old(State()), port)
    {
      hide HasBit;
      transmitted := false;
      if port == 0x3F8 {
        if HasBit(lcr, 0x80) {
          dll := value;
        } else {
          if HasBit(ier, 2) {
            threPending := true;
          }
          transmitted := true;
        }
      } else if port == 0x3F9 {
        if HasBit(lcr, 0x80) {
          dlm := value;
        } else {
          ier := value;
          if HasBit(ier, 2) {
            threPending := true;
          }
        }
      } else if port == 0x3FB {
        lcr := value;
      } else if port == 0x3FC {
        mcr := value;
      } else if port == 0x3FF {
        scr := value;
      }
    }

    method Read(port: u16) returns (v: byte)
      modifies this
      ensures v == ReadValue(old(State()), port)
      ensures State() == AfterRead(old(State()), port)
    {
      hide HasBit;
      if port == 0x3F8 {
        if HasBit(lcr, 0x80) {
          v := dll;
        } else if input != [] {
          v := input[0];
          input := input[1..];
        } else {
          v := 0;
        }
      } else if port == 0x3F9 {
        v := if HasBit(lcr, 0x80) then dlm else ier;
      } else if port == 0x3FA {
        if input != [] && HasBit(ier, 1) {
          v := 4;
        } else if threPending {
          threPending := false;
          v := 2;
        } else {
          v := 1;
        }
      } else if port == 0x3FB {
        v := lcr;
      } else if port == 0x3FC {
        v := mcr;
      } else if port == 0x3FD {
        v := if input != [] then 0x61 else 0x60;
      } else if port == 0x3FE {
        v := 0;
      } else if port == 0x3FF {
        v := scr;
      } else {
        v := 0xFF;
      }
    }

    method QueueInput(data: seq<byte>)
      modifies this
      ensures State() == old(State()).(input := old(input) + data)
    {
      input := input + data;
    }

    predicate NeedsIrq()
      reads this
      ensures NeedsIrq() == State().NeedsIrq()
    {
      threPending || (input != [] && HasBit(ier, 1))
    }
  }
}
