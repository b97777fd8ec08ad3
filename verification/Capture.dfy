/**
 The vCPU run loops that capture serial output, over an abstract trace of exits:
 the interactive capture loop, and the loop that stops at a marker.
 */
module Capture {
  import opened Wrappers
  import opened Bytes
  import opened Uart

  datatype Exit =
    | Interrupted(late: bool, stopped: bool)
    | IoOut(port: u16, size: nat, data: u32)
    | IoIn(port: u16, size: nat)
    | MmioAccess
    | Hlt
    | GuestShutdown
    | Failed(code: nat)

  /** One turn of the loop: the stop flag, the console input waiting, and the exit that follows. */
  datatype Turn = Turn(stop: bool, input: seq<byte>, exit: Exit)

  /** `Running` when the trace ends before the loop does. */
  datatype StopReason = Shutdown | Timeout | BufferFull | Stopped | Error | Running

  /** What happens around the port: an access or input, an injection of IRQ 4, an entry into the guest. */
  datatype Event = Port(op: PortOp) | Inject | Enter

  predicate IsSerial(port: u16) {
    COM1 <= port <= COM1_LAST
  }

  function ExitOps(e: Exit): (ops: seq<PortOp>) {
    if e.IoOut? && IsSerial(e.port) && e.size == 1 then [Out(e.port, e.data % 256)]
    else if e.IoIn? && IsSerial(e.port) then [In(e.port)]
    else []
  }

  function TurnOps(t: Turn): (ops: seq<PortOp>) {
    InputOps(t) + ExitOps(t.exit)
  }

  function InputOps(t: Turn): (ops: seq<PortOp>) {
    if t.input == [] then [] else [Input(t.input)]
  }

  /** The port accesses and input of a trace, in order. */
  function Ops(trace: seq<Turn>): (ops: seq<PortOp>) {
    if trace == [] then [] else Ops(trace[..|trace| - 1]) + TurnOps(trace[|trace| - 1])
  }

  // ---------------------------------------------------------------- interrupts before entries

  /** The port accesses and input in a log. */
  function LogOps(log: seq<Event>): (ops: seq<PortOp>) {
    if log == [] then []
    else LogOps(log[..|log| - 1]) + if log[|log| - 1].Port? then [log[|log| - 1].op] else []
  }

  /** The port after what the log records. */
  function StateAt(u: UartState, log: seq<Event>): (v: UartState) {
    AfterAll(u, LogOps(log))
  }

  /** Event `i` turns the interrupt from not due to due. */
  ghost predicate RisesAt(u: UartState, log: seq<Event>, i: int) {
    0 <= i < |log| && log[i].Port? && !StateAt(u, log[..i]).NeedsIrq() && StateAt(u, log[..i + 1]).NeedsIrq()
  }

  ghost predicate InjectedIn(log: seq<Event>, from: int, to: int) {
    exists k :: from < k < to && 0 <= k < |log| && log[k].Inject?
  }

  /** Every rise of the interrupt is followed by an injection before the guest is next entered. */
  ghost predicate Announced(u: UartState, log: seq<Event>) {
    forall i, j :: 0 <= i < j < |log| && RisesAt(u, log, i) && log[j].Enter? ==> InjectedIn(log, i, j)
  }

  /** The interrupt is injected only while it is due. */
  ghost predicate OnlyWhenDue(u: UartState, log: seq<Event>) {
    forall k :: 0 <= k < |log| && log[k].Inject? ==> StateAt(u, log[..k]).NeedsIrq()
  }

  /** No rise is still waiting for its injection. */
  ghost predicate Settled(u: UartState, log: seq<Event>) {
    forall i :: RisesAt(u, log, i) ==> InjectedIn(log, i, |log|)
  }

  ghost predicate Good(u: UartState, log: seq<Event>) {
    Announced(u, log) && OnlyWhenDue(u, log) && Settled(u, log)
  }

  /** The log without the injections. */
  function Steps(log: seq<Event>): (es: seq<Event>) {
    if log == [] then []
    else Steps(log[..|log| - 1]) + if log[|log| - 1].Inject? then [] else [log[|log| - 1]]
  }

  function Ports(ops: seq<PortOp>): (es: seq<Event>)
    ensures |es| == |ops| && forall i :: 0 <= i < |ops| ==> es[i] == Port(ops[i])
  {
    seq(|ops|, i requires 0 <= i < |ops| => Port(ops[i]))
  }

  /** What the loop does in the turns of a trace, injections aside: input, entry, access. */
  function TraceSteps(trace: seq<Turn>): (es: seq<Event>) {
    if trace == [] then []
    else
      var t := trace[|trace| - 1];
      TraceSteps(trace[..|trace| - 1]) + Ports(InputOps(t)) + [Enter] + Ports(ExitOps(t.exit))
  }

  lemma Snoc(u: UartState, log: seq<Event>, e: Event)
    ensures Steps(log + [e]) == Steps(log) + if e.Inject? then [] else [e]
    ensures StateAt(u, log + [e]) == if e.Port? then After(StateAt(u, log), e.op) else StateAt(u, log)
  {
    assert (log + [e])[..|log|] == log;
    if e.Port? {
      OpSnoc(u, LogOps(log), e.op);
    } else {
      assert LogOps(log + [e]) == LogOps(log) + [] == LogOps(log);
    }
  }

  lemma EarlierRise(u: UartState, log: seq<Event>, e: Event, i: int)
    requires i < |log|
    ensures RisesAt(u, log + [e], i) == RisesAt(u, log, i)
  {
    hide StateAt;
    if 0 <= i {
      assert (log + [e])[..i] == log[..i] && (log + [e])[..i + 1] == log[..i + 1];
    }
  }

  lemma LaterInjection(log: seq<Event>, e: Event, i: int, j: int)
    requires j <= |log|
    ensures InjectedIn(log + [e], i, j) == InjectedIn(log, i, j)
    ensures InjectedIn(log, i, j) ==> InjectedIn(log + [e], i, |log| + 1)
    ensures e.Inject? && i < |log| ==> InjectedIn(log + [e], i, |log| + 1)
  {
    if k :| i < k < j && 0 <= k < |log| && log[k].Inject? {
      assert (log + [e])[k].Inject?;
    }
    if k :| i < k < j && 0 <= k < |log + [e]| && (log + [e])[k].Inject? {
      assert log[k].Inject?;
    }
    assert e.Inject? ==> (log + [e])[|log|].Inject?;
  }

  /** One more event keeps every earlier rise announced and every injection due. */
  lemma KeepsAnnounced(u: UartState, log: seq<Event>, e: Event)
    requires Announced(u, log) && OnlyWhenDue(u, log)
    requires e.Enter? ==> Settled(u, log)
    requires e.Inject? ==> StateAt(u, log).NeedsIrq()
    ensures Announced(u, log + [e]) && OnlyWhenDue(u, log + [e])
  {
    hide StateAt, RisesAt, InjectedIn;
    var more := log + [e];
    forall i, j | 0 <= i < j < |more| && RisesAt(u, more, i) && more[j].Enter?
      ensures InjectedIn(more, i, j)
    {
      EarlierRise(u, log, e, i);
      LaterInjection(log, e, i, j);
    }
    forall k | 0 <= k < |more| && more[k].Inject?
      ensures StateAt(u, more[..k]).NeedsIrq()
    {
      assert more[..k] == log[..k];
      assert k == |log| ==> log[..k] == log;
    }
  }

  /** An injection settles every rise. */
  lemma InjectSettles(u: UartState, log: seq<Event>)
    requires Announced(u, log) && OnlyWhenDue(u, log) && StateAt(u, log).NeedsIrq()
    ensures Good(u, log + [Inject])
  {
    hide StateAt, InjectedIn, Announced, OnlyWhenDue;
    KeepsAnnounced(u, log, Inject);
    forall i | RisesAt(u, log + [Inject], i)
      ensures InjectedIn(log + [Inject], i, |log| + 1)
    {
      assert (log + [Inject])[i].Port?;
      LaterInjection(log, Inject, i, |log|);
    }
  }

  /** An event that does not raise the interrupt leaves the log settled. */
  lemma StaysSettled(u: UartState, log: seq<Event>, e: Event)
    requires Good(u, log) && !e.Inject?
    requires StateAt(u, log + [e]).NeedsIrq() ==> e.Enter? || StateAt(u, log).NeedsIrq()
    ensures Good(u, log + [e])
  {
    hide StateAt, InjectedIn, Announced, OnlyWhenDue;
    KeepsAnnounced(u, log, e);
    var more := log + [e];
    forall i | RisesAt(u, more, i)
      ensures InjectedIn(more, i, |log| + 1)
    {
      assert more[..|log|] == log && more[..|log| + 1] == more;
      EarlierRise(u, log, e, if i < |log| then i else -1);
      LaterInjection(log, e, i, |log|);
    }
  }

  // ---------------------------------------------------------------- extending a run by one access

  lemma OpSnoc(u: UartState, ops: seq<PortOp>, op: PortOp)
    ensures AfterAll(u, ops + [op]) == After(AfterAll(u, ops), op)
    ensures Sent(u, ops + [op]) ==
              Sent(u, ops) + if op.Out? && Transmits(AfterAll(u, ops), op.port) then [op.value] else []
  {
    assert (ops + [op])[..|ops|] == ops;
  }

  /** After an access or input: inject if the interrupt is due. */
  method InjectIfDue(serial: SerialState, log: seq<Event>, ghost u: UartState) returns (log': seq<Event>)
    requires serial.State() == StateAt(u, log) && Announced(u, log) && OnlyWhenDue(u, log)
    requires !serial.NeedsIrq() ==> Settled(u, log)
    ensures serial.State() == StateAt(u, log') && Good(u, log') && Steps(log') == Steps(log)
  {
    hide StateAt, Announced, OnlyWhenDue, Settled, Steps, HasBit;
    log' := log;
    if serial.NeedsIrq() {
      Snoc(u, log, Inject);
      InjectSettles(u, log);
      assert Steps(log) + [] == Steps(log);
      log' := log' + [Inject];
    }
  }

  /** A write, input or read keeps what is announced; only the first two can raise the interrupt. */
  lemma AccessKeeps(u: UartState, log: seq<Event>, op: PortOp)
    requires Good(u, log)
    ensures var more := log + [Port(op)];
            && StateAt(u, more) == After(StateAt(u, log), op) && Steps(more) == Steps(log) + [Port(op)]
            && Announced(u, more) && OnlyWhenDue(u, more)
            && ((StateAt(u, more).NeedsIrq() ==> op.In?) ==> Good(u, more))
  {
    hide StateAt, Announced, OnlyWhenDue, Settled, Steps, HasBit;
    Snoc(u, log, Port(op));
    KeepsAnnounced(u, log, Port(op));
    if op.In? {
      ReadsNeverRaise(StateAt(u, log), op.port);
      StaysSettled(u, log, Port(op));
    } else if !StateAt(u, log + [Port(op)]).NeedsIrq() {
      StaysSettled(u, log, Port(op));
    }
  }

  /** Handle one exit on the serial port; `log` collects accesses and injections. */
  method HandleExit(serial: SerialState, e: Exit, output: seq<byte>, log: seq<Event>, ghost u: UartState)
    returns (output': seq<byte>, log': seq<Event>)
    requires serial.State() == StateAt(u, log) && Good(u, log)
    modifies serial
    ensures ExitOps(e) == [] ==> serial.State() == old(serial.State()) && output' == output
    ensures ExitOps(e) != [] ==>
              && serial.State() == After(old(serial.State()), ExitOps(e)[0])
              && output' == output + if e.IoOut? && Transmits(old(serial.State()), e.port) then [e.data % 256] else []
    ensures serial.State() == StateAt(u, log') && Good(u, log')
    ensures Steps(log') == Steps(log) + Ports(ExitOps(e))
  {
    hide HasBit, StateAt, Good, Announced, OnlyWhenDue, Settled, Steps;
    output', log' := output, log;
    assert Steps(log) + [] == Steps(log);
    match e {
      case IoOut(port, size, data) =>
        if IsSerial(port) && size == 1 {
          var op := Out(port, data % 256);
          AccessKeeps(u, log, op);
          GoodSettled(u, log + [Port(op)]);
          assert Ports([op]) == [Port(op)];
          var sent := serial.Write(port, data % 256);
          if sent {
            output' := output' + [data % 256];
          }
          log' := InjectIfDue(serial, log + [Port(op)], u);
        }
      case IoIn(port, _) =>
        if IsSerial(port) {
          AccessKeeps(u, log, In(port));
          assert Ports([In(port)]) == [Port(In(port))];
          var _ := serial.Read(port);
          log' := log + [Port(In(port))];
        }
      case _ =>
    }
  }

  lemma GoodSettled(u: UartState, log: seq<Event>)
    ensures Good(u, log) ==> Settled(u, log)
  {
    hide Announced, OnlyWhenDue, Settled;
  }

  /** Drain the waiting console input into the port. */
  method DrainInput(serial: SerialState, t: Turn, log: seq<Event>, ghost u: UartState) returns (log': seq<Event>)
    requires serial.State() == StateAt(u, log) && Good(u, log)
    modifies serial
    ensures serial.State() == old(serial.State()).(input := old(serial.input) + t.input)
    ensures serial.State() == StateAt(u, log') && Good(u, log')
    ensures Steps(log') == Steps(log) + Ports(InputOps(t))
  {
    hide HasBit, StateAt, Good, Announced, OnlyWhenDue, Settled, Steps;
    log' := log;
    assert Steps(log) + [] == Steps(log);
    if t.input != [] {
      var op := Input(t.input);
      AccessKeeps(u, log, op);
      GoodSettled(u, log + [Port(op)]);
      assert Ports([op]) == [Port(op)];
      serial.QueueInput(t.input);
      log' := InjectIfDue(serial, log + [Port(op)], u);
    }
  }

  /** Enter the guest. */
  lemma EnterKeeps(u: UartState, log: seq<Event>)
    requires Good(u, log)
    ensures StateAt(u, log + [Enter]) == StateAt(u, log) && Good(u, log + [Enter])
    ensures Steps(log + [Enter]) == Steps(log) + [Enter]
  {
    hide StateAt, Announced, OnlyWhenDue, Settled, Steps, HasBit;
    Snoc(u, log, Enter);
    StaysSettled(u, log, Enter);
  }

  lemma TurnSnoc(trace: seq<Turn>, i: nat)
    requires i < |trace|
    ensures Ops(trace[..i + 1]) == Ops(trace[..i]) + TurnOps(trace[i])
  {
    assert trace[..i + 1][..i] == trace[..i];
  }

  lemma InputExtends(u: UartState, ops: seq<PortOp>, t: Turn)
    ensures AfterAll(u, ops + InputOps(t)) == AfterAll(u, ops).(input := AfterAll(u, ops).input + t.input)
    ensures Sent(u, ops + InputOps(t)) == Sent(u, ops)
  {
    hide After, Sent, AfterAll;
    if t.input == [] {
      assert ops + [] == ops;
      assert AfterAll(u, ops).input + [] == AfterAll(u, ops).input;
    } else {
      InputOp(u, ops, t.input);
    }
  }

  lemma InputOp(u: UartState, ops: seq<PortOp>, input: seq<byte>)
    ensures AfterAll(u, ops + [Input(input)]) == AfterAll(u, ops).(input := AfterAll(u, ops).input + input)
    ensures Sent(u, ops + [Input(input)]) == Sent(u, ops)
  {
    OpSnoc(u, ops, Input(input));
  }

  /** The turn that ends the loop, if it does. */
  function Ending(e: Exit): (r: Option<StopReason>) {
    match e
    case Interrupted(late, stopped) => if stopped then Some(Stopped) else if late then Some(Timeout) else None
    case GuestShutdown => Some(Shutdown)
    case Failed(_) => Some(Error)
    case _ => None
  }

  lemma TraceSnoc(trace: seq<Turn>, i: nat)
    requires i < |trace|
    ensures TraceSteps(trace[..i + 1]) ==
              TraceSteps(trace[..i]) + Ports(InputOps(trace[i])) + [Enter] + Ports(ExitOps(trace[i].exit))
  {
    assert trace[..i + 1][..i] == trace[..i];
  }

  /** The loop stopped for the stated reason: a flag seen before entering, or the exit just handled. */
  predicate StoppedBy(trace: seq<Turn>, turns: nat, reason: StopReason)
    requires turns <= |trace|
  {
    || (reason == Stopped && turns < |trace| && trace[turns].stop)
    || (turns > 0 && Ending(trace[turns - 1].exit) == Some(reason))
  }

  /**
   The capture loop.  After `turns` turns the output is exactly what the guest
   transmitted in them, never more than `maxOutput` bytes; the loop reports a full
   buffer exactly when that many were captured; and every rise of the interrupt,
   whatever caused it, is followed by an injection before the guest is next entered.
   */
  method CaptureLoop(serial: SerialState, trace: seq<Turn>, maxOutput: nat)
    returns (output: seq<byte>, reason: StopReason, turns: nat, log: seq<Event>)
    modifies serial
    ensures turns <= |trace|
    ensures output == Sent(old(serial.State()), Ops(trace[..turns]))
    ensures serial.State() == AfterAll(old(serial.State()), Ops(trace[..turns]))
    ensures |output| <= maxOutput
    ensures reason == BufferFull <==> |output| == maxOutput
    ensures reason == Running ==> turns == |trace|
    ensures reason != Running && reason != BufferFull ==> StoppedBy(trace, turns, reason)
    ensures forall i :: 0 <= i < turns - 1 ==> Ending(trace[i].exit).None?
    ensures forall i :: 0 <= i < turns ==> !trace[i].stop
    ensures Steps(log) == TraceSteps(trace[..turns])
    ensures Announced(old(serial.State()), log) && OnlyWhenDue(old(serial.State()), log)
  {
    hide HasBit, Good, StateAt, Announced, OnlyWhenDue, Steps, TraceSteps, Sent, AfterAll, After, Transmits, Ops, InputOps, ExitOps;
    ghost var u := serial.State();
    output, log, turns := [], [], 0;
    InitialLog(u);
    NothingYet(u);
    assert trace[..0] == [];
    while true
      invariant turns <= |trace| && |output| <= maxOutput
      invariant output == Sent(u, Ops(trace[..turns]))
      invariant serial.State() == AfterAll(u, Ops(trace[..turns]))
      invariant serial.State() == StateAt(u, log) && Good(u, log)
      invariant Announced(u, log) && OnlyWhenDue(u, log) && Steps(log) == TraceSteps(trace[..turns])
      invariant forall i :: 0 <= i < turns ==> !trace[i].stop && Ending(trace[i].exit).None?
      decreases |trace| - turns
    {
      if |output| >= maxOutput {
        return output, BufferFull, turns, log;
      }
      if turns == |trace| {
        return output, Running, turns, log;
      }
      var t := trace[turns];
      if t.stop {
        return output, Stopped, turns, log;
      }
      ghost var ops := Ops(trace[..turns]);
      TurnSnoc(trace, turns);
      InputExtends(u, ops, t);
      ghost var ops1 := ops + InputOps(t);
      TraceSnoc(trace, turns);
      log := DrainInput(serial, t, log, u);
      EnterKeeps(u, log);
      log := log + [Enter];
      output, log := HandleExit(serial, t.exit, output, log, u);
      GoodAnnounces(u, log);
      turns := turns + 1;
      ExitSnoc(u, ops1, t.exit);
      assert Ops(trace[..turns]) == ops1 + ExitOps(t.exit);
      if Ending(t.exit).Some? {
        return output, Ending(t.exit).value, turns, log;
      }
    }
  }

  lemma ExitSnoc(u: UartState, ops: seq<PortOp>, e: Exit)
    ensures ExitOps(e) == [] ==> ops + ExitOps(e) == ops
    ensures ExitOps(e) != [] ==>
              && AfterAll(u, ops + ExitOps(e)) == After(AfterAll(u, ops), ExitOps(e)[0])
              && Sent(u, ops + ExitOps(e)) ==
                   Sent(u, ops) + if e.IoOut? && Transmits(AfterAll(u, ops), e.port) then [e.data % 256] else []
  {
    hide After, Sent, AfterAll, Transmits;
    if ExitOps(e) != [] {
      OpSnoc(u, ops, ExitOps(e)[0]);
    }
  }

  lemma InitialLog(u: UartState)
    ensures StateAt(u, []) == u && Good(u, []) && Steps([]) == []
    ensures Announced(u, []) && OnlyWhenDue(u, [])
  {
  }

  lemma GoodAnnounces(u: UartState, log: seq<Event>)
    requires Good(u, log)
    ensures Announced(u, log) && OnlyWhenDue(u, log)
  {
    hide Announced, OnlyWhenDue, Settled;
  }

  lemma NothingYet(u: UartState)
    ensures Sent(u, []) == [] && AfterAll(u, []) == u
    ensures Ops([]) == [] && TraceSteps([]) == []
  {
  }

  // ---------------------------------------------------------------- search for a marker

  ghost predicate OccursAt(s: seq<byte>, t: seq<byte>, i: int) {
    0 <= i && i + |t| <= |s| && s[i..i + |t|] == t
  }

  ghost predicate Occurs(s: seq<byte>, t: seq<byte>) {
    exists i :: OccursAt(s, t, i)
  }

  /** `windows(target.len()).any(..)` */
  method AnyWindow(s: seq<byte>, t: seq<byte>) returns (found: bool)
    requires t != []
    ensures found <==> Occurs(s, t)
  {
    var i := 0;
    while i + |t| <= |s|
      invariant 0 <= i
      invariant forall k :: 0 <= k < i ==> !OccursAt(s, t, k)
    {
      if s[i..i + |t|] == t {
        assert OccursAt(s, t, i);
        return true;
      }
      i := i + 1;
    }
    return false;
  }

  /** Occurrences in a suffix are the late occurrences in the whole. */
  lemma SuffixOccurs(s: seq<byte>, t: seq<byte>, from: nat, i: int)
    requires from <= |s|
    ensures OccursAt(s[from..], t, i) <==> i >= 0 && OccursAt(s, t, i + from)
  {
    if 0 <= i && i + from + |t| <= |s| {
      assert s[from..][i..i + |t|] == s[i + from..i + from + |t|];
    }
  }

  /** When only the very end of `s` can hold the target, a window at the end decides the full search. */
  lemma WindowDecides(s: seq<byte>, t: seq<byte>, from: nat)
    requires from + |t| <= |s|
    requires forall i :: OccursAt(s, t, i) ==> i == |s| - |t|
    ensures Occurs(s[from..], t) <==> Occurs(s, t)
  {
    hide OccursAt;
    if Occurs(s, t) {
      var i :| OccursAt(s, t, i);
      SuffixOccurs(s, t, from, i - from);
      assert OccursAt(s[from..], t, i - from);
    }
    if Occurs(s[from..], t) {
      var i :| OccursAt(s[from..], t, i);
      SuffixOccurs(s, t, from, i);
    }
  }

  /** One more byte can only complete an occurrence at the end. */
  lemma ByteAppended(s: seq<byte>, t: seq<byte>, b: byte)
    requires !Occurs(s, t)
    ensures forall i :: OccursAt(s + [b], t, i) ==> i == |s| + 1 - |t|
  {
    forall i | 0 <= i && i + |t| <= |s|
      ensures OccursAt(s + [b], t, i) <==> OccursAt(s, t, i)
    {
      assert (s + [b])[i..i + |t|] == s[i..i + |t|];
    }
  }

  /**
   The marker loop.  It reports a match (as a full buffer) exactly when the target occurs in the
   captured output, and then the target ends the output and occurs nowhere before,
   although each turn looks only at the last `target + 256` bytes.
   */
  method UntilMatch(serial: SerialState, trace: seq<Exit>, target: seq<byte>)
    returns (output: seq<byte>, reason: StopReason, turns: nat, log: seq<Event>)
    requires target != []
    modifies serial
    ensures turns <= |trace|
    ensures output == Sent(old(serial.State()), ExitsOps(trace[..turns]))
    ensures reason == BufferFull <==> Occurs(output, target)
    ensures reason == Running ==> turns == |trace|
    ensures reason != Running && reason != BufferFull ==> turns > 0 && PlainEnding(trace[turns - 1]) == Some(reason)
    ensures reason == BufferFull ==> forall i :: OccursAt(output, target, i) <==> i == |output| - |target|
    ensures Steps(log) == TraceSteps(Inputless(trace[..turns]))
    ensures Announced(old(serial.State()), log) && OnlyWhenDue(old(serial.State()), log)
  {
    hide HasBit, Sent, AfterAll, After, OccursAt, Good, StateAt, Announced, OnlyWhenDue, Steps, TraceSteps, Inputless, Ports, ExitOps, ExitsOps, Transmits, PlainEnding;
    ghost var u := serial.State();
    output, turns, log := [], 0, [];
    InitialLog(u);
    NothingYet(u);
    NoTurns();
    NoExits();
    NoneInEmpty(target);
    assert trace[..0] == [];
    while true
      invariant turns <= |trace|
      invariant output == Sent(u, ExitsOps(trace[..turns]))
      invariant serial.State() == AfterAll(u, ExitsOps(trace[..turns]))
      invariant serial.State() == StateAt(u, log) && Good(u, log)
      invariant Announced(u, log) && OnlyWhenDue(u, log) && Steps(log) == TraceSteps(Inputless(trace[..turns]))
      invariant forall i :: OccursAt(output, target, i) ==> i == |output| - |target|
      decreases |trace| - turns
    {
      if |output| >= |target| {
        var searchStart := if |output| > |target| + 256 then |output| - (|target| + 256) else 0;
        var found := AnyWindow(output[searchStart..], target);
        WindowDecides(output, target, searchStart);
        if found {
          return output, BufferFull, turns, log;
        }
      } else {
        TooShort(output, target);
      }
      if turns == |trace| {
        return output, Running, turns, log;
      }
      var e := trace[turns];
      ghost var before, ops := output, ExitsOps(trace[..turns]);
      ExitsSnoc(trace, turns);
      InputlessSnoc(trace, turns);
      EnterKeeps(u, log);
      log := log + [Enter];
      output, log := HandleExit(serial, e, output, log, u);
      GoodAnnounces(u, log);
      turns := turns + 1;
      ExitSnoc(u, ops, e);
      if output != before {
        ByteAppended(before, target, e.data % 256);
      }
      var ending := PlainEnding(e);
      if ending.Some? {
        EndingsAreSilent(e);
        return output, ending.value, turns, log;
      }
    }
  }

  /** The turns of a loop that has neither input nor a stop flag. */
  function Inputless(trace: seq<Exit>): (ts: seq<Turn>)
    ensures |ts| == |trace| && forall i :: 0 <= i < |ts| ==> ts[i] == Turn(false, [], trace[i])
  {
    seq(|trace|, i requires 0 <= i < |trace| => Turn(false, [], trace[i]))
  }

  lemma NoTurns()
    ensures TraceSteps(Inputless([])) == []
  {
  }

  lemma InputlessSnoc(trace: seq<Exit>, i: nat)
    requires i < |trace|
    ensures TraceSteps(Inputless(trace[..i + 1])) == TraceSteps(Inputless(trace[..i])) + [Enter] + Ports(ExitOps(trace[i]))
  {
    var ts := Inputless(trace[..i + 1]);
    assert ts[..i] == Inputless(trace[..i]) && ts[i] == Turn(false, [], trace[i]);
    assert Ports(InputOps(ts[i])) == [];
    assert TraceSteps(ts) == TraceSteps(ts[..i]) + [] + [Enter] + Ports(ExitOps(trace[i]));
  }

  /** Without an external stop flag. */
  function PlainEnding(e: Exit): (r: Option<StopReason>) {
    Ending(if e.Interrupted? then e.(stopped := false) else e)
  }

  function ExitsOps(trace: seq<Exit>): (ops: seq<PortOp>) {
    if trace == [] then [] else ExitsOps(trace[..|trace| - 1]) + ExitOps(trace[|trace| - 1])
  }

  lemma ExitsSnoc(trace: seq<Exit>, i: nat)
    requires i < |trace|
    ensures ExitsOps(trace[..i + 1]) == ExitsOps(trace[..i]) + ExitOps(trace[i])
  {
    assert trace[..i + 1][..i] == trace[..i];
  }

  lemma NoExits()
    ensures ExitsOps([]) == []
  {
  }

  lemma EndingsAreSilent(e: Exit)
    requires PlainEnding(e).Some?
    ensures ExitOps(e) == [] && PlainEnding(e).value != BufferFull && PlainEnding(e).value != Running
  {
  }

  lemma TooShort(s: seq<byte>, t: seq<byte>)
    requires |s| < |t|
    ensures !Occurs(s, t)
  {
  }

  lemma NoneInEmpty(t: seq<byte>)
    requires t != []
    ensures forall i :: !OccursAt([], t, i)
  {
  }
}
