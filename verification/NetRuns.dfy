/**
 Whole runs of the network device: transmit passes, receive passes and guest
 stores in any order, and what the used rings hold afterwards.
 */
module NetRuns {
  import opened Wrappers
  import opened Bytes
  import opened GuestMemory
  import opened Virtqueue
  import opened UsedRing
  import opened NetDevice

  /** The two queues over one memory, and per queue the completions the device has made. */
  datatype Machine = Machine(mem: Mem, rx: QueueState, tx: QueueState, rxLog: seq<Completion>, txLog: seq<Completion>)

  datatype Event =
    | Transmit
    | Receive(incoming: seq<seq<byte>>)
    | GuestStore(addr: nat, data: seq<byte>)

  /** The used rings are apart from each other and from the index the transmit loop re-reads. */
  predicate RingsApart(s: Machine) {
    && Apart(s.rx.usedRing + 2, UsedLen(s.rx), s.tx.usedRing + 2, UsedLen(s.tx))
    && Apart(s.tx.usedRing + 2, UsedLen(s.tx), s.tx.availRing + 2, 2)
  }

  /** The driver stores nothing into a used ring and offers no buffer that overlaps one. */
  ghost predicate Allowed(s: Machine, e: Event)
    requires s.rx.size > 0
  {
    match e
    case Transmit => true
    case Receive(incoming) =>
      && RxClear(s.mem, s.rx, incoming, s.rx.usedRing + 2, UsedLen(s.rx))
      && RxClear(s.mem, s.rx, incoming, s.tx.usedRing + 2, UsedLen(s.tx))
    case GuestStore(addr, data) =>
      && Apart(addr, |data|, s.rx.usedRing + 2, UsedLen(s.rx))
      && Apart(addr, |data|, s.tx.usedRing + 2, UsedLen(s.tx))
  }

  ghost function Next(s: Machine, e: Event): (s': Machine)
    requires s.rx.size > 0 && TxSafe(s.mem, s.tx)
  {
    match e
    case Transmit =>
      SafeEnds(s.mem, s.tx);
      var o := TxLoop(s.mem, s.tx);
      s.(mem := o.mem, tx := o.q, txLog := s.txLog + TxDone(o.heads))
    case Receive(incoming) =>
      var o := RxLoop(s.mem, s.rx, incoming);
      s.(mem := o.mem, rx := o.q, rxLog := s.rxLog + o.done)
    case GuestStore(addr, data) =>
      s.(mem := Poke(s.mem, addr, data))
  }

  ghost predicate Conserved(s: Machine) {
    && s.rx.size > 0 && TxSafe(s.mem, s.tx) && RingsApart(s)
    && Recorded(s.mem, s.rx, s.rxLog) && s.rx.nextUsed == s.rx.nextAvail
    && Recorded(s.mem, s.tx, s.txLog) && s.tx.nextUsed == s.tx.nextAvail
  }

  ghost predicate Run(s: Machine, events: seq<Event>, s': Machine)
    requires Conserved(s)
    decreases |events|
  {
    if events == [] then s' == s
    else
      Allowed(s, events[0]) &&
      (NextKeeps(s, events[0]);
       Run(Next(s, events[0]), events[1..], s'))
  }

  lemma NextKeeps(s: Machine, e: Event)
    requires Conserved(s) && Allowed(s, e)
    ensures Conserved(Next(s, e))
  {
    hide Recorded, WellFormed, TxLoop, TxEnds, RxLoop, RxClear;
    match e {
      case Transmit =>
        SafeEnds(s.mem, s.tx);
        TxConserves(s.mem, s.tx, s.txLog);
        TxKeepsOther(s.mem, s.tx, s.rx, s.rxLog);
        LayoutAccess(s.mem, TxLoop(s.mem, s.tx).mem);
      case Receive(incoming) =>
        RxConserves(s.mem, s.rx, incoming, s.rxLog);
        RxKeepsOther(s.mem, s.rx, incoming, s.tx, s.txLog);
        LayoutAccess(s.mem, RxLoop(s.mem, s.rx, incoming).mem);
      case GuestStore(addr, data) =>
        RecordedKept(s.mem, s.rx, s.rxLog, addr, data);
        RecordedKept(s.mem, s.tx, s.txLog, addr, data);
        PokeLayout(s.mem, addr, data);
    }
  }

  /**
   Over every run the used rings hold exactly the completions made, in order: the
   index counts them modulo 65536, the last `size` are in their slots, and between
   calls each queue has completed precisely what it popped.
   */
  lemma {:induction false} RunConserves(s: Machine, events: seq<Event>, s': Machine)
    requires Conserved(s) && Run(s, events, s')
    ensures Conserved(s') && s.rxLog <= s'.rxLog && s.txLog <= s'.txLog
    ensures s'.tx.nextAvail == |s'.txLog| % 0x1_0000 && ReadU16(s'.mem, s'.tx.usedRing + 2) == Ok(|s'.txLog| % 0x1_0000)
    ensures s'.rx.nextAvail == |s'.rxLog| % 0x1_0000 && ReadU16(s'.mem, s'.rx.usedRing + 2) == Ok(|s'.rxLog| % 0x1_0000)
    decreases |events|
  {
    hide ReadU16, Read, CanAccess, WellFormed, UsedSlot, UsedElem, TxLoop, TxEnds, RxLoop, RxClear, Apart;
    if events != [] {
      NextKeeps(s, events[0]);
      RunConserves(Next(s, events[0]), events[1..], s');
    }
  }
}
