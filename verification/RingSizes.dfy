/**
 Which queue sizes the available ring works for.  The transport stores any size
 the driver writes; this module shows that with a size that does not divide 65536
 the ring loses an entry where the 16-bit counters wrap.
 */
module RingSizes {
  import opened Wrappers
  import opened Bytes
  import opened Arithmetic
  import opened GuestMemory
  import opened Virtqueue
  import opened AvailRing

  /** A queue of any non-zero size that neither side has used yet. */
  ghost predicate Unused(s: Ring) {
    && WellFormed(s.mem) && s.q.ready && s.q.size > 0
    && CanAccess(s.mem, s.q.availRing + 2, AvailLen(s.q))
    && s.published == [] && s.popped == [] && s.staged == None
    && s.q.nextAvail == 0 && ReadU16(s.mem, s.q.availRing + 2) == Ok(0)
  }

  /** Head `h` names a chain of one descriptor that lies clear of the available ring. */
  ghost predicate Single(m: Mem, q: QueueState, h: u16) {
    && DescAt(m, q.descTable, h).Ok? && !DescAt(m, q.descTable, h).value.HasNext()
    && Apart(q.descTable + h * 16, 16, q.availRing + 2, AvailLen(q))
  }

  /** Between two steps: nothing staged, the index counts the published heads, and `a` and `b` can be popped. */
  ghost predicate Steady(s: Ring, a: u16, b: u16) {
    && WellFormed(s.mem) && s.q.ready && s.q.size > 0
    && CanAccess(s.mem, s.q.availRing + 2, AvailLen(s.q))
    && Single(s.mem, s.q, a) && Single(s.mem, s.q, b)
    && s.staged == None && ReadU16(s.mem, s.q.availRing + 2) == Ok(|s.published| % 0x1_0000)
  }

  // ---------------------------------------------------------------- single steps

  lemma SlotInside(q: QueueState, c: nat)
    requires q.size > 0
    ensures q.availRing + 4 <= AvailSlot(q, c) && AvailSlot(q, c) + 2 <= q.availRing + 2 + AvailLen(q)
  {
    DivMod(c, q.size);
  }

  lemma SingleKept(m: Mem, q: QueueState, h: u16, a: nat, d: seq<byte>)
    requires WellFormed(m) && Single(m, q, h)
    requires q.availRing + 2 <= a && a + |d| <= q.availRing + 2 + AvailLen(q)
    ensures Single(Poke(m, a, d), q, h)
  {
    hide WellFormed, Poke, DecodeDesc, Read;
    ReadApart(m, a, d, q.descTable + h * 16, 16);
  }

  /** Store a halfword into the ring. */
  lemma StoreKeeps(m: Mem, q: QueueState, a: nat, v: u16, x: u16, y: u16)
    requires WellFormed(m) && CanAccess(m, q.availRing + 2, AvailLen(q))
    requires Single(m, q, x) && Single(m, q, y)
    requires q.availRing + 2 <= a && a + 2 <= q.availRing + 2 + AvailLen(q)
    ensures var m' := Poke(m, a, U16LE(v));
            && WellFormed(m') && CanAccess(m', q.availRing + 2, AvailLen(q))
            && Single(m', q, x) && Single(m', q, y) && ReadU16(m', a) == Ok(v)
  {
    hide WellFormed, CanAccess, Put, U16LE, Single, ReadU16;
    PokeLayout(m, a, U16LE(v));
    LayoutAccess(m, Poke(m, a, U16LE(v)));
    AccessPart(m, q.availRing + 2, AvailLen(q), a, 2);
    ReadBackU16(m, a, v);
    SingleKept(m, q, x, a, U16LE(v));
    SingleKept(m, q, y, a, U16LE(v));
  }

  /** The driver publishes `h`: it then stands in the slot of its entry. */
  lemma Publish(s: Ring, h: u16, a: u16, b: u16)
    requires Steady(s, a, b) && |s.published| < |s.popped| + s.q.size
    ensures var s1 := Step(s, StageHead(h));
            var s2 := Step(s1, AdvanceIdx);
            && Enabled(s, StageHead(h)) && Enabled(s1, AdvanceIdx)
            && Steady(s2, a, b) && s2.q == s.q && s2.popped == s.popped && s2.published == s.published + [h]
            && ReadU16(s2.mem, AvailSlot(s.q, |s.published| % 0x1_0000)) == Ok(h)
  {
    hide WellFormed, CanAccess, Poke, U16LE, Single, ReadU16, AvailSlot;
    var slot, idx := AvailSlot(s.q, |s.published| % 0x1_0000), s.q.availRing + 2;
    SlotInside(s.q, |s.published| % 0x1_0000);
    StoreKeeps(s.mem, s.q, slot, h, a, b);
    var m1 := Poke(s.mem, slot, U16LE(h));
    var v := (|s.published| + 1) % 0x1_0000;
    StoreKeeps(m1, s.q, idx, v, a, b);
    ReadApartU16(m1, idx, U16LE(v), slot);
  }

  /** The device pops what stands in the slot of its cursor. */
  lemma Take(s: Ring, h: u16, a: u16, b: u16)
    requires Steady(s, a, b) && (h == a || h == b)
    requires s.q.nextAvail != |s.published| % 0x1_0000
    requires ReadU16(s.mem, AvailSlot(s.q, s.q.nextAvail)) == Ok(h)
    ensures var s' := Step(s, DevicePop);
            && Steady(s', a, b) && s'.mem == s.mem && s'.published == s.published
            && s'.popped == s.popped + [h] && s'.q == s.q.(nextAvail := WrapInc(s.q.nextAvail))
  {
    hide WellFormed, CanAccess, ReadU16, AvailSlot, DescAt;
    var t := TableAt(s.mem, s.q.descTable);
    assert t(h) == DescAt(s.mem, s.q.descTable, h);
    assert Walk(t, h, s.q.size) == Ok([t(h).value]);
    assert Pop(s.mem, s.q) == Ok(Some(DescriptorChain(h, [t(h).value])));
  }

  // ---------------------------------------------------------------- runs

  lemma StepSize(s: Ring, x: Action)
    requires s.q.size > 0
    ensures Step(s, x).q.size == s.q.size
  {
    hide Poke, Pop, AddUsed, CanAccess;
  }

  lemma {:induction false} RunJoins(s: Ring, x: seq<Action>, s1: Ring, y: seq<Action>, s2: Ring)
    requires s.q.size > 0 && Run(s, x, s1) && s1.q.size > 0 && Run(s1, y, s2)
    ensures Run(s, x + y, s2)
    decreases |x|
  {
    hide Step, Enabled;
    if x == [] {
      assert x + y == y;
    } else {
      StepSize(s, x[0]);
      RunJoins(Step(s, x[0]), x[1..], s1, y, s2);
      assert (x + y)[1..] == x[1..] + y;
    }
  }

  lemma OneStep(s: Ring, x: Action)
    requires s.q.size > 0 && Enabled(s, x)
    ensures Run(s, [x], Step(s, x))
  {
    hide Step, Enabled;
    StepSize(s, x);
    assert [x][1..] == [];
  }

  /** Two enabled steps at the end of a run. */
  lemma TwoMore(s: Ring, x: seq<Action>, s1: Ring, p: Action, q: Action)
    requires s.q.size > 0 && Run(s, x, s1) && s1.q.size > 0
    requires Enabled(s1, p) && Step(s1, p).q.size > 0 && Enabled(Step(s1, p), q)
    ensures Run(s, x + [p, q], Step(Step(s1, p), q))
  {
    hide Step, Enabled, Run;
    var s2 := Step(s1, p);
    OneStep(s1, p);
    OneStep(s2, q);
    StepSize(s2, q);
    RunJoins(s1, [p], s2, [q], Step(s2, q));
    assert [p] + [q] == [p, q];
    RunJoins(s, x, s1, [p, q], Step(s2, q));
  }

  lemma OneMore(s: Ring, x: seq<Action>, s1: Ring, p: Action)
    requires s.q.size > 0 && Run(s, x, s1) && s1.q.size > 0 && Enabled(s1, p)
    ensures Run(s, x + [p], Step(s1, p))
  {
    hide Step, Enabled, Run;
    OneStep(s1, p);
    StepSize(s1, p);
    RunJoins(s, x, s1, [p], Step(s1, p));
  }

  /** Publishing and popping in turn, the ring reaches every count. */
  lemma {:induction false} ReachCount(s: Ring, a: u16, b: u16, n: nat) returns (x: seq<Action>, s': Ring)
    requires Unused(s) && Single(s.mem, s.q, a) && Single(s.mem, s.q, b)
    ensures s.q.size > 0 && Run(s, x, s') && Steady(s', a, b)
    ensures |s'.published| == |s'.popped| == n && s'.q == s.q.(nextAvail := n % 0x1_0000)
    decreases n
  {
    hide Step, Enabled, Single, WellFormed, CanAccess, ReadU16, AvailSlot;
    if n == 0 {
      x, s' := [], s;
    } else {
      var before;
      x, before := ReachCount(s, a, b, n - 1);
      hide Run;
      Publish(before, a, a, b);
      var s1 := Step(before, StageHead(a));
      StepSize(before, StageHead(a));
      var s2 := Step(s1, AdvanceIdx);
      TwoMore(s, x, before, StageHead(a), AdvanceIdx);
      Take(s2, a, a, b);
      OneMore(s, x + [StageHead(a), AdvanceIdx], s2, DevicePop) by { PopEnabled(s2); }
      x, s' := x + [StageHead(a), AdvanceIdx] + [DevicePop], Step(s2, DevicePop);
      WrapIncCounts(n - 1);
    }
  }

  lemma PopEnabled(s: Ring)
    requires s.q.size > 0
    ensures Enabled(s, DevicePop)
  {
  }

  /** Publishing `k` more heads `a` without a pop in between. */
  lemma {:induction false} PublishMany(s0: Ring, x0: seq<Action>, s: Ring, a: u16, b: u16, k: nat)
    returns (x: seq<Action>, s': Ring)
    requires s0.q.size > 0 && Run(s0, x0, s) && Steady(s, a, b) && |s.published| + k <= |s.popped| + s.q.size
    ensures Run(s0, x, s') && Steady(s', a, b) && s'.q == s.q && s'.popped == s.popped
    ensures |s'.published| == |s.published| + k && s.published <= s'.published
    ensures forall i :: |s.published| <= i < |s'.published| ==> s'.published[i] == a
    decreases k
  {
    hide Step, Enabled, Single, WellFormed, CanAccess, ReadU16, AvailSlot, Run;
    if k == 0 {
      x, s' := x0, s;
    } else {
      Publish(s, a, a, b);
      var s1 := Step(s, StageHead(a));
      StepSize(s, StageHead(a));
      var s2 := Step(s1, AdvanceIdx);
      TwoMore(s0, x0, s, StageHead(a), AdvanceIdx);
      x, s' := PublishMany(s0, x0 + [StageHead(a), AdvanceIdx], s2, a, b, k - 1);
      assert s2.published[|s.published|] == a;
    }
  }

  /** For a size that does not divide 65536 there is a run in which the device pops a head that is not the oldest. */
  lemma OverwrittenHead(s: Ring, a: u16, b: u16) returns (x: seq<Action>, s': Ring)
    requires Unused(s) && Single(s.mem, s.q, a) && Single(s.mem, s.q, b) && a != b
    requires 0x1_0000 % s.q.size != 0
    ensures s.q.size > 0 && Run(s, x, s')
    ensures |s'.popped| == 0x1_0000 && |s'.published| > 0x1_0000
    ensures s'.popped[0xFFFF] == b && s'.published[0xFFFF] == a
  {
    hide Step, Enabled, Single, WellFormed, CanAccess, ReadU16, Run, Steady;
    var r := 0x1_0000 % s.q.size;
    SlotsCollide(s.q.size);
    var full;
    x, full := ReachCount(s, a, b, 0xFFFF);
    var many;
    x, many := PublishMany(s, x, full, a, b, r) by { SizeOf(full, a, b); }
    Publish(many, b, a, b) by { SizeOf(many, a, b); }
    var s1 := Step(many, StageHead(b));
    StepSize(many, StageHead(b));
    var s2 := Step(s1, AdvanceIdx);
    TwoMore(s, x, many, StageHead(b), AdvanceIdx);
    assert s2.q.nextAvail == 0xFFFF && |s2.published| == 0x1_0000 + r;
    assert AvailSlot(s2.q, s2.q.nextAvail) == AvailSlot(s2.q, (0xFFFF + r) % 0x1_0000);
    WrappedIndex(r);
    Take(s2, b, a, b);
    PopEnabled(s2);
    OneMore(s, x + [StageHead(b), AdvanceIdx], s2, DevicePop);
    x, s' := x + [StageHead(b), AdvanceIdx] + [DevicePop], Step(s2, DevicePop);
  }

  lemma SizeOf(s: Ring, a: u16, b: u16)
    requires Steady(s, a, b)
    ensures s.q.size > 0
  {
  }

  lemma WrappedIndex(r: nat)
    requires 0 < r < 0xFFFF
    ensures (0x1_0000 + r) % 0x1_0000 == r != 0xFFFF
  {
  }

  /**
   The ring is first in, first out over every run exactly for the sizes that divide
   65536, given two chains with which a run can tell the difference.
   */
  lemma FifoIff(s: Ring, a: u16, b: u16)
    requires Unused(s) && Single(s.mem, s.q, a) && Single(s.mem, s.q, b) && a != b
    ensures s.q.size > 0
    ensures (forall x: seq<Action>, s': Ring :: Run(s, x, s') ==> s'.popped <= s'.published)
            <==> 0x1_0000 % s.q.size == 0
  {
    hide Run, Single, ReadU16, CanAccess, WellFormed;
    if 0x1_0000 % s.q.size == 0 {
      forall x: seq<Action>, s': Ring | Run(s, x, s')
        ensures s'.popped <= s'.published
      {
        FifoForever(s, x, s');
      }
    } else {
      var x, s' := OverwrittenHead(s, a, b);
      assert Run(s, x, s') && !(s'.popped <= s'.published);
    }
  }
}
