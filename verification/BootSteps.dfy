/**
 A boot as an ordered list of memory writes, any of which may fail: the later of
 two overlapping writes prevails, and the first failure stops the boot.
 */
module BootSteps {
  import opened Wrappers
  import opened Bytes
  import opened GuestMemory

  datatype BootError =
    | KernelTooLarge
    | CmdlineTooLong
    | InitrdTooLarge
    | InvalidElf
    | Memory(error: MemError)

  datatype Step = Write(addr: nat, data: seq<byte>) | Fail(error: BootError) {
    /** The step writes address `x`. */
    predicate Hits(x: nat) {
      Write? && addr <= x < addr + |data|
    }

    /** The step writes nothing in the given range. */
    predicate Avoids(a: nat, n: nat) {
      Fail? || Apart(addr, |data|, a, n)
    }
  }

  /** The memory reached, and the error that stopped the run, if any. */
  function Run(m: Mem, steps: seq<Step>): (r: (Mem, Option<BootError>))
    decreases |steps|
  {
    if steps == [] then (m, None)
    else
      match steps[0]
      case Fail(e) => (m, Some(e))
      case Write(a, d) =>
        if CanAccess(m, a, |d|) then Run(Put(m, a, d), steps[1..]) else (m, Some(Memory(AccessError(m, a, |d|))))
  }

  predicate Boots(m: Mem, steps: seq<Step>) {
    Run(m, steps).1.None?
  }

  function Final(m: Mem, steps: seq<Step>): (m': Mem) {
    Run(m, steps).0
  }

  lemma {:induction false} RunLayout(m: Mem, steps: seq<Step>)
    requires WellFormed(m)
    ensures WellFormed(Final(m, steps)) && SameLayout(m, Final(m, steps))
    decreases |steps|
  {
    hide CanAccess, Put, WellFormed;
    if steps != [] && steps[0].Write? && CanAccess(m, steps[0].addr, |steps[0].data|) {
      PutAt(m, steps[0].addr, steps[0].data);
      RunLayout(Put(m, steps[0].addr, steps[0].data), steps[1..]);
    }
  }

  lemma {:induction false} RunConcat(m: Mem, a: seq<Step>, b: seq<Step>)
    ensures Run(m, a + b) == if Boots(m, a) then Run(Final(m, a), b) else Run(m, a)
    decreases |a|
  {
    hide CanAccess, Put;
    if a == [] {
      assert a + b == b;
    } else {
      assert (a + b)[1..] == a[1..] + b;
      if a[0].Write? && CanAccess(m, a[0].addr, |a[0].data|) {
        RunConcat(Put(m, a[0].addr, a[0].data), a[1..], b);
      }
    }
  }

  /** What no step writes keeps its value. */
  lemma {:induction false} Untouched(m: Mem, steps: seq<Step>, x: nat)
    requires WellFormed(m) && forall i :: 0 <= i < |steps| ==> !steps[i].Hits(x)
    ensures At(Final(m, steps), x) == At(m, x)
    decreases |steps|
  {
    hide CanAccess, Put, WellFormed, At;
    if steps != [] && steps[0].Write? && CanAccess(m, steps[0].addr, |steps[0].data|) {
      assert !steps[0].Hits(x);
      PutAt(m, steps[0].addr, steps[0].data);
      Untouched(Put(m, steps[0].addr, steps[0].data), steps[1..], x);
    }
  }

  /** The last step that writes an address decides its value. */
  lemma {:induction false} LastWriteWins(m: Mem, steps: seq<Step>, i: nat, x: nat)
    requires WellFormed(m) && Boots(m, steps) && i < |steps| && steps[i].Hits(x)
    requires forall j :: i < j < |steps| ==> !steps[j].Hits(x)
    ensures At(Final(m, steps), x) == Some(steps[i].data[x - steps[i].addr])
    decreases |steps|
  {
    hide CanAccess, Put, WellFormed, At;
    var s := steps[0];
    assert s.Write? && CanAccess(m, s.addr, |s.data|);
    PutAt(m, s.addr, s.data);
    var m1 := Put(m, s.addr, s.data);
    if i == 0 {
      forall j | 0 <= j < |steps| - 1 ensures !steps[1..][j].Hits(x) {
        assert steps[1..][j] == steps[j + 1];
      }
      Untouched(m1, steps[1..], x);
    } else {
      LastWriteWins(m1, steps[1..], i - 1, x);
    }
  }

  /** A range that no step writes reads the same afterwards. */
  lemma RangeUntouched(m: Mem, steps: seq<Step>, a: nat, n: nat)
    requires WellFormed(m) && forall i :: 0 <= i < |steps| ==> steps[i].Avoids(a, n)
    ensures Read(Final(m, steps), a, n) == Read(m, a, n)
  {
    hide Read, WellFormed, Final, At;
    RunLayout(m, steps);
    forall x | a <= x < a + n
      ensures At(m, x) == At(Final(m, steps), x)
    {
      forall i | 0 <= i < |steps| ensures !steps[i].Hits(x) {
        assert steps[i].Avoids(a, n);
      }
      Untouched(m, steps, x);
    }
    ReadSame(m, Final(m, steps), a, n);
  }

  /** What one step wrote and no later step touches is in memory at the end, whole. */
  lemma WriteSurvives(m: Mem, steps: seq<Step>, i: nat)
    requires WellFormed(m) && Boots(m, steps) && i < |steps| && steps[i].Write?
    requires forall j :: i < j < |steps| ==> steps[j].Avoids(steps[i].addr, |steps[i].data|)
    ensures Read(Final(m, steps), steps[i].addr, |steps[i].data|) == Ok(steps[i].data)
  {
    hide Read, WellFormed, Run, At, CanAccess;
    var before, after := steps[..i + 1], steps[i + 1..];
    assert steps == before + after;
    RunConcat(m, before, after);
    SplitBoots(m, steps, i + 1);
    RunLayout(m, before);
    RangeUntouched(Final(m, before), after, steps[i].addr, |steps[i].data|);
    JustWritten(m, before);
  }

  lemma SplitBoots(m: Mem, steps: seq<Step>, k: nat)
    requires k <= |steps| && Boots(m, steps)
    ensures Boots(m, steps[..k]) && Boots(Final(m, steps[..k]), steps[k..])
    ensures Final(m, steps) == Final(Final(m, steps[..k]), steps[k..])
  {
    hide Run;
    assert steps == steps[..k] + steps[k..];
    RunConcat(m, steps[..k], steps[k..]);
  }

  lemma JustWritten(m: Mem, steps: seq<Step>)
    requires WellFormed(m) && Boots(m, steps) && steps != [] && steps[|steps| - 1].Write?
    ensures var s := steps[|steps| - 1]; Read(Final(m, steps), s.addr, |s.data|) == Ok(s.data)
  {
    hide Read, WellFormed, CanAccess, Put, At;
    var k := |steps| - 1;
    var s := steps[k];
    SplitBoots(m, steps, k);
    RunLayout(m, steps[..k]);
    var m1 := Final(m, steps[..k]);
    assert steps[k..] == [s] && [s][1..] == [];
    assert CanAccess(m1, s.addr, |s.data|);
    var m2 := Put(m1, s.addr, s.data);
    assert Run(m2, []) == (m2, None);
    assert Run(m1, [s]) == Run(m2, [s][1..]);
    ReadBack(m1, s.addr, s.data);
  }

  /** Carry out one write of a boot on the memory object. */
  method DoWrite(mem: GuestMemoryMmap, addr: nat, data: seq<byte>) returns (e: Option<BootError>)
    requires mem.Valid()
    modifies mem.Repr
    ensures mem.Valid()
    ensures (mem.contents, e) == Run(old(mem.contents), [Write(addr, data)])
  {
    hide GuestMemoryMmap.Valid, CanAccess, Put;
    var w := mem.WriteSlice(addr, data);
    assert [Write(addr, data)][1..] == [];
    e := if w.Ok? then None else Some(Memory(w.error));
  }
}
