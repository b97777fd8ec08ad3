/** What a successful boot leaves for the guest: page tables, kernel, command line, RAM disk and zero page. */
module BootGuest {
  import opened Wrappers
  import opened Bytes
  import opened GuestMemory
  import opened BootSteps
  import opened PageTables
  import opened Elf
  import opened BootParams
  import opened BootBuilder
  import DeviceSnapshot

  // ---------------------------------------------------------------- placement

  /** The placement arithmetic stays within 64 bits. */
  ghost predicate NoWrap(segments: seq<LoadSegment>) {
    forall i :: 0 <= i < |segments| ==> segments[i].guestAddr + segments[i].memSize + MIB + 0xFFF < TWO64
  }

  lemma {:induction false} KernelEndIsMax(segments: seq<LoadSegment>)
    requires NoWrap(segments)
    ensures forall i :: 0 <= i < |segments| ==> segments[i].guestAddr + segments[i].memSize <= KernelEnd(segments)
    ensures KernelEnd(segments) + MIB + 0xFFF < TWO64
    decreases |segments|
  {
    if segments != [] {
      KernelEndIsMax(segments[..|segments| - 1]);
    }
  }

  ghost predicate AboveAll(a: nat, segments: seq<LoadSegment>) {
    forall i :: 0 <= i < |segments| ==> a >= segments[i].guestAddr + segments[i].memSize + MIB
  }

  /** The RAM disk lies page aligned, at least 1 MiB above every segment and never below 1 MiB. */
  lemma InitrdAboveKernel(segments: seq<LoadSegment>)
    requires NoWrap(segments)
    ensures InitrdAddr(segments) % 0x1000 == 0 && InitrdAddr(segments) >= MIB
    ensures AboveAll(InitrdAddr(segments), segments)
  {
    hide KernelEnd, NoWrap;
    KernelEndIsMax(segments);
    RoundUp(KernelEnd(segments) + MIB);
    RoundUp(0x200_0000 + MIB);
  }

  lemma {:induction false} KernelEndAttained(segments: seq<LoadSegment>) returns (k: nat)
    requires segments != []
    ensures k < |segments| && KernelEnd(segments) == (segments[k].guestAddr + segments[k].memSize) % TWO64
    decreases |segments|
  {
    var init := segments[..|segments| - 1];
    k := |segments| - 1;
    if init != [] && KernelEnd(segments) == KernelEnd(init) {
      k := KernelEndAttained(init);
    }
  }

  /** It does so exactly when the placement arithmetic does not wrap around. */
  lemma InitrdAboveKernelIff(segments: seq<LoadSegment>)
    ensures AboveAll(InitrdAddr(segments), segments) <==> NoWrap(segments)
  {
    hide KernelEnd;
    if NoWrap(segments) {
      InitrdAboveKernel(segments);
    } else if AboveAll(InitrdAddr(segments), segments) {
      var k := KernelEndAttained(segments);
      PlacedAboveFits(KernelEnd(segments));
      LargestEnd(segments);
      assert false;
    }
  }

  lemma PlacedAboveFits(end: u64)
    requires PlaceAbove(end) >= end + MIB
    ensures end + MIB + 0xFFF < TWO64
  {
  }

  /** Ends that do not wrap are bounded by the kernel end. */
  lemma {:induction false} LargestEnd(segments: seq<LoadSegment>)
    requires forall i :: 0 <= i < |segments| ==> segments[i].guestAddr + segments[i].memSize < TWO64
    ensures forall i :: 0 <= i < |segments| ==> segments[i].guestAddr + segments[i].memSize <= KernelEnd(segments)
    decreases |segments|
  {
    if segments != [] {
      LargestEnd(segments[..|segments| - 1]);
    }
  }

  lemma RoundUp(a: nat)
    ensures (a + 0xFFF) / 0x1000 * 0x1000 % 0x1000 == 0 && (a + 0xFFF) / 0x1000 * 0x1000 >= a
  {
  }

  /** The RAM disk, if there is one, lies clear of the range. */
  predicate InitrdClear(b: Boot, a: nat, n: nat) {
    b.initrd.Some? ==> Apart(InitrdAddr(b.kernel.segments), |b.initrd.value|, a, n)
  }

  /** Without wrap-around it is clear of everything below 1 MiB and of the kernel. */
  lemma PlacedIsClear(b: Boot, a: nat, n: nat)
    requires NoWrap(b.kernel.segments)
    requires a + n <= MIB || exists s :: s in b.kernel.segments && a == s.guestAddr && n == s.memSize
    ensures InitrdClear(b, a, n)
  {
    hide InitrdAddr, NoWrap;
    InitrdAboveKernel(b.kernel.segments);
  }

  // ---------------------------------------------------------------- the steps after the page tables

  /** The late steps in order, with the RAM disk step present or not. */
  lemma LateLayout(b: Boot)
    ensures var ss := b.LateSteps();
            && |ss| == 5 + |b.InitrdSteps()| && |b.InitrdSteps()| <= 1
            && (forall i :: 0 <= i < 3 ==> ss[i] == GdtSteps(3)[i])
            && ss[3] == b.CmdlineSteps()[0]
            && (|b.InitrdSteps()| == 1 ==> ss[4] == b.InitrdSteps()[0])
            && ss[|ss| - 1] == Write(ZERO_PAGE_ADDR, b.Params())
  {
    hide GdtSteps, InitrdAddr, ParamsBytes;
  }

  /** Only the RAM disk is placed by computation; the other late steps write at fixed places. */
  lemma LateStepsAvoid(b: Boot, a: nat, n: nat)
    requires InitrdClear(b, a, n) && Apart(GDT_ADDR, 24, a, n) && Apart(ZERO_PAGE_ADDR, PAGE, a, n)
    requires Apart(CMDLINE_ADDR, CMDLINE_MAX_SIZE, a, n)
    ensures forall i :: 0 <= i < |b.LateSteps()| ==> b.LateSteps()[i].Avoids(a, n)
  {
    hide InitrdAddr, U64LE, ParamsBytes, Boot.LateSteps;
    LateLayout(b);
  }

  lemma LateStepsAvoidTables(b: Boot)
    requires InitrdClear(b, PML4_ADDR, TABLES_END - PML4_ADDR)
    ensures forall i :: 0 <= i < |b.LateSteps()| ==> b.LateSteps()[i].Avoids(PML4_ADDR, TABLES_END - PML4_ADDR)
  {
    hide Boot.LateSteps, InitrdClear;
    LateStepsAvoid(b, PML4_ADDR, TABLES_END - PML4_ADDR);
  }

  /** Split a successful boot into loading, table set-up and the rest. */
  lemma BootPhases(m: Mem, b: Boot)
    requires Boots(m, b.Steps())
    ensures var load := LoadSteps(b.kernel.image, b.kernel.segments);
            && Boots(m, load) && Boots(Final(m, load), TableSteps())
            && Boots(Final(Final(m, load), TableSteps()), b.LateSteps())
            && Final(m, b.Steps()) == Final(Final(Final(m, load), TableSteps()), b.LateSteps())
  {
    hide Run, LoadSteps, TableSteps, Boot.LateSteps;
    var load := LoadSteps(b.kernel.image, b.kernel.segments);
    RunConcat(m, load + TableSteps(), b.LateSteps());
    RunConcat(m, load, TableSteps());
  }

  // ---------------------------------------------------------------- the identity map

  /** Memory just after the page tables were written. */
  function AfterTables(m: Mem, b: Boot): (m': Mem) {
    Final(Final(m, LoadSteps(b.kernel.image, b.kernel.segments)), TableSteps())
  }

  lemma TablesWritten(m: Mem, b: Boot)
    requires WellFormed(m) && Boots(m, b.Steps())
    ensures WellFormed(AfterTables(m, b)) && TablesInPlace(AfterTables(m, b))
    ensures Boots(AfterTables(m, b), b.LateSteps()) && Final(m, b.Steps()) == Final(AfterTables(m, b), b.LateSteps())
  {
    hide Run, LoadSteps, TableSteps, Boot.LateSteps, Boot.Steps, TablesInPlace, WellFormed;
    BootPhases(m, b);
    RunLayout(m, LoadSteps(b.kernel.image, b.kernel.segments));
    var m1 := Final(m, LoadSteps(b.kernel.image, b.kernel.segments));
    SetupPlacesTables(m1);
    RunLayout(m1, TableSteps());
  }

  /** The byte of the RAM disk that is written to address `x`, if any. */
  function InitrdByte(b: Boot, x: nat): (v: Option<byte>) {
    var a := InitrdAddr(b.kernel.segments);
    if b.initrd.Some? && a <= x < a + |b.initrd.value| then Some(b.initrd.value[x - a]) else None
  }

  /** Of the late steps only the RAM disk can reach the tables. */
  lemma TableByteAfter(m: Mem, b: Boot, x: nat)
    requires WellFormed(m) && Boots(m, b.LateSteps()) && InEntry(x)
    ensures At(Final(m, b.LateSteps()), x) == if InitrdByte(b, x).Some? then InitrdByte(b, x) else At(m, x)
  {
    hide Run, At, WellFormed, U64LE, InitrdAddr, ParamsBytes, Boot.LateSteps;
    LateLayout(b);
    var ss := b.LateSteps();
    NoFailures(m, ss);
    if InitrdByte(b, x).Some? {
      LastWriteWins(m, ss, 4, x);
    } else {
      Untouched(m, ss, x);
    }
  }

  /** After a boot the tables are in place iff the RAM disk covers no byte of theirs with another value. */
  lemma TablesSurviveIff(m: Mem, b: Boot)
    requires WellFormed(m) && Boots(m, b.Steps())
    ensures TablesInPlace(Final(m, b.Steps())) <==>
              forall x: nat :: InEntry(x) && InitrdByte(b, x).Some? ==> InitrdByte(b, x) == Some(TableByte(x))
  {
    hide Run, At, WellFormed, Boot.LateSteps, Boot.Steps, AfterTables, TablesInPlace, TableByte, InitrdByte, InEntry, CanAccess;
    TablesWritten(m, b);
    var m1, m' := AfterTables(m, b), Final(m, b.Steps());
    RunLayout(m1, b.LateSteps());
    InPlaceIsMapped(m1);
    LayoutAccess(m1, m');
    TablesByBytes(m1);
    TablesByBytes(m');
    forall x: nat | InEntry(x)
      ensures At(m', x) == if InitrdByte(b, x).Some? then InitrdByte(b, x) else Some(TableByte(x))
    {
      TableByteAfter(m1, b, x);
    }
  }

  /** With the RAM disk clear of the tables, every address below 1 GiB still maps to itself. */
  lemma IdentityMapSurvives(m: Mem, b: Boot)
    requires WellFormed(m) && Boots(m, b.Steps()) && InitrdClear(b, PML4_ADDR, TABLES_END - PML4_ADDR)
    ensures TablesInPlace(Final(m, b.Steps()))
    ensures forall va: nat :: va < SPAN_1G ==> Walk(Final(m, b.Steps()), PML4_ADDR, va) == Some(va)
  {
    hide Run, Boot.Steps, TablesInPlace, Walk, WellFormed, TableByte, InitrdAddr;
    TablesSurviveIff(m, b);
    forall va: nat | va < SPAN_1G
      ensures Walk(Final(m, b.Steps()), PML4_ADDR, va) == Some(va)
    {
      WalkIsIdentity(Final(m, b.Steps()), va);
    }
  }

  /** All segment writes lie at or above 1 MiB. */
  ghost predicate HighSegments(segments: seq<LoadSegment>) {
    forall i :: 0 <= i < |segments| ==> segments[i].guestAddr >= MIB
  }

  lemma {:induction false} LoadStepsHigh(image: seq<byte>, segments: seq<LoadSegment>)
    requires HighSegments(segments)
    ensures forall i :: 0 <= i < |LoadSteps(image, segments)| ==>
              LoadSteps(image, segments)[i].Write? ==> LoadSteps(image, segments)[i].addr >= MIB
    decreases |segments|
  {
    if segments != [] {
      LoadStepsHigh(image, segments[..|segments| - 1]);
    }
  }

  /** A zero byte of the first two tables, away from their first entries, is never written. */
  lemma SpareEntriesUntouched(m: Mem, b: Boot, x: nat)
    requires WellFormed(m) && Boots(m, b.Steps()) && InitrdClear(b, PML4_ADDR, TABLES_END - PML4_ADDR) && HighSegments(b.kernel.segments)
    requires PML4_ADDR + 8 <= x < PDPT_ADDR || PDPT_ADDR + 8 <= x < PD_ADDR
    ensures At(Final(m, b.Steps()), x) == At(m, x)
  {
    hide Run, LoadSteps, Boot.LateSteps, Boot.Steps, WellFormed, At, U64LE, InitrdClear, HighSegments;
    var load, late := LoadSteps(b.kernel.image, b.kernel.segments), b.LateSteps();
    BootPhases(m, b);
    LoadStepsHigh(b.kernel.image, b.kernel.segments);
    Untouched(m, load, x);
    RunLayout(m, load);
    var m1 := Final(m, load);
    forall i | 0 <= i < 514 ensures !TableSteps()[i].Hits(x) {
      assert i >= 2 ==> TableSteps()[i] == PdStep(i - 2);
    }
    Untouched(m1, TableSteps(), x);
    RunLayout(m1, TableSteps());
    LateStepsAvoidTables(b);
    forall i | 0 <= i < |late| ensures !late[i].Hits(x) {
      assert late[i].Avoids(PML4_ADDR, TABLES_END - PML4_ADDR);
    }
    Untouched(Final(m1, TableSteps()), late, x);
  }

  /** The first two tables start out zero, or unmapped. */
  ghost predicate BlankTables(m: Mem) {
    forall x: nat :: PML4_ADDR <= x < PD_ADDR && At(m, x).Some? ==> At(m, x) == Some(0)
  }

  lemma ZeroEntryAbsent(m: Mem, table: nat, i: nat)
    requires WellFormed(m)
    requires forall x: nat :: table + 8 * i <= x < table + 8 * i + 8 && At(m, x).Some? ==> At(m, x) == Some(0)
    ensures Present(m, table, i) == None
  {
    hide At, WellFormed;
    var a := table + 8 * i;
    ReadAt(m, a, 8);
    if Read(m, a, 8).Ok? {
      var s := Read(m, a, 8).value;
      forall k | 0 <= k < 8 ensures s[k] == 0 {
        assert At(m, a + k) == Some(s[k]);
      }
      ZeroBytes(s);
    }
  }

  lemma {:induction false} ZeroBytes(s: seq<byte>)
    requires forall k :: 0 <= k < |s| ==> s[k] == 0
    ensures FromLE(s) == 0
  {
    if s != [] {
      ZeroBytes(s[1..]);
    }
  }

  /** From blank memory with a kernel above 1 MiB the translation is the identity below 1 GiB and nothing more. */
  lemma MapsExactly1G(m: Mem, b: Boot, va: nat)
    requires WellFormed(m) && Boots(m, b.Steps()) && InitrdClear(b, PML4_ADDR, TABLES_END - PML4_ADDR)
    requires HighSegments(b.kernel.segments) && BlankTables(m)
    ensures Walk(Final(m, b.Steps()), PML4_ADDR, va) == if va < SPAN_1G then Some(va) else None
  {
    hide Run, Boot.Steps, WellFormed, At, Walk, TablesInPlace, InitrdClear, HighSegments, Present;
    IdentityMapSurvives(m, b);
    var m' := Final(m, b.Steps());
    RunLayout(m, b.Steps());
    forall i: nat | 0 < i < 512
      ensures Present(m', PML4_ADDR, i) == None && Present(m', PDPT_ADDR, i) == None
    {
      forall x: nat | PML4_ADDR + 8 * i <= x < PML4_ADDR + 8 * i + 8 || PDPT_ADDR + 8 * i <= x < PDPT_ADDR + 8 * i + 8
        ensures At(m', x) == At(m, x)
      {
        SpareEntriesUntouched(m, b, x);
      }
      ZeroEntryAbsent(m', PML4_ADDR, i);
      ZeroEntryAbsent(m', PDPT_ADDR, i);
    }
    if va >= SPAN_1G {
      WalkFaultsElsewhere(m', va);
    }
  }

  // ---------------------------------------------------------------- wrap-around

  /** A segment that ends just below 2^64 sends the RAM disk onto the page tables. */
  lemma WrappedPlacement(s: LoadSegment)
    requires s.guestAddr == TWO64 - 0xF_7000 && s.memSize == 0
    ensures !NoWrap([s]) && InitrdAddr([s]) == PML4_ADDR
  {
    assert [s][..0] == [] && [s][0] == s;
    assert KernelEnd([s]) == Max(KernelEnd([]), s.guestAddr);
  }

  /** With such a segment, a RAM disk that starts with eight zero bytes leaves address 0 unmapped. */
  lemma WrapBreaksIdentity(m: Mem, b: Boot)
    requires WellFormed(m) && Boots(m, b.Steps())
    requires b.kernel.segments == [LoadSegment(TWO64 - 0xF_7000, 0, 0, 0)] && b.initrd == Some(Zeros(8))
    ensures Walk(Final(m, b.Steps()), PML4_ADDR, 0) == None
  {
    hide Run, LoadSteps, TableSteps, WellFormed, Read, Walk, ParamsBytes, InitrdAddr;
    WrappedPlacement(b.kernel.segments[0]);
    StepsInOrder(b);
    var steps := b.Steps();
    var i := |steps| - 2;
    assert steps[i] == Write(PML4_ADDR, Zeros(8)) && steps[i + 1] == Write(ZERO_PAGE_ADDR, b.Params());
    WriteSurvives(m, steps, i);
    ZeroRootFaults(Final(m, steps));
  }

  lemma ZeroRootFaults(m: Mem)
    requires Read(m, PML4_ADDR, 8) == Ok(Zeros(8))
    ensures Walk(m, PML4_ADDR, 0) == None
  {
    hide Read, HasBit, FrameOf, FromLE;
    ZeroBytes(Zeros(8));
    ZeroHasNoBits();
    LinksDecode();
  }

  lemma ZeroHasNoBits()
    ensures !HasBit(0, 1)
  {
  }

  // ---------------------------------------------------------------- the kernel image

  ghost predicate SegmentsApart(segments: seq<LoadSegment>) {
    forall i, j :: 0 <= i < j < |segments| ==>
      Apart(segments[i].guestAddr, segments[i].memSize, segments[j].guestAddr, segments[j].memSize)
  }

  /** The byte that belongs at offset `x` of a loaded segment: file contents, then zeros. */
  function SegmentByte(image: seq<byte>, s: LoadSegment, x: nat): (v: Option<byte>)
    requires s.fileSize > 0 ==> s.fileOffset + s.fileSize <= |image|
  {
    if x < s.fileSize then Some(image[s.fileOffset + x])
    else if x < s.memSize then Some(0)
    else None
  }

  /** The segment is entirely in memory. */
  ghost predicate Loaded(m: Mem, image: seq<byte>, s: LoadSegment) {
    && (s.fileSize > 0 ==> s.fileOffset + s.fileSize <= |image|)
    && forall x: nat :: x < s.memSize ==> At(m, s.guestAddr + x) == SegmentByte(image, s, x)
  }

  lemma SegmentLoads(m: Mem, image: seq<byte>, s: LoadSegment)
    requires WellFormed(m) && Boots(m, SegmentSteps(image, s)) && s.fileSize <= s.memSize
    ensures Loaded(Final(m, SegmentSteps(image, s)), image, s)
  {
    hide At, WellFormed, Put, CanAccess;
    var steps := SegmentSteps(image, s);
    if s.fileSize > 0 && s.fileOffset + s.fileSize > |image| {
      FailsAtOnce(m, steps, KernelTooLarge);
    }
    forall x: nat | x < s.memSize
      ensures At(Final(m, steps), s.guestAddr + x) == SegmentByte(image, s, x)
    {
      if x < s.fileSize {
        LastWriteWins(m, steps, 0, s.guestAddr + x);
      } else {
        LastWriteWins(m, steps, |steps| - 1, s.guestAddr + x);
      }
    }
  }

  /** Steps that stay off a loaded segment leave it loaded. */
  lemma StaysLoaded(m: Mem, steps: seq<Step>, image: seq<byte>, s: LoadSegment)
    requires WellFormed(m) && Loaded(m, image, s)
    requires forall i :: 0 <= i < |steps| ==> steps[i].Avoids(s.guestAddr, s.memSize)
    ensures Loaded(Final(m, steps), image, s)
  {
    hide At, WellFormed, Run;
    forall x: nat | x < s.memSize
      ensures At(Final(m, steps), s.guestAddr + x) == SegmentByte(image, s, x)
    {
      forall i | 0 <= i < |steps| ensures !steps[i].Hits(s.guestAddr + x) {
        assert steps[i].Avoids(s.guestAddr, s.memSize);
      }
      Untouched(m, steps, s.guestAddr + x);
    }
  }

  ghost predicate FileWithinMemory(segments: seq<LoadSegment>) {
    forall i :: 0 <= i < |segments| ==> segments[i].fileSize <= segments[i].memSize
  }

  lemma {:induction false} KernelLoads(m: Mem, image: seq<byte>, segments: seq<LoadSegment>)
    requires WellFormed(m) && Boots(m, LoadSteps(image, segments))
    requires SegmentsApart(segments) && FileWithinMemory(segments)
    ensures forall k :: 0 <= k < |segments| ==> Loaded(Final(m, LoadSteps(image, segments)), image, segments[k])
    decreases |segments|
  {
    hide At, WellFormed, Run, Loaded, SegmentSteps;
    if segments != [] {
      var init, last := segments[..|segments| - 1], segments[|segments| - 1];
      RunConcat(m, LoadSteps(image, init), SegmentSteps(image, last));
      KernelLoads(m, image, init);
      var m1 := Final(m, LoadSteps(image, init));
      RunLayout(m, LoadSteps(image, init));
      SegmentLoads(m1, image, last);
      forall k | 0 <= k < |init|
        ensures Loaded(Final(m1, SegmentSteps(image, last)), image, segments[k])
      {
        assert segments[k] == init[k];
        SegmentStepsAvoid(image, last, segments[k]);
        StaysLoaded(m1, SegmentSteps(image, last), image, segments[k]);
      }
    }
  }

  lemma SegmentStepsAvoid(image: seq<byte>, s: LoadSegment, other: LoadSegment)
    requires Apart(other.guestAddr, other.memSize, s.guestAddr, s.memSize) && s.fileSize <= s.memSize
    ensures forall i :: 0 <= i < |SegmentSteps(image, s)| ==> SegmentSteps(image, s)[i].Avoids(other.guestAddr, other.memSize)
  {
  }

  lemma LaterStepsAvoidSegment(b: Boot, s: LoadSegment)
    requires InitrdClear(b, s.guestAddr, s.memSize) && s.guestAddr >= MIB
    ensures forall i :: 0 <= i < 514 ==> TableSteps()[i].Avoids(s.guestAddr, s.memSize)
    ensures forall i :: 0 <= i < |b.LateSteps()| ==> b.LateSteps()[i].Avoids(s.guestAddr, s.memSize)
  {
    hide U64LE, InitrdClear, Boot.LateSteps;
    forall i | 0 <= i < 514 ensures TableSteps()[i].Avoids(s.guestAddr, s.memSize) {
      assert i >= 2 ==> TableSteps()[i] == PdStep(i - 2);
    }
    LateStepsAvoid(b, s.guestAddr, s.memSize);
  }

  /** The kernel is intact when the guest starts: every segment holds its file bytes and zeroed remainder. */
  lemma KernelIntact(m: Mem, b: Boot)
    requires WellFormed(m) && Boots(m, b.Steps())
    requires HighSegments(b.kernel.segments) && SegmentsApart(b.kernel.segments) && FileWithinMemory(b.kernel.segments)
    requires forall s :: s in b.kernel.segments ==> InitrdClear(b, s.guestAddr, s.memSize)
    ensures forall k :: 0 <= k < |b.kernel.segments| ==>
              Loaded(Final(m, b.Steps()), b.kernel.image, b.kernel.segments[k])
  {
    hide Run, LoadSteps, TableSteps, Boot.LateSteps, Boot.Steps, WellFormed, Loaded, InitrdClear, SegmentsApart, FileWithinMemory;
    var image, segments := b.kernel.image, b.kernel.segments;
    BootPhases(m, b);
    KernelLoads(m, image, segments);
    var m1 := Final(m, LoadSteps(image, segments));
    RunLayout(m, LoadSteps(image, segments));
    RunLayout(m1, TableSteps());
    forall k | 0 <= k < |segments|
      ensures Loaded(Final(m, b.Steps()), image, segments[k])
    {
      LaterStepsAvoidSegment(b, segments[k]);
      StaysLoaded(m1, TableSteps(), image, segments[k]);
      StaysLoaded(Final(m1, TableSteps()), b.LateSteps(), image, segments[k]);
    }
  }

  // ---------------------------------------------------------------- the other structures

  /** What a late step wrote, and no later step touches, is in memory at the end. */
  lemma LateSurvives(m: Mem, b: Boot, i: nat)
    requires WellFormed(m) && Boots(m, b.Steps()) && i < |b.LateSteps()| && b.LateSteps()[i].Write?
    requires forall j :: i < j < |b.LateSteps()| ==> b.LateSteps()[j].Avoids(b.LateSteps()[i].addr, |b.LateSteps()[i].data|)
    ensures var s := b.LateSteps()[i]; Read(Final(m, b.Steps()), s.addr, |s.data|) == Ok(s.data)
  {
    hide Run, Boot.LateSteps, Boot.Steps, AfterTables, TablesInPlace, WellFormed, Read;
    TablesWritten(m, b);
    WriteSurvives(AfterTables(m, b), b.LateSteps(), i);
  }

  lemma LateSucceeds(m: Mem, b: Boot)
    requires WellFormed(m) && Boots(m, b.Steps())
    ensures |b.cmdline| < CMDLINE_MAX_SIZE && (b.initrd.Some? ==> |b.initrd.value| <= INITRD_MAX)
    ensures forall i :: 0 <= i < |b.LateSteps()| ==> b.LateSteps()[i].Write?
  {
    hide Run, Boot.LateSteps, Boot.Steps, AfterTables, TablesInPlace, WellFormed, InitrdAddr;
    TablesWritten(m, b);
    NoFailures(AfterTables(m, b), b.LateSteps());
    LateLayout(b);
  }

  /** The zero page is written last and always complete. */
  lemma ZeroPageIntact(m: Mem, b: Boot)
    requires WellFormed(m) && Boots(m, b.Steps())
    ensures Read(Final(m, b.Steps()), ZERO_PAGE_ADDR, PAGE) == Ok(b.Params())
  {
    hide Run, Boot.LateSteps, Boot.Steps, WellFormed, Read, Boot.Params;
    LateLayout(b);
    LateSurvives(m, b, |b.LateSteps()| - 1);
  }

  /** The descriptor table is complete if the RAM disk is clear of it. */
  lemma GdtIntact(m: Mem, b: Boot, i: nat)
    requires WellFormed(m) && Boots(m, b.Steps()) && i < 3 && InitrdClear(b, GDT_ADDR, 24)
    ensures ReadU64(Final(m, b.Steps()), GDT_ADDR + i * 8) == Some(GDT[i])
  {
    hide Run, Boot.LateSteps, Boot.Steps, WellFormed, Read, Boot.Params, U64LE, AsU64, InitrdAddr;
    LateLayout(b);
    LateSucceeds(m, b);
    LateSurvives(m, b, i);
    U64RoundTrip(GDT[i]);
  }

  /** The command line with its terminator is complete if the RAM disk is clear of it. */
  lemma CmdlineIntact(m: Mem, b: Boot)
    requires WellFormed(m) && Boots(m, b.Steps()) && InitrdClear(b, CMDLINE_ADDR, |b.cmdline| + 1)
    ensures |b.cmdline| < CMDLINE_MAX_SIZE
    ensures Read(Final(m, b.Steps()), CMDLINE_ADDR, |b.cmdline| + 1) == Ok(b.cmdline + [0])
  {
    hide Run, Boot.LateSteps, Boot.Steps, WellFormed, Read, Boot.Params, InitrdAddr;
    LateLayout(b);
    LateSucceeds(m, b);
    LateSurvives(m, b, 3);
  }

  /** The RAM disk is complete if it is clear of the zero page, the only later write. */
  lemma InitrdIntact(m: Mem, b: Boot)
    requires WellFormed(m) && Boots(m, b.Steps()) && b.initrd.Some? && InitrdClear(b, ZERO_PAGE_ADDR, PAGE)
    ensures |b.initrd.value| <= INITRD_MAX
    ensures Read(Final(m, b.Steps()), InitrdAddr(b.kernel.segments), |b.initrd.value|) == Ok(b.initrd.value)
  {
    hide Run, Boot.LateSteps, Boot.Steps, WellFormed, Read, Boot.Params, InitrdAddr;
    LateLayout(b);
    LateSucceeds(m, b);
    LateSurvives(m, b, 4);
  }

  /** A run that succeeds contains no failing step. */
  lemma {:induction false} NoFailures(m: Mem, steps: seq<Step>)
    requires Boots(m, steps)
    ensures forall i :: 0 <= i < |steps| ==> steps[i].Write?
    decreases |steps|
  {
    hide CanAccess, Put;
    if steps != [] {
      assert steps[0].Write?;
      NoFailures(Put(m, steps[0].addr, steps[0].data), steps[1..]);
      assert forall i :: 0 < i < |steps| ==> steps[i] == steps[1..][i - 1];
    }
  }

  // ---------------------------------------------------------------- what the guest kernel reads

  /** A 32-bit field of the zero page as the guest kernel reads it. */
  function GuestField(m: Mem, off: nat): (v: Option<u32>) {
    match Read(m, ZERO_PAGE_ADDR + off, 4)
    case Ok(s) => Some(AsU32(s))
    case Err(_) => None
  }

  lemma FieldsApart(memSize: u64, cmdlineLen: u32, initrd: Option<(u32, u32)>)
    ensures PatchesApart(Patches(memSize, cmdlineLen, initrd))
  {
    hide E820Bytes, U32LE;
  }

  /** Patch `i` of the zero page is what the guest reads at its place. */
  lemma GuestReadsPatch(m: Mem, b: Boot, i: nat)
    requires WellFormed(m) && Read(m, ZERO_PAGE_ADDR, PAGE) == Ok(b.Params())
    requires i < |b.Fields()| && b.Fields()[i].bytes != []
    ensures var p := b.Fields()[i]; Read(m, ZERO_PAGE_ADDR + p.off, |p.bytes|) == Ok(p.bytes)
  {
    hide Patches, WellFormed, Patched, Read;
    var ps := b.Fields();
    FieldsApart(b.memSize, |b.cmdline| % 0x1_0000_0000, b.RamdiskFields());
    FieldKept(Zeros(PAGE), ps, i);
    assert ps[i].Fits();
    PartRead(m, ZERO_PAGE_ADDR, PAGE, ps[i].off, |ps[i].bytes|);
  }

  lemma GuestReadsField(m: Mem, b: Boot, i: nat, v: u32)
    requires WellFormed(m) && Read(m, ZERO_PAGE_ADDR, PAGE) == Ok(b.Params())
    requires i < |b.Fields()| && b.Fields()[i].bytes == U32LE(v)
    ensures GuestField(m, b.Fields()[i].off) == Some(v)
  {
    hide U32LE, AsU32, WellFormed, Read, Boot.Fields, Boot.Params;
    GuestReadsPatch(m, b, i);
    U32RoundTrip(v);
  }

  lemma PartRead(m: Mem, a: nat, n: nat, off: nat, k: nat)
    requires WellFormed(m) && Read(m, a, n).Ok? && off + k <= n && k > 0
    ensures Read(m, a + off, k) == Ok(Read(m, a, n).value[off..off + k])
  {
    ReadAt(m, a, n);
    AccessPart(m, a, n, a + off, k);
    AccessInside(m, a, n, a + off);
    var reg := m[FindRegion(m, a)];
    var i := a - reg.base;
    assert reg.bytes[i..i + n][off..off + k] == reg.bytes[i + off..i + off + k];
  }

  /** The guest finds its command line through the zero page, complete and terminated. */
  lemma GuestFindsCmdline(m: Mem, b: Boot)
    requires WellFormed(m) && Boots(m, b.Steps()) && InitrdClear(b, CMDLINE_ADDR, |b.cmdline| + 1)
    ensures var m' := Final(m, b.Steps());
            && GuestField(m', CMD_LINE_PTR) == Some(CMDLINE_ADDR)
            && GuestField(m', CMDLINE_SIZE) == Some(|b.cmdline|)
            && Read(m', GuestField(m', CMD_LINE_PTR).value, GuestField(m', CMDLINE_SIZE).value + 1) == Ok(b.cmdline + [0])
  {
    hide Run, Boot.Steps, WellFormed, Read, GuestField, Boot.Params, U32LE, E820Bytes, InitrdAddr, InitrdClear;
    var m' := Final(m, b.Steps());
    RunLayout(m, b.Steps());
    ZeroPageIntact(m, b);
    CmdlineIntact(m, b);
    GuestReadsField(m', b, 3, CMDLINE_ADDR);
    GuestReadsField(m', b, 4, |b.cmdline|);
  }

  /** The zero page gives the RAM disk's address iff it was placed below 4 GiB, and the guest then finds it there. */
  lemma GuestFindsInitrdIff(m: Mem, b: Boot)
    requires WellFormed(m) && Boots(m, b.Steps()) && b.initrd.Some? && InitrdClear(b, ZERO_PAGE_ADDR, PAGE)
    ensures var m' := Final(m, b.Steps());
            && GuestField(m', RAMDISK_IMAGE).Some? && GuestField(m', RAMDISK_SIZE) == Some(|b.initrd.value|)
            && (GuestField(m', RAMDISK_IMAGE) == Some(InitrdAddr(b.kernel.segments)) <==>
                InitrdAddr(b.kernel.segments) < 0x1_0000_0000)
            && (InitrdAddr(b.kernel.segments) < 0x1_0000_0000 ==>
                Read(m', GuestField(m', RAMDISK_IMAGE).value, GuestField(m', RAMDISK_SIZE).value) == Ok(b.initrd.value))
  {
    hide Run, Boot.Steps, WellFormed, Read, GuestField, Boot.Params, U32LE, E820Bytes, InitrdAddr, InitrdClear;
    var m' := Final(m, b.Steps());
    RunLayout(m, b.Steps());
    ZeroPageIntact(m, b);
    InitrdIntact(m, b);
    GuestReadsField(m', b, 7, InitrdAddr(b.kernel.segments) % 0x1_0000_0000);
    GuestReadsField(m', b, 8, |b.initrd.value|);
  }

  /** Entry `i` of the memory map in the zero page. */
  function GuestE820(m: Mem, i: nat): (e: Option<E820Entry>) {
    match Read(m, ZERO_PAGE_ADDR + E820_TABLE + i * E820_ENTRY_LEN, E820_ENTRY_LEN)
    case Ok(s) => if |s| == E820_ENTRY_LEN then Some(E820Decode(s)) else None
    case Err(_) => None
  }

  /** The address is in a RAM entry of the map the guest finds. */
  ghost predicate Usable(m: Mem, a: nat) {
    exists i, e :: Listed(m, i, e) && e.addr <= a < e.addr + e.size
  }

  ghost predicate Listed(m: Mem, i: nat, e: E820Entry) {
    && (exists n: byte :: Read(m, ZERO_PAGE_ADDR + E820_COUNT, 1) == Ok([n]) && i < n)
    && GuestE820(m, i) == Some(e) && e.kind == E820_RAM
  }

  lemma GuestReadsE820(m: Mem, b: Boot, i: nat, e: E820Entry)
    requires WellFormed(m) && Read(m, ZERO_PAGE_ADDR, PAGE) == Ok(b.Params())
    requires i < |b.Fields()| && b.Fields()[i] == Patch(E820_TABLE + i * E820_ENTRY_LEN, E820Bytes(e))
    ensures GuestE820(m, i) == Some(e)
  {
    hide WellFormed, Read, Boot.Fields, Boot.Params, E820Bytes, E820Decode;
    GuestReadsPatch(m, b, i);
    E820RoundTrip(e);
  }

  /** The guest finds exactly two RAM ranges: low memory, and everything from 1 MiB up. */
  lemma GuestFindsMemoryMap(m: Mem, b: Boot, a: nat)
    requires WellFormed(m) && Boots(m, b.Steps())
    ensures Usable(Final(m, b.Steps()), a) <==> a < 0x9FC00 || MIB <= a < b.memSize
  {
    hide Run, Boot.Steps, WellFormed, Read, GuestE820, Boot.Params, U32LE, E820Bytes, InitrdAddr;
    var m' := Final(m, b.Steps());
    RunLayout(m, b.Steps());
    ZeroPageIntact(m, b);
    var low, high := E820Entry(0, 0x9FC00, E820_RAM), E820Entry(MIB, SatSub(b.memSize, MIB), E820_RAM);
    GuestReadsE820(m', b, 0, low);
    GuestReadsE820(m', b, 1, high);
    GuestReadsPatch(m', b, 2);
    assert Listed(m', 0, low) && Listed(m', 1, high);
  }

  /** With memory of a whole number of MiB from address 0 every usable address exists. */
  lemma MapIsBacked(m: Mem, b: Boot, mib: nat)
    requires WellFormed(m) && Boots(m, b.Steps())
    requires |m| == 1 && m[0].base == 0 && |m[0].bytes| == b.memSize == mib * MIB
    ensures forall a :: Usable(Final(m, b.Steps()), a) ==> At(m, a).Some?
  {
    hide Run, Boot.Steps, Usable, Boots;
    assert mib > 0 && b.memSize >= MIB;
    forall a: nat | Usable(Final(m, b.Steps()), a)
      ensures At(m, a).Some?
    {
      GuestFindsMemoryMap(m, b, a);
    }
  }

  /** The first `n` device windows, one after the other from the MMIO base on. */
  predicate InWindows(a: nat, n: nat) {
    DeviceSnapshot.MMIO_BASE <= a < DeviceSnapshot.MMIO_BASE + n * DeviceSnapshot.MMIO_SIZE
  }

  /** The guest is offered no device address as RAM iff its memory ends at or below the first device window. */
  lemma MapAvoidsDevicesIff(m: Mem, b: Boot, n: nat)
    requires WellFormed(m) && Boots(m, b.Steps()) && n > 0
    ensures (forall a :: InWindows(a, n) ==> !Usable(Final(m, b.Steps()), a)) <==> b.memSize <= DeviceSnapshot.MMIO_BASE
  {
    hide Run, Boot.Steps, WellFormed, Usable, Boots;
    forall a: nat
      ensures Usable(Final(m, b.Steps()), a) <==> a < 0x9FC00 || MIB <= a < b.memSize
    {
      GuestFindsMemoryMap(m, b, a);
    }
    assert InWindows(DeviceSnapshot.MMIO_BASE, n);
  }
}
