/**
 The identity-mapped page tables and the GDT of a 64-bit boot, and the four-level
 address translation that gives the tables their meaning (Intel SDM, volume 3A,
 section 4.5).
 */
module PageTables {
  import opened Wrappers
  import opened Bytes
  import opened Arithmetic
  import opened GuestMemory
  import opened BootSteps

  const PML4_ADDR: nat := 0x9000
  const PDPT_ADDR: nat := 0xA000
  const PD_ADDR: nat := 0xB000
  const TABLES_END: nat := 0xC000
  const GDT_ADDR: nat := 0x500

  /** Bytes covered by one page-directory entry and by one whole directory. */
  const PAGE_2M: nat := 0x20_0000
  const SPAN_1G: nat := 0x4000_0000

  /** PTE_PRESENT | PTE_WRITABLE */
  const LINK_FLAGS: nat := 3
  /** PTE_PRESENT | PTE_WRITABLE | PTE_PS */
  const PAGE_FLAGS: nat := 0x83

  // ---------------------------------------------------------------- what set-up writes

  function PdEntry(i: nat): (e: u64)
    requires i < 512
  {
    i * PAGE_2M + PAGE_FLAGS
  }

  function PdStep(i: nat): (s: Step)
    requires i < 512
  {
    Write(PD_ADDR + i * 8, U64LE(PdEntry(i)))
  }

  function PdSteps(n: nat): (ss: seq<Step>)
    requires n <= 512
    ensures |ss| == n && forall i :: 0 <= i < n ==> ss[i] == PdStep(i)
  {
    seq(n, i requires 0 <= i < n => PdStep(i))
  }

  function RootSteps(): (ss: seq<Step>) {
    [Write(PML4_ADDR, U64LE(PDPT_ADDR + LINK_FLAGS)), Write(PDPT_ADDR, U64LE(PD_ADDR + LINK_FLAGS))]
  }

  function TableSteps(): (ss: seq<Step>)
    ensures |ss| == 514
  {
    RootSteps() + PdSteps(512)
  }

  /** Null, 64-bit code and data descriptors. */
  const GDT: seq<u64> := [0, 0x00AF_9A00_0000_FFFF, 0x00CF_9200_0000_FFFF]

  function GdtSteps(n: nat): (ss: seq<Step>)
    requires n <= 3
    ensures |ss| == n && forall i :: 0 <= i < n ==> ss[i] == Write(GDT_ADDR + i * 8, U64LE(GDT[i]))
  {
    seq(n, i requires 0 <= i < n => Write(GDT_ADDR + i * 8, U64LE(GDT[i])))
  }

  lemma RunSnoc(m: Mem, steps: seq<Step>, s: Step)
    ensures Boots(m, steps) ==> Run(m, steps + [s]) == Run(Final(m, steps), [s])
    ensures !Boots(m, steps) ==> Run(m, steps + [s]) == Run(m, steps)
  {
    RunConcat(m, steps, [s]);
  }

  /** `setup_long_mode_page_tables`. */
  method SetupPageTables(mem: GuestMemoryMmap) returns (e: Option<BootError>)
    requires mem.Valid()
    modifies mem.Repr
    ensures mem.Valid()
    ensures (mem.contents, e) == Run(old(mem.contents), TableSteps())
  {
    hide GuestMemoryMmap.Valid, Run, U64LE;
    ghost var m, root := mem.contents, RootSteps();
    ghost var all := TableSteps();
    e := DoWrite(mem, PML4_ADDR, U64LE(PDPT_ADDR + LINK_FLAGS));
    StopsEarly(m, all, 1);
    assert all[..1] == [root[0]];
    if e.Some? {
      return;
    }
    e := DoWrite(mem, PDPT_ADDR, U64LE(PD_ADDR + LINK_FLAGS));
    RunSnoc(m, all[..1], all[1]);
    assert all[..2] == all[..1] + [all[1]];
    StopsEarly(m, all, 2);
    if e.Some? {
      return;
    }
    for i := 0 to 512
      invariant mem.Valid() && e == None && (mem.contents, e) == Run(m, all[..2 + i])
    {
      e := DoWrite(mem, PD_ADDR + i * 8, U64LE(PdEntry(i)));
      assert all[2 + i] == PdStep(i);
      RunSnoc(m, all[..2 + i], all[2 + i]);
      assert all[..3 + i] == all[..2 + i] + [all[2 + i]];
      StopsEarly(m, all, 3 + i);
      if e.Some? {
        return;
      }
    }
    assert all[..514] == all;
  }

  /** A failure in a prefix is a failure of the whole. */
  lemma StopsEarly(m: Mem, steps: seq<Step>, k: nat)
    requires k <= |steps|
    ensures !Boots(m, steps[..k]) ==> Run(m, steps) == Run(m, steps[..k])
  {
    assert steps == steps[..k] + steps[k..];
    RunConcat(m, steps[..k], steps[k..]);
  }

  /** `setup_gdt`. */
  method SetupGdt(mem: GuestMemoryMmap) returns (e: Option<BootError>)
    requires mem.Valid()
    modifies mem.Repr
    ensures mem.Valid()
    ensures (mem.contents, e) == Run(old(mem.contents), GdtSteps(3))
  {
    hide GuestMemoryMmap.Valid, U64LE, CanAccess;
    ghost var m, all := mem.contents, GdtSteps(3);
    e := None;
    assert all[..0] == [];
    for i := 0 to 3
      invariant mem.Valid() && e == None && (mem.contents, e) == Run(m, all[..i])
    {
      e := DoWrite(mem, GDT_ADDR + i * 8, U64LE(GDT[i]));
      RunSnoc(m, all[..i], all[i]);
      assert all[..i + 1] == all[..i] + [all[i]];
      StopsEarly(m, all, i + 1);
      if e.Some? {
        return;
      }
    }
    assert all[..3] == all;
  }

  // ---------------------------------------------------------------- address translation

  function ReadU64(m: Mem, a: nat): (v: Option<u64>) {
    match Read(m, a, 8)
    case Ok(s) => Some(AsU64(s))
    case Err(_) => None
  }

  /** Bits 51 down to the page size of an entry. */
  function FrameOf(e: u64, pageSize: nat): (f: nat)
    requires pageSize > 0
  {
    e % 0x10_0000_0000_0000 / pageSize * pageSize
  }

  predicate Canonical(va: nat) {
    va < 0x8000_0000_0000 || 0xFFFF_8000_0000_0000 <= va < 0x1_0000_0000_0000_0000
  }

  /** The entry of a table for an address, when present. */
  function Present(m: Mem, table: nat, index: nat): (e: Option<u64>) {
    match ReadU64(m, table + 8 * index)
    case Some(e) => if HasBit(e, 1) then Some(e) else None
    case None => None
  }

  predicate IsPage(e: u64) {
    HasBit(e, 0x80)
  }

  /** The physical address of `va`, or `None` for a fault. */
  function Walk(m: Mem, cr3: u64, va: nat): (pa: Option<nat>) {
    if !Canonical(va) then None else
    match Present(m, FrameOf(cr3, 0x1000), va / 0x80_0000_0000 % 512)
    case None => None
    case Some(pml4e) =>
      match Present(m, FrameOf(pml4e, 0x1000), va / SPAN_1G % 512)
      case None => None
      case Some(pdpte) =>
        if IsPage(pdpte) then Some(FrameOf(pdpte, SPAN_1G) + va % SPAN_1G) else
        match Present(m, FrameOf(pdpte, 0x1000), va / PAGE_2M % 512)
        case None => None
        case Some(pde) =>
          if IsPage(pde) then Some(FrameOf(pde, PAGE_2M) + va % PAGE_2M) else
          match Present(m, FrameOf(pde, 0x1000), va / 0x1000 % 512)
          case None => None
          case Some(pte) => Some(FrameOf(pte, 0x1000) + va % 0x1000)
  }

  /** The entries that set-up writes are in place. */
  ghost predicate TablesInPlace(m: Mem) {
    && ReadU64(m, PML4_ADDR) == Some(PDPT_ADDR + LINK_FLAGS)
    && ReadU64(m, PDPT_ADDR) == Some(PD_ADDR + LINK_FLAGS)
    && forall i: nat :: i < 512 ==> ReadU64(m, PD_ADDR + 8 * i) == Some(PdEntry(i))
  }

  /** No other top-level or second-level entry is present. */
  ghost predicate NothingElse(m: Mem) {
    forall i: nat :: 0 < i < 512 ==> Present(m, PML4_ADDR, i) == None && Present(m, PDPT_ADDR, i) == None
  }

  lemma PdEntryDecodes(i: nat)
    requires i < 512
    ensures HasBit(PdEntry(i), 1) && IsPage(PdEntry(i)) && FrameOf(PdEntry(i), PAGE_2M) == i * PAGE_2M
  {
    var e := PdEntry(i);
    DivModUnique(0x80, e, i * 0x4000 + 1, 3);
    DivModUnique(2, i * 0x4000 + 1, i * 0x2000, 1);
    DivModUnique(2, e, i * 0x10_0000 + 0x41, 1);
    DivModUnique(0x10_0000_0000_0000, e, 0, e);
    DivModUnique(PAGE_2M, e, i, PAGE_FLAGS);
  }

  lemma LinksDecode()
    ensures HasBit(PDPT_ADDR + LINK_FLAGS, 1) && FrameOf(PDPT_ADDR + LINK_FLAGS, 0x1000) == PDPT_ADDR
    ensures HasBit(PD_ADDR + LINK_FLAGS, 1) && FrameOf(PD_ADDR + LINK_FLAGS, 0x1000) == PD_ADDR
    ensures !IsPage(PD_ADDR + LINK_FLAGS)
    ensures FrameOf(PML4_ADDR, 0x1000) == PML4_ADDR
  {
  }

  lemma IndicesBelow1G(va: nat)
    requires va < SPAN_1G
    ensures va / 0x80_0000_0000 % 512 == 0 && va / SPAN_1G % 512 == 0
    ensures va / PAGE_2M < 512 && va / PAGE_2M % 512 == va / PAGE_2M
    ensures va / PAGE_2M * PAGE_2M + va % PAGE_2M == va
  {
    DivModUnique(0x80_0000_0000, va, 0, va);
    DivModUnique(SPAN_1G, va, 0, va);
    DivMod(va, PAGE_2M);
    ModFacts(va / PAGE_2M, 512);
  }

  /** The tables translate every address below 1 GiB to itself. */
  lemma WalkIsIdentity(m: Mem, va: nat)
    requires TablesInPlace(m) && va < SPAN_1G
    ensures Walk(m, PML4_ADDR, va) == Some(va)
  {
    hide ReadU64, HasBit, FrameOf, IsPage, PdEntry;
    IndicesBelow1G(va);
    LinksDecode();
    var i := va / PAGE_2M;
    PdEntryDecodes(i);
    assert ReadU64(m, PD_ADDR + 8 * i) == Some(PdEntry(i));
  }

  lemma IndicesAbove1G(va: nat)
    requires Canonical(va) && va >= SPAN_1G
    ensures va / 0x80_0000_0000 % 512 == 0 ==> va / SPAN_1G % 512 > 0
  {
    var top, second := va / 0x80_0000_0000, va / SPAN_1G;
    DivMod(va, 0x80_0000_0000);
    DivMod(va, SPAN_1G);
    if va < 0x8000_0000_0000 {
      ModFacts(top, 512);
      ModFacts(second, 512);
    } else {
      DivModUnique(512, top, 65535, top - 512 * 65535);
    }
  }

  /** And they translate nothing else. */
  lemma WalkFaultsElsewhere(m: Mem, va: nat)
    requires TablesInPlace(m) && NothingElse(m) && va >= SPAN_1G
    ensures Walk(m, PML4_ADDR, va) == None
  {
    hide HasBit, FrameOf, IsPage, PdEntry, ReadU64;
    LinksDecode();
    if Canonical(va) {
      IndicesAbove1G(va);
    }
  }

  // ---------------------------------------------------------------- set-up puts the tables in place

  lemma ReadsBack(m: Mem, steps: seq<Step>, i: nat, v: u64)
    requires WellFormed(m) && Boots(m, steps) && i < |steps| && steps[i].Write? && steps[i].data == U64LE(v)
    requires forall j :: i < j < |steps| ==> steps[j].Avoids(steps[i].addr, 8)
    ensures ReadU64(Final(m, steps), steps[i].addr) == Some(v)
  {
    hide Run, Read, AsU64, WellFormed;
    WriteSurvives(m, steps, i);
    U64RoundTrip(v);
  }

  lemma TableStepsApart(i: nat, j: nat)
    requires i < j < 514
    ensures TableSteps()[i].Write? && TableSteps()[j].Avoids(TableSteps()[i].addr, 8)
  {
    hide U64LE;
    var ss := TableSteps();
    assert i >= 2 ==> ss[i] == PdStep(i - 2);
    assert j >= 2 ==> ss[j] == PdStep(j - 2);
  }

  lemma SetupPlacesTables(m: Mem)
    requires WellFormed(m) && Boots(m, TableSteps())
    ensures TablesInPlace(Final(m, TableSteps()))
  {
    hide Run, ReadU64, WellFormed, U64LE, PdEntry;
    var ss := TableSteps();
    forall i: nat, j: nat | i < j < 514
      ensures ss[i].Write? && ss[j].Avoids(ss[i].addr, 8)
    {
      TableStepsApart(i, j);
    }
    ReadsBack(m, ss, 0, PDPT_ADDR + LINK_FLAGS);
    ReadsBack(m, ss, 1, PD_ADDR + LINK_FLAGS);
    forall i: nat | i < 512
      ensures ReadU64(Final(m, ss), PD_ADDR + 8 * i) == Some(PdEntry(i))
    {
      assert ss[i + 2] == PdStep(i);
      ReadsBack(m, ss, i + 2, PdEntry(i));
    }
  }

  // ---------------------------------------------------------------- the tables byte by byte

  /** The address lies in an entry that set-up writes. */
  predicate InEntry(x: nat) {
    PML4_ADDR <= x < PML4_ADDR + 8 || PDPT_ADDR <= x < PDPT_ADDR + 8 || PD_ADDR <= x < TABLES_END
  }

  /** The byte that set-up puts there. */
  function TableByte(x: nat): (b: byte)
    requires InEntry(x)
  {
    if x < PML4_ADDR + 8 then U64LE(PDPT_ADDR + LINK_FLAGS)[x - PML4_ADDR]
    else if x < PDPT_ADDR + 8 then U64LE(PD_ADDR + LINK_FLAGS)[x - PDPT_ADDR]
    else U64LE(PdEntry((x - PD_ADDR) / 8))[(x - PD_ADDR) % 8]
  }

  lemma U64Bytes(s: seq<byte>, v: u64)
    requires |s| == 8
    ensures AsU64(s) == v <==> s == U64LE(v)
  {
    hide ToLE, FromLE;
    U64RoundTrip(v);
    ToFromLE(s);
  }

  lemma EntryByBytes(m: Mem, a: nat, v: u64)
    requires WellFormed(m) && CanAccess(m, a, 8)
    ensures ReadU64(m, a) == Some(v) <==> forall k :: 0 <= k < 8 ==> At(m, a + k) == Some(U64LE(v)[k])
  {
    hide WellFormed, CanAccess, U64LE, AsU64, At;
    ReadAt(m, a, 8);
    var s := Read(m, a, 8).value;
    U64Bytes(s, v);
    assert forall k :: 0 <= k < 8 ==> At(m, a + k) == Some(s[k]);
    if forall k :: 0 <= k < 8 ==> At(m, a + k) == Some(U64LE(v)[k]) {
      forall k | 0 <= k < 8 ensures s[k] == U64LE(v)[k] {
        assert At(m, a + k) == Some(s[k]);
      }
      assert s == U64LE(v);
    }
  }

  /** All entries can be accessed. */
  ghost predicate TablesMapped(m: Mem) {
    CanAccess(m, PML4_ADDR, 8) && CanAccess(m, PDPT_ADDR, 8) && forall i: nat :: i < 512 ==> CanAccess(m, PD_ADDR + 8 * i, 8)
  }

  lemma InPlaceIsMapped(m: Mem)
    requires TablesInPlace(m)
    ensures TablesMapped(m)
  {
    forall i: nat | i < 512 ensures CanAccess(m, PD_ADDR + 8 * i, 8) {
      assert ReadU64(m, PD_ADDR + 8 * i) == Some(PdEntry(i));
    }
  }

  lemma PdByte(i: nat, k: nat)
    requires i < 512 && k < 8
    ensures InEntry(PD_ADDR + 8 * i + k) && TableByte(PD_ADDR + 8 * i + k) == U64LE(PdEntry(i))[k]
  {
    hide U64LE;
    var x := PD_ADDR + 8 * i + k;
    assert (x - PD_ADDR) / 8 == i && (x - PD_ADDR) % 8 == k;
  }

  lemma PdAddress(x: nat)
    requires PD_ADDR <= x < TABLES_END
    ensures (x - PD_ADDR) / 8 < 512 && x == PD_ADDR + 8 * ((x - PD_ADDR) / 8) + (x - PD_ADDR) % 8
  {
  }

  /** The tables are in place iff every byte of theirs is. */
  lemma TablesByBytes(m: Mem)
    requires WellFormed(m) && TablesMapped(m)
    ensures TablesInPlace(m) <==> forall x: nat :: InEntry(x) ==> At(m, x) == Some(TableByte(x))
  {
    hide WellFormed, CanAccess, At, ReadU64, TableByte, TablesInPlace;
    if TablesInPlace(m) {
      forall x: nat | InEntry(x)
        ensures At(m, x) == Some(TableByte(x))
      {
        BytesInPlace(m, x);
      }
    }
    if forall x: nat :: InEntry(x) ==> At(m, x) == Some(TableByte(x)) {
      EntriesInPlace(m);
    }
  }

  lemma BytesInPlace(m: Mem, x: nat)
    requires WellFormed(m) && TablesMapped(m) && TablesInPlace(m) && InEntry(x)
    ensures At(m, x) == Some(TableByte(x))
  {
    hide WellFormed, CanAccess, U64LE, At, ReadU64, PdEntry;
    EntryByBytes(m, PML4_ADDR, PDPT_ADDR + LINK_FLAGS);
    EntryByBytes(m, PDPT_ADDR, PD_ADDR + LINK_FLAGS);
    if x < PML4_ADDR + 8 {
      var k := x - PML4_ADDR;
      assert At(m, PML4_ADDR + k) == Some(U64LE(PDPT_ADDR + LINK_FLAGS)[k]);
    } else if x < PDPT_ADDR + 8 {
      var k := x - PDPT_ADDR;
      assert At(m, PDPT_ADDR + k) == Some(U64LE(PD_ADDR + LINK_FLAGS)[k]);
    } else {
      PdAddress(x);
      var i, k := (x - PD_ADDR) / 8, (x - PD_ADDR) % 8;
      EntryByBytes(m, PD_ADDR + 8 * i, PdEntry(i));
      assert At(m, PD_ADDR + 8 * i + k) == Some(U64LE(PdEntry(i))[k]);
      PdByte(i, k);
    }
  }

  lemma LinksByBytes(m: Mem)
    requires WellFormed(m) && TablesMapped(m) && forall x: nat :: InEntry(x) ==> At(m, x) == Some(TableByte(x))
    ensures ReadU64(m, PML4_ADDR) == Some(PDPT_ADDR + LINK_FLAGS) && ReadU64(m, PDPT_ADDR) == Some(PD_ADDR + LINK_FLAGS)
  {
    hide WellFormed, CanAccess, U64LE, At, ReadU64, PdEntry;
    var root, second := U64LE(PDPT_ADDR + LINK_FLAGS), U64LE(PD_ADDR + LINK_FLAGS);
    forall k | 0 <= k < 8
      ensures At(m, PML4_ADDR + k) == Some(root[k])
    {
      assert InEntry(PML4_ADDR + k);
    }
    forall k | 0 <= k < 8
      ensures At(m, PDPT_ADDR + k) == Some(second[k])
    {
      assert InEntry(PDPT_ADDR + k);
    }
    EntryByBytes(m, PML4_ADDR, PDPT_ADDR + LINK_FLAGS);
    EntryByBytes(m, PDPT_ADDR, PD_ADDR + LINK_FLAGS);
  }

  lemma EntriesInPlace(m: Mem)
    requires WellFormed(m) && TablesMapped(m) && forall x: nat :: InEntry(x) ==> At(m, x) == Some(TableByte(x))
    ensures TablesInPlace(m)
  {
    hide WellFormed, CanAccess, U64LE, At, ReadU64, PdEntry, TableByte;
    LinksByBytes(m);
    forall i: nat | i < 512
      ensures ReadU64(m, PD_ADDR + 8 * i) == Some(PdEntry(i))
    {
      forall k | 0 <= k < 8
        ensures At(m, PD_ADDR + 8 * i + k) == Some(U64LE(PdEntry(i))[k])
      {
        PdByte(i, k);
      }
      EntryByBytes(m, PD_ADDR + 8 * i, PdEntry(i));
    }
  }
}
