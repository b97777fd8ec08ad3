/**
 Building a VM with an ELF kernel: the whole sequence of memory writes, and what
 the guest finds in memory when it starts.
 */
module BootBuilder {
  import opened Wrappers
  import opened Bytes
  import opened GuestMemory
  import opened BootSteps
  import opened PageTables
  import opened Elf
  import opened BootParams

  const ZERO_PAGE_ADDR: nat := 0x7000
  const CMDLINE_ADDR: nat := 0x20000
  const CMDLINE_MAX_SIZE: nat := 4096
  const INITRD_MAX: nat := 0x2000_0000
  const MIB: nat := 0x10_0000
  const TWO64: nat := 0x1_0000_0000_0000_0000

  // ---------------------------------------------------------------- placement and contents

  function Max(a: nat, b: nat): (r: nat) {
    if a >= b then a else b
  }

  /** The highest segment end, in 64-bit arithmetic. */
  function KernelEnd(segments: seq<LoadSegment>): (end: u64) {
    if segments == [] then 0
    else
      var s := segments[|segments| - 1];
      Max(KernelEnd(segments[..|segments| - 1]), (s.guestAddr + s.memSize) % TWO64)
  }

  /** 1 MiB above `end`, rounded up to a page, in 64-bit arithmetic. */
  function PlaceAbove(end: u64): (a: u64) {
    ((end + MIB) % TWO64 + 0xFFF) % TWO64 / 0x1000 * 0x1000
  }

  /** Where the RAM disk goes; 32 MiB stands in for the end of a kernel without segments. */
  function InitrdAddr(segments: seq<LoadSegment>): (a: u64) {
    PlaceAbove(if segments == [] then 0x200_0000 else KernelEnd(segments))
  }

  /** The parts of the command line joined with single blanks. */
  function JoinParts(parts: seq<seq<byte>>): (s: seq<byte>) {
    if parts == [] then []
    else if |parts| == 1 then parts[0]
    else parts[0] + [32] + JoinParts(parts[1..])
  }

  /** One more byte in front of the first piece. */
  function Attach(c: byte, parts: seq<seq<byte>>): (r: seq<seq<byte>>)
    requires |parts| >= 1
    ensures |r| == |parts|
  {
    [[c] + parts[0]] + parts[1..]
  }

  /** The pieces of `s` between blanks. */
  function SplitBlanks(s: seq<byte>): (parts: seq<seq<byte>>)
    ensures |parts| >= 1
  {
    if s == [] then [[]]
    else
      var rest := SplitBlanks(s[1..]);
      if s[0] == 32 then [[]] + rest else Attach(s[0], rest)
  }

  lemma AttachFirst(c: byte, x: seq<seq<byte>>, y: seq<seq<byte>>)
    requires |x| >= 1
    ensures Attach(c, x + y) == Attach(c, x) + y
  {
    assert (x + y)[1..] == x[1..] + y;
  }

  lemma {:induction false} SplitJoined(p: seq<byte>, s: seq<byte>)
    ensures SplitBlanks(p + [32] + s) == SplitBlanks(p) + SplitBlanks(s)
    decreases |p|
  {
    hide Attach;
    var all := p + [32] + s;
    if p == [] {
      assert all[0] == 32 && all[1..] == s;
    } else {
      assert all[0] == p[0] && all[1..] == p[1..] + [32] + s;
      SplitJoined(p[1..], s);
      var x, y := SplitBlanks(p[1..]), SplitBlanks(s);
      if p[0] == 32 {
        assert [[]] + (x + y) == ([[]] + x) + y;
      } else {
        AttachFirst(p[0], x, y);
      }
    }
  }

  /** The arguments in the parts, part after part. */
  function Pieces(parts: seq<seq<byte>>): (ps: seq<seq<byte>>) {
    if parts == [] then [] else SplitBlanks(parts[0]) + Pieces(parts[1..])
  }

  /** Splitting the command line at blanks gives the arguments of each part, in order; joining adds and merges none. */
  lemma {:induction false} CmdlineParts(parts: seq<seq<byte>>)
    requires parts != []
    ensures SplitBlanks(JoinParts(parts)) == Pieces(parts)
    decreases |parts|
  {
    hide SplitBlanks;
    if |parts| == 1 {
      assert parts[1..] == [];
      assert SplitBlanks(parts[0]) + [] == SplitBlanks(parts[0]);
    } else {
      CmdlineParts(parts[1..]);
      SplitJoined(parts[0], JoinParts(parts[1..]));
    }
  }

  function SatSub(a: nat, b: nat): (r: nat) {
    if a >= b then a - b else 0
  }

  /** Everything that is stored into the zero page, in order. */
  function Patches(memSize: u64, cmdlineLen: u32, initrd: Option<(u32, u32)>): (ps: seq<Patch>)
    ensures |ps| == if initrd.Some? then 9 else 7
    ensures forall i :: 0 <= i < |ps| ==> ps[i].Fits()
  {
    [Patch(E820_TABLE, E820Bytes(E820Entry(0, 0x9FC00, E820_RAM))),
     Patch(E820_TABLE + E820_ENTRY_LEN, E820Bytes(E820Entry(MIB, SatSub(memSize, MIB), E820_RAM))),
     Patch(E820_COUNT, [2]),
     Patch(CMD_LINE_PTR, U32LE(CMDLINE_ADDR)),
     Patch(CMDLINE_SIZE, U32LE(cmdlineLen)),
     Patch(TYPE_OF_LOADER, [0xFF]),
     Patch(LOADFLAGS, [1])] +
    (if initrd.Some? then [Patch(RAMDISK_IMAGE, U32LE(initrd.value.0)), Patch(RAMDISK_SIZE, U32LE(initrd.value.1))] else [])
  }

  function ParamsBytes(memSize: u64, cmdlineLen: u32, initrd: Option<(u32, u32)>): (s: seq<byte>)
    ensures |s| == PAGE
  {
    Patched(Zeros(PAGE), Patches(memSize, cmdlineLen, initrd))
  }

  datatype Boot = Boot(kernel: ElfKernel, cmdline: seq<byte>, initrd: Option<seq<byte>>, memSize: u64) {
    function RamdiskFields(): (f: Option<(u32, u32)>) {
      if initrd.Some? then Some((InitrdAddr(kernel.segments) % 0x1_0000_0000, |initrd.value| % 0x1_0000_0000)) else None
    }

    /** What `build_elf` stores into the zero page of this boot. */
    function Fields(): (ps: seq<Patch>) {
      Patches(memSize, |cmdline| % 0x1_0000_0000, RamdiskFields())
    }

    function Params(): (s: seq<byte>)
      ensures |s| == PAGE
    {
      ParamsBytes(memSize, |cmdline| % 0x1_0000_0000, RamdiskFields())
    }

    function CmdlineSteps(): (ss: seq<Step>) {
      if |cmdline| >= CMDLINE_MAX_SIZE then [Fail(CmdlineTooLong)] else [Write(CMDLINE_ADDR, cmdline + [0])]
    }

    function InitrdSteps(): (ss: seq<Step>) {
      if initrd.None? then []
      else if |initrd.value| > INITRD_MAX then [Fail(InitrdTooLarge)]
      else [Write(InitrdAddr(kernel.segments), initrd.value)]
    }

    /** The writes after the page tables. */
    function LateSteps(): (ss: seq<Step>) {
      GdtSteps(3) + CmdlineSteps() + InitrdSteps() + [Write(ZERO_PAGE_ADDR, Params())]
    }

    function Steps(): (ss: seq<Step>) {
      LoadSteps(kernel.image, kernel.segments) + TableSteps() + LateSteps()
    }
  }

  // ---------------------------------------------------------------- the builder

  lemma PatchSnoc(ps: seq<Patch>, i: nat)
    requires i < |ps| && forall k :: 0 <= k < |ps| ==> ps[k].Fits()
    ensures Patched(Zeros(PAGE), ps[..i + 1]) == Splice(Patched(Zeros(PAGE), ps[..i]), ps[i].off, ps[i].bytes)
  {
    assert ps[..i + 1][..i] == ps[..i];
  }

  /** The first `i` fields of the list are stored. */
  ghost predicate Filled(page: ZeroPage, ps: seq<Patch>, i: nat)
    reads page.data
  {
    && page.Valid() && i <= |ps| && (forall k :: 0 <= k < |ps| ==> ps[k].Fits())
    && page.data[..] == Patched(Zeros(PAGE), ps[..i])
  }

  method StoreField(page: ZeroPage, ghost ps: seq<Patch>, ghost i: nat, off: nat, bytes: seq<byte>)
    requires Filled(page, ps, i) && i < |ps| && ps[i] == Patch(off, bytes)
    modifies page.data
    ensures Filled(page, ps, i + 1)
  {
    hide Patched;
    PatchSnoc(ps, i);
    assert ps[i].Fits();
    page.Store(off, bytes);
  }

  method StoreE820(page: ZeroPage, ghost ps: seq<Patch>, ghost i: nat, index: nat, entry: E820Entry)
    requires Filled(page, ps, i) && i < |ps| && index < E820_MAX_ENTRIES
    requires ps[i] == Patch(E820_TABLE + index * E820_ENTRY_LEN, E820Bytes(entry))
    modifies page.data
    ensures Filled(page, ps, i + 1)
  {
    hide Patched, E820Bytes;
    PatchSnoc(ps, i);
    var _ := page.SetE820Entry(index, entry);
  }

  /** The e820 map, the command line fields, the loader fields and the RAM disk fields. */
  method FillParams(page: ZeroPage, b: Boot)
    requires page.Valid() && page.data[..] == Zeros(PAGE)
    modifies page.data
    ensures page.data[..] == b.Params()
  {
    hide E820Bytes, U32LE, InitrdAddr, Patched, Filled;
    ghost var ps := Patches(b.memSize, |b.cmdline| % 0x1_0000_0000, b.RamdiskFields());
    FilledStart(page, ps);
    StoreE820(page, ps, 0, 0, E820Entry(0, 0x9FC00, E820_RAM));
    StoreE820(page, ps, 1, 1, E820Entry(MIB, SatSub(b.memSize, MIB), E820_RAM));
    StoreField(page, ps, 2, E820_COUNT, [2]);
    StoreField(page, ps, 3, CMD_LINE_PTR, U32LE(CMDLINE_ADDR));
    StoreField(page, ps, 4, CMDLINE_SIZE, U32LE(|b.cmdline| % 0x1_0000_0000));
    StoreField(page, ps, 5, TYPE_OF_LOADER, [0xFF]);
    StoreField(page, ps, 6, LOADFLAGS, [1]);
    if b.initrd.Some? {
      StoreField(page, ps, 7, RAMDISK_IMAGE, U32LE(InitrdAddr(b.kernel.segments) % 0x1_0000_0000));
      StoreField(page, ps, 8, RAMDISK_SIZE, U32LE(|b.initrd.value| % 0x1_0000_0000));
    }
    FilledEnd(page, ps);
  }

  lemma FilledStart(page: ZeroPage, ps: seq<Patch>)
    requires page.Valid() && page.data[..] == Zeros(PAGE) && forall k :: 0 <= k < |ps| ==> ps[k].Fits()
    ensures Filled(page, ps, 0)
  {
    NothingPatched();
    assert ps[..0] == [];
  }

  lemma FilledEnd(page: ZeroPage, ps: seq<Patch>)
    requires Filled(page, ps, |ps|)
    ensures (forall k :: 0 <= k < |ps| ==> ps[k].Fits()) && page.data[..] == Patched(Zeros(PAGE), ps)
  {
    assert ps[..|ps|] == ps;
  }

  lemma NothingPatched()
    ensures Patched(Zeros(PAGE), []) == Zeros(PAGE)
  {
  }

  /** One more section of the boot: it extends the run, or its failure is the failure of the whole. */
  lemma Section(m: Mem, done: seq<Step>, section: seq<Step>, todo: seq<Step>)
    requires Boots(m, done)
    ensures Run(m, done + section) == Run(Final(m, done), section)
    ensures !Boots(m, done + section) ==> Run(m, done + section + todo) == Run(m, done + section)
  {
    hide Run;
    RunConcat(m, done, section);
    RunConcat(m, done + section, todo);
  }

  /** The command line, its terminator and its bound. */
  method WriteCmdline(mem: GuestMemoryMmap, b: Boot) returns (e: Option<BootError>)
    requires mem.Valid()
    modifies mem.Repr
    ensures mem.Valid() && (mem.contents, e) == Run(old(mem.contents), b.CmdlineSteps())
  {
    hide GuestMemoryMmap.Valid;
    if |b.cmdline| >= CMDLINE_MAX_SIZE {
      return Some(CmdlineTooLong);
    }
    e := DoWrite(mem, CMDLINE_ADDR, b.cmdline + [0]);
  }

  /** `load_initrd_at`, above the kernel. */
  method LoadInitrd(mem: GuestMemoryMmap, b: Boot) returns (e: Option<BootError>)
    requires mem.Valid()
    modifies mem.Repr
    ensures mem.Valid() && (mem.contents, e) == Run(old(mem.contents), b.InitrdSteps())
  {
    hide GuestMemoryMmap.Valid, InitrdAddr;
    if b.initrd.None? {
      return None;
    }
    if |b.initrd.value| > INITRD_MAX {
      return Some(InitrdTooLarge);
    }
    e := DoWrite(mem, InitrdAddr(b.kernel.segments), b.initrd.value);
  }

  /** The steps of a boot in their five sections after the kernel. */
  lemma StepsInOrder(b: Boot)
    ensures b.Steps() == LoadSteps(b.kernel.image, b.kernel.segments) + TableSteps() + GdtSteps(3)
              + b.CmdlineSteps() + b.InitrdSteps() + [Write(ZERO_PAGE_ADDR, b.Params())]
  {
    hide LoadSteps, TableSteps, GdtSteps, ParamsBytes;
    var l, t, g, c, i, z := LoadSteps(b.kernel.image, b.kernel.segments), TableSteps(), GdtSteps(3),
      b.CmdlineSteps(), b.InitrdSteps(), [Write(ZERO_PAGE_ADDR, b.Params())];
    assert l + t + (g + c + i + z) == l + t + g + c + i + z;
  }

  /** The memory writes of `build_elf` for a parsed kernel. */
  method BuildElf(mem: GuestMemoryMmap, b: Boot) returns (e: Option<BootError>)
    requires mem.Valid()
    modifies mem.Repr
    ensures mem.Valid() && (mem.contents, e) == Run(old(mem.contents), b.Steps())
  {
    hide GuestMemoryMmap.Valid, Run, LoadSteps, TableSteps, GdtSteps, Boot.CmdlineSteps, Boot.InitrdSteps, Boot.Params, Boot.Steps;
    ghost var m := mem.contents;
    ghost var l, t, g, c, i, z := LoadSteps(b.kernel.image, b.kernel.segments), TableSteps(), GdtSteps(3),
      b.CmdlineSteps(), b.InitrdSteps(), [Write(ZERO_PAGE_ADDR, b.Params())];
    StepsInOrder(b);
    e := LoadIntoMemory(mem, b.kernel);
    RunConcat(m, l, t + g + c + i + z);
    assert l + (t + g + c + i + z) == b.Steps();
    if e.Some? {
      return;
    }
    e := SetupPageTables(mem);
    Section(m, l, t, g + c + i + z);
    assert l + t + (g + c + i + z) == b.Steps();
    if e.Some? {
      return;
    }
    e := SetupGdt(mem);
    Section(m, l + t, g, c + i + z);
    assert l + t + g + (c + i + z) == b.Steps();
    if e.Some? {
      return;
    }
    e := WriteCmdline(mem, b);
    Section(m, l + t + g, c, i + z);
    assert l + t + g + c + (i + z) == b.Steps();
    if e.Some? {
      return;
    }
    e := LoadInitrd(mem, b);
    Section(m, l + t + g + c, i, z);
    if e.Some? {
      return;
    }
    var page := new ZeroPage();
    FillParams(page, b);
    e := DoWrite(mem, ZERO_PAGE_ADDR, page.data[..]);
    Section(m, l + t + g + c + i, z, []);
  }

  /** Parse, then build. */
  method BootElf(mem: GuestMemoryMmap, image: seq<byte>, parts: seq<seq<byte>>, initrd: Option<seq<byte>>, memSize: u64)
    returns (e: Option<BootError>)
    requires mem.Valid()
    modifies mem.Repr
    ensures mem.Valid()
    ensures ParseSpec(image).Err? ==> e == Some(InvalidElf) && mem.contents == old(mem.contents)
    ensures ParseSpec(image).Ok? ==>
              (mem.contents, e) == Run(old(mem.contents), Boot(ParseSpec(image).value, JoinParts(parts), initrd, memSize).Steps())
  {
    hide GuestMemoryMmap.Valid, Run, ParseSpec, Boot.Steps, JoinParts;
    var kernel := Elf.Parse(image);
    if kernel.Err? {
      return Some(InvalidElf);
    }
    e := BuildElf(mem, Boot(kernel.value, JoinParts(parts), initrd, memSize));
  }
}
