/** The vmlinux loader: program headers into segments, segments into guest memory. */
module Elf {
  import opened Wrappers
  import opened Bytes
  import opened GuestMemory
  import opened BootSteps

  datatype LoadSegment = LoadSegment(guestAddr: u64, fileOffset: u64, fileSize: u64, memSize: u64)

  datatype ElfKernel = ElfKernel(image: seq<byte>, entryPoint: u64, segments: seq<LoadSegment>)

  datatype ElfError = InvalidMagic | Not64Bit | NotExecutable | NoLoadableSegments | Panicked

  const ELF_MAGIC: seq<byte> := [0x7F, 0x45, 0x4C, 0x46]
  const ELFCLASS64: byte := 2
  const ET_EXEC: u16 := 2
  const PT_LOAD: u32 := 1
  const EHDR_LEN: nat := 64

  function U16At(s: seq<byte>, o: nat): (v: u16)
    requires o + 2 <= |s|
  {
    AsU16(s[o..o + 2])
  }

  function U32At(s: seq<byte>, o: nat): (v: u32)
    requires o + 4 <= |s|
  {
    AsU32(s[o..o + 4])
  }

  function U64At(s: seq<byte>, o: nat): (v: u64)
    requires o + 8 <= |s|
  {
    AsU64(s[o..o + 8])
  }

  // ---------------------------------------------------------------- parsing

  /** The segment of a loadable program header at `o`: the physical address counts unless it is zero. */
  function SegmentAt(image: seq<byte>, o: nat): (s: LoadSegment)
    requires o + 48 <= |image|
  {
    var paddr := U64At(image, o + 24);
    LoadSegment(if paddr != 0 then paddr else U64At(image, o + 16), U64At(image, o + 8), U64At(image, o + 32),
                U64At(image, o + 40))
  }

  /** The loadable segments of the headers from index `i` on. */
  function SegmentsFrom(image: seq<byte>, phoff: nat, entSize: nat, count: nat, i: nat): (r: Result<seq<LoadSegment>, ElfError>)
    requires i <= count
    decreases count - i
  {
    var o := phoff + i * entSize;
    if i == count || o + entSize > |image| then Ok([])
    else if o + 4 > |image| then Err(Panicked)
    else if U32At(image, o) != PT_LOAD then SegmentsFrom(image, phoff, entSize, count, i + 1)
    else if o + 48 > |image| then Err(Panicked)
    else
      var rest :- SegmentsFrom(image, phoff, entSize, count, i + 1);
      Ok([SegmentAt(image, o)] + rest)
  }

  predicate HeaderOk(image: seq<byte>) {
    |image| >= EHDR_LEN && image[..4] == ELF_MAGIC && image[4] == ELFCLASS64 && U16At(image, 16) == ET_EXEC
  }

  function HeaderError(image: seq<byte>): (e: ElfError)
    requires !HeaderOk(image)
  {
    if |image| < EHDR_LEN || image[..4] != ELF_MAGIC then InvalidMagic
    else if image[4] != ELFCLASS64 then Not64Bit
    else NotExecutable
  }

  function ParseSpec(image: seq<byte>): (r: Result<ElfKernel, ElfError>) {
    if !HeaderOk(image) then Err(HeaderError(image))
    else
      var segments :- SegmentsFrom(image, U64At(image, 32), U16At(image, 54), U16At(image, 56), 0);
      if segments == [] then Err(NoLoadableSegments)
      else Ok(ElfKernel(image, U64At(image, 24), segments))
  }

  /** The loop over the program headers. */
  method CollectSegments(image: seq<byte>, phoff: nat, entSize: nat, count: nat) returns (r: Result<seq<LoadSegment>, ElfError>)
    ensures r == SegmentsFrom(image, phoff, entSize, count, 0)
  {
    hide SegmentAt, U32At;
    var segments: seq<LoadSegment> := [];
    ghost var whole := SegmentsFrom(image, phoff, entSize, count, 0);
    assert whole.Ok? ==> segments + whole.value == whole.value;
    for i := 0 to count
      invariant var rest := SegmentsFrom(image, phoff, entSize, count, i);
                whole == if rest.Ok? then Ok(segments + rest.value) else rest
    {
      var o := phoff + i * entSize;
      if o + entSize > |image| {
        assert segments + [] == segments;
        return Ok(segments);
      }
      if o + 4 > |image| {
        return Err(Panicked);
      }
      if U32At(image, o) != PT_LOAD {
        continue;
      }
      if o + 48 > |image| {
        return Err(Panicked);
      }
      ghost var before := segments;
      segments := segments + [SegmentAt(image, o)];
      assert forall t: seq<LoadSegment> :: before + ([SegmentAt(image, o)] + t) == segments + t;
    }
    assert segments + [] == segments;
    return Ok(segments);
  }

  method Parse(image: seq<byte>) returns (r: Result<ElfKernel, ElfError>)
    ensures r == ParseSpec(image)
    ensures r.Ok? ==> r.value.image == image && r.value.segments != []
  {
    hide SegmentsFrom, U16At, U64At;
    if !HeaderOk(image) {
      return Err(HeaderError(image));
    }
    var segments := CollectSegments(image, U64At(image, 32), U16At(image, 54), U16At(image, 56));
    if segments.Err? {
      return Err(segments.error);
    }
    if segments.value == [] {
      return Err(NoLoadableSegments);
    }
    return Ok(ElfKernel(image, U64At(image, 24), segments.value));
  }

  // ---------------------------------------------------------------- loading

  /** The writes of one segment: its file bytes, then zeros up to its memory size. */
  function SegmentSteps(image: seq<byte>, s: LoadSegment): (ss: seq<Step>) {
    (if s.fileSize == 0 then []
     else if s.fileOffset + s.fileSize > |image| then [Fail(KernelTooLarge)]
     else [Write(s.guestAddr, image[s.fileOffset..s.fileOffset + s.fileSize])]) +
    (if s.memSize > s.fileSize then [Write(s.guestAddr + s.fileSize, Zeros(s.memSize - s.fileSize))] else [])
  }

  function LoadSteps(image: seq<byte>, segments: seq<LoadSegment>): (ss: seq<Step>) {
    if segments == [] then []
    else LoadSteps(image, segments[..|segments| - 1]) + SegmentSteps(image, segments[|segments| - 1])
  }

  lemma EmptyRun(m: Mem)
    ensures Run(m, []) == (m, None)
  {
  }

  method LoadOne(mem: GuestMemoryMmap, image: seq<byte>, s: LoadSegment) returns (e: Option<BootError>)
    requires mem.Valid()
    modifies mem.Repr
    ensures mem.Valid()
    ensures (mem.contents, e) == Run(old(mem.contents), SegmentSteps(image, s))
  {
    hide GuestMemoryMmap.Valid, CanAccess, Put, Run;
    ghost var m := mem.contents;
    ghost var file := SegmentSteps(image, s.(memSize := 0));
    assert file + [] == file;
    EmptyRun(m);
    e := None;
    if s.fileSize > 0 {
      var end := s.fileOffset + s.fileSize;
      if end > |image| {
        FailsAtOnce(m, SegmentSteps(image, s), KernelTooLarge);
        return Some(KernelTooLarge);
      }
      e := DoWrite(mem, s.guestAddr, image[s.fileOffset..end]);
      assert file == [Write(s.guestAddr, image[s.fileOffset..end])];
    } else {
      assert file == [];
    }
    assert (mem.contents, e) == Run(m, file);
    if s.memSize > s.fileSize {
      ghost var bss := [Write(s.guestAddr + s.fileSize, Zeros(s.memSize - s.fileSize))];
      RunConcat(m, file, bss);
      assert SegmentSteps(image, s) == file + bss;
      if e.None? {
        e := DoWrite(mem, s.guestAddr + s.fileSize, Zeros(s.memSize - s.fileSize));
      }
    } else {
      assert SegmentSteps(image, s) == file;
    }
  }

  lemma FailsAtOnce(m: Mem, steps: seq<Step>, e: BootError)
    requires steps != [] && steps[0] == Fail(e)
    ensures Run(m, steps) == (m, Some(e))
  {
  }

  /** `load_into_memory`. */
  method LoadIntoMemory(mem: GuestMemoryMmap, kernel: ElfKernel) returns (e: Option<BootError>)
    requires mem.Valid()
    modifies mem.Repr
    ensures mem.Valid()
    ensures (mem.contents, e) == Run(old(mem.contents), LoadSteps(kernel.image, kernel.segments))
  {
    hide GuestMemoryMmap.Valid, Run, SegmentSteps;
    ghost var m := mem.contents;
    e := None;
    EmptyRun(m);
    var segments := kernel.segments;
    assert segments[..0] == [];
    for i := 0 to |segments|
      invariant mem.Valid() && e == None && (mem.contents, e) == Run(m, LoadSteps(kernel.image, segments[..i]))
    {
      e := LoadOne(mem, kernel.image, segments[i]);
      assert segments[..i + 1][..i] == segments[..i];
      RunConcat(m, LoadSteps(kernel.image, segments[..i]), SegmentSteps(kernel.image, segments[i]));
      if e.Some? {
        LoadStops(m, kernel.image, segments, i + 1);
        return;
      }
    }
    assert segments[..|segments|] == segments;
  }

  lemma {:induction false} LoadStops(m: Mem, image: seq<byte>, segments: seq<LoadSegment>, k: nat)
    requires k <= |segments| && !Boots(m, LoadSteps(image, segments[..k]))
    ensures Run(m, LoadSteps(image, segments)) == Run(m, LoadSteps(image, segments[..k]))
    decreases |segments|
  {
    hide Run, SegmentSteps;
    if k < |segments| {
      var init := segments[..|segments| - 1];
      assert init[..k] == segments[..k];
      LoadStops(m, image, init, k);
      RunConcat(m, LoadSteps(image, init), SegmentSteps(image, segments[|segments| - 1]));
    } else {
      assert segments[..k] == segments;
    }
  }

  // ---------------------------------------------------------------- a writer as the inverse of the parser

  function ProgramHeader(s: LoadSegment): (b: seq<byte>)
    ensures |b| == 56
  {
    U32LE(PT_LOAD) + U32LE(5) + U64LE(s.fileOffset) + U64LE(s.guestAddr) + U64LE(s.guestAddr)
    + U64LE(s.fileSize) + U64LE(s.memSize) + U64LE(0)
  }

  function ProgramHeaders(segments: seq<LoadSegment>): (b: seq<byte>)
    ensures |b| == 56 * |segments|
  {
    if segments == [] then [] else ProgramHeader(segments[0]) + ProgramHeaders(segments[1..])
  }

  /** An ELF64 executable header with the program headers right behind it. */
  function ElfHeader(entry: u64, count: u16): (b: seq<byte>)
    ensures |b| == 64
  {
    ELF_MAGIC + [ELFCLASS64] + Zeros(11) + U16LE(ET_EXEC) + Zeros(6) + U64LE(entry) + U64LE(EHDR_LEN)
    + Zeros(14) + U16LE(56) + U16LE(count) + Zeros(6)
  }

  function ElfImage(entry: u64, segments: seq<LoadSegment>, payload: seq<byte>): (image: seq<byte>)
    requires |segments| < 0x1_0000
  {
    ElfHeader(entry, |segments|) + ProgramHeaders(segments) + payload
  }

  lemma HeaderReads(entry: u64, count: u16, rest: seq<byte>)
    ensures var image := ElfHeader(entry, count) + rest;
            && HeaderOk(image) && U64At(image, 24) == entry && U64At(image, 32) == EHDR_LEN
            && U16At(image, 54) == 56 && U16At(image, 56) == count
  {
    hide AsU16, AsU64, U16LE, U64LE;
    var image := ElfHeader(entry, count) + rest;
    U16RoundTrip(ET_EXEC); U16RoundTrip(56); U16RoundTrip(count);
    U64RoundTrip(entry); U64RoundTrip(EHDR_LEN);
    assert image[..4] == ELF_MAGIC && image[4] == ELFCLASS64;
    assert image[16..18] == U16LE(ET_EXEC);
    assert image[24..32] == U64LE(entry);
    assert image[32..40] == U64LE(EHDR_LEN);
    assert image[54..56] == U16LE(56);
    assert image[56..58] == U16LE(count);
  }

  lemma ProgramHeaderReads(a: seq<byte>, s: LoadSegment, b: seq<byte>)
    ensures var image := a + ProgramHeader(s) + b;
            |image| >= |a| + 56 && U32At(image, |a|) == PT_LOAD && SegmentAt(image, |a|) == s
  {
    hide AsU32, AsU64, U32LE, U64LE;
    var image, o := a + ProgramHeader(s) + b, |a|;
    U32RoundTrip(PT_LOAD);
    U64RoundTrip(s.fileOffset); U64RoundTrip(s.guestAddr); U64RoundTrip(s.fileSize); U64RoundTrip(s.memSize);
    assert image[o..o + 4] == U32LE(PT_LOAD);
    assert image[o + 8..o + 16] == U64LE(s.fileOffset);
    assert image[o + 16..o + 24] == U64LE(s.guestAddr);
    assert image[o + 24..o + 32] == U64LE(s.guestAddr);
    assert image[o + 32..o + 40] == U64LE(s.fileSize);
    assert image[o + 40..o + 48] == U64LE(s.memSize);
  }

  lemma {:induction false} HeadersRead(a: seq<byte>, done: nat, segments: seq<LoadSegment>, payload: seq<byte>)
    requires |a| == EHDR_LEN + 56 * done
    ensures SegmentsFrom(a + ProgramHeaders(segments) + payload, EHDR_LEN, 56, done + |segments|, done) == Ok(segments)
    decreases |segments|
  {
    hide SegmentAt, U32At, ProgramHeader;
    if segments != [] {
      var s, rest := segments[0], ProgramHeaders(segments[1..]);
      var image := a + ProgramHeaders(segments) + payload;
      assert image == a + ProgramHeader(s) + (rest + payload);
      assert image == (a + ProgramHeader(s)) + rest + payload;
      ProgramHeaderReads(a, s, rest + payload);
      HeadersRead(a + ProgramHeader(s), done + 1, segments[1..], payload);
      assert [s] + segments[1..] == segments;
    }
  }

  /** Every non-empty segment list survives being written into an image and parsed out of it. */
  lemma ElfRoundTrip(entry: u64, segments: seq<LoadSegment>, payload: seq<byte>)
    requires 0 < |segments| < 0x1_0000
    ensures var image := ElfImage(entry, segments, payload); ParseSpec(image) == Ok(ElfKernel(image, entry, segments))
  {
    hide SegmentsFrom, HeaderOk, U64At, U16At, ElfHeader, ProgramHeaders;
    var image := ElfImage(entry, segments, payload);
    var header := ElfHeader(entry, |segments|);
    assert image == header + (ProgramHeaders(segments) + payload);
    HeaderReads(entry, |segments|, ProgramHeaders(segments) + payload);
    HeadersRead(header, 0, segments, payload);
  }
}
