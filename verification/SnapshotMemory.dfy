/**
 Guest memory in a snapshot: the dump of all regions into one file, and the two
 ways back, by mapping the file at accumulated offsets and by reading it in.
 */
module SnapshotMemory {
  import opened Wrappers
  import opened Bytes
  import opened GuestMemory

  /** Granularity of file offsets that `mmap` accepts. */
  const PAGE_SIZE: nat := 4096

  type Layout = seq<(nat, nat)>

  function LayoutOf(m: Mem): (l: Layout)
    ensures |l| == |m|
    ensures forall i :: 0 <= i < |m| ==> l[i] == (m[i].base, |m[i].bytes|)
  {
    seq(|m|, i requires 0 <= i < |m| => (m[i].base, |m[i].bytes|))
  }

  /** The bytes of all regions, one after the other. */
  function Flat(m: Mem): (file: seq<byte>) {
    if m == [] then [] else m[0].bytes + Flat(m[1..])
  }

  function Total(l: Layout): (n: nat) {
    if l == [] then 0 else l[0].1 + Total(l[1..])
  }

  /** The regions cut out of `file` from `offset` on, in layout order. */
  function Cut(l: Layout, file: seq<byte>, offset: nat): (m: Mem)
    requires offset + Total(l) <= |file|
    ensures |m| == |l|
    decreases |l|
  {
    if l == [] then []
    else [Region(l[0].0, file[offset..offset + l[0].1])] + Cut(l[1..], file, offset + l[0].1)
  }

  /** Every region starts at a page boundary of the file. */
  predicate PageAligned(l: Layout, offset: nat)
    decreases |l|
  {
    l == [] || (offset % PAGE_SIZE == 0 && PageAligned(l[1..], offset + l[0].1))
  }

  predicate NoneEmpty(l: Layout) {
    forall i :: 0 <= i < |l| ==> l[i].1 > 0
  }

  // ---------------------------------------------------------------- round trip on values

  lemma {:induction false} FlatLength(m: Mem)
    ensures |Flat(m)| == Total(LayoutOf(m))
  {
    if m != [] {
      FlatLength(m[1..]);
      assert LayoutOf(m)[1..] == LayoutOf(m[1..]);
    }
  }

  /** Where the file holds the dump of `m`, cutting gives `m` back. */
  lemma {:induction false} CutAt(m: Mem, file: seq<byte>, pos: nat)
    requires pos + |Flat(m)| <= |file| && file[pos..pos + |Flat(m)|] == Flat(m)
    ensures pos + Total(LayoutOf(m)) <= |file| && Cut(LayoutOf(m), file, pos) == m
    decreases |m|
  {
    FlatLength(m);
    if m != [] {
      var all, n := Flat(m), |m[0].bytes|;
      assert all == m[0].bytes + Flat(m[1..]);
      hide Flat, Cut, Total;
      SubSlice(file, pos, |all|, n);
      CutAt(m[1..], file, pos + n);
      assert LayoutOf(m)[1..] == LayoutOf(m[1..]);
      CutUnfolds(LayoutOf(m), file, pos);
    }
  }

  lemma SubSlice(s: seq<byte>, pos: nat, len: nat, n: nat)
    requires pos + len <= |s| && n <= len
    ensures s[pos..pos + n] == s[pos..pos + len][..n]
    ensures s[pos + n..pos + len] == s[pos..pos + len][n..]
  {
  }

  /** Cutting a dump at the accumulated offsets gives back every region. */
  lemma CutFlat(m: Mem, before: seq<byte>, after: seq<byte>)
    ensures |before| + Total(LayoutOf(m)) <= |before + Flat(m) + after|
    ensures Cut(LayoutOf(m), before + Flat(m) + after, |before|) == m
  {
    hide Flat, Cut, Total;
    var file := before + Flat(m) + after;
    assert file[|before|..|before| + |Flat(m)|] == Flat(m);
    CutAt(m, file, |before|);
  }

  lemma {:induction false} CutLayout(l: Layout, file: seq<byte>, offset: nat)
    requires offset + Total(l) <= |file|
    ensures LayoutOf(Cut(l, file, offset)) == l
    decreases |l|
  {
    if l != [] {
      var m := Cut(l, file, offset);
      CutLayout(l[1..], file, offset + l[0].1);
      assert m[1..] == Cut(l[1..], file, offset + l[0].1);
      forall i | 0 <= i < |l|
        ensures LayoutOf(m)[i] == l[i]
      {
        if i > 0 {
          assert m[i] == m[1..][i - 1] && l[i] == l[1..][i - 1];
          assert LayoutOf(m[1..])[i - 1] == l[1..][i - 1];
        }
      }
    }
  }

  // ---------------------------------------------------------------- dump

  /** The regions from index `i` on, each read through its guest address. */
  function DumpFrom(m: Mem, i: nat): (r: Result<seq<byte>, MemError>)
    requires i <= |m|
    decreases |m| - i
  {
    if i == |m| then Ok([])
    else
      var buf :- Read(m, m[i].base, |m[i].bytes|);
      var rest :- DumpFrom(m, i + 1);
      Ok(buf + rest)
  }

  /** Non-overlapping regions are dumped whole and in order. */
  lemma {:induction false} DumpIsFlat(m: Mem, i: nat)
    requires WellFormed(m) && i <= |m|
    ensures DumpFrom(m, i) == Ok(Flat(m[i..]))
    decreases |m| - i
  {
    hide Read, WellFormed;
    if i < |m| {
      WholeRegion(m, i);
      DumpIsFlat(m, i + 1);
      assert m[i..][1..] == m[i + 1..];
    }
  }

  /** `dump_guest_memory`. */
  method Dump(mem: GuestMemoryMmap) returns (r: Result<seq<byte>, MemError>)
    requires mem.Valid()
    ensures r == DumpFrom(mem.contents, 0)
  {
    hide GuestMemoryMmap.Valid, Read;
    RegionsMatch(mem);
    var file: seq<byte> := [];
    ghost var m := mem.contents;
    ghost var whole := DumpFrom(m, 0);
    assert whole.Ok? ==> file + whole.value == whole.value;
    for i := 0 to |mem.regions|
      invariant mem.Valid() && mem.contents == m
      invariant var rest := DumpFrom(m, i); whole == if rest.Ok? then Ok(file + rest.value) else rest
    {
      ghost var before := file;
      var buf :- mem.ReadSlice(mem.regions[i].guestBase, mem.regions[i].mmap.Length);
      file := file + buf;
      assert forall t: seq<byte> :: before + (buf + t) == file + t;
    }
    assert file + [] == file;
    return Ok(file);
  }

  lemma RegionsMatch(mem: GuestMemoryMmap)
    requires mem.Valid()
    ensures |mem.regions| == |mem.contents|
    ensures forall k :: 0 <= k < |mem.regions| ==>
              mem.regions[k].guestBase == mem.contents[k].base && mem.regions[k].mmap.Length == |mem.contents[k].bytes|
  {
  }

  lemma WholeRegion(m: Mem, i: nat)
    requires WellFormed(m) && i < |m|
    ensures CanAccess(m, m[i].base, |m[i].bytes|)
    ensures Read(m, m[i].base, |m[i].bytes|) == Ok(m[i].bytes)
  {
    FindUnique(m, m[i].base, i);
    assert m[i].bytes[0..|m[i].bytes|] == m[i].bytes;
  }

  // ---------------------------------------------------------------- lazy restore

  /** The `(address, size, file offset)` triples built before the mapping. */
  method FileRegions(l: Layout) returns (frs: seq<(nat, nat, nat)>)
    ensures |frs| == |l|
    ensures forall i :: 0 <= i < |l| ==> frs[i] == (l[i].0, l[i].1, Total(l[..i]))
  {
    frs := [];
    var fileOffset := 0;
    for i := 0 to |l|
      invariant |frs| == i && fileOffset == Total(l[..i])
      invariant forall k :: 0 <= k < i ==> frs[k] == (l[k].0, l[k].1, Total(l[..k]))
    {
      frs := frs + [(l[i].0, l[i].1, fileOffset)];
      fileOffset := fileOffset + l[i].1;
      TotalSnoc(l[..i], l[i]);
      assert l[..i + 1] == l[..i] + [l[i]];
    }
  }

  lemma {:induction false} TotalSnoc(l: Layout, e: (nat, nat))
    ensures Total(l + [e]) == Total(l) + e.1
  {
    if l != [] {
      assert (l + [e])[1..] == l[1..] + [e];
      TotalSnoc(l[1..], e);
    }
  }

  /** The file, read on as zeros up to length `n`. */
  function Padded(file: seq<byte>, n: nat): (f: seq<byte>)
    ensures |f| >= n
    ensures forall k :: 0 <= k < |f| ==> f[k] == if k < |file| then file[k] else 0
  {
    if |file| >= n then file else file + Zeros(n - |file|)
  }

  /** A private mapping of part of a file; it may reach past the end, where a page reads on as zeros. */
  method MapFile(file: seq<byte>, size: nat, offset: nat) returns (r: Result<array<byte>, MemError>)
    ensures r.Ok? <==> size > 0 && offset % PAGE_SIZE == 0
    ensures r.Ok? ==> fresh(r.value) && r.value[..] == Padded(file, offset + size)[offset..offset + size]
    ensures r.Err? ==> r.error == MmapFailed
  {
    if size == 0 || offset % PAGE_SIZE != 0 {
      return Err(MmapFailed);
    }
    var mmap := new byte[size](i requires 0 <= i < size => if offset + i < |file| then file[offset + i] else 0);
    return Ok(mmap);
  }

  lemma PaddedSlice(file: seq<byte>, n: nat, offset: nat, size: nat)
    requires offset + size <= n
    ensures Padded(file, offset + size)[offset..offset + size] == Padded(file, n)[offset..offset + size]
  {
  }

  lemma CutEnds(l: Layout, file: seq<byte>)
    requires Total(l) <= |file|
    ensures l[..0] == [] && l[0..] == l && l[..|l|] == l && l[|l|..] == []
    ensures Total(l[..0]) == 0 && Total(l[..|l|]) + Total(l[|l|..]) <= |file|
    ensures Cut(l[|l|..], file, Total(l[..|l|])) == [] && PageAligned(l[|l|..], Total(l[..|l|]))
  {
    assert l[..|l|] == l;
  }

  /** One more region mapped at its accumulated offset. */
  lemma CutStep(l: Layout, file: seq<byte>, i: nat)
    requires i < |l| && Total(l[..i]) + Total(l[i..]) <= |file|
    ensures Total(l[..i + 1]) == Total(l[..i]) + l[i].1
    ensures Total(l[..i + 1]) + Total(l[i + 1..]) <= |file|
    ensures PageAligned(l[i..], Total(l[..i])) <==>
              Total(l[..i]) % PAGE_SIZE == 0 && PageAligned(l[i + 1..], Total(l[..i + 1]))
    ensures Cut(l[i..], file, Total(l[..i])) ==
              [Region(l[i].0, file[Total(l[..i])..Total(l[..i + 1])])] + Cut(l[i + 1..], file, Total(l[..i + 1]))
  {
    hide Total, Cut, PageAligned;
    CutUnfolds(l[i..], file, Total(l[..i]));
    assert l[i..][1..] == l[i + 1..];
    assert l[..i + 1] == l[..i] + [l[i]];
    TotalSnoc(l[..i], l[i]);
  }

  lemma CutUnfolds(l: Layout, file: seq<byte>, pos: nat)
    requires l != [] && pos + Total(l) <= |file|
    ensures Total(l) == l[0].1 + Total(l[1..])
    ensures PageAligned(l, pos) <==> pos % PAGE_SIZE == 0 && PageAligned(l[1..], pos + l[0].1)
    ensures Cut(l, file, pos) == [Region(l[0].0, file[pos..pos + l[0].1])] + Cut(l[1..], file, pos + l[0].1)
  {
  }

  /** `from_file` on the regions of a saved layout; it does not notice a file that is too short. */
  method FromFile(file: seq<byte>, l: Layout) returns (r: Result<GuestMemoryMmap, MemError>)
    ensures r.Ok? <==> NoneEmpty(l) && PageAligned(l, 0)
    ensures r.Ok? ==> r.value.Valid() && fresh(r.value.Repr)
    ensures r.Ok? ==> r.value.contents == SortByBase(Cut(l, Padded(file, Total(l)), 0))
    ensures r.Err? ==> r.error == MmapFailed
  {
    hide GuestMemoryMmap.Valid, SortByBase, Cut, PageAligned, Total, Distinct, ValuesOf, Padded;
    ghost var f := Padded(file, Total(l));
    CutEnds(l, f);
    NoRegions();
    var frs := FileRegions(l);
    var rs: seq<GuestRegion> := [];
    for i := 0 to |frs|
      invariant |rs| == i && Distinct(rs) && fresh(Buffers(rs))
      invariant Total(l[..i]) + Total(l[i..]) <= |f|
      invariant NoneEmpty(l[..i])
      invariant PageAligned(l, 0) <==> PageAligned(l[i..], Total(l[..i]))
      invariant Cut(l, f, 0) == ValuesOf(rs) + Cut(l[i..], f, Total(l[..i]))
    {
      var (base, size, offset) := frs[i];
      CutStep(l, f, i);
      TotalStep(l, i);
      PaddedSlice(file, Total(l), offset, size);
      var mmap := MapFile(file, size, offset);
      if mmap.Err? {
        return Err(mmap.error);
      }
      AddRegion(rs, GuestRegion(base, mmap.value));
      rs := rs + [GuestRegion(base, mmap.value)];
    }
    assert Cut(l, f, 0) == ValuesOf(rs);
    var mem := new GuestMemoryMmap.FromRegions(rs);
    return Ok(mem);
  }

  // ---------------------------------------------------------------- eager restore

  /** The file ends inside a region, or, with overlapping regions, the region's address belongs to a smaller one. */
  datatype LoadError = UnexpectedEof | Memory(error: MemError)

  /** Memory and error after loading the regions from index `i` on, each written through its guest address. */
  function LoadFrom(m: Mem, i: nat, file: seq<byte>, pos: nat): (r: (Mem, Option<LoadError>))
    requires i <= |m|
    decreases |m| - i
  {
    if i == |m| then (m, None)
    else
      var n := |m[i].bytes|;
      if pos + n > |file| then (m, Some(UnexpectedEof))
      else if !CanAccess(m, m[i].base, n) then (m, Some(Memory(AccessError(m, m[i].base, n))))
      else LoadFrom(Put(m, m[i].base, file[pos..pos + n]), i + 1, file, pos + n)
  }

  /** Regions refilled from `file` one after the other, up to the first one that the file no longer covers. */
  function Refilled(m: Mem, file: seq<byte>, pos: nat): (m': Mem)
    ensures |m'| == |m|
    decreases |m|
  {
    if m == [] || pos + |m[0].bytes| > |file| then m
    else [Region(m[0].base, file[pos..pos + |m[0].bytes|])] + Refilled(m[1..], file, pos + |m[0].bytes|)
  }

  /** A file that is long enough refills everything: the result is the file cut at the layout. */
  lemma {:induction false} RefilledWhole(m: Mem, file: seq<byte>, pos: nat)
    requires pos + Total(LayoutOf(m)) <= |file|
    ensures Refilled(m, file, pos) == Cut(LayoutOf(m), file, pos)
    decreases |m|
  {
    if m != [] {
      assert LayoutOf(m)[1..] == LayoutOf(m[1..]);
      RefilledWhole(m[1..], file, pos + |m[0].bytes|);
    }
  }

  lemma RefillStep(m: Mem, file: seq<byte>, i: nat, pos: nat)
    requires i < |m|
    ensures pos + |m[i].bytes| > |file| ==> Refilled(m[i..], file, pos) == m[i..]
    ensures pos + |m[i].bytes| <= |file| ==>
              Refilled(m[i..], file, pos) ==
                [Region(m[i].base, file[pos..pos + |m[i].bytes|])] + Refilled(m[i + 1..], file, pos + |m[i].bytes|)
  {
    assert m[i..][1..] == m[i + 1..];
  }

  lemma {:induction false} TotalSplit(l: Layout, i: nat)
    requires i <= |l|
    ensures Total(l) == Total(l[..i]) + Total(l[i..])
    decreases i
  {
    if i == 0 {
      assert l[0..] == l;
    } else {
      TotalSplit(l[1..], i - 1);
      assert l[1..][..i - 1] == l[..i][1..] && l[1..][i - 1..] == l[i..];
    }
  }

  lemma TotalStep(l: Layout, i: nat)
    requires i < |l|
    ensures Total(l[..i + 1]) == Total(l[..i]) + l[i].1 <= Total(l)
  {
    hide Total;
    assert l[..i + 1] == l[..i] + [l[i]];
    TotalSnoc(l[..i], l[i]);
    TotalSplit(l, i + 1);
  }

  /** `m` is `m0` with its first `i` regions refilled from the first `pos` bytes of the file. */
  ghost predicate Partly(m0: Mem, m: Mem, file: seq<byte>, i: nat, pos: nat) {
    && i <= |m0| == |m| && WellFormed(m) && LayoutOf(m) == LayoutOf(m0)
    && pos == Total(LayoutOf(m0)[..i]) <= |file|
    && m[i..] == m0[i..]
    && Refilled(m0, file, 0) == m[..i] + Refilled(m0[i..], file, pos)
  }

  lemma PartlyEnds(m0: Mem, m: Mem, file: seq<byte>, pos: nat)
    ensures WellFormed(m0) ==> Partly(m0, m0, file, 0, 0)
    ensures Partly(m0, m, file, |m0|, pos) ==> m == Refilled(m0, file, 0) && Total(LayoutOf(m0)) <= |file|
  {
    hide WellFormed;
    assert m0[0..] == m0;
    assert LayoutOf(m0)[..|m0|] == LayoutOf(m0);
  }

  lemma PartlyStops(m0: Mem, m: Mem, file: seq<byte>, i: nat, pos: nat)
    requires Partly(m0, m, file, i, pos) && i < |m0| && pos + |m[i].bytes| > |file|
    ensures m == Refilled(m0, file, 0) && Total(LayoutOf(m0)) > |file|
  {
    hide WellFormed, Refilled, Total, LayoutOf;
    assert m[i] == m[i..][0] == m0[i];
    TotalStep(LayoutOf(m0), i);
    RefillStep(m0, file, i, pos);
    assert m == m[..i] + m[i..];
  }

  lemma RegionReplaced(m: Mem, i: nat, d: seq<byte>)
    requires WellFormed(m) && i < |m| && |d| == |m[i].bytes|
    ensures var m' := Poke(m, m[i].base, d);
            && WellFormed(m') && LayoutOf(m') == LayoutOf(m)
            && m'[..i + 1] == m[..i] + [Region(m[i].base, d)] && m'[i + 1..] == m[i..][1..]
  {
    hide WellFormed, Put;
    PutWhole(m, i, d);
    PokeLayout(m, m[i].base, d);
  }

  /** The file covers the next region, and it is refilled. */
  lemma PartlyGoesOn(m0: Mem, m: Mem, file: seq<byte>, i: nat, pos: nat)
    requires Partly(m0, m, file, i, pos) && i < |m0| && pos + |m[i].bytes| <= |file|
    ensures Partly(m0, Poke(m, m[i].base, file[pos..pos + |m[i].bytes|]), file, i + 1, pos + |m[i].bytes|)
  {
    hide WellFormed, Poke, Refilled, Total, LayoutOf;
    assert m[i] == m[i..][0] == m0[i];
    TotalStep(LayoutOf(m0), i);
    RefillStep(m0, file, i, pos);
    RegionReplaced(m, i, file[pos..pos + |m[i].bytes|]);
    assert m0[i..][1..] == m0[i + 1..];
  }

  lemma {:induction false} LoadFromPartly(m0: Mem, m: Mem, file: seq<byte>, i: nat, pos: nat)
    requires Partly(m0, m, file, i, pos)
    ensures i <= |m| && LoadFrom(m, i, file, pos) ==
              (Refilled(m0, file, 0), if Total(LayoutOf(m0)) <= |file| then None else Some(UnexpectedEof))
    decreases |m0| - i
  {
    hide Partly, Refilled, Total, LayoutOf, WellFormed, Put, CanAccess, AccessError;
    PartlySize(m0, m, file, i, pos);
    if i == |m0| {
      PartlyEnds(m0, m, file, pos);
    } else if pos + |m[i].bytes| > |file| {
      PartlyStops(m0, m, file, i, pos);
    } else {
      var buf := file[pos..pos + |m[i].bytes|];
      PartlyGoesOn(m0, m, file, i, pos);
      RegionAccess(m, i);
      LoadFromPartly(m0, Put(m, m[i].base, buf), file, i + 1, pos + |m[i].bytes|);
    }
  }

  lemma RegionAccess(m: Mem, i: nat)
    requires WellFormed(m) && i < |m|
    ensures CanAccess(m, m[i].base, |m[i].bytes|)
  {
    PutWhole(m, i, m[i].bytes);
  }

  lemma PartlySize(m0: Mem, m: Mem, file: seq<byte>, i: nat, pos: nat)
    requires Partly(m0, m, file, i, pos)
    ensures i <= |m0| == |m| && WellFormed(m)
  {
  }

  /** On disjoint regions loading refills them in order and succeeds iff the file covers them all. */
  lemma LoadRefills(m: Mem, file: seq<byte>)
    requires WellFormed(m)
    ensures LoadFrom(m, 0, file, 0) ==
              (Refilled(m, file, 0), if Total(LayoutOf(m)) <= |file| then None else Some(UnexpectedEof))
  {
    hide Partly, Refilled, Total, LayoutOf, WellFormed;
    PartlyEnds(m, m, file, 0);
    LoadFromPartly(m, m, file, 0, 0);
  }

  /** `load_guest_memory`: fill the regions of an existing memory from the file. */
  method Load(mem: GuestMemoryMmap, file: seq<byte>) returns (r: Result<Unit, LoadError>)
    requires mem.Valid()
    modifies mem.Repr
    ensures mem.Valid()
    ensures (mem.contents, if r.Ok? then None else Some(r.error)) == LoadFrom(old(mem.contents), 0, file, 0)
  {
    hide GuestMemoryMmap.Valid, Put, CanAccess;
    ghost var whole := LoadFrom(mem.contents, 0, file, 0);
    RegionsMatch(mem);
    var pos: nat := 0;
    for i := 0 to |mem.regions|
      invariant mem.Valid() && |mem.regions| == |mem.contents|
      invariant LoadFrom(mem.contents, i, file, pos) == whole
    {
      RegionsMatch(mem);
      var size := mem.regions[i].mmap.Length;
      if pos + size > |file| {
        return Err(UnexpectedEof);
      }
      PokeLayout(mem.contents, mem.regions[i].guestBase, file[pos..pos + size]);
      var w := mem.WriteSlice(mem.regions[i].guestBase, file[pos..pos + size]);
      if w.Err? {
        return Err(Memory(w.error));
      }
      pos := pos + size;
    }
    return Ok(Unit);
  }

  lemma PutWhole(m: Mem, i: nat, d: seq<byte>)
    requires WellFormed(m) && i < |m| && |d| == |m[i].bytes|
    ensures CanAccess(m, m[i].base, |d|)
    ensures Put(m, m[i].base, d) == m[i := Region(m[i].base, d)]
  {
    FindUnique(m, m[i].base, i);
    assert Splice(m[i].bytes, 0, d) == d;
  }

  // ---------------------------------------------------------------- the round trips

  lemma WellFormedLayout(m: Mem)
    requires WellFormed(m)
    ensures SortedByBase(m) && NoneEmpty(LayoutOf(m))
  {
  }

  /**
   Save and lazily restore: it succeeds exactly when every region begins at a page
   boundary of the file, and then the memory is the same, region by region.
   */
  method RoundTripLazy(mem: GuestMemoryMmap) returns (r: Result<GuestMemoryMmap, MemError>)
    requires mem.Valid() && WellFormed(mem.contents)
    ensures r.Ok? <==> PageAligned(LayoutOf(mem.contents), 0)
    ensures r.Ok? ==> r.value.Valid() && r.value.contents == mem.contents
  {
    hide GuestMemoryMmap.Valid, WellFormed, Cut, Flat, PageAligned, SortByBase, DumpFrom;
    ghost var m := mem.contents;
    var dump := Dump(mem);
    DumpIsFlat(m, 0);
    assert m[0..] == m;
    var file := dump.value;
    CutFlat(m, [], []);
    assert [] + Flat(m) + [] == Flat(m);
    WellFormedLayout(m);
    SortFixed(m);
    RegionsMatch(mem);
    var l := seq(|mem.regions|, i requires 0 <= i < |mem.regions| => (mem.regions[i].guestBase, mem.regions[i].mmap.Length));
    assert l == LayoutOf(m);
    r := FromFile(file, l);
  }

  /** The lazy and the eager way back agree on every file that covers the layout. */
  lemma LazyIsEager(l: Layout, file: seq<byte>, blank: Mem)
    requires WellFormed(blank) && LayoutOf(blank) == l && Total(l) <= |file|
    ensures SortByBase(Cut(l, file, 0)) == Refilled(blank, file, 0)
    ensures SameLayout(blank, Cut(l, file, 0))
  {
    var m := Cut(l, file, 0);
    CutLayout(l, file, 0);
    assert forall i :: 0 <= i < |m| ==> LayoutOf(m)[i] == LayoutOf(blank)[i];
    assert SortedByBase(m);
    SortFixed(m);
    RefilledWhole(blank, file, 0);
  }

  /** The same byte at every guest address, and the same unmapped addresses. */
  lemma SnapshotPreservesBytes(m: Mem)
    requires WellFormed(m)
    ensures Total(LayoutOf(m)) <= |Flat(m)|
    ensures var back := SortByBase(Cut(LayoutOf(m), Flat(m), 0));
            back == m && forall x: nat :: At(back, x) == At(m, x)
  {
    CutFlat(m, [], []);
    assert [] + Flat(m) + [] == Flat(m);
    WellFormedLayout(m);
    SortFixed(m);
  }
}
