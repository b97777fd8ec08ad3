/**
 Guest physical memory: non-overlapping regions, each backed by a host buffer.

 The class holds the buffers and changes them in place.  `contents` is its value,
 and the rest of the model reasons about that value only through `At` (the byte
 at a guest address) and `CanAccess` (which accesses the region layout admits).
 */
module GuestMemory {
  import opened Wrappers
  import opened Bytes

  datatype MemError =
    | NoRegion(addr: nat)
    | OutOfBounds(offset: nat, size: nat, regionSize: nat)
    | MmapFailed

  /** One region as a value: its guest base address and its contents. */
  datatype Region = Region(base: nat, bytes: seq<byte>) {
    predicate Contains(a: nat) {
      base <= a < base + |bytes|
    }
  }

  type Mem = seq<Region>

  // ---------------------------------------------------------------- values

  /** The index of the first region that contains `a`, or `|m|` when there is none. */
  function FindRegion(m: Mem, a: nat): (i: nat)
    ensures i <= |m|
    ensures i < |m| ==> m[i].Contains(a)
    ensures forall j :: 0 <= j < i ==> !m[j].Contains(a)
  {
    if m == [] || m[0].Contains(a) then 0 else 1 + FindRegion(m[1..], a)
  }

  predicate CanAccess(m: Mem, a: nat, n: nat) {
    var i := FindRegion(m, a);
    i < |m| && a - m[i].base + n <= |m[i].bytes|
  }

  function AccessError(m: Mem, a: nat, n: nat): (e: MemError)
    requires !CanAccess(m, a, n)
  {
    var i := FindRegion(m, a);
    if i == |m| then NoRegion(a) else OutOfBounds(a - m[i].base, n, |m[i].bytes|)
  }

  function Read(m: Mem, a: nat, n: nat): (r: Result<seq<byte>, MemError>)
  {
    if CanAccess(m, a, n) then
      var reg := m[FindRegion(m, a)];
      Ok(reg.bytes[a - reg.base..a - reg.base + n])
    else
      Err(AccessError(m, a, n))
  }

  /** `s` with `d` copied over it from position `off`. */
  function Splice<T>(s: seq<T>, off: nat, d: seq<T>): (r: seq<T>)
    requires off + |d| <= |s|
    ensures |r| == |s|
    ensures forall k {:trigger r[k]} :: 0 <= k < |s| ==> r[k] == if off <= k < off + |d| then d[k - off] else s[k]
  {
    s[..off] + d + s[off + |d|..]
  }

  /** The memory after writing `d` at `a`, when the layout admits the access. */
  function Put(m: Mem, a: nat, d: seq<byte>): (m': Mem)
    requires CanAccess(m, a, |d|)
  {
    var i := FindRegion(m, a);
    m[i := Region(m[i].base, Splice(m[i].bytes, a - m[i].base, d))]
  }

  /** The memory after a `write_slice` whose result is discarded. */
  function Poke(m: Mem, a: nat, d: seq<byte>): (m': Mem)
  {
    if CanAccess(m, a, |d|) then Put(m, a, d) else m
  }

  /** Sorted, non-empty and pairwise disjoint regions. */
  ghost predicate WellFormed(m: Mem) {
    && (forall i :: 0 <= i < |m| ==> |m[i].bytes| > 0)
    && (forall i, j :: 0 <= i < j < |m| ==> m[i].base + |m[i].bytes| <= m[j].base)
  }

  ghost predicate SameLayout(m: Mem, m': Mem) {
    && |m| == |m'|
    && forall i :: 0 <= i < |m| ==> m[i].base == m'[i].base && |m[i].bytes| == |m'[i].bytes|
  }

  /** The byte the guest sees at address `a`; `None` when it is unmapped. */
  function At(m: Mem, a: nat): (b: Option<byte>) {
    var i := FindRegion(m, a);
    if i == |m| then None else Some(m[i].bytes[a - m[i].base])
  }

  /** Two address ranges with no common address. */
  predicate Apart(a: nat, n: nat, b: nat, k: nat) {
    a + n <= b || b + k <= a
  }

  // ---------------------------------------------------------------- laws

  /** In a well-formed memory the region containing an address is unique. */
  lemma FindUnique(m: Mem, a: nat, i: nat)
    requires WellFormed(m)
    requires i < |m| && m[i].Contains(a)
    ensures FindRegion(m, a) == i
  {
  }

  lemma LayoutDecides(m: Mem, m': Mem, a: nat)
    requires SameLayout(m, m')
    ensures FindRegion(m, a) == FindRegion(m', a)
    ensures At(m, a).None? <==> At(m', a).None?
  {
    assert forall i :: 0 <= i < |m| ==> (m[i].Contains(a) <==> m'[i].Contains(a));
  }

  lemma LayoutAccess(m: Mem, m': Mem)
    requires SameLayout(m, m')
    ensures forall a: nat, n: nat :: CanAccess(m, a, n) <==> CanAccess(m', a, n)
    ensures WellFormed(m) ==> WellFormed(m')
  {
    forall a: nat, n: nat
      ensures CanAccess(m, a, n) <==> CanAccess(m', a, n)
    {
      LayoutDecides(m, m', a);
    }
  }

  /** Every byte of an admitted access lies in the region of its first byte. */
  lemma AccessInside(m: Mem, a: nat, n: nat, x: nat)
    requires WellFormed(m) && CanAccess(m, a, n)
    requires a <= x < a + n
    ensures FindRegion(m, x) == FindRegion(m, a)
  {
    FindUnique(m, x, FindRegion(m, a));
  }

  /** A part of an admitted access is itself admitted. */
  lemma AccessPart(m: Mem, a: nat, n: nat, b: nat, k: nat)
    requires WellFormed(m) && CanAccess(m, a, n)
    requires a <= b && b + k <= a + n && (k > 0 || b < a + n)
    ensures CanAccess(m, b, k)
  {
    AccessInside(m, a, n, b);
  }

  /** What a read returns is what the guest sees at those addresses. */
  lemma ReadAt(m: Mem, a: nat, n: nat)
    requires WellFormed(m)
    ensures Read(m, a, n).Ok? <==> CanAccess(m, a, n)
    ensures Read(m, a, n).Ok? ==> |Read(m, a, n).value| == n
    ensures Read(m, a, n).Ok? ==>
              forall x :: a <= x < a + n ==> At(m, x) == Some(Read(m, a, n).value[x - a])
  {
    if CanAccess(m, a, n) {
      forall x | a <= x < a + n
        ensures At(m, x) == Some(Read(m, a, n).value[x - a])
      {
        AccessInside(m, a, n, x);
      }
    }
  }

  /** A write changes exactly the addressed bytes and never the layout. */
  lemma PutAt(m: Mem, a: nat, d: seq<byte>)
    requires WellFormed(m) && CanAccess(m, a, |d|)
    ensures SameLayout(m, Put(m, a, d))
    ensures WellFormed(Put(m, a, d))
    ensures forall x: nat :: At(Put(m, a, d), x) == if a <= x < a + |d| then Some(d[x - a]) else At(m, x)
  {
    hide WellFormed, SameLayout, At, Put;
    PokeLayout(m, a, d);
    forall x: nat
      ensures At(Put(m, a, d), x) == if a <= x < a + |d| then Some(d[x - a]) else At(m, x)
    {
      PutByte(m, a, d, x);
    }
  }

  lemma PutByte(m: Mem, a: nat, d: seq<byte>, x: nat)
    requires WellFormed(m) && CanAccess(m, a, |d|)
    ensures At(Put(m, a, d), x) == if a <= x < a + |d| then Some(d[x - a]) else At(m, x)
  {
    hide WellFormed;
    PokeLayout(m, a, d);
    LayoutDecides(m, Put(m, a, d), x);
    if a <= x < a + |d| {
      AccessInside(m, a, |d|, x);
    }
  }

  lemma PokeLayout(m: Mem, a: nat, d: seq<byte>)
    ensures SameLayout(m, Poke(m, a, d))
    ensures WellFormed(m) ==> WellFormed(Poke(m, a, d))
  {
  }

  /** Reads depend only on the bytes the guest sees. */
  lemma ReadSame(m: Mem, m': Mem, a: nat, n: nat)
    requires WellFormed(m) && SameLayout(m, m')
    requires forall x :: a <= x < a + n ==> At(m, x) == At(m', x)
    ensures Read(m, a, n) == Read(m', a, n)
  {
    LayoutAccess(m, m');
    LayoutDecides(m, m', a);
    ReadAt(m, a, n);
    ReadAt(m', a, n);
    if CanAccess(m, a, n) {
      var s, s' := Read(m, a, n).value, Read(m', a, n).value;
      forall k | 0 <= k < n
        ensures s[k] == s'[k]
      {
        assert At(m, a + k) == At(m', a + k);
      }
      assert s == s';
    }
  }

  /** Read back what was just written. */
  lemma ReadBack(m: Mem, a: nat, d: seq<byte>)
    requires WellFormed(m) && CanAccess(m, a, |d|)
    ensures Read(Put(m, a, d), a, |d|) == Ok(d)
  {
    var m' := Put(m, a, d);
    PutAt(m, a, d);
    LayoutAccess(m, m');
    ReadAt(m', a, |d|);
    var s := Read(m', a, |d|).value;
    forall k | 0 <= k < |d|
      ensures s[k] == d[k]
    {
      assert At(m', a + k) == Some(d[k]);
    }
    assert s == d;
  }

  /** A write, successful or not, is invisible to a read that it does not touch. */
  lemma ReadApart(m: Mem, a: nat, d: seq<byte>, b: nat, n: nat)
    requires WellFormed(m) && Apart(a, |d|, b, n)
    ensures Read(Poke(m, a, d), b, n) == Read(m, b, n)
  {
    if CanAccess(m, a, |d|) {
      PutAt(m, a, d);
      ReadSame(m, Put(m, a, d), b, n);
    }
  }

  /** Memories with the same layout and the same visible bytes are the same. */
  lemma Extensional(m: Mem, m': Mem)
    requires WellFormed(m) && SameLayout(m, m')
    requires forall x: nat :: At(m, x) == At(m', x)
    ensures m == m'
  {
    hide At, WellFormed;
    forall i | 0 <= i < |m|
      ensures m[i] == m'[i]
    {
      forall k | 0 <= k < |m[i].bytes|
        ensures m[i].bytes[k] == m'[i].bytes[k]
      {
        ByteInRegion(m, m', i, k);
      }
      assert m[i].bytes == m'[i].bytes;
    }
  }

  lemma ByteInRegion(m: Mem, m': Mem, i: nat, k: nat)
    requires WellFormed(m) && SameLayout(m, m') && i < |m| && k < |m[i].bytes|
    requires At(m, m[i].base + k) == At(m', m[i].base + k)
    ensures m[i].bytes[k] == m'[i].bytes[k]
  {
    FindUnique(m, m[i].base + k, i);
    LayoutDecides(m, m', m[i].base + k);
    hide WellFormed, FindRegion;
  }

  // ---------------------------------------------------------------- the sort of the constructors

  function InsertByBase(r: Region, m: Mem): (s: Mem)
    ensures |s| == |m| + 1
  {
    if m == [] || r.base < m[0].base then [r] + m else [m[0]] + InsertByBase(r, m[1..])
  }

  /** `sort_by_key(|r| r.guest_base)`: the stable sort of the constructors. */
  function SortByBase(m: Mem): (s: Mem)
    ensures |s| == |m|
  {
    if m == [] then [] else InsertByBase(m[|m| - 1], SortByBase(m[..|m| - 1]))
  }

  ghost predicate SortedByBase(m: Mem) {
    forall i, j :: 0 <= i < j < |m| ==> m[i].base <= m[j].base
  }

  lemma {:induction false} InsertElements(r: Region, m: Mem)
    ensures multiset(InsertByBase(r, m)) == multiset(m) + multiset{r}
    ensures forall k :: 0 <= k < |m| + 1 ==> InsertByBase(r, m)[k] == r || InsertByBase(r, m)[k] in m
  {
    if m != [] && r.base >= m[0].base {
      InsertElements(r, m[1..]);
      assert m == [m[0]] + m[1..];
    }
  }

  lemma {:induction false} InsertSorted(r: Region, m: Mem)
    requires SortedByBase(m)
    ensures SortedByBase(InsertByBase(r, m))
  {
    if m != [] && r.base >= m[0].base {
      InsertSorted(r, m[1..]);
      InsertElements(r, m[1..]);
    }
  }

  lemma MembersSnoc(m: Mem)
    requires m != []
    ensures multiset(m) == multiset(m[..|m| - 1]) + multiset{m[|m| - 1]}
  {
    assert m == m[..|m| - 1] + [m[|m| - 1]];
  }

  lemma {:induction false} SortIsSorted(m: Mem)
    ensures SortedByBase(SortByBase(m))
    ensures multiset(SortByBase(m)) == multiset(m)
  {
    if m != [] {
      var init, last := m[..|m| - 1], m[|m| - 1];
      assert SortByBase(m) == InsertByBase(last, SortByBase(init));
      hide SortedByBase, InsertByBase, SortByBase;
      SortIsSorted(init);
      InsertSorted(last, SortByBase(init));
      InsertElements(last, SortByBase(init));
      MembersSnoc(m);
    }
  }

  /** The regions are not empty and no two have a common address. */
  ghost predicate Separate(m: Mem) {
    && (forall i :: 0 <= i < |m| ==> |m[i].bytes| > 0)
    && (forall i, j :: 0 <= i < j < |m| ==> Apart(m[i].base, |m[i].bytes|, m[j].base, |m[j].bytes|))
  }

  /** Region `r` is not empty and clear of all regions of `m`. */
  ghost predicate ClearOfAll(r: Region, m: Mem) {
    |r.bytes| > 0 && forall i :: 0 <= i < |m| ==> Apart(r.base, |r.bytes|, m[i].base, |m[i].bytes|)
  }

  lemma SeparateCons(r: Region, m: Mem)
    ensures Separate([r] + m) <==> Separate(m) && ClearOfAll(r, m)
  {
    var all := [r] + m;
    assert forall i :: 0 <= i < |m| ==> all[i + 1] == m[i];
    if Separate(all) {
      assert all[0] == r;
      forall i | 0 <= i < |m| ensures Apart(r.base, |r.bytes|, m[i].base, |m[i].bytes|) {
        assert Apart(all[0].base, |all[0].bytes|, all[i + 1].base, |all[i + 1].bytes|);
      }
      forall i, j | 0 <= i < j < |m| ensures Apart(m[i].base, |m[i].bytes|, m[j].base, |m[j].bytes|) {
        assert Apart(all[i + 1].base, |all[i + 1].bytes|, all[j + 1].base, |all[j + 1].bytes|);
      }
    }
  }

  lemma SeparateSnoc(m: Mem, r: Region)
    ensures Separate(m + [r]) <==> Separate(m) && ClearOfAll(r, m)
  {
    var all := m + [r];
    assert all[|m|] == r && forall i :: 0 <= i < |m| ==> all[i] == m[i];
    if Separate(all) {
      forall i | 0 <= i < |m| ensures Apart(r.base, |r.bytes|, m[i].base, |m[i].bytes|) {
        assert Apart(all[i].base, |all[i].bytes|, all[|m|].base, |all[|m|].bytes|);
      }
    }
  }

  lemma ClearOfCons(r: Region, x: Region, m: Mem)
    ensures ClearOfAll(r, [x] + m) <==> ClearOfAll(r, m) && Apart(r.base, |r.bytes|, x.base, |x.bytes|)
  {
    var all := [x] + m;
    assert all[0] == x && forall i :: 0 <= i < |m| ==> all[i + 1] == m[i];
    if ClearOfAll(r, all) {
      forall i | 0 <= i < |m| ensures Apart(r.base, |r.bytes|, m[i].base, |m[i].bytes|) {
        assert all[i + 1] == m[i];
      }
    }
  }

  /** Where a region is inserted does not matter. */
  lemma {:induction false} InsertSeparate(r: Region, m: Mem)
    ensures Separate(InsertByBase(r, m)) <==> Separate(m) && ClearOfAll(r, m)
    ensures forall x: Region :: ClearOfAll(x, InsertByBase(r, m)) <==>
              ClearOfAll(x, m) && Apart(x.base, |x.bytes|, r.base, |r.bytes|)
  {
    hide Separate, ClearOfAll;
    if m == [] || r.base < m[0].base {
      SeparateCons(r, m);
      forall x: Region
        ensures ClearOfAll(x, [r] + m) <==> ClearOfAll(x, m) && Apart(x.base, |x.bytes|, r.base, |r.bytes|)
      {
        ClearOfCons(x, r, m);
      }
    } else {
      var rest := InsertByBase(r, m[1..]);
      InsertSeparate(r, m[1..]);
      assert m == [m[0]] + m[1..];
      SeparateCons(m[0], rest);
      SeparateCons(m[0], m[1..]);
      ClearOfCons(r, m[0], m[1..]);
      forall x: Region
        ensures ClearOfAll(x, [m[0]] + rest) <==> ClearOfAll(x, m) && Apart(x.base, |x.bytes|, r.base, |r.bytes|)
      {
        ClearOfCons(x, m[0], rest);
        ClearOfCons(x, m[0], m[1..]);
      }
    }
  }

  lemma {:induction false} SortSeparate(m: Mem)
    ensures Separate(SortByBase(m)) <==> Separate(m)
    ensures forall x: Region :: ClearOfAll(x, SortByBase(m)) <==> ClearOfAll(x, m)
  {
    hide Separate, ClearOfAll, InsertByBase;
    if m != [] {
      var init, last := m[..|m| - 1], m[|m| - 1];
      SortSeparate(init);
      InsertSeparate(last, SortByBase(init));
      assert m == init + [last];
      SeparateSnoc(init, last);
      forall x: Region
        ensures ClearOfAll(x, init + [last]) <==> ClearOfAll(x, init) && Apart(x.base, |x.bytes|, last.base, |last.bytes|)
      {
        ClearOfSnoc(x, init, last);
      }
    }
  }

  lemma ClearOfSnoc(r: Region, m: Mem, x: Region)
    ensures ClearOfAll(r, m + [x]) <==> ClearOfAll(r, m) && Apart(r.base, |r.bytes|, x.base, |x.bytes|)
  {
    var all := m + [x];
    assert all[|m|] == x && forall i :: 0 <= i < |m| ==> all[i] == m[i];
  }

  /** A constructed memory is well formed iff its regions are not empty and separate, in whatever order they were given. */
  lemma ConstructedWellFormedIff(m: Mem)
    ensures WellFormed(SortByBase(m)) <==> Separate(m)
  {
    hide SortByBase;
    SortIsSorted(m);
    SortSeparate(m);
    var s := SortByBase(m);
    if Separate(s) {
      forall i, j | 0 <= i < j < |s|
        ensures s[i].base + |s[i].bytes| <= s[j].base
      {
        assert s[i].base <= s[j].base && |s[j].bytes| > 0;
      }
    }
  }

  lemma {:induction false} InsertLast(r: Region, m: Mem)
    requires forall i :: 0 <= i < |m| ==> m[i].base <= r.base
    ensures InsertByBase(r, m) == m + [r]
  {
    if m != [] {
      InsertLast(r, m[1..]);
      assert m + [r] == [m[0]] + (m[1..] + [r]);
    }
  }

  /** Sorting what is already in order moves nothing. */
  lemma {:induction false} SortFixed(m: Mem)
    requires SortedByBase(m)
    ensures SortByBase(m) == m
  {
    if m != [] {
      var init := m[..|m| - 1];
      SortFixed(init);
      InsertLast(m[|m| - 1], init);
      assert m == init + [m[|m| - 1]];
    }
  }

  // ---------------------------------------------------------------- the class

  /** A region with its buffer, as the program holds it. */
  datatype GuestRegion = GuestRegion(guestBase: nat, mmap: array<byte>)

  ghost function ValueOf(r: GuestRegion): (v: Region)
    reads r.mmap
  {
    Region(r.guestBase, r.mmap[..])
  }

  ghost function Buffers(rs: seq<GuestRegion>): (s: set<array<byte>>) {
    set r | r in rs :: r.mmap
  }

  ghost function ValuesOf(rs: seq<GuestRegion>): (m: Mem)
    reads Buffers(rs)
    ensures |m| == |rs|
    ensures forall i :: 0 <= i < |rs| ==> m[i] == ValueOf(rs[i])
  {
    seq(|rs|, i requires 0 <= i < |rs| reads Buffers(rs) => ValueOf(rs[i]))
  }

  ghost predicate Distinct(rs: seq<GuestRegion>) {
    forall i, j :: 0 <= i < j < |rs| ==> rs[i].mmap != rs[j].mmap
  }

  function InsertRegion(r: GuestRegion, rs: seq<GuestRegion>): (s: seq<GuestRegion>) {
    if rs == [] || r.guestBase < rs[0].guestBase then [r] + rs
    else [rs[0]] + InsertRegion(r, rs[1..])
  }

  function SortRegions(rs: seq<GuestRegion>): (s: seq<GuestRegion>) {
    if rs == [] then [] else InsertRegion(rs[|rs| - 1], SortRegions(rs[..|rs| - 1]))
  }

  lemma {:induction false} InsertRegionElements(r: GuestRegion, rs: seq<GuestRegion>)
    ensures var t := InsertRegion(r, rs);
            && |t| == |rs| + 1
            && r in t
            && (forall k :: 0 <= k < |rs| ==> rs[k] in t)
            && (forall k :: 0 <= k < |t| ==> t[k] == r || t[k] in rs)
  {
    if rs != [] && r.guestBase >= rs[0].guestBase {
      InsertRegionElements(r, rs[1..]);
      var u := InsertRegion(r, rs[1..]);
      var t := [rs[0]] + u;
      assert forall x :: x in u ==> x in t;
      forall k | 0 <= k < |rs| ensures rs[k] in t {
        if k > 0 { assert rs[k] == rs[1..][k - 1]; } else { assert t[0] == rs[k]; }
      }
    }
  }

  lemma {:induction false} InsertDistinct(r: GuestRegion, rs: seq<GuestRegion>)
    requires Distinct(rs) && forall x :: x in rs ==> x.mmap != r.mmap
    ensures Distinct(InsertRegion(r, rs))
  {
    if rs != [] && r.guestBase >= rs[0].guestBase {
      var rest := InsertRegion(r, rs[1..]);
      InsertDistinct(r, rs[1..]);
      InsertRegionElements(r, rs[1..]);
      DistinctCons(rs[0], rest);
    }
  }

  lemma DistinctCons(r: GuestRegion, rest: seq<GuestRegion>)
    requires Distinct(rest) && forall k :: 0 <= k < |rest| ==> rest[k].mmap != r.mmap
    ensures Distinct([r] + rest)
  {
  }

  lemma {:induction false} InsertValues(r: GuestRegion, rs: seq<GuestRegion>)
    ensures ValuesOf(InsertRegion(r, rs)) == InsertByBase(ValueOf(r), ValuesOf(rs))
  {
    if rs != [] && r.guestBase >= rs[0].guestBase {
      InsertValues(r, rs[1..]);
      assert ValuesOf(rs)[1..] == ValuesOf(rs[1..]);
      assert ValuesOf(InsertRegion(r, rs)) == [ValueOf(rs[0])] + ValuesOf(InsertRegion(r, rs[1..]));
    } else {
      assert ValuesOf([r] + rs) == [ValueOf(r)] + ValuesOf(rs);
    }
  }

  lemma {:induction false} SortElements(rs: seq<GuestRegion>)
    ensures forall x :: x in SortRegions(rs) <==> x in rs
    ensures Distinct(rs) ==> Distinct(SortRegions(rs))
  {
    if rs != [] {
      var init, last := rs[..|rs| - 1], rs[|rs| - 1];
      SortElements(init);
      InsertRegionElements(last, SortRegions(init));
      if Distinct(rs) {
        InsertDistinct(last, SortRegions(init));
      }
      assert rs == init + [last];
    }
  }

  lemma {:induction false} SortValues(rs: seq<GuestRegion>)
    ensures ValuesOf(SortRegions(rs)) == SortByBase(ValuesOf(rs))
  {
    if rs != [] {
      var init, last := rs[..|rs| - 1], rs[|rs| - 1];
      SortValues(init);
      InsertValues(last, SortRegions(init));
      assert ValuesOf(rs)[..|rs| - 1] == ValuesOf(init);
    }
  }

  class GuestMemoryMmap {
    const regions: seq<GuestRegion>
    ghost const Repr: set<object>
    ghost var contents: Mem

    ghost predicate Valid()
      reads this, Repr
      ensures Valid() ==> this in Repr
    {
      && this in Repr
      && (forall r :: r in regions ==> r.mmap in Repr)
      && Distinct(regions)
      && contents == ValuesOf(regions)
    }

    /** The common end of `new` and `from_file`: keep the regions sorted by base. */
    constructor FromRegions(rs: seq<GuestRegion>)
      requires Distinct(rs)
      ensures Valid() && fresh(Repr - Buffers(rs))
      ensures contents == SortByBase(ValuesOf(rs))
    {
      regions := SortRegions(rs);
      Repr := {this} + Buffers(rs);
      contents := ValuesOf(SortRegions(rs));
      new;
      SortElements(rs);
      SortValues(rs);
    }

    method Locate(addr: nat) returns (r: Result<(nat, nat), MemError>)
      requires Valid()
      ensures var i := FindRegion(contents, addr);
              r == if i < |contents| then Ok((i, addr - contents[i].base)) else Err(NoRegion(addr))
    {
      for i := 0 to |regions|
        invariant forall j :: 0 <= j < i ==> !contents[j].Contains(addr)
      {
        if addr >= regions[i].guestBase {
          var offset := addr - regions[i].guestBase;
          if offset < regions[i].mmap.Length {
            assert contents[i].Contains(addr);
            return Ok((i, offset));
          }
        }
      }
      return Err(NoRegion(addr));
    }

    method ReadSlice(addr: nat, n: nat) returns (r: Result<seq<byte>, MemError>)
      requires Valid()
      ensures r == Read(contents, addr, n)
    {
      var found :- Locate(addr);
      var idx, offset := found.0, found.1;
      var mmap := regions[idx].mmap;
      if offset + n > mmap.Length {
        return Err(OutOfBounds(offset, n, mmap.Length));
      }
      return Ok(mmap[offset..offset + n]);
    }

    method WriteSlice(addr: nat, data: seq<byte>) returns (r: Result<Unit, MemError>)
      requires Valid()
      modifies Repr
      ensures Valid()
      ensures contents == Poke(old(contents), addr, data)
      ensures r == if CanAccess(old(contents), addr, |data|) then Ok(Unit)
                   else Err(AccessError(old(contents), addr, |data|))
    {
      var found :- Locate(addr);
      var idx, offset := found.0, found.1;
      var mmap := regions[idx].mmap;
      if offset + |data| > mmap.Length {
        return Err(OutOfBounds(offset, |data|, mmap.Length));
      }
      forall k | 0 <= k < |data| {
        mmap[offset + k] := data[k];
      }
      assert mmap[..] == Splice(contents[idx].bytes, offset, data);
      contents := Put(contents, addr, data);
      return Ok(Unit);
    }
  }

  /** One more buffer, distinct from the others. */
  lemma AddRegion(rs: seq<GuestRegion>, r: GuestRegion)
    requires Distinct(rs) && r.mmap !in Buffers(rs)
    ensures Distinct(rs + [r]) && Buffers(rs + [r]) == Buffers(rs) + {r.mmap}
    ensures ValuesOf(rs + [r]) == ValuesOf(rs) + [ValueOf(r)]
  {
    forall x | x in rs
      ensures x.mmap != r.mmap
    {
      assert x.mmap in Buffers(rs);
    }
    assert Buffers(rs + [r]) == Buffers(rs) + {r.mmap};
  }

  /** Fresh zero-filled regions, in the order given; a zero-length mapping is refused. */
  method New(layout: seq<(nat, nat)>) returns (r: Result<GuestMemoryMmap, MemError>)
    ensures r.Ok? <==> forall i :: 0 <= i < |layout| ==> layout[i].1 > 0
    ensures r.Ok? ==> r.value.Valid() && fresh(r.value.Repr)
    ensures r.Ok? ==> r.value.contents == SortByBase(Zeroed(layout))
    ensures r.Err? ==> r.error == MmapFailed
  {
    hide Distinct, ValuesOf, SortByBase, Zeros, GuestMemoryMmap.Valid;
    var rs: seq<GuestRegion> := [];
    NoRegions();
    assert Zeroed(layout)[..0] == [];
    for i := 0 to |layout|
      invariant |rs| == i && Distinct(rs) && fresh(Buffers(rs))
      invariant forall k :: 0 <= k < i ==> layout[k].1 > 0
      invariant ValuesOf(rs) == Zeroed(layout)[..i]
    {
      if layout[i].1 == 0 {
        return Err(MmapFailed);
      }
      var mmap := NewZeroed(layout[i].1);
      AddRegion(rs, GuestRegion(layout[i].0, mmap));
      rs := rs + [GuestRegion(layout[i].0, mmap)];
      assert Zeroed(layout)[..i + 1] == Zeroed(layout)[..i] + [Zeroed(layout)[i]];
    }
    var mem := new GuestMemoryMmap.FromRegions(rs);
    assert Zeroed(layout)[..|layout|] == Zeroed(layout);
    return Ok(mem);
  }

  lemma NoRegions()
    ensures Distinct([]) && ValuesOf([]) == [] && Buffers([]) == {}
  {
  }

  /** An anonymous mapping. */
  method NewZeroed(n: nat) returns (mmap: array<byte>)
    ensures fresh(mmap) && mmap[..] == Zeros(n)
  {
    mmap := new byte[n](_ => 0);
  }

  function Zeros(n: nat): (s: seq<byte>)
    ensures |s| == n && forall k :: 0 <= k < n ==> s[k] == 0
  {
    seq(n, _ => 0)
  }

  function Zeroed(layout: seq<(nat, nat)>): (m: Mem)
    ensures |m| == |layout|
  {
    seq(|layout|, i requires 0 <= i < |layout| => Region(layout[i].0, Zeros(layout[i].1)))
  }
}
