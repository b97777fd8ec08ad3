/** The zero page: a 4096-byte structure whose fields the boot loader patches in place. */
module BootParams {
  import opened Bytes
  import opened GuestMemory

  const PAGE: nat := 4096

  const E820_COUNT: nat := 0x1E8
  const TYPE_OF_LOADER: nat := 0x210
  const LOADFLAGS: nat := 0x211
  const RAMDISK_IMAGE: nat := 0x218
  const RAMDISK_SIZE: nat := 0x21C
  const CMD_LINE_PTR: nat := 0x228
  const CMDLINE_SIZE: nat := 0x238
  const E820_TABLE: nat := 0x2D0
  const E820_ENTRY_LEN: nat := 20
  const E820_MAX_ENTRIES: nat := 128
  const E820_RAM: u32 := 1

  datatype E820Entry = E820Entry(addr: u64, size: u64, kind: u32)

  function E820Bytes(e: E820Entry): (s: seq<byte>)
    ensures |s| == E820_ENTRY_LEN
  {
    U64LE(e.addr) + U64LE(e.size) + U32LE(e.kind)
  }

  function E820Decode(s: seq<byte>): (e: E820Entry)
    requires |s| == E820_ENTRY_LEN
  {
    E820Entry(AsU64(s[..8]), AsU64(s[8..16]), AsU32(s[16..]))
  }

  lemma E820RoundTrip(e: E820Entry)
    ensures E820Decode(E820Bytes(e)) == e
  {
    hide U64LE, U32LE, AsU64, AsU32;
    var s := E820Bytes(e);
    assert s[..8] == U64LE(e.addr) && s[8..16] == U64LE(e.size) && s[16..] == U32LE(e.kind);
    U64RoundTrip(e.addr);
    U64RoundTrip(e.size);
    U32RoundTrip(e.kind);
  }

  /** Bytes stored at an offset of the page. */
  datatype Patch = Patch(off: nat, bytes: seq<byte>) {
    predicate Fits() {
      off + |bytes| <= PAGE
    }
  }

  function Patched(page: seq<byte>, ps: seq<Patch>): (r: seq<byte>)
    requires |page| == PAGE && forall i :: 0 <= i < |ps| ==> ps[i].Fits()
    ensures |r| == PAGE
  {
    if ps == [] then page
    else
      assert ps[|ps| - 1].Fits();
      Splice(Patched(page, ps[..|ps| - 1]), ps[|ps| - 1].off, ps[|ps| - 1].bytes)
  }

  ghost predicate PatchesApart(ps: seq<Patch>) {
    forall i, j :: 0 <= i < j < |ps| ==> Apart(ps[i].off, |ps[i].bytes|, ps[j].off, |ps[j].bytes|)
  }

  /** Fields that do not overlap all keep what was stored in them. */
  lemma {:induction false} FieldKept(page: seq<byte>, ps: seq<Patch>, i: nat)
    requires |page| == PAGE && (forall k :: 0 <= k < |ps| ==> ps[k].Fits())
    requires PatchesApart(ps) && i < |ps|
    ensures Patched(page, ps)[ps[i].off..ps[i].off + |ps[i].bytes|] == ps[i].bytes
    decreases |ps|
  {
    var init, last := ps[..|ps| - 1], ps[|ps| - 1];
    var before, after := Patched(page, init), Patched(page, ps);
    var a, b := ps[i].off, ps[i].off + |ps[i].bytes|;
    assert after == Splice(before, last.off, last.bytes);
    hide Patched;
    if i < |init| {
      FieldKept(page, init, i);
      assert Apart(ps[i].off, |ps[i].bytes|, last.off, |last.bytes|);
      assert after[a..b] == before[a..b];
    } else {
      assert after[a..b] == last.bytes;
    }
  }

  /** The zero page as an object. */
  class ZeroPage {
    const data: array<byte>

    ghost predicate Valid() {
      data.Length == PAGE
    }

    constructor ()
      ensures Valid() && fresh(data) && data[..] == Zeros(PAGE)
    {
      data := new byte[PAGE](_ => 0);
      new;
      assert data[..] == Zeros(PAGE);
    }

    /** Store a field. */
    method Store(off: nat, bytes: seq<byte>)
      requires Valid() && off + |bytes| <= PAGE
      modifies data
      ensures data[..] == Splice(old(data[..]), off, bytes)
    {
      forall k | 0 <= k < |bytes| {
        data[off + k] := bytes[k];
      }
    }

    /** `set_e820_entry`. */
    method SetE820Entry(index: nat, entry: E820Entry) returns (ok: bool)
      requires Valid()
      modifies data
      ensures ok <==> index < E820_MAX_ENTRIES
      ensures data[..] == if ok then Splice(old(data[..]), E820_TABLE + index * E820_ENTRY_LEN, E820Bytes(entry)) else old(data[..])
    {
      if index >= E820_MAX_ENTRIES {
        return false;
      }
      Store(E820_TABLE + index * E820_ENTRY_LEN, E820Bytes(entry));
      return true;
    }
  }
}
