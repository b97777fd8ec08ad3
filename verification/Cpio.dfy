/**
 The cpio "newc" writer of the initial RAM disk, and a newc reader as its inverse.
 */
module Cpio {
  import opened Wrappers
  import opened Bytes
  import opened GuestMemory

  // ---------------------------------------------------------------- hexadecimal fields

  function Pow16(n: nat): (p: nat)
    ensures p > 0
  {
    if n == 0 then 1 else 16 * Pow16(n - 1)
  }

  function Digit(d: nat): (c: byte)
    requires d < 16
  {
    if d < 10 then 48 + d else 55 + d
  }

  function DigitValue(c: byte): (d: Option<nat>)
    ensures d.Some? ==> d.value < 16
  {
    if 48 <= c <= 57 then Some(c - 48)
    else if 65 <= c <= 70 then Some(c - 55)
    else if 97 <= c <= 102 then Some(c - 87)
    else None
  }

  /** The last `w` upper-case hexadecimal digits of `v`. */
  function HexPad(v: nat, w: nat): (s: seq<byte>)
    ensures |s| == w
  {
    if w == 0 then [] else HexPad(v / 16, w - 1) + [Digit(v % 16)]
  }

  function HexWide(v: nat): (s: seq<byte>)
  {
    if v < 16 then [Digit(v)] else HexWide(v / 16) + [Digit(v % 16)]
  }

  /** `{:08X}`: eight digits, or more when the value needs them. */
  function HexField(v: nat): (s: seq<byte>) {
    if v < 0x1_0000_0000 then HexPad(v, 8) else HexWide(v)
  }

  function HexValue(s: seq<byte>): (v: Option<nat>)
    ensures v.Some? ==> v.value < Pow16(|s|)
  {
    if s == [] then Some(0)
    else
      match (HexValue(s[..|s| - 1]), DigitValue(s[|s| - 1]))
      case (Some(v), Some(d)) => Some(v * 16 + d)
      case _ => None
  }

  lemma {:induction false} HexRoundTrip(v: nat, w: nat)
    requires v < Pow16(w)
    ensures HexValue(HexPad(v, w)) == Some(v)
  {
    if w > 0 {
      HexRoundTrip(v / 16, w - 1);
      var s := HexPad(v, w);
      assert s[..w - 1] == HexPad(v / 16, w - 1);
    }
  }

  lemma EightDigits()
    ensures Pow16(8) == 0x1_0000_0000
  {
    assert Pow16(2) == 256;
    assert Pow16(4) == 256 * Pow16(2);
    assert Pow16(6) == 256 * Pow16(4);
    assert Pow16(8) == 256 * Pow16(6);
  }

  /** Consecutive fields of a header. */
  function Fields(vs: seq<nat>): (s: seq<byte>) {
    if vs == [] then [] else HexField(vs[0]) + Fields(vs[1..])
  }

  function ParseFields(s: seq<byte>, n: nat): (r: Option<(seq<nat>, seq<byte>)>)
    ensures r.Some? ==> |r.value.0| == n && forall i :: 0 <= i < n ==> r.value.0[i] < Pow16(8)
    ensures r.Some? ==> |r.value.1| <= |s|
  {
    if n == 0 then Some(([], s))
    else if |s| < 8 then None
    else
      match (HexValue(s[..8]), ParseFields(s[8..], n - 1))
      case (Some(v), Some((vs, rest))) => Some(([v] + vs, rest))
      case _ => None
  }

  lemma FieldRead(v: nat, rest: seq<byte>)
    requires v < 0x1_0000_0000
    ensures |HexField(v) + rest| >= 8
    ensures HexValue((HexField(v) + rest)[..8]) == Some(v) && (HexField(v) + rest)[8..] == rest
  {
    hide HexValue, HexPad, Pow16;
    EightDigits();
    HexRoundTrip(v, 8);
    assert (HexPad(v, 8) + rest)[..8] == HexPad(v, 8);
  }

  lemma {:induction false} FieldsRoundTrip(vs: seq<nat>, rest: seq<byte>)
    requires forall i :: 0 <= i < |vs| ==> vs[i] < 0x1_0000_0000
    ensures ParseFields(Fields(vs) + rest, |vs|) == Some((vs, rest))
    decreases |vs|
  {
    hide HexField, HexValue, Pow16;
    if vs == [] {
      assert Fields(vs) + rest == rest;
    } else {
      var first, tail := HexField(vs[0]), Fields(vs[1..]) + rest;
      assert Fields(vs) == first + Fields(vs[1..]);
      hide Fields;
      assert Fields(vs) + rest == first + tail;
      FieldRead(vs[0], tail);
      FieldsRoundTrip(vs[1..], rest);
      assert ParseFields(first + tail, |vs|) == Some(([vs[0]] + vs[1..], rest));
      assert [vs[0]] + vs[1..] == vs;
    }
  }

  // ---------------------------------------------------------------- entries

  datatype Entry = Entry(name: seq<byte>, mode: u32, data: seq<byte>, ino: u32)

  /** "070701" */
  const MAGIC: seq<byte> := [48, 55, 48, 55, 48, 49]
  /** "TRAILER!!!" */
  const TRAILER_NAME: seq<byte> := [84, 82, 65, 73, 76, 69, 82, 33, 33, 33]
  const HEADER_LEN: nat := 110

  function Trailer(): (e: Entry) {
    Entry(TRAILER_NAME, 0, [], 0)
  }

  function PadLen(n: nat): (k: nat)
    ensures k < 4 && (n + k) % 4 == 0
  {
    (4 - n % 4) % 4
  }

  /** The thirteen header fields. */
  function HeaderValues(e: Entry): (vs: seq<nat>)
    ensures |vs| == 13
  {
    [e.ino, e.mode, 0, 0, 1, 0, |e.data|, 0, 0, 0, 0, |e.name| + 1, 0]
  }

  /** Everything after the header: name, NUL, padding, data, padding. */
  function Body(e: Entry): (s: seq<byte>) {
    e.name + [0] + Zeros(PadLen(HEADER_LEN + |e.name| + 1)) + e.data + Zeros(PadLen(|e.data|))
  }

  function EntryBytes(e: Entry): (s: seq<byte>) {
    MAGIC + Fields(HeaderValues(e)) + Body(e)
  }

  // ---------------------------------------------------------------- the reader

  /** The bytes before the first NUL. */
  function UpToNul(s: seq<byte>): (r: seq<byte>)
    ensures 0 !in r && |r| <= |s|
  {
    if s == [] || s[0] == 0 then [] else [s[0]] + UpToNul(s[1..])
  }

  /** The part of an entry after its header, given the sizes the header announces. */
  function ParseBody(s: seq<byte>, nameSize: nat, dataSize: nat): (r: Option<(seq<byte>, seq<byte>, seq<byte>)>)
    ensures r.Some? ==> |r.value.0| <= nameSize && |r.value.1| == dataSize && 0 !in r.value.0
    ensures r.Some? ==> |r.value.2| <= |s|
  {
    var dataAt := nameSize + PadLen(HEADER_LEN + nameSize);
    var end := dataAt + dataSize + PadLen(dataSize);
    if nameSize == 0 || end > |s| || s[nameSize - 1] != 0 then None
    else Some((UpToNul(s[..nameSize]), s[dataAt..dataAt + dataSize], s[end..]))
  }

  /** One entry and what follows it. */
  function ParseEntry(s: seq<byte>): (r: Option<(Entry, seq<byte>)>)
    ensures r.Some? ==> |r.value.1| < |s|
  {
    if |s| < 6 || s[..6] != MAGIC then None
    else
      match ParseFields(s[6..], 13)
      case None => None
      case Some((vs, rest)) =>
        EightDigits();
        match ParseBody(rest, vs[11], vs[6])
        case None => None
        case Some((name, data, tail)) => Some((Entry(name, vs[1], data, vs[0]), tail))
  }

  /** Concatenated archives: trailers end one archive and the next begins. */
  function ParseAll(s: seq<byte>): (r: Option<seq<Entry>>)
    decreases |s|
  {
    if s == [] then Some([])
    else
      match ParseEntry(s)
      case None => None
      case Some((e, tail)) =>
        match ParseAll(tail)
        case None => None
        case Some(es) => Some(if e.name == TRAILER_NAME then es else [e] + es)
  }

  // ---------------------------------------------------------------- round trip of one entry

  /** What the header can describe and the reader can tell apart. */
  predicate Representable(e: Entry) {
    |e.data| < 0x1_0000_0000 && |e.name| + 1 < 0x1_0000_0000 && 0 !in e.name
  }

  lemma {:induction false} NulEnds(name: seq<byte>, rest: seq<byte>)
    requires 0 !in name
    ensures UpToNul(name + [0] + rest) == name
  {
    var s := name + [0] + rest;
    if name != [] {
      assert s[1..] == name[1..] + [0] + rest;
      NulEnds(name[1..], rest);
    }
  }

  lemma BodyRoundTrip(e: Entry, rest: seq<byte>)
    requires 0 !in e.name
    ensures ParseBody(Body(e) + rest, |e.name| + 1, |e.data|) == Some((e.name, e.data, rest))
  {
    hide UpToNul, PadLen;
    var n := |e.name| + 1;
    var pad1, pad2 := PadLen(HEADER_LEN + n), PadLen(|e.data|);
    var s := Body(e) + rest;
    NulEnds(e.name, []);
    assert s[..n] == e.name + [0] + [];
    assert s[n - 1] == 0;
    assert s[n + pad1..n + pad1 + |e.data|] == e.data;
    assert s[n + pad1 + |e.data| + pad2..] == rest;
  }

  /** A written entry is read back, with exactly what followed it, iff it is representable. */
  lemma EntryRoundTripIff(e: Entry, rest: seq<byte>)
    ensures ParseEntry(EntryBytes(e) + rest) == Some((e, rest)) <==> Representable(e)
  {
    if Representable(e) {
      EntryRoundTrip(e, rest);
    } else {
      ParsedIsRepresentable(EntryBytes(e) + rest);
    }
  }

  lemma MagicFirst(fields: seq<byte>, body: seq<byte>, rest: seq<byte>)
    ensures var s := MAGIC + fields + body + rest; |s| >= 6 && s[..6] == MAGIC && s[6..] == fields + (body + rest)
  {
  }

  lemma EntryRoundTrip(e: Entry, rest: seq<byte>)
    requires Representable(e)
    ensures ParseEntry(EntryBytes(e) + rest) == Some((e, rest))
  {
    hide Fields, Body, ParseBody, ParseFields, PadLen;
    var s := EntryBytes(e) + rest;
    var vs, body := HeaderValues(e), Body(e) + rest;
    FieldsRoundTrip(vs, body);
    BodyRoundTrip(e, rest);
    MagicFirst(Fields(vs), Body(e), rest);
    assert s[..6] == MAGIC && s[6..] == Fields(vs) + body;
    hide EntryBytes;
  }

  lemma ParsedIsRepresentable(s: seq<byte>)
    ensures ParseEntry(s).Some? ==> Representable(ParseEntry(s).value.0)
  {
    hide PadLen, UpToNul, HexValue;
    EightDigits();
    if ParseEntry(s).Some? {
      var vs := ParseFields(s[6..], 13).value.0;
      assert vs[11] < Pow16(8) && vs[6] < Pow16(8);
      ShortName(ParseFields(s[6..], 13).value.1, vs[11], vs[6]);
    }
  }

  /** The NUL that ends a name is not part of it. */
  lemma ShortName(s: seq<byte>, nameSize: nat, dataSize: nat)
    requires ParseBody(s, nameSize, dataSize).Some?
    ensures |ParseBody(s, nameSize, dataSize).value.0| < nameSize
  {
    hide PadLen;
    NulShortens(s[..nameSize]);
  }

  lemma {:induction false} NulShortens(s: seq<byte>)
    requires s != [] && s[|s| - 1] == 0
    ensures |UpToNul(s)| < |s|
  {
    if s[0] != 0 {
      NulShortens(s[1..]);
    }
  }

  /** Every written entry keeps the archive aligned to four bytes. */
  lemma EntryAligned(e: Entry)
    requires Representable(e)
    ensures |EntryBytes(e)| % 4 == 0
  {
    hide PadLen, HexPad, Fields;
    FieldsLength(HeaderValues(e));
    var n := |e.name| + 1;
    var head, tail := HEADER_LEN + n + PadLen(HEADER_LEN + n), |e.data| + PadLen(|e.data|);
    assert |EntryBytes(e)| == head + tail;
    MultiplesOfFour(head, tail);
  }

  lemma MultiplesOfFour(a: nat, b: nat)
    requires a % 4 == 0 && b % 4 == 0
    ensures (a + b) % 4 == 0
  {
  }

  lemma {:induction false} FieldsLength(vs: seq<nat>)
    requires forall i :: 0 <= i < |vs| ==> vs[i] < 0x1_0000_0000
    ensures |Fields(vs)| == 8 * |vs|
    decreases |vs|
  {
    if vs != [] {
      FieldsLength(vs[1..]);
    }
  }

  // ---------------------------------------------------------------- archives

  function ArchiveBytes(es: seq<Entry>): (s: seq<byte>) {
    if es == [] then [] else EntryBytes(es[0]) + ArchiveBytes(es[1..])
  }

  predicate Storable(e: Entry) {
    Representable(e) && e.name != TRAILER_NAME
  }

  function WithoutTrailers(es: seq<Entry>): (r: seq<Entry>) {
    if es == [] then []
    else (if es[0].name == TRAILER_NAME then [] else [es[0]]) + WithoutTrailers(es[1..])
  }

  lemma {:induction false} ArchiveRoundTrip(es: seq<Entry>)
    requires forall i :: 0 <= i < |es| ==> Representable(es[i])
    ensures ParseAll(ArchiveBytes(es)) == Some(WithoutTrailers(es))
    decreases |es|
  {
    hide EntryBytes, ParseEntry, Representable;
    if es != [] {
      ArchiveRoundTrip(es[1..]);
      EntryRoundTrip(es[0], ArchiveBytes(es[1..]));
      assert [] + WithoutTrailers(es[1..]) == WithoutTrailers(es[1..]);
    }
  }

  lemma {:induction false} ArchiveConcat(a: seq<Entry>, b: seq<Entry>)
    ensures ArchiveBytes(a + b) == ArchiveBytes(a) + ArchiveBytes(b)
    decreases |a|
  {
    hide EntryBytes;
    if a == [] {
      assert a + b == b;
    } else {
      ArchiveConcat(a[1..], b);
      assert (a + b)[1..] == a[1..] + b;
    }
  }

  lemma {:induction false} TrailersConcat(a: seq<Entry>, b: seq<Entry>)
    ensures WithoutTrailers(a + b) == WithoutTrailers(a) + WithoutTrailers(b)
    decreases |a|
  {
    if a == [] {
      assert a + b == b;
    } else {
      var first := if a[0].name == TRAILER_NAME then [] else [a[0]];
      var x, y := WithoutTrailers(a[1..]), WithoutTrailers(b);
      assert (a + b)[0] == a[0] && (a + b)[1..] == a[1..] + b;
      assert WithoutTrailers(a + b) == first + WithoutTrailers(a[1..] + b);
      assert WithoutTrailers(a) == first + x;
      hide WithoutTrailers;
      TrailersConcat(a[1..], b);
      assert first + (x + y) == (first + x) + y;
    }
  }

  /** Files injected into an archive, each with its own trailer. */
  function Injected(files: seq<Entry>): (es: seq<Entry>) {
    if files == [] then [] else Injected(files[..|files| - 1]) + [files[|files| - 1], Trailer()]
  }

  lemma TrailerRepresentable()
    ensures Representable(Trailer())
  {
  }

  lemma {:induction false} NoTrailers(es: seq<Entry>)
    requires forall i :: 0 <= i < |es| ==> Storable(es[i])
    ensures WithoutTrailers(es) == es
    decreases |es|
  {
    if es != [] {
      NoTrailers(es[1..]);
    }
  }

  lemma {:induction false} InjectedEntries(files: seq<Entry>)
    requires forall i :: 0 <= i < |files| ==> Storable(files[i])
    ensures WithoutTrailers(Injected(files)) == files
    ensures forall i :: 0 <= i < |Injected(files)| ==> Representable(Injected(files)[i])
    decreases |files|
  {
    hide Representable, ArchiveBytes;
    if files != [] {
      var init, last := files[..|files| - 1], files[|files| - 1];
      InjectedEntries(init);
      TrailerRepresentable();
      TrailersConcat(Injected(init), [last, Trailer()]);
      FileAndTrailer(last);
      assert init + [last] == files;
    }
  }

  lemma FileAndTrailer(file: Entry)
    requires file.name != TRAILER_NAME
    ensures WithoutTrailers([file, Trailer()]) == [file]
  {
    var es := [file, Trailer()];
    assert es[1..] == [Trailer()] && es[1..][1..] == [];
    assert WithoutTrailers(es[1..]) == [] + [];
  }

  /**
   A base archive followed by any number of injected files is read back as the base
   entries and then the files, in order.
   */
  lemma ConcatenatedArchives(base: seq<Entry>, files: seq<Entry>)
    requires forall i :: 0 <= i < |base| ==> Storable(base[i])
    requires forall i :: 0 <= i < |files| ==> Storable(files[i])
    ensures ParseAll(ArchiveBytes(base + [Trailer()]) + ArchiveBytes(Injected(files))) == Some(base + files)
  {
    hide ArchiveBytes, ParseAll, Representable;
    var whole := base + [Trailer()] + Injected(files);
    TrailerRepresentable();
    InjectedEntries(files);
    StorableRepresentable(base);
    ArchiveConcat(base + [Trailer()], Injected(files));
    TrailersConcat(base + [Trailer()], Injected(files));
    TrailersConcat(base, [Trailer()]);
    NoTrailers(base);
    ArchiveRoundTrip(whole);
    assert WithoutTrailers([Trailer()]) == [] by { assert [Trailer()][1..] == []; }
    assert base + [] == base;
  }

  lemma StorableRepresentable(es: seq<Entry>)
    requires forall i :: 0 <= i < |es| ==> Storable(es[i])
    ensures forall i :: 0 <= i < |es| ==> Representable(es[i])
  {
  }

  // ---------------------------------------------------------------- the writer

  /** `write_cpio_entry`: append one entry to the buffer. */
  method WriteEntry(buf: seq<byte>, name: seq<byte>, mode: u32, data: seq<byte>, ino: u32) returns (out: seq<byte>)
    ensures out == buf + EntryBytes(Entry(name, mode, data, ino))
  {
    hide Fields, PadLen;
    var nameSize := |name| + 1;
    var header := MAGIC + Fields([ino, mode, 0, 0, 1, 0, |data|, 0, 0, 0, 0, nameSize, 0]);
    out := buf + header;
    out := out + name;
    out := out + [0];
    out := out + Zeros(PadLen(HEADER_LEN + nameSize));
    out := out + data;
    out := out + Zeros(PadLen(|data|));
    assert out == buf + (header + Body(Entry(name, mode, data, ino)));
  }

  /** `inject_file`: one file and a trailer at the end of the buffer. */
  method InjectFile(buf: seq<byte>, path: seq<byte>, data: seq<byte>, mode: u32) returns (out: seq<byte>)
    ensures out == buf + ArchiveBytes([Entry(path, mode, data, 1), Trailer()])
  {
    hide EntryBytes;
    var file := Entry(path, mode, data, 1);
    out := WriteEntry(buf, path, mode, data, 1);
    out := WriteEntry(out, TRAILER_NAME, 0, [], 0);
    assert [file, Trailer()][1..] == [Trailer()] && [Trailer()][1..] == [];
    assert ArchiveBytes([Trailer()]) == EntryBytes(Trailer()) + [];
    assert out == buf + (EntryBytes(file) + ArchiveBytes([Trailer()]));
  }
}
