/**
 Frames spread over descriptor buffers: the gather of the transmit path and the
 scatter of the receive path, and how they relate to plain concatenation.
 */
module ScatterGather {
  import opened Wrappers
  import opened Bytes
  import opened GuestMemory
  import opened Virtqueue

  /** Size of the version-1 virtio-net header. */
  const VNET_HDR_SIZE: nat := 12

  /** Everything from position `n` on; nothing when `s` is shorter. */
  function Drop<T>(s: seq<T>, n: nat): (r: seq<T>) {
    if n <= |s| then s[n..] else []
  }

  function Min(a: nat, b: nat): (r: nat) {
    if a <= b then a else b
  }

  /**
   The transmit loop over the readable buffers with `skip` header bytes still to
   pass over.  A buffer that cannot be read contributes nothing.
   */
  function Gather(m: Mem, ds: seq<VirtqDesc>, skip: nat): (frame: seq<byte>) {
    if ds == [] then []
    else if skip >= ds[0].len then Gather(m, ds[1..], skip - ds[0].len)
    else
      var part := Read(m, ds[0].addr + skip, ds[0].len - skip);
      (if part.Ok? then part.value else []) + Gather(m, ds[1..], 0)
  }

  /** The receive loop: `payload` laid out over the writable buffers in order. */
  function Scatter(m: Mem, ds: seq<VirtqDesc>, payload: seq<byte>): (m': Mem)
    decreases |ds|
  {
    if ds == [] || payload == [] then m
    else
      var n := Min(ds[0].len, |payload|);
      Scatter(Poke(m, ds[0].addr, payload[..n]), ds[1..], payload[n..])
  }

  function Capacity(ds: seq<VirtqDesc>): (n: nat) {
    if ds == [] then 0 else ds[0].len + Capacity(ds[1..])
  }

  ghost predicate Mapped(m: Mem, ds: seq<VirtqDesc>) {
    forall i :: 0 <= i < |ds| && ds[i].len > 0 ==> CanAccess(m, ds[i].addr, ds[i].len)
  }

  ghost predicate Disjoint(ds: seq<VirtqDesc>) {
    forall i, j :: 0 <= i < j < |ds| ==> Apart(ds[i].addr, ds[i].len, ds[j].addr, ds[j].len)
  }

  /** Address `x` lies in the part of the buffers that the first `n` bytes occupy. */
  ghost predicate Covers(ds: seq<VirtqDesc>, n: nat, x: nat) {
    if ds == [] || n == 0 then false
    else
      || ds[0].addr <= x < ds[0].addr + Min(ds[0].len, n)
      || Covers(ds[1..], n - Min(ds[0].len, n), x)
  }

  /** What the buffers hold, joined in chain order. */
  ghost function Joined(m: Mem, ds: seq<VirtqDesc>): (s: seq<byte>) {
    if ds == [] then []
    else
      var part := Read(m, ds[0].addr, ds[0].len);
      (if part.Ok? then part.value else []) + Joined(m, ds[1..])
  }

  /** What one buffer holds. */
  ghost function BufferBytes(m: Mem, d: VirtqDesc): (s: seq<byte>) {
    var part := Read(m, d.addr, d.len);
    if part.Ok? then part.value else []
  }

  lemma EmptyBuffer(m: Mem, d: VirtqDesc)
    requires d.len == 0
    ensures BufferBytes(m, d) == []
  {
    assert |BufferBytes(m, d)| == 0;
  }

  lemma JoinedFirst(m: Mem, ds: seq<VirtqDesc>)
    requires ds != []
    ensures Joined(m, ds) == BufferBytes(m, ds[0]) + Joined(m, ds[1..])
  {
  }

  // ---------------------------------------------------------------- gather

  lemma BufferTail(m: Mem, d: VirtqDesc, skip: nat)
    requires WellFormed(m) && skip < d.len && CanAccess(m, d.addr, d.len)
    ensures CanAccess(m, d.addr + skip, d.len - skip)
    ensures Read(m, d.addr + skip, d.len - skip) == Ok(Read(m, d.addr, d.len).value[skip..])
  {
    hide WellFormed, FindRegion;
    AccessPart(m, d.addr, d.len, d.addr + skip, d.len - skip);
    AccessInside(m, d.addr, d.len, d.addr + skip);
    var reg := m[FindRegion(m, d.addr)];
    var i := d.addr - reg.base;
    assert reg.bytes[i..i + d.len][skip..] == reg.bytes[i + skip..i + d.len];
  }

  lemma {:induction false} JoinedLength(m: Mem, ds: seq<VirtqDesc>)
    requires Mapped(m, ds)
    ensures |Joined(m, ds)| == Capacity(ds)
  {
    if ds != [] {
      JoinedLength(m, ds[1..]);
    }
  }

  lemma DropOfSum(s: seq<byte>, t: seq<byte>, n: nat)
    ensures n <= |s| ==> Drop(s + t, n) == s[n..] + t
    ensures n >= |s| ==> Drop(s + t, n) == Drop(t, n - |s|)
  {
    if n <= |s| {
      assert (s + t)[n..] == s[n..] + t;
    }
    if |s| <= n <= |s| + |t| {
      assert (s + t)[n..] == t[n - |s|..];
    }
  }

  /** The frame is the joined buffers without the header, however they are split. */
  lemma {:induction false} GatherIsDrop(m: Mem, ds: seq<VirtqDesc>, skip: nat)
    requires WellFormed(m) && Mapped(m, ds)
    ensures Gather(m, ds, skip) == Drop(Joined(m, ds), skip)
    decreases |ds|
  {
    hide Read, CanAccess, WellFormed;
    if ds != [] {
      var d := ds[0];
      var rest := Joined(m, ds[1..]);
      ReadAt(m, d.addr, d.len);
      var head := if Read(m, d.addr, d.len).Ok? then Read(m, d.addr, d.len).value else [];
      assert |head| == d.len;
      DropOfSum(head, rest, skip);
      if skip >= d.len {
        GatherIsDrop(m, ds[1..], skip - d.len);
      } else {
        GatherIsDrop(m, ds[1..], 0);
        BufferTail(m, d, skip);
      }
    }
  }

  /** Two chains that hold the same bytes transmit the same frame. */
  lemma FragmentationIrrelevant(m: Mem, ds: seq<VirtqDesc>, m': Mem, ds': seq<VirtqDesc>, skip: nat)
    requires WellFormed(m) && Mapped(m, ds) && WellFormed(m') && Mapped(m', ds')
    requires Joined(m, ds) == Joined(m', ds')
    ensures Gather(m, ds, skip) == Gather(m', ds', skip)
  {
    GatherIsDrop(m, ds, skip);
    GatherIsDrop(m', ds', skip);
  }

  // ---------------------------------------------------------------- scatter

  lemma {:induction false} ScatterLayout(m: Mem, ds: seq<VirtqDesc>, payload: seq<byte>)
    ensures SameLayout(m, Scatter(m, ds, payload))
    ensures WellFormed(m) ==> WellFormed(Scatter(m, ds, payload))
    decreases |ds|
  {
    hide Poke, WellFormed;
    if ds != [] && payload != [] {
      var n := Min(ds[0].len, |payload|);
      PokeLayout(m, ds[0].addr, payload[..n]);
      ScatterLayout(Poke(m, ds[0].addr, payload[..n]), ds[1..], payload[n..]);
    }
  }

  /** Only the covered bytes change. */
  lemma {:induction false} ScatterElsewhere(m: Mem, ds: seq<VirtqDesc>, payload: seq<byte>, x: nat)
    requires WellFormed(m) && !Covers(ds, |payload|, x)
    ensures At(Scatter(m, ds, payload), x) == At(m, x)
    decreases |ds|
  {
    hide Put, WellFormed, CanAccess, At;
    if ds != [] && payload != [] {
      var n := Min(ds[0].len, |payload|);
      var m1 := Poke(m, ds[0].addr, payload[..n]);
      if CanAccess(m, ds[0].addr, n) {
        PutAt(m, ds[0].addr, payload[..n]);
      }
      ScatterElsewhere(m1, ds[1..], payload[n..], x);
    }
  }

  lemma {:induction false} CoversOnlyBuffers(ds: seq<VirtqDesc>, n: nat, a: nat, k: nat, x: nat)
    requires forall i :: 0 <= i < |ds| ==> Apart(ds[i].addr, ds[i].len, a, k)
    requires a <= x < a + k
    ensures !Covers(ds, n, x)
    decreases |ds|
  {
    if ds != [] && n > 0 {
      assert Apart(ds[0].addr, ds[0].len, a, k);
      CoversOnlyBuffers(ds[1..], n - Min(ds[0].len, n), a, k, x);
    }
  }

  /** A range clear of every buffer reads the same after a scatter. */
  lemma ScatterReadApart(m: Mem, ds: seq<VirtqDesc>, payload: seq<byte>, a: nat, k: nat)
    requires WellFormed(m)
    requires forall i :: 0 <= i < |ds| ==> Apart(ds[i].addr, ds[i].len, a, k)
    ensures Read(Scatter(m, ds, payload), a, k) == Read(m, a, k)
  {
    hide Read, WellFormed, Scatter, Covers, Apart, At;
    var m' := Scatter(m, ds, payload);
    ScatterLayout(m, ds, payload);
    forall x | a <= x < a + k
      ensures At(m, x) == At(m', x)
    {
      CoversOnlyBuffers(ds, |payload|, a, k, x);
      ScatterElsewhere(m, ds, payload, x);
    }
    ReadSame(m, m', a, k);
  }

  lemma JoinedSame(m: Mem, m': Mem, ds: seq<VirtqDesc>)
    requires forall i :: 0 <= i < |ds| ==> Read(m, ds[i].addr, ds[i].len) == Read(m', ds[i].addr, ds[i].len)
    ensures Joined(m, ds) == Joined(m', ds)
  {
    hide Read;
    if ds != [] {
      JoinedSame(m, m', ds[1..]);
    }
  }

  /** A scatter unmaps nothing. */
  lemma StaysMapped(m: Mem, ds: seq<VirtqDesc>, payload: seq<byte>)
    requires Mapped(m, ds)
    ensures Mapped(Scatter(m, ds, payload), ds)
  {
    hide CanAccess, Scatter;
    ScatterLayout(m, ds, payload);
    LayoutAccess(m, Scatter(m, ds, payload));
  }

  /** Filling the first buffer leaves the others mapped and disjoint. */
  lemma OthersMapped(m: Mem, ds: seq<VirtqDesc>, part: seq<byte>)
    requires WellFormed(m) && Mapped(m, ds) && Disjoint(ds) && ds != []
    ensures var m1 := Poke(m, ds[0].addr, part); WellFormed(m1) && Mapped(m1, ds[1..]) && Disjoint(ds[1..])
  {
    hide WellFormed, CanAccess, Apart, Poke;
    PokeLayout(m, ds[0].addr, part);
    LayoutAccess(m, Poke(m, ds[0].addr, part));
  }

  /** The first buffer after the whole scatter still starts with its share of the payload. */
  lemma FirstBuffer(m: Mem, ds: seq<VirtqDesc>, payload: seq<byte>)
    requires WellFormed(m) && Mapped(m, ds) && Disjoint(ds) && ds != [] && payload != []
    ensures var n := Min(ds[0].len, |payload|);
            var s := BufferBytes(Scatter(m, ds, payload), ds[0]);
            |s| == ds[0].len && s[..n] == payload[..n]
  {
    hide Read, WellFormed, Put, CanAccess, Apart, At;
    var d := ds[0];
    var n := Min(d.len, |payload|);
    if n == 0 {
      EmptyBuffer(Scatter(m, ds, payload), d);
      return;
    }
    assert CanAccess(m, d.addr, d.len);
    AccessPart(m, d.addr, d.len, d.addr, n);
    var m1 := Put(m, d.addr, payload[..n]);
    PutAt(m, d.addr, payload[..n]);
    LayoutAccess(m, m1);
    ReadAt(m1, d.addr, d.len);
    var s := Read(m1, d.addr, d.len).value;
    forall k | 0 <= k < n
      ensures s[k] == payload[k]
    {
      assert At(m1, d.addr + k) == Some(payload[..n][k]);
    }
    forall i | 0 <= i < |ds| - 1
      ensures Apart(ds[1..][i].addr, ds[1..][i].len, d.addr, d.len)
    {
      assert Apart(d.addr, d.len, ds[i + 1].addr, ds[i + 1].len);
      ApartSym(d.addr, d.len, ds[i + 1].addr, ds[i + 1].len);
    }
    ScatterReadApart(m1, ds[1..], payload[n..], d.addr, d.len);
  }

  lemma ApartSym(a: nat, n: nat, b: nat, k: nat)
    requires Apart(a, n, b, k)
    ensures Apart(b, k, a, n)
  {
  }

  /**
   Scattering over disjoint mapped buffers stores exactly the first
   min(capacity, payload) bytes, in chain order.
   */
  lemma {:induction false} ScatterStores(m: Mem, ds: seq<VirtqDesc>, payload: seq<byte>)
    requires WellFormed(m) && Mapped(m, ds) && Disjoint(ds)
    ensures var k := Min(Capacity(ds), |payload|);
            |Joined(Scatter(m, ds, payload), ds)| == Capacity(ds)
            && Joined(Scatter(m, ds, payload), ds)[..k] == payload[..k]
    decreases |ds|
  {
    hide Read, WellFormed, Put, CanAccess, Apart, At, Mapped, Disjoint, BufferBytes;
    var m' := Scatter(m, ds, payload);
    StaysMapped(m, ds, payload);
    JoinedLength(m', ds);
    if ds != [] && payload != [] {
      var n := Min(ds[0].len, |payload|);
      var m1 := Poke(m, ds[0].addr, payload[..n]);
      var head, rest := BufferBytes(m', ds[0]), Joined(m', ds[1..]);
      assert m' == Scatter(m1, ds[1..], payload[n..]);
      assert Capacity(ds) == ds[0].len + Capacity(ds[1..]);
      JoinedFirst(m', ds);
      hide Scatter, Joined, Capacity, Poke;
      OthersMapped(m, ds, payload[..n]);
      ScatterStores(m1, ds[1..], payload[n..]);
      FirstBuffer(m, ds, payload);
      JoinPrefix(head, rest, payload, n, Min(Capacity(ds), |payload|));
    }
  }

  lemma JoinPrefix(head: seq<byte>, rest: seq<byte>, payload: seq<byte>, n: nat, k: nat)
    requires n == Min(|head|, |payload|) && n <= k == Min(|head| + |rest|, |payload|)
    requires head[..n] == payload[..n]
    requires rest[..k - n] == payload[n..][..k - n]
    ensures (head + rest)[..k] == payload[..k]
  {
    if n == |head| {
      assert (head + rest)[..k] == head + rest[..k - n];
      assert payload[..k] == payload[..n] + payload[n..][..k - n];
    }
  }

  /** Behind the payload the buffers hold what they held before. */
  lemma {:induction false} ScatterKeepsRest(m: Mem, ds: seq<VirtqDesc>, payload: seq<byte>)
    requires WellFormed(m) && Mapped(m, ds) && Disjoint(ds)
    ensures var k := Min(Capacity(ds), |payload|);
            var before, after := Joined(m, ds), Joined(Scatter(m, ds, payload), ds);
            |before| == |after| == Capacity(ds) && after[k..] == before[k..]
    decreases |ds|
  {
    hide Read, WellFormed, Put, CanAccess, Apart, At, Mapped, Disjoint, BufferBytes;
    var m' := Scatter(m, ds, payload);
    StaysMapped(m, ds, payload);
    JoinedLength(m, ds);
    JoinedLength(m', ds);
    if ds != [] && payload != [] {
      var n := Min(ds[0].len, |payload|);
      var m1 := Poke(m, ds[0].addr, payload[..n]);
      var head, head' := BufferBytes(m, ds[0]), BufferBytes(m', ds[0]);
      var rest, rest' := Joined(m, ds[1..]), Joined(m', ds[1..]);
      assert m' == Scatter(m1, ds[1..], payload[n..]);
      assert Capacity(ds) == ds[0].len + Capacity(ds[1..]);
      JoinedFirst(m, ds);
      JoinedFirst(m', ds);
      hide Scatter, Joined, Capacity, Poke;
      OthersMapped(m, ds, payload[..n]);
      ScatterKeepsRest(m1, ds[1..], payload[n..]);
      OthersUntouched(m, ds, payload[..n]);
      FirstBufferRest(m, ds, payload);
      SuffixOfSum(head, head', rest, rest', n, Min(Capacity(ds), |payload|));
    }
  }

  /** Filling the first buffer leaves the others alone. */
  lemma OthersUntouched(m: Mem, ds: seq<VirtqDesc>, part: seq<byte>)
    requires WellFormed(m) && Disjoint(ds) && ds != [] && |part| <= ds[0].len
    ensures Joined(Poke(m, ds[0].addr, part), ds[1..]) == Joined(m, ds[1..])
  {
    hide Read, WellFormed, Joined, Poke;
    var m1 := Poke(m, ds[0].addr, part);
    forall i | 0 <= i < |ds[1..]|
      ensures Read(m, ds[1..][i].addr, ds[1..][i].len) == Read(m1, ds[1..][i].addr, ds[1..][i].len)
    {
      assert ds[1..][i] == ds[i + 1];
      ReadApart(m, ds[0].addr, part, ds[i + 1].addr, ds[i + 1].len);
    }
    JoinedSame(m, m1, ds[1..]);
  }

  /** And the first buffer keeps what lies behind its part of the payload. */
  lemma FirstBufferRest(m: Mem, ds: seq<VirtqDesc>, payload: seq<byte>)
    requires WellFormed(m) && Mapped(m, ds) && Disjoint(ds) && ds != [] && payload != []
    ensures var n := Min(ds[0].len, |payload|);
            var before, after := BufferBytes(m, ds[0]), BufferBytes(Scatter(m, ds, payload), ds[0]);
            |before| == |after| == ds[0].len && after[n..] == before[n..]
  {
    hide WellFormed, Put, CanAccess, At, Scatter, Read;
    var d, n := ds[0], Min(ds[0].len, |payload|);
    var m' := Scatter(m, ds, payload);
    ScatterLayout(m, ds, payload);
    LayoutAccess(m, m');
    ReadAt(m, d.addr, d.len);
    ReadAt(m', d.addr, d.len);
    var before, after := BufferBytes(m, d), BufferBytes(m', d);
    forall k | n <= k < d.len
      ensures after[k] == before[k]
    {
      BeyondPayload(ds, |payload|, k);
      ScatterElsewhere(m, ds, payload, d.addr + k);
      assert At(m, d.addr + k) == Some(before[d.addr + k - d.addr]) && At(m', d.addr + k) == Some(after[d.addr + k - d.addr]);
    }
  }

  /** The bytes of the first buffer behind the payload are not covered by it. */
  lemma BeyondPayload(ds: seq<VirtqDesc>, n: nat, k: nat)
    requires Disjoint(ds) && ds != [] && Min(ds[0].len, n) <= k < ds[0].len
    ensures !Covers(ds, n, ds[0].addr + k)
  {
    if n > 0 {
      forall i | 0 <= i < |ds[1..]|
        ensures Apart(ds[1..][i].addr, ds[1..][i].len, ds[0].addr + k, 1)
      {
        assert ds[1..][i] == ds[i + 1];
      }
      CoversOnlyBuffers(ds[1..], n - Min(ds[0].len, n), ds[0].addr + k, 1, ds[0].addr + k);
    }
  }

  lemma SuffixOfSum(a: seq<byte>, a': seq<byte>, b: seq<byte>, b': seq<byte>, n: nat, k: nat)
    requires |a| == |a'| && |b| == |b'| && n <= |a| && n <= k <= |a| + |b| && (n == |a| || k == n)
    requires a[n..] == a'[n..] && b[k - n..] == b'[k - n..]
    ensures (a + b)[k..] == (a' + b')[k..]
  {
    if n == |a| {
      assert (a + b)[k..] == b[k - n..] && (a' + b')[k..] == b'[k - n..];
    } else {
      assert (a + b)[k..] == a[n..] + b && (a' + b')[k..] == a'[n..] + b';
      assert b[0..] == b && b'[0..] == b';
    }
  }

  /** What the device receives it can transmit again: the frame comes back, followed by what the buffers held behind it. */
  lemma LoopBack(m: Mem, ds: seq<VirtqDesc>, hdr: seq<byte>, frame: seq<byte>)
    requires WellFormed(m) && Mapped(m, ds) && Disjoint(ds)
    requires |hdr| == VNET_HDR_SIZE && |hdr| + |frame| <= Capacity(ds)
    ensures Gather(Scatter(m, ds, hdr + frame), ds, VNET_HDR_SIZE) == frame + Drop(Joined(m, ds), |hdr| + |frame|)
  {
    hide WellFormed, CanAccess, Gather, Scatter, Joined;
    var m' := Scatter(m, ds, hdr + frame);
    ScatterLayout(m, ds, hdr + frame);
    LayoutAccess(m, m');
    ScatterStores(m, ds, hdr + frame);
    ScatterKeepsRest(m, ds, hdr + frame);
    GatherIsDrop(m', ds, VNET_HDR_SIZE);
    var all := Joined(m', ds);
    var k := |hdr| + |frame|;
    assert all == all[..k] + all[k..];
    assert all[..k] == hdr + frame;
    assert all[|hdr|..] == frame + all[k..];
  }
}
