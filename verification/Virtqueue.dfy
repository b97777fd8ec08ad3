/**
 The split virtqueue (VIRTIO 1.2, section 2.7): descriptor chains taken from the
 available ring and completions put on the used ring, with 16-bit wrapping cursors.
 */
module Virtqueue {
  import opened Wrappers
  import opened Bytes
  import opened GuestMemory

  datatype VirtioError = QueueNotReady | ChainTooLong | Memory(error: MemError)

  datatype VirtqDesc = VirtqDesc(addr: u64, len: u32, flags: u16, next: u16) {
    /** VIRTQ_DESC_F_NEXT */
    predicate HasNext() {
      HasBit(flags, 1)
    }

    /** VIRTQ_DESC_F_WRITE */
    predicate Writable() {
      HasBit(flags, 2)
    }
  }

  datatype DescriptorChain = DescriptorChain(headIndex: u16, descriptors: seq<VirtqDesc>) {
    function Readable(): (ds: seq<VirtqDesc>) {
      Select(descriptors, false)
    }

    function Writable(): (ds: seq<VirtqDesc>) {
      Select(descriptors, true)
    }
  }

  /** The descriptors with the given direction, in chain order. */
  function Select(ds: seq<VirtqDesc>, writable: bool): (r: seq<VirtqDesc>) {
    if ds == [] then []
    else if ds[0].Writable() == writable then [ds[0]] + Select(ds[1..], writable)
    else Select(ds[1..], writable)
  }

  /** The fields of a queue as a value. */
  datatype QueueState = QueueState(
    maxSize: u16, size: u16, ready: bool,
    descTable: u64, availRing: u64, usedRing: u64,
    nextAvail: u16, nextUsed: u16)

  function NewQueue(maxSize: u16): (q: QueueState) {
    QueueState(maxSize, maxSize, false, 0, 0, 0, 0, 0)
  }

  function WrapInc(c: u16): (r: u16) {
    (c + 1) % 0x1_0000
  }

  /** The wrapping counter follows the unbounded one. */
  lemma WrapIncCounts(n: nat)
    ensures WrapInc(n % 0x1_0000) == (n + 1) % 0x1_0000
  {
  }

  // ---------------------------------------------------------------- reading the rings

  function ReadU16(m: Mem, a: nat): (r: Result<u16, VirtioError>) {
    match Read(m, a, 2)
    case Ok(s) => Ok(AsU16(s))
    case Err(e) => Err(Memory(e))
  }

  function DecodeDesc(s: seq<byte>): (d: VirtqDesc)
    requires |s| == 16
  {
    VirtqDesc(AsU64(s[..8]), AsU32(s[8..12]), AsU16(s[12..14]), AsU16(s[14..]))
  }

  function DescAt(m: Mem, table: nat, idx: u16): (r: Result<VirtqDesc, MemError>) {
    match Read(m, table + idx * 16, 16)
    case Ok(s) => Ok(DecodeDesc(s))
    case Err(e) => Err(e)
  }

  /** A descriptor table as the device sees it: index to descriptor, or the read error. */
  type Table = u16 -> Result<VirtqDesc, MemError>

  function TableAt(m: Mem, base: nat): (t: Table) {
    (idx: u16) => DescAt(m, base, idx)
  }

  /** The chain walk: at most `budget` descriptors starting from `idx`. */
  function Walk(t: Table, idx: u16, budget: nat): (r: Result<seq<VirtqDesc>, VirtioError>)
    decreases budget
  {
    if budget == 0 then Err(ChainTooLong)
    else
      match t(idx)
      case Err(e) => Err(Memory(e))
      case Ok(d) =>
        if !d.HasNext() then Ok([d])
        else
          var rest :- Walk(t, d.next, budget - 1);
          Ok([d] + rest)
  }

  function AvailSlot(q: QueueState, cursor: nat): (a: nat)
    requires q.size > 0
  {
    q.availRing + 4 + cursor % q.size * 2
  }

  function UsedSlot(q: QueueState, cursor: nat): (a: nat)
    requires q.size > 0
  {
    q.usedRing + 4 + cursor % q.size * 8
  }

  /** `pop` divides by the queue size only once there is an entry to take. */
  predicate PopDefined(m: Mem, q: QueueState) {
    q.size > 0 || !q.ready || ReadU16(m, q.availRing + 2).Err? || ReadU16(m, q.availRing + 2) == Ok(q.nextAvail)
  }

  /** What `pop` returns. */
  function Pop(m: Mem, q: QueueState): (r: Result<Option<DescriptorChain>, VirtioError>)
    requires PopDefined(m, q)
  {
    if !q.ready then Err(QueueNotReady)
    else
      var availIdx :- ReadU16(m, q.availRing + 2);
      if q.nextAvail == availIdx then Ok(None)
      else
        var head :- ReadU16(m, AvailSlot(q, q.nextAvail));
        var ds :- Walk(TableAt(m, q.descTable), head, q.size);
        Ok(Some(DescriptorChain(head, ds)))
  }

  predicate Popped(r: Result<Option<DescriptorChain>, VirtioError>) {
    r.Ok? && r.value.Some?
  }

  /** The queue after a `pop` that returned `r`. */
  function AfterPop(q: QueueState, r: Result<Option<DescriptorChain>, VirtioError>): (q': QueueState) {
    if Popped(r) then q.(nextAvail := WrapInc(q.nextAvail)) else q
  }

  // ---------------------------------------------------------------- writing the used ring

  function UsedElem(head: u16, len: u32): (s: seq<byte>)
    ensures |s| == 8
  {
    U32LE(head) + U32LE(len)
  }

  predicate SlotWritable(m: Mem, q: QueueState)
    requires q.size > 0
  {
    CanAccess(m, UsedSlot(q, q.nextUsed), 8)
  }

  /** The queue after `add_used`: the cursor advances once the element is written. */
  function AfterUsed(m: Mem, q: QueueState): (q': QueueState)
    requires q.size > 0
  {
    if SlotWritable(m, q) then q.(nextUsed := WrapInc(q.nextUsed)) else q
  }

  /** The memory after `add_used`. */
  function AddUsed(m: Mem, q: QueueState, head: u16, len: u32): (m': Mem)
    requires q.size > 0
  {
    if SlotWritable(m, q) then
      Poke(Put(m, UsedSlot(q, q.nextUsed), UsedElem(head, len)), q.usedRing + 2, U16LE(WrapInc(q.nextUsed)))
    else m
  }

  lemma AddUsedLayout(m: Mem, q: QueueState, head: u16, len: u32)
    requires q.size > 0
    ensures SameLayout(m, AddUsed(m, q, head, len))
    ensures WellFormed(m) ==> WellFormed(AddUsed(m, q, head, len))
  {
    if SlotWritable(m, q) {
      PokeLayout(m, UsedSlot(q, q.nextUsed), UsedElem(head, len));
      PokeLayout(Put(m, UsedSlot(q, q.nextUsed), UsedElem(head, len)), q.usedRing + 2, U16LE(WrapInc(q.nextUsed)));
    }
  }

  // ---------------------------------------------------------------- the walk follows the NEXT path

  /** The index reached from `head` after `n` NEXT links over readable descriptors. */
  ghost function Follow(t: Table, head: u16, n: nat): (r: Option<u16>) {
    if n == 0 then Some(head)
    else
      match Follow(t, head, n - 1)
      case None => None
      case Some(i) =>
        var d := t(i);
        if d.Ok? && d.value.HasNext() then Some(d.value.next) else None
  }

  /** Every index on the path is inside the table and its descriptor can be read. */
  ghost predicate PathInTable(t: Table, head: u16, size: u16) {
    forall n: nat :: Follow(t, head, n).Some? ==>
      Follow(t, head, n).value < size && t(Follow(t, head, n).value).Ok?
  }

  ghost predicate Cyclic(t: Table, head: u16) {
    exists i: nat, j: nat :: i < j && Follow(t, head, i).Some? &&
      Follow(t, head, i) == Follow(t, head, j)
  }

  /** The first two positions on a path. */
  lemma FollowStart(t: Table, head: u16)
    ensures Follow(t, head, 0) == Some(head)
    ensures Follow(t, head, 1) == if t(head).Ok? && t(head).value.HasNext() then Some(t(head).value.next) else None
  {
    assert Follow(t, head, 0) == Some(head);
  }

  lemma {:induction false} FollowShift(t: Table, head: u16, n: nat)
    requires Follow(t, head, 1).Some?
    ensures Follow(t, head, n + 1) == Follow(t, Follow(t, head, 1).value, n)
  {
    if n > 0 {
      FollowShift(t, head, n - 1);
    }
  }

  lemma {:induction false} FollowPrefix(t: Table, head: u16, i: nat, n: nat)
    requires i <= n && Follow(t, head, n).Some?
    ensures Follow(t, head, i).Some?
    decreases n - i
  {
    if i < n {
      FollowPrefix(t, head, i + 1, n);
    }
  }

  /** The walk gives up exactly when the path is longer than its budget. */
  lemma {:induction false} WalkTooLong(t: Table, idx: u16, budget: nat)
    ensures Walk(t, idx, budget) == Err(ChainTooLong) <==> Follow(t, idx, budget).Some?
    decreases budget
  {
    if budget > 0 {
      var d := t(idx);
      assert Follow(t, idx, 0) == Some(idx);
      if d.Ok? && d.value.HasNext() {
        assert Follow(t, idx, 1) == Some(d.value.next);
        WalkTooLong(t, d.value.next, budget - 1);
        FollowShift(t, idx, budget - 1);
      } else if Follow(t, idx, budget).Some? {
        FollowPrefix(t, idx, 1, budget);
      }
    }
  }

  /** A walk that succeeds returns the whole path. */
  lemma {:induction false} WalkReturnsPath(t: Table, idx: u16, budget: nat)
    requires Walk(t, idx, budget).Ok?
    ensures var ds := Walk(t, idx, budget).value;
            && 1 <= |ds| <= budget
            && Follow(t, idx, |ds|).None?
            && forall k :: 0 <= k < |ds| ==>
                 Follow(t, idx, k).Some? && t(Follow(t, idx, k).value) == Ok(ds[k])
    decreases budget
  {
    var d := t(idx).value;
    FollowStart(t, idx);
    hide Follow;
    if d.HasNext() {
      var rest := Walk(t, d.next, budget - 1).value;
      assert Walk(t, idx, budget).value == [d] + rest;
      hide Walk;
      WalkReturnsPath(t, d.next, budget - 1);
      FollowShift(t, idx, |rest|);
      forall k | 1 <= k < 1 + |rest|
        ensures Follow(t, idx, k).Some?
        ensures t(Follow(t, idx, k).value) == Ok(([d] + rest)[k])
      {
        FollowShift(t, idx, k - 1);
      }
    }
  }

  /** Every walk that fails for another reason met an unreadable descriptor of the path. */
  lemma {:induction false} WalkMemoryError(t: Table, idx: u16, budget: nat)
    requires Walk(t, idx, budget).Err? && Walk(t, idx, budget) != Err(ChainTooLong)
    ensures exists n: nat :: Follow(t, idx, n).Some? && t(Follow(t, idx, n).value).Err?
    decreases budget
  {
    assert Follow(t, idx, 0) == Some(idx);
    if t(idx).Ok? {
      var d := t(idx).value;
      assert Follow(t, idx, 1) == Some(d.next);
      WalkMemoryError(t, d.next, budget - 1);
      var n: nat :| Follow(t, d.next, n).Some? && t(Follow(t, d.next, n).value).Err?;
      FollowShift(t, idx, n);
      assert Follow(t, idx, n + 1).Some?;
    }
  }

  /** A path that meets itself again never ends. */
  lemma {:induction false} CyclicForever(t: Table, head: u16, i: nat, j: nat, n: nat)
    requires i < j && Follow(t, head, i).Some?
    requires Follow(t, head, i) == Follow(t, head, j)
    ensures Follow(t, head, n).Some?
    ensures n >= j ==> Follow(t, head, n) == Follow(t, head, n - (j - i))
    decreases n
  {
    hide Follow;
    if n <= j {
      FollowPrefix(t, head, n, j);
    } else {
      CyclicForever(t, head, i, j, n - 1);
      FollowNext(t, head, n - 1, n - 1 - (j - i));
      CyclicForever(t, head, i, j, n - (j - i));
    }
  }

  /** Equal positions on the path have equal successors. */
  lemma FollowNext(t: Table, head: u16, a: nat, b: nat)
    requires Follow(t, head, a) == Follow(t, head, b)
    ensures Follow(t, head, a + 1) == Follow(t, head, b + 1)
  {
  }

  /** Pigeonhole: `|xs|` values below a smaller bound repeat. */
  lemma {:induction false} Pigeonhole(xs: seq<nat>, bound: nat) returns (i: nat, j: nat)
    requires |xs| > bound
    requires forall k :: 0 <= k < |xs| ==> xs[k] < bound
    ensures i < j < |xs| && xs[i] == xs[j]
    decreases bound
  {
    var last := |xs| - 1;
    if k :| 0 <= k < last && xs[k] == xs[last] {
      return k, last;
    }
    // Drop the last value and close the gap it leaves at the top of the range.
    var ys := seq(last, k requires 0 <= k < last => if xs[k] == bound - 1 then xs[last] else xs[k]);
    assert forall k :: 0 <= k < last ==> ys[k] < bound - 1;
    i, j := Pigeonhole(ys, bound - 1);
  }

  /**
   Within the table, `pop` reports "chain too long" exactly for the cyclic paths,
   and otherwise the walk returns the complete path of 1 to `size` descriptors.
   */
  lemma WalkExact(t: Table, head: u16, size: u16)
    requires PathInTable(t, head, size)
    ensures Walk(t, head, size) == Err(ChainTooLong) <==> Cyclic(t, head)
    ensures Walk(t, head, size).Ok? <==> !Cyclic(t, head)
    ensures Walk(t, head, size).Ok? ==>
              var ds := Walk(t, head, size).value;
              && 1 <= |ds| <= size
              && Follow(t, head, |ds|).None?
              && forall k :: 0 <= k < |ds| ==>
                   Follow(t, head, k).Some? && t(Follow(t, head, k).value) == Ok(ds[k])
  {
    var w := Walk(t, head, size);
    WalkTooLong(t, head, size);
    if w.Ok? {
      WalkReturnsPath(t, head, size);
    } else if w != Err(ChainTooLong) {
      WalkMemoryError(t, head, size);
    }
    if Cyclic(t, head) {
      var i: nat, j: nat :| i < j && Follow(t, head, i).Some? &&
        Follow(t, head, i) == Follow(t, head, j);
      CyclicForever(t, head, i, j, size);
    }
    if Follow(t, head, size).Some? {
      forall k: nat | k <= size ensures Follow(t, head, k).Some? {
        FollowPrefix(t, head, k, size);
      }
      var xs := seq(size + 1, k requires 0 <= k <= size => Follow(t, head, k).value as nat);
      var i, j := Pigeonhole(xs, size);
      assert Follow(t, head, i) == Follow(t, head, j);
    }
  }

  /**
   What `pop` does with an outstanding head whose path stays in the table: it fails
   exactly on a cyclic path, and otherwise returns the complete path under that head.
   */
  lemma PopExact(m: Mem, q: QueueState, head: u16)
    requires q.ready && q.size > 0
    requires ReadU16(m, q.availRing + 2).Ok? && ReadU16(m, q.availRing + 2) != Ok(q.nextAvail)
    requires ReadU16(m, AvailSlot(q, q.nextAvail)) == Ok(head)
    requires PathInTable(TableAt(m, q.descTable), head, q.size)
    ensures Pop(m, q) == Err(ChainTooLong) <==> Cyclic(TableAt(m, q.descTable), head)
    ensures Popped(Pop(m, q)) <==> !Cyclic(TableAt(m, q.descTable), head)
    ensures Popped(Pop(m, q)) ==>
              var chain, t := Pop(m, q).value.value, TableAt(m, q.descTable);
              && chain.headIndex == head && 1 <= |chain.descriptors| <= q.size
              && Follow(t, head, |chain.descriptors|).None?
              && forall k :: 0 <= k < |chain.descriptors| ==>
                   Follow(t, head, k).Some? && t(Follow(t, head, k).value) == Ok(chain.descriptors[k])
  {
    hide ReadU16, Walk, TableAt, Follow, Cyclic, PathInTable;
    WalkExact(TableAt(m, q.descTable), head, q.size);
  }

  // ---------------------------------------------------------------- the class

  class Queue {
    var maxSize: u16
    var size: u16
    var ready: bool
    var descTable: u64
    var availRing: u64
    var usedRing: u64
    var nextAvail: u16
    var nextUsed: u16

    ghost function State(): (q: QueueState)
      reads this
    {
      QueueState(maxSize, size, ready, descTable, availRing, usedRing, nextAvail, nextUsed)
    }

    constructor (maxSize: u16)
      ensures State() == NewQueue(maxSize)
    {
      this.maxSize, size, ready := maxSize, maxSize, false;
      descTable, availRing, usedRing := 0, 0, 0;
      nextAvail, nextUsed := 0, 0;
    }

    constructor FromSaved(maxSize: u16, size: u16, ready: bool, descTable: u64, availRing: u64, usedRing: u64,
                          nextAvail: u16, nextUsed: u16)
      ensures State() == QueueState(maxSize, size, ready, descTable, availRing, usedRing, nextAvail, nextUsed)
    {
      this.maxSize, this.size, this.ready := maxSize, size, ready;
      this.descTable, this.availRing, this.usedRing := descTable, availRing, usedRing;
      this.nextAvail, this.nextUsed := nextAvail, nextUsed;
    }

    /** `pop` up to its last statement: nothing is changed before the chain is complete. */
    method NextChain(mem: GuestMemoryMmap) returns (r: Result<Option<DescriptorChain>, VirtioError>)
      requires mem.Valid() && PopDefined(mem.contents, State())
      ensures r == Pop(mem.contents, State())
    {
      hide GuestMemoryMmap.Valid, ReadU16, Walk, TableAt;
      if !ready {
        return Err(QueueNotReady);
      }
      var availIdx := ReadHalfword(mem, availRing + 2);
      if availIdx.Err? {
        return Err(availIdx.error);
      }
      if nextAvail == availIdx.value {
        return Ok(None);
      }
      var head := ReadHalfword(mem, availRing + 4 + nextAvail % size * 2);
      if head.Err? {
        return Err(head.error);
      }
      var descriptors := WalkChain(mem, descTable, head.value, size);
      if descriptors.Err? {
        return Err(descriptors.error);
      }
      return Ok(Some(DescriptorChain(head.value, descriptors.value)));
    }

    method PopChain(mem: GuestMemoryMmap) returns (r: Result<Option<DescriptorChain>, VirtioError>)
      requires mem.Valid() && this !in mem.Repr && PopDefined(mem.contents, State())
      modifies this
      ensures mem.Valid()
      ensures r == Pop(mem.contents, old(State()))
      ensures State() == AfterPop(old(State()), r)
      ensures !Popped(r) ==> State() == old(State())
    {
      r := NextChain(mem);
      if Popped(r) {
        nextAvail := WrapInc(nextAvail);
      }
    }

    method AddUsedElem(mem: GuestMemoryMmap, head: u16, len: u32) returns (r: Result<Unit, VirtioError>)
      requires mem.Valid() && this !in mem.Repr && size > 0
      modifies this, mem.Repr
      ensures mem.Valid()
      ensures mem.contents == AddUsed(old(mem.contents), old(State()), head, len)
      ensures State() == AfterUsed(old(mem.contents), old(State()))
      ensures r.Ok? <==> SlotWritable(old(mem.contents), old(State())) && CanAccess(old(mem.contents), usedRing + 2, 2)
      ensures r.Err? ==> r.error.Memory?
    {
      hide GuestMemoryMmap.Valid, Put, CanAccess, UsedElem, U16LE;
      ghost var q := State();
      var w := mem.WriteSlice(usedRing + 4 + nextUsed % size * 8, UsedElem(head, len));
      assert State() == q;
      if w.Err? {
        return Err(Memory(w.error));
      }
      PokeLayout(old(mem.contents), UsedSlot(q, q.nextUsed), UsedElem(head, len));
      LayoutAccess(old(mem.contents), mem.contents);
      nextUsed := WrapInc(nextUsed);
      w := mem.WriteSlice(usedRing + 2, U16LE(nextUsed));
      return if w.Err? then Err(Memory(w.error)) else Ok(Unit);
    }

    method HasPending(mem: GuestMemoryMmap) returns (r: Result<bool, VirtioError>)
      requires mem.Valid()
      ensures r.Ok? <==> ReadU16(mem.contents, availRing + 2).Ok?
      ensures r.Ok? ==> (r.value <==> ReadU16(mem.contents, availRing + 2) != Ok(nextAvail))
      ensures r.Ok? && size > 0 && ready ==> (!r.value <==> Pop(mem.contents, State()) == Ok(None))
    {
      hide GuestMemoryMmap.Valid, ReadU16, Walk, TableAt;
      var availIdx := ReadHalfword(mem, availRing + 2);
      if availIdx.Err? {
        return Err(availIdx.error);
      }
      return Ok(nextAvail != availIdx.value);
    }
  }

  /** The loop of `pop` over the chain that starts at `head`. */
  method WalkChain(mem: GuestMemoryMmap, table: nat, head: u16, size: u16)
    returns (r: Result<seq<VirtqDesc>, VirtioError>)
    requires mem.Valid()
    ensures r == Walk(TableAt(mem.contents, table), head, size)
  {
    hide GuestMemoryMmap.Valid, TableAt;
    ghost var t := TableAt(mem.contents, table);
    ghost var whole := Walk(t, head, size);
    var descriptors: seq<VirtqDesc> := [];
    var idx, seen := head, 0;
    assert whole.Ok? ==> [] + whole.value == whole.value;
    while true
      invariant t == TableAt(mem.contents, table)
      invariant 0 <= seen <= size
      invariant var rest := Walk(t, idx, size - seen);
                whole == if rest.Ok? then Ok(descriptors + rest.value) else rest
      decreases size - seen
    {
      if seen >= size {
        return Err(ChainTooLong);
      }
      var read := ReadDesc(mem, table, idx, t);
      if read.Err? {
        return Err(Memory(read.error));
      }
      var desc := read.value;
      ghost var before := descriptors;
      descriptors := descriptors + [desc];
      seen := seen + 1;
      assert forall ds: seq<VirtqDesc> :: before + ([desc] + ds) == descriptors + ds;
      if !desc.HasNext() {
        return Ok(descriptors);
      }
      idx := desc.next;
    }
  }

  method ReadDesc(mem: GuestMemoryMmap, table: nat, idx: u16, ghost t: Table)
    returns (r: Result<VirtqDesc, MemError>)
    requires mem.Valid() && t == TableAt(mem.contents, table)
    ensures r == t(idx)
  {
    var raw := mem.ReadSlice(table + idx * 16, 16);
    return if raw.Ok? then Ok(DecodeDesc(raw.value)) else Err(raw.error);
  }

  method ReadHalfword(mem: GuestMemoryMmap, addr: nat) returns (r: Result<u16, VirtioError>)
    requires mem.Valid()
    ensures r == ReadU16(mem.contents, addr)
  {
    var raw := mem.ReadSlice(addr, 2);
    return if raw.Ok? then Ok(AsU16(raw.value)) else Err(Memory(raw.error));
  }
}
