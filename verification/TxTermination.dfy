/**
 The transmit loop ends for every memory and every placement of the two rings, as
 long as the queue's cursors agree.

 A loop that went on would serve every slot again and again.  Each served slot copies
 the head it reads into the used ring.  Where the used ring overlaps the available
 ring, bytes are copied along chains that lead to bytes nothing writes, to bytes
 that are always zero, or to themselves, so all of them settle.  The available
 index is then a constant or a function of the cursor, and the cursor meets it.
 */
module TxTermination {
  import opened Wrappers
  import opened Bytes
  import opened Arithmetic
  import opened GuestMemory
  import opened Virtqueue
  import opened NetDevice
  import opened TxOverlap

  // ---------------------------------------------------------------- the turns of a loop

  /** Memory and queue after `n` turns, or where the loop stopped before. */
  ghost function Iter(m: Mem, q: QueueState, n: nat): (p: (Mem, QueueState)) {
    if n == 0 then (m, q)
    else
      var p := Iter(m, q, n - 1);
      if Serves(p.0, p.1) then TxNext(p.0, p.1) else p
  }

  lemma EndsBefore(m: Mem, q: QueueState)
    requires Serves(m, q) && TxEnds(TxNext(m, q).0, TxNext(m, q).1)
    ensures TxEnds(m, q)
  {
    hide TxNext, Pop, PopDefined;
    var n: nat :| StopsAfter(TxNext(m, q).0, TxNext(m, q).1, n);
    assert StopsAfter(m, q, n + 1);
  }

  lemma {:induction false} IterEnds(m: Mem, q: QueueState, n: nat)
    requires TxEnds(Iter(m, q, n).0, Iter(m, q, n).1)
    ensures TxEnds(m, q)
    decreases n
  {
    hide TxEnds, TxNext, Serves;
    if n > 0 {
      var p := Iter(m, q, n - 1);
      if Serves(p.0, p.1) {
        EndsBefore(p.0, p.1);
      }
      IterEnds(m, q, n - 1);
    }
  }

  /** Turn `n` serves a chain and records its completion. */
  ghost predicate Going(m: Mem, q: QueueState, n: nat) {
    var p := Iter(m, q, n); Serves(p.0, p.1) && SlotWritable(p.0, p.1)
  }

  /** A loop with equal cursors that goes on. */
  ghost predicate Forever(m: Mem, q: QueueState) {
    WellFormed(m) && q.size > 0 && q.nextUsed == q.nextAvail && forall n: nat :: Going(m, q, n)
  }

  lemma {:induction false} IterSize(m: Mem, q: QueueState, n: nat)
    ensures Iter(m, q, n).1.size == q.size
  {
    hide Serves, Pop, PopDefined, TxMem, SlotWritable, WrapInc;
    if n > 0 {
      IterSize(m, q, n - 1);
    }
  }

  /** A loop that does not go on like that ends. */
  lemma ElseEnds(m: Mem, q: QueueState)
    requires WellFormed(m) && q.size > 0 && q.nextUsed == q.nextAvail && !Forever(m, q)
    ensures TxEnds(m, q)
  {
    hide WellFormed, Iter, Pop, SlotWritable, ReadU16;
    var n: nat :| !Going(m, q, n);
    var p := Iter(m, q, n);
    IterSize(m, q, n);
    if !Serves(p.0, p.1) {
      assert StopsAfter(p.0, p.1, 0);
    } else {
      UnwritableEnds(p.0, p.1);
    }
    IterEnds(m, q, n);
  }

  // ---------------------------------------------------------------- one turn, byte by byte

  /** The value of both cursors after `n` turns. */
  function Cursor(q: QueueState, n: nat): (c: u16) {
    (q.nextUsed + n) % 0x1_0000
  }

  lemma CursorNext(q: QueueState, n: nat)
    ensures Cursor(q, n + 1) == WrapInc(Cursor(q, n))
  {
  }

  lemma {:induction false} IterFacts(m: Mem, q: QueueState, n: nat)
    requires Forever(m, q)
    ensures var p := Iter(m, q, n);
            && WellFormed(p.0) && SameLayout(m, p.0)
            && p.1 == q.(nextAvail := Cursor(q, n), nextUsed := Cursor(q, n))
    decreases n
  {
    hide WellFormed, Pop, PopDefined, AddUsed, SlotWritable, WrapInc, Going;
    if n == 0 {
      ZeroTurns(q);
    } else {
      IterFacts(m, q, n - 1);
      assert Going(m, q, n - 1);
      GoingFacts(m, q, n - 1);
      var p := Iter(m, q, n - 1);
      TurnIs(p.0, p.1);
      CursorNext(q, n - 1);
      AddUsedLayout(p.0, p.1, Pop(p.0, p.1).value.value.headIndex, 0);
    }
  }

  lemma ZeroTurns(q: QueueState)
    ensures Cursor(q, 0) == q.nextUsed
  {
  }

  lemma GoingFacts(m: Mem, q: QueueState, n: nat)
    requires Going(m, q, n)
    ensures var p := Iter(m, q, n); Serves(p.0, p.1) && SlotWritable(p.0, p.1)
    ensures Iter(m, q, n + 1) == TxNext(Iter(m, q, n).0, Iter(m, q, n).1)
  {
    hide Serves, SlotWritable, TxNext;
  }

  /** The byte at address `x` after `n` turns. */
  ghost function Byte(m: Mem, q: QueueState, n: nat, x: nat): (b: Option<byte>) {
    At(Iter(m, q, n).0, x)
  }

  /** The two bytes of a halfword that can be read. */
  lemma HalfwordBytes(m: Mem, a: nat, v: u16)
    requires WellFormed(m) && ReadU16(m, a) == Ok(v)
    ensures At(m, a) == Some(v % 256) && At(m, a + 1) == Some(v / 256)
  {
    hide WellFormed, At;
    ReadAt(m, a, 2);
    var s := Read(m, a, 2).value;
    assert s == [s[0], s[1]];
    HalfwordOf(s[0], s[1]);
    assert At(m, a) == Some(s[a - a]) && At(m, a + 1) == Some(s[a + 1 - a]);
  }

  /** What the pop of a chain has read. */
  lemma PopReads(m: Mem, q: QueueState)
    requires WellFormed(m) && Serves(m, q)
    ensures var head := Pop(m, q).value.value.headIndex;
            && At(m, AvailSlot(q, q.nextAvail)) == Some(head % 256) && At(m, AvailSlot(q, q.nextAvail) + 1) == Some(head / 256)
    ensures ReadU16(m, q.availRing + 2).Ok? && ReadU16(m, q.availRing + 2).value != q.nextAvail
  {
    hide WellFormed, At, ReadU16, Walk, TableAt, AvailSlot;
    HalfwordBytes(m, AvailSlot(q, q.nextAvail), Pop(m, q).value.value.headIndex);
  }

  lemma ElementAt(head: u16, k: nat)
    requires k < 8
    ensures UsedElem(head, 0)[k] == if k == 0 then head % 256 else if k == 1 then head / 256 else 0
  {
    hide ToLE;
    U32Bytes(head);
    U32Bytes(0);
  }

  lemma IndexAt(v: u16)
    ensures U16LE(v) == [v % 256, v / 256]
  {
    assert ToLE(v, 2) == [v % 256] + ToLE(v / 256, 1);
    assert ToLE(v / 256, 1) == [v / 256 % 256] + ToLE(v / 256 / 256, 0);
  }

  /** A completion on memory, byte by byte. */
  lemma CompletionByte(m: Mem, q: QueueState, head: u16, x: nat)
    requires WellFormed(m) && q.size > 0 && SlotWritable(m, q)
    ensures var a, v := UsedSlot(q, q.nextUsed), WrapInc(q.nextUsed);
            At(AddUsed(m, q, head, 0), x) ==
              if a <= x < a + 8 then Some(if x == a then head % 256 else if x == a + 1 then head / 256 else 0)
              else if q.usedRing + 2 <= x < q.usedRing + 4 && CanAccess(m, q.usedRing + 2, 2) then
                Some(if x == q.usedRing + 2 then v % 256 else v / 256)
              else At(m, x)
  {
    hide WellFormed, At, Put, CanAccess, UsedElem, U16LE, WrapInc;
    var a := UsedSlot(q, q.nextUsed);
    DivMod(q.nextUsed, q.size);
    var e := UsedElem(head, 0);
    var m1 := Put(m, a, e);
    PutAt(m, a, e);
    LayoutAccess(m, m1);
    var v := WrapInc(q.nextUsed);
    IndexAt(v);
    if a <= x < a + 8 {
      ElementAt(head, x - a);
    }
    if CanAccess(m1, q.usedRing + 2, 2) {
      PutAt(m1, q.usedRing + 2, U16LE(v));
    }
  }

  /** One turn, byte by byte: the served slot copies its head, the index counts, all else stays. */
  lemma TurnByte(m: Mem, q: QueueState, n: nat, x: nat)
    requires Forever(m, q)
    ensures var c := Cursor(q, n);
            var a, s := UsedSlot(q, c), AvailSlot(q, c);
            Byte(m, q, n + 1, x) ==
              if a <= x < a + 8 then
                if x == a then Byte(m, q, n, s) else if x == a + 1 then Byte(m, q, n, s + 1) else Some(0)
              else if q.usedRing + 2 <= x < q.usedRing + 4 && CanAccess(m, q.usedRing + 2, 2) then
                Some(if x == q.usedRing + 2 then Cursor(q, n + 1) % 256 else Cursor(q, n + 1) / 256)
              else Byte(m, q, n, x)
  {
    hide WellFormed, Iter, Pop, PopDefined, AddUsed, SlotWritable, At, CanAccess, WrapInc, Going, Cursor;
    assert Going(m, q, n);
    GoingFacts(m, q, n);
    IterFacts(m, q, n);
    var p := Iter(m, q, n);
    LayoutAccess(m, p.0);
    TurnIs(p.0, p.1);
    PopReads(p.0, p.1);
    CursorNext(q, n);
    CompletionByte(p.0, p.1, Pop(p.0, p.1).value.value.headIndex, x);
  }

  /** Before every turn the index differs from the cursor. */
  lemma IndexDiffers(m: Mem, q: QueueState, n: nat, low: byte, high: byte)
    requires Forever(m, q)
    requires Byte(m, q, n, q.availRing + 2) == Some(low) && Byte(m, q, n, q.availRing + 3) == Some(high)
    ensures low + 256 * high != Cursor(q, n)
  {
    hide WellFormed, Iter, Pop, PopDefined, Serves, SlotWritable, At, Going, Cursor, ReadU16;
    assert Going(m, q, n);
    GoingFacts(m, q, n);
    IterFacts(m, q, n);
    var p := Iter(m, q, n);
    PopReads(p.0, p.1);
    var v := ReadU16(p.0, q.availRing + 2).value;
    HalfwordBytes(p.0, q.availRing + 2, v);
  }

  lemma IndexExists(m: Mem, q: QueueState, n: nat)
    requires Forever(m, q)
    ensures Byte(m, q, n, q.availRing + 2).Some? && Byte(m, q, n, q.availRing + 3).Some?
  {
    hide WellFormed, Iter, Pop, PopDefined, Serves, SlotWritable, At, Going, Cursor, ReadU16;
    assert Going(m, q, n);
    GoingFacts(m, q, n);
    IterFacts(m, q, n);
    var p := Iter(m, q, n);
    PopReads(p.0, p.1);
    HalfwordBytes(p.0, q.availRing + 2, ReadU16(p.0, q.availRing + 2).value);
  }

  /** The cursor takes every value again and again. */
  lemma CursorReturns(q: QueueState, start: nat, c: u16) returns (n: nat)
    ensures n >= start && Cursor(q, n) == c
  {
    var now := (q.nextUsed + start) % 0x1_0000;
    n := start + (if c >= now then c - now else 0x1_0000 + c - now);
    DivMod(q.nextUsed + start, 0x1_0000);
    var k := (q.nextUsed + start) / 0x1_0000;
    DivModUnique(0x1_0000, q.nextUsed + n, if c >= now then k else k + 1, c);
  }

  // ---------------------------------------------------------------- bytes that settle

  /** From turn `from` on the byte keeps the value `v`. */
  ghost predicate Keeps(m: Mem, q: QueueState, x: nat, from: nat, v: Option<byte>) {
    forall n: nat :: n >= from ==> Byte(m, q, n, x) == v
  }

  ghost predicate Settles(m: Mem, q: QueueState, x: nat) {
    exists from: nat, v: Option<byte> :: Keeps(m, q, x, from, v)
  }

  /** A value that no later turn changes is kept. */
  lemma {:induction false} KeptFrom(m: Mem, q: QueueState, x: nat, from: nat, v: Option<byte>, n: nat)
    requires Byte(m, q, from, x) == v && n >= from
    requires forall k: nat :: k >= from && Byte(m, q, k, x) == v ==> Byte(m, q, k + 1, x) == v
    ensures Byte(m, q, n, x) == v
    decreases n
  {
    hide Byte;
    if n > from {
      KeptFrom(m, q, x, from, v, n - 1);
    }
  }

  lemma SettlesAt(m: Mem, q: QueueState, x: nat, from: nat, v: Option<byte>)
    requires Byte(m, q, from, x) == v
    requires forall k: nat :: k >= from && Byte(m, q, k, x) == v ==> Byte(m, q, k + 1, x) == v
    ensures Settles(m, q, x)
  {
    hide Byte;
    forall n: nat | n >= from
      ensures Byte(m, q, n, x) == v
    {
      KeptFrom(m, q, x, from, v, n);
    }
    assert Keeps(m, q, x, from, v);
  }

  /** The element of slot `j` in the used ring. */
  function Elem(q: QueueState, j: nat): (a: nat) {
    q.usedRing + 4 + 8 * j
  }

  /** Entry `j` of the available ring. */
  function Entry(q: QueueState, j: nat): (a: nat) {
    q.availRing + 4 + 2 * j
  }

  lemma SlotsOf(q: QueueState, c: u16)
    requires q.size > 0
    ensures var j := c % q.size; j < q.size && UsedSlot(q, c) == Elem(q, j) && AvailSlot(q, c) == Entry(q, j)
    ensures c < q.size ==> c % q.size == c
  {
    SlotRange(q, c);
  }

  /** Nothing writes below the used index or above the last element. */
  lemma OutsideSettles(m: Mem, q: QueueState, x: nat)
    requires Forever(m, q) && (x < q.usedRing + 2 || x >= Elem(q, q.size))
    ensures Settles(m, q, x)
  {
    hide Forever, Byte, Cursor, UsedSlot, AvailSlot;
    forall k: nat | true
      ensures Byte(m, q, k + 1, x) == Byte(m, q, k, x)
    {
      SizeOf(m, q);
      TurnByte(m, q, k, x);
      SlotsOf(q, Cursor(q, k));
    }
    SettlesAt(m, q, x, 0, Byte(m, q, 0, x));
  }

  lemma SizeOf(m: Mem, q: QueueState)
    requires Forever(m, q)
    ensures q.size > 0 && WellFormed(m)
  {
    hide WellFormed, Going;
  }

  /** One turn on a byte of element `j`: copied or zeroed if its slot is served, kept otherwise. */
  lemma ElemByte(m: Mem, q: QueueState, n: nat, j: nat, t: nat)
    requires Forever(m, q) && j < q.size && t < 8
    ensures q.size > 0
    ensures Byte(m, q, n + 1, Elem(q, j) + t) ==
              if Cursor(q, n) % q.size == j then if t < 2 then Byte(m, q, n, Entry(q, j) + t) else Some(0)
              else Byte(m, q, n, Elem(q, j) + t)
  {
    hide Forever, Byte, Cursor, UsedSlot, AvailSlot;
    SizeOf(m, q);
    TurnByte(m, q, n, Elem(q, j) + t);
    SlotsOf(q, Cursor(q, n));
  }

  lemma SlotServed(m: Mem, q: QueueState, from: nat, j: nat) returns (n: nat)
    requires Forever(m, q) && j < q.size
    ensures q.size > 0 && n >= from && Cursor(q, n) % q.size == j
  {
    hide Forever, Cursor;
    SizeOf(m, q);
    n := CursorReturns(q, from, j);
    SlotsOf(q, j);
  }

  /** The last six bytes of an element are zero once it was written. */
  lemma TailSettles(m: Mem, q: QueueState, j: nat, t: nat)
    requires Forever(m, q) && j < q.size && 2 <= t < 8
    ensures Settles(m, q, Elem(q, j) + t)
  {
    hide Forever, Byte, Cursor, Elem, Entry, Settles;
    var x := Elem(q, j) + t;
    var n := SlotServed(m, q, 0, j);
    ElemByte(m, q, n, j, t);
    forall k: nat | k >= n + 1 && Byte(m, q, k, x) == Some(0)
      ensures Byte(m, q, k + 1, x) == Some(0)
    {
      ElemByte(m, q, k, j, t);
    }
    SettlesAt(m, q, x, n + 1, Some(0));
  }

  /** The first two settle when the bytes they are copied from do. */
  lemma CopySettles(m: Mem, q: QueueState, j: nat, t: nat)
    requires Forever(m, q) && j < q.size && t < 2 && Settles(m, q, Entry(q, j) + t)
    ensures Settles(m, q, Elem(q, j) + t)
  {
    hide Forever, Byte, Cursor, Elem, Entry;
    var x := Elem(q, j) + t;
    var from: nat, v: Option<byte> :| Keeps(m, q, Entry(q, j) + t, from, v);
    var n := SlotServed(m, q, from, j);
    ElemByte(m, q, n, j, t);
    forall k: nat | k >= n + 1 && Byte(m, q, k, x) == v
      ensures Byte(m, q, k + 1, x) == v
    {
      ElemByte(m, q, k, j, t);
    }
    SettlesAt(m, q, x, n + 1, v);
  }

  /** Or when they are copied from themselves. */
  lemma SelfSettles(m: Mem, q: QueueState, j: nat, t: nat)
    requires Forever(m, q) && j < q.size && t < 2 && Entry(q, j) == Elem(q, j)
    ensures Settles(m, q, Elem(q, j) + t)
  {
    hide Forever, Byte, Cursor, Elem, Entry, Settles;
    var x := Elem(q, j) + t;
    var v := Byte(m, q, 0, x);
    forall k: nat | Byte(m, q, k, x) == v
      ensures Byte(m, q, k + 1, x) == v
    {
      ElemByte(m, q, k, j, t);
    }
    SettlesAt(m, q, x, 0, v);
  }

  /** How far slot `j` is from the place where the two rings meet. */
  function Distance(d: int, j: nat): (k: nat) {
    if 6 * j >= d then 6 * j - d else d - 6 * j
  }

  /** At distance one, the order of the two bytes of a head. */
  function Order(d: int, j: nat, t: nat): (r: nat) {
    if 6 * j > d then t else if t == 0 then 1 else 0
  }

  /** A copied byte comes from closer by. */
  lemma SourceIsCloser(d: int, j: nat, t: nat, i: nat, u: nat)
    requires t < 2 && u < 2 && d + 2 * j + t == 8 * i + u && !(i == j && u == t)
    ensures Distance(d, i) < Distance(d, j) || (Distance(d, i) == Distance(d, j) && Order(d, i, u) < Order(d, j, t))
  {
    assert 8 * (6 * i - d) == 2 * (6 * j - d) + 6 * (t - u);
  }

  /** With the available ring above the used ring all bytes of all elements settle. */
  lemma {:induction false} HeadSettles(m: Mem, q: QueueState, j: nat, t: nat)
    requires Forever(m, q) && j < q.size && t < 2 && q.availRing > q.usedRing
    ensures Settles(m, q, Elem(q, j) + t)
    decreases Distance(q.availRing - q.usedRing, j), Order(q.availRing - q.usedRing, j, t)
  {
    hide Forever, Settles;
    var d := q.availRing - q.usedRing;
    var off := d + 2 * j + t;
    var i, u := off / 8, off % 8;
    assert Entry(q, j) + t == q.usedRing + 4 + off == Elem(q, i) + u;
    if i >= q.size {
      OutsideSettles(m, q, Entry(q, j) + t);
      CopySettles(m, q, j, t);
    } else if u >= 2 {
      TailSettles(m, q, i, u);
      CopySettles(m, q, j, t);
    } else if i == j && u == t {
      SelfSettles(m, q, j, t);
    } else {
      SourceIsCloser(d, j, t, i, u);
      HeadSettles(m, q, i, u);
      CopySettles(m, q, j, t);
    }
  }

  lemma ElementsSettle(m: Mem, q: QueueState, x: nat)
    requires Forever(m, q) && q.availRing > q.usedRing && x >= q.usedRing + 4
    ensures Settles(m, q, x)
  {
    hide Forever, Settles;
    var off := x - (q.usedRing + 4);
    var i, u := off / 8, off % 8;
    assert x == Elem(q, i) + u;
    if i >= q.size {
      OutsideSettles(m, q, x);
    } else if u >= 2 {
      TailSettles(m, q, i, u);
    } else {
      HeadSettles(m, q, i, u);
    }
  }

  // ---------------------------------------------------------------- the cursor meets the index

  /** An index that settles is met. */
  lemma SettledIndexEnds(m: Mem, q: QueueState)
    requires Settles(m, q, q.availRing + 2) && Settles(m, q, q.availRing + 3)
    ensures !Forever(m, q)
  {
    hide Forever, Byte, Cursor;
    if Forever(m, q) {
      var f1: nat, v1: Option<byte> :| Keeps(m, q, q.availRing + 2, f1, v1);
      var f2: nat, v2: Option<byte> :| Keeps(m, q, q.availRing + 3, f2, v2);
      IndexExists(m, q, f1 + f2);
      var low: nat, high: nat := v1.value, v2.value;
      var n := CursorReturns(q, f1 + f2, low + 256 * high);
      IndexDiffers(m, q, n, low, high);
    }
  }

  /** The used index in memory counts the turns, or cannot be written and settles. */
  lemma UsedIndexByte(m: Mem, q: QueueState, n: nat, k: nat)
    requires Forever(m, q) && k < 2 && CanAccess(m, q.usedRing + 2, 2) && n > 0
    ensures Byte(m, q, n, q.usedRing + 2 + k) == Some(if k == 0 then Cursor(q, n) % 256 else Cursor(q, n) / 256)
  {
    hide Forever, Byte, Cursor, UsedSlot, AvailSlot, CanAccess;
    SizeOf(m, q);
    TurnByte(m, q, n - 1, q.usedRing + 2 + k);
    SlotsOf(q, Cursor(q, n - 1));
  }

  lemma UnwritableIndexSettles(m: Mem, q: QueueState, k: nat)
    requires Forever(m, q) && k < 2 && !CanAccess(m, q.usedRing + 2, 2)
    ensures Settles(m, q, q.usedRing + 2 + k)
  {
    hide Forever, Byte, Cursor, UsedSlot, AvailSlot, CanAccess;
    var x := q.usedRing + 2 + k;
    forall n: nat | true
      ensures Byte(m, q, n + 1, x) == Byte(m, q, n, x)
    {
      SizeOf(m, q);
      TurnByte(m, q, n, x);
      SlotsOf(q, Cursor(q, n));
    }
    SettlesAt(m, q, x, 0, Byte(m, q, 0, x));
  }

  lemma CursorOf(c: byte)
    ensures 257 * c < 0x1_0000 && (257 * c) % 256 == c && (257 * c) / 256 == c
  {
  }

  /** Rings one byte apart: one byte of the index settles, the other repeats a byte of the cursor. */
  lemma OneByteBelow(m: Mem, q: QueueState)
    requires q.availRing + 1 == q.usedRing
    ensures !Forever(m, q)
  {
    hide Forever, Byte, Cursor, CanAccess;
    if Forever(m, q) {
      OutsideSettles(m, q, q.availRing + 2);
      if CanAccess(m, q.usedRing + 2, 2) {
        var from: nat, v: Option<byte> :| Keeps(m, q, q.availRing + 2, from, v);
        IndexExists(m, q, from);
        var c: nat := v.value;
        CursorOf(c);
        var n := CursorReturns(q, from + 1, 257 * c);
        UsedIndexByte(m, q, n, 0);
        IndexDiffers(m, q, n, c, c);
      } else {
        UnwritableIndexSettles(m, q, 0);
        SettledIndexEnds(m, q);
      }
    }
  }

  lemma OneByteAbove(m: Mem, q: QueueState)
    requires q.availRing == q.usedRing + 1
    ensures !Forever(m, q)
  {
    hide Forever, Byte, Cursor, CanAccess;
    if Forever(m, q) {
      ElementsSettle(m, q, q.availRing + 3);
      if CanAccess(m, q.usedRing + 2, 2) {
        var from: nat, v: Option<byte> :| Keeps(m, q, q.availRing + 3, from, v);
        IndexExists(m, q, from);
        var c: nat := v.value;
        CursorOf(c);
        var n := CursorReturns(q, from + 1, 257 * c);
        UsedIndexByte(m, q, n, 1);
        IndexDiffers(m, q, n, c, c);
      } else {
        UnwritableIndexSettles(m, q, 1);
        SettledIndexEnds(m, q);
      }
    }
  }

  /** Rings further apart, the available ring above: both bytes of the index settle. */
  lemma FurtherAbove(m: Mem, q: QueueState)
    requires q.availRing >= q.usedRing + 2
    ensures !Forever(m, q)
  {
    hide Forever, Settles;
    if Forever(m, q) {
      ElementsSettle(m, q, q.availRing + 2);
      ElementsSettle(m, q, q.availRing + 3);
      SettledIndexEnds(m, q);
    }
  }

  /** With equal cursors the loop ends for every memory and every placement of the rings. */
  lemma EqualCursorsEnd(m: Mem, q: QueueState)
    requires WellFormed(m) && q.size > 0 && q.nextUsed == q.nextAvail
    ensures TxEnds(m, q)
  {
    hide WellFormed, Forever, TxEnds;
    if q.availRing == q.usedRing {
      SharedAddressEnds(m, q);
    } else if q.availRing + 2 <= q.usedRing {
      SafeEnds(m, q);
    } else {
      if q.availRing < q.usedRing {
        OneByteBelow(m, q);
      } else if q.availRing == q.usedRing + 1 {
        OneByteAbove(m, q);
      } else {
        FurtherAbove(m, q);
      }
      ElseEnds(m, q);
    }
  }
}
