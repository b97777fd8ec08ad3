/** Turning a directory tree into a cpio archive in which directories precede their contents. */
module CpioTree {
  import opened Wrappers
  import opened Bytes
  import opened Cpio

  datatype Node =
    | Directory(children: seq<Child>)
    | Regular(perm: nat, data: seq<byte>)
    | Symlink(target: seq<byte>)

  datatype Child = Child(name: seq<byte>, node: Node)

  /** An entry collected from the walk: its path relative to the root, and what is there. */
  datatype Item = Item(path: seq<byte>, node: Node)

  const SLASH: byte := 47
  const BACKSLASH: byte := 92

  // ---------------------------------------------------------------- the walk

  function Join(prefix: seq<byte>, name: seq<byte>): (p: seq<byte>) {
    if prefix == [] then name else prefix + [SLASH] + name
  }

  /** `replace('\\', "/")` */
  function Slashed(p: seq<byte>): (r: seq<byte>)
    ensures |r| == |p|
  {
    seq(|p|, i requires 0 <= i < |p| => if p[i] == BACKSLASH then SLASH else p[i])
  }

  /** Everything below the children of one directory, each directory before its own contents. */
  function Collect(prefix: seq<byte>, children: seq<Child>): (items: seq<Item>)
    decreases children
  {
    if children == [] then []
    else CollectOne(prefix, children[0]) + Collect(prefix, children[1..])
  }

  function CollectOne(prefix: seq<byte>, c: Child): (items: seq<Item>)
    decreases c
  {
    var path := Join(prefix, c.name);
    [Item(Slashed(path), c.node)] + if c.node.Directory? then Collect(path, c.node.children) else []
  }

  lemma CollectStep(prefix: seq<byte>, children: seq<Child>, i: nat)
    requires i < |children|
    ensures Collect(prefix, children[i..]) == CollectOne(prefix, children[i]) + Collect(prefix, children[i + 1..])
  {
    assert children[i..][1..] == children[i + 1..];
  }

  method CollectEntries(prefix: seq<byte>, children: seq<Child>) returns (items: seq<Item>)
    ensures items == Collect(prefix, children)
    decreases children
  {
    hide CollectOne;
    items := [];
    assert children[0..] == children;
    for i := 0 to |children|
      invariant Collect(prefix, children) == items + Collect(prefix, children[i..])
    {
      ghost var rest := Collect(prefix, children[i + 1..]);
      CollectStep(prefix, children, i);
      ghost var before := items;
      var found := CollectChild(prefix, children[i]);
      items := items + found;
      assert before + (found + rest) == items + rest;
    }
    assert children[|children|..] == [] && items + [] == items;
  }

  /** The loop body: the child itself, and what a directory contains. */
  method CollectChild(prefix: seq<byte>, c: Child) returns (items: seq<Item>)
    ensures items == CollectOne(prefix, c)
    decreases c
  {
    hide Slashed, Join, Collect;
    var path := Join(prefix, c.name);
    items := [Item(Slashed(path), c.node)];
    if c.node.Directory? {
      var below := CollectEntries(path, c.node.children);
      items := items + below;
    } else {
      assert items + [] == items;
    }
  }

  // ---------------------------------------------------------------- the sort

  /** Byte-wise lexicographic order, as strings compare. */
  predicate LexLe(a: seq<byte>, b: seq<byte>) {
    a == [] || (b != [] && (a[0] < b[0] || (a[0] == b[0] && LexLe(a[1..], b[1..]))))
  }

  lemma {:induction false} LexTotal(a: seq<byte>, b: seq<byte>)
    ensures LexLe(a, b) || LexLe(b, a)
  {
    if a != [] && b != [] && a[0] == b[0] {
      LexTotal(a[1..], b[1..]);
    }
  }

  lemma {:induction false} LexTransitive(a: seq<byte>, b: seq<byte>, c: seq<byte>)
    requires LexLe(a, b) && LexLe(b, c)
    ensures LexLe(a, c)
  {
    if a != [] && a[0] == b[0] && b[0] == c[0] {
      LexTransitive(a[1..], b[1..], c[1..]);
    }
  }

  /** A path never sorts at or before a proper prefix of itself. */
  lemma {:induction false} PrefixFirst(a: seq<byte>, b: seq<byte>)
    requires a < b
    ensures !LexLe(b, a)
  {
    if a != [] {
      assert a[0] == b[0];
      assert a[1..] < b[1..];
      PrefixFirst(a[1..], b[1..]);
    }
  }

  function InsertItem(x: Item, items: seq<Item>): (r: seq<Item>)
    ensures |r| == |items| + 1
  {
    if items == [] || !LexLe(items[0].path, x.path) then [x] + items
    else [items[0]] + InsertItem(x, items[1..])
  }

  /** `sort_by` on the path: stable. */
  function SortItems(items: seq<Item>): (r: seq<Item>)
    ensures |r| == |items|
  {
    if items == [] then [] else InsertItem(items[|items| - 1], SortItems(items[..|items| - 1]))
  }

  ghost predicate Sorted(items: seq<Item>) {
    forall i, j :: 0 <= i < j < |items| ==> LexLe(items[i].path, items[j].path)
  }

  lemma {:induction false} InsertMembers(x: Item, items: seq<Item>)
    ensures multiset(InsertItem(x, items)) == multiset(items) + multiset{x}
    ensures forall k :: 0 <= k < |items| + 1 ==> InsertItem(x, items)[k] == x || InsertItem(x, items)[k] in items
  {
    if items != [] && LexLe(items[0].path, x.path) {
      InsertMembers(x, items[1..]);
      assert items == [items[0]] + items[1..];
    }
  }

  lemma {:induction false} InsertSorted(x: Item, items: seq<Item>)
    requires Sorted(items)
    ensures Sorted(InsertItem(x, items))
  {
    hide LexLe;
    if items == [] {
    } else if LexLe(items[0].path, x.path) {
      InsertSorted(x, items[1..]);
      InsertMembers(x, items[1..]);
    } else {
      LexTotal(items[0].path, x.path);
      forall k | 0 < k < |items|
        ensures LexLe(x.path, items[k].path)
      {
        LexTransitive(x.path, items[0].path, items[k].path);
      }
    }
  }

  lemma {:induction false} SortIsSorted(items: seq<Item>)
    ensures Sorted(SortItems(items)) && multiset(SortItems(items)) == multiset(items)
  {
    if items != [] {
      var init, last := items[..|items| - 1], items[|items| - 1];
      SortIsSorted(init);
      InsertSorted(last, SortItems(init));
      InsertMembers(last, SortItems(init));
      assert items == init + [last];
    }
  }

  // ---------------------------------------------------------------- directories come first

  /** `p` lies below the directory path `d`. */
  predicate Below(d: seq<byte>, p: seq<byte>) {
    d + [SLASH] <= p
  }

  lemma ParentFirst(items: seq<Item>, i: nat, j: nat)
    requires Sorted(items) && i < |items| && j < |items|
    requires Below(items[i].path, items[j].path)
    ensures i < j
  {
    assert |items[i].path| + 1 <= |items[j].path|;
    PrefixFirst(items[i].path, items[j].path);
  }

  /** A single path component. */
  predicate IsName(name: seq<byte>) {
    name != [] && SLASH !in name
  }

  lemma SlashedJoin(prefix: seq<byte>, name: seq<byte>)
    requires BACKSLASH !in name
    ensures Slashed(name) == name
    ensures Slashed(Join(prefix, name)) == if prefix == [] then name else Slashed(prefix) + [SLASH] + name
  {
  }

  /** The directory of the list that holds the path: one component shorter. */
  ghost predicate HasParent(items: seq<Item>, path: seq<byte>) {
    exists d, name :: d in items && d.node.Directory? && IsName(name) && path == d.path + [SLASH] + name
  }

  lemma ParentStays(items: seq<Item>, more: seq<Item>, path: seq<byte>)
    requires HasParent(items, path) && forall x :: x in items ==> x in more
    ensures HasParent(more, path)
  {
    var d, name :| d in items && d.node.Directory? && IsName(name) && path == d.path + [SLASH] + name;
    assert d in more;
  }

  /** The path is one component below the prefix. */
  ghost predicate TopOf(prefix: seq<byte>, path: seq<byte>) {
    exists name :: IsName(name) && path == if prefix == [] then name else Slashed(prefix) + [SLASH] + name
  }

  ghost predicate Nested(prefix: seq<byte>, items: seq<Item>) {
    forall x :: x in items ==> TopOf(prefix, x.path) || HasParent(items, x.path)
  }

  lemma NestedConcat(prefix: seq<byte>, a: seq<Item>, b: seq<Item>)
    requires Nested(prefix, a) && Nested(prefix, b)
    ensures Nested(prefix, a + b)
  {
    hide HasParent, TopOf;
    forall x | x in a + b
      ensures TopOf(prefix, x.path) || HasParent(a + b, x.path)
    {
      if x in a && HasParent(a, x.path) { ParentStays(a, a + b, x.path); }
      if x in b && HasParent(b, x.path) { ParentStays(b, a + b, x.path); }
    }
  }

  /** File names are not empty and have no slash; a backslash in one would become a slash in the archive. */
  ghost predicate Named(children: seq<Child>)
    decreases children
  {
    forall c :: c in children ==>
      IsName(c.name) && BACKSLASH !in c.name && (c.node.Directory? ==> Named(c.node.children))
  }

  /** The walk lists every item together with the directory it is in. */
  lemma {:induction false} CollectNested(prefix: seq<byte>, children: seq<Child>)
    requires Named(children)
    ensures Nested(prefix, Collect(prefix, children))
    decreases children
  {
    hide HasParent, TopOf;
    if children != [] {
      assert forall c :: c in children[1..] ==> c in children;
      CollectNested(prefix, children[1..]);
      OneNested(prefix, children[0]);
      NestedConcat(prefix, CollectOne(prefix, children[0]), Collect(prefix, children[1..]));
    }
  }

  lemma {:induction false} OneNested(prefix: seq<byte>, c: Child)
    requires IsName(c.name) && BACKSLASH !in c.name && (c.node.Directory? ==> Named(c.node.children))
    ensures Nested(prefix, CollectOne(prefix, c))
    decreases c
  {
    hide Slashed;
    var path := Join(prefix, c.name);
    var self := Item(Slashed(path), c.node);
    SlashedJoin(prefix, c.name);
    assert TopOf(prefix, self.path);
    if c.node.Directory? {
      CollectNested(path, c.node.children);
      var below := Collect(path, c.node.children);
      var items := CollectOne(prefix, c);
      assert items == [self] + below;
      forall x | x in items
        ensures TopOf(prefix, x.path) || HasParent(items, x.path)
      {
        if x in below {
          if TopOf(path, x.path) {
            var name :| IsName(name) && x.path == self.path + [SLASH] + name;
            assert items[0] == self;
          } else {
            ParentStays(below, items, x.path);
          }
        }
      }
    }
  }

  /** An earlier directory of the list whose path is that of item `j` without its last component. */
  ghost predicate EarlierParent(items: seq<Item>, j: nat)
    requires j < |items|
  {
    exists i, name :: 0 <= i < j && items[i].node.Directory? && IsName(name) && items[j].path == items[i].path + [SLASH] + name
  }

  /** Every item is a single component or comes after the directory that holds it. */
  ghost predicate ParentsFirst(items: seq<Item>) {
    forall j: nat :: j < |items| ==> SLASH !in items[j].path || EarlierParent(items, j)
  }

  /** In the archive of every tree a directory comes before everything below it. */
  lemma DirectoriesFirst(children: seq<Child>)
    ensures var items := SortItems(Collect([], children));
            forall i: nat, j: nat :: i < |items| && j < |items| && Below(items[i].path, items[j].path) ==> i < j
  {
    hide LexLe, Collect, SortItems;
    var items := SortItems(Collect([], children));
    SortIsSorted(Collect([], children));
    forall i: nat, j: nat | i < |items| && j < |items| && Below(items[i].path, items[j].path)
      ensures i < j
    {
      ParentFirst(items, i, j);
    }
  }

  /** Every path with a slash has, somewhere in the list, the directory that holds it. */
  ghost predicate Closed(items: seq<Item>) {
    forall x :: x in items ==> SLASH !in x.path || HasParent(items, x.path)
  }

  /** Sorting puts parents first for exactly the lists that contain them. */
  lemma SortedParentsFirstIff(items: seq<Item>)
    ensures ParentsFirst(SortItems(items)) <==> Closed(items)
  {
    hide SortItems, IsName, Below;
    var sorted := SortItems(items);
    SortIsSorted(items);
    SameMembers(items, sorted);
    if Closed(items) {
      forall j: nat | j < |sorted|
        ensures SLASH !in sorted[j].path || EarlierParent(sorted, j)
      {
        assert sorted[j] in items;
        if SLASH in sorted[j].path {
          ParentIsEarlier(items, sorted, j);
        }
      }
    }
    if ParentsFirst(sorted) {
      forall x | x in items
        ensures SLASH !in x.path || HasParent(items, x.path)
      {
        var j :| 0 <= j < |sorted| && sorted[j] == x;
        if SLASH in x.path {
          assert EarlierParent(sorted, j);
          var i, name :| 0 <= i < j && sorted[i].node.Directory? && IsName(name) && sorted[j].path == sorted[i].path + [SLASH] + name;
          assert sorted[i] in items;
        }
      }
    }
  }

  lemma ParentIsEarlier(items: seq<Item>, sorted: seq<Item>, j: nat)
    requires Sorted(sorted) && (forall x :: x in items ==> x in sorted)
    requires j < |sorted| && HasParent(items, sorted[j].path)
    ensures EarlierParent(sorted, j)
  {
    hide IsName, Sorted;
    var d, name :| d in items && d.node.Directory? && IsName(name) && sorted[j].path == d.path + [SLASH] + name;
    var i :| 0 <= i < |sorted| && sorted[i] == d;
    ParentFirst(sorted, i, j);
    assert sorted[j].path == sorted[i].path + [SLASH] + name;
  }

  /**
   In the archive of every tree all items come after the directory that holds them
   iff the walk lists that directory at all.
   */
  lemma ParentsFirstIff(children: seq<Child>)
    ensures ParentsFirst(SortItems(Collect([], children))) <==> Closed(Collect([], children))
  {
    hide Collect, SortItems, ParentsFirst, Closed;
    SortedParentsFirstIff(Collect([], children));
  }

  /** It does when no name has a backslash. */
  lemma NamedParentsFirst(children: seq<Child>)
    requires Named(children)
    ensures ParentsFirst(SortItems(Collect([], children)))
  {
    hide SortItems, ParentsFirst, TopOf, HasParent;
    var items := Collect([], children);
    CollectNested([], children);
    forall x | x in items
      ensures SLASH !in x.path || HasParent(items, x.path)
    {
      if TopOf([], x.path) {
        TopHasNoSlash(x.path);
      }
    }
    ParentsFirstIff(children);
  }

  lemma TopHasNoSlash(path: seq<byte>)
    requires TopOf([], path)
    ensures SLASH !in path
  {
  }

  /** Why backslashes are excluded: a file alone in its tree has its parents in the archive iff its name has none. */
  lemma BackslashLosesParent(name: seq<byte>, perm: nat, data: seq<byte>)
    requires IsName(name)
    ensures ParentsFirst(SortItems(Collect([], [Child(name, Regular(perm, data))]))) <==> BACKSLASH !in name
  {
    var c := Child(name, Regular(perm, data));
    var item := Item(Slashed(name), c.node);
    assert [c][1..] == [];
    assert Collect([], [c]) == [item];
    assert [item][..0] == [];
    var items := SortItems([item]);
    assert items == [item];
    assert ParentsFirst(items) <==> SLASH !in items[0].path;
    if BACKSLASH in name {
      var i :| 0 <= i < |name| && name[i] == BACKSLASH;
      assert Slashed(name)[i] == SLASH;
    }
  }

  lemma SameMembers(a: seq<Item>, b: seq<Item>)
    requires multiset(a) == multiset(b)
    ensures forall x :: x in a <==> x in b
  {
    forall x
      ensures x in a <==> x in b
    {
      assert x in a <==> x in multiset(a);
      assert x in b <==> x in multiset(b);
    }
  }

  // ---------------------------------------------------------------- the archive

  const DIR_MODE: u32 := 0x41ED
  const LINK_MODE: u32 := 0xA1FF

  function EntryOf(item: Item, ino: u32): (e: Entry) {
    match item.node
    case Directory(_) => Entry(item.path, DIR_MODE, [], ino)
    case Symlink(target) => Entry(item.path, LINK_MODE, target, ino)
    case Regular(perm, data) => Entry(item.path, 0x8000 + perm % 0x1000, data, ino)
  }

  /** Inode numbers count up from 1 in 32 bits. */
  function Entries(items: seq<Item>): (es: seq<Entry>)
    ensures |es| == |items|
  {
    seq(|items|, i requires 0 <= i < |items| => EntryOf(items[i], (i + 1) % 0x1_0000_0000))
  }

  /** The entries of a tree, in archive order. */
  function TreeEntries(children: seq<Child>): (es: seq<Entry>) {
    Entries(SortItems(Collect([], children)))
  }

  /** The entry of one collected item. */
  method WriteItem(cpio: seq<byte>, item: Item, ino: u32) returns (out: seq<byte>)
    ensures out == cpio + EntryBytes(EntryOf(item, ino))
  {
    hide EntryBytes;
    match item.node {
      case Directory(_) => out := WriteEntry(cpio, item.path, DIR_MODE, [], ino);
      case Symlink(target) => out := WriteEntry(cpio, item.path, LINK_MODE, target, ino);
      case Regular(perm, data) => out := WriteEntry(cpio, item.path, 0x8000 + perm % 0x1000, data, ino);
    }
  }

  lemma ArchiveSnoc(items: seq<Item>, i: nat)
    requires i < |items|
    ensures ArchiveBytes(Entries(items)[..i + 1]) ==
              ArchiveBytes(Entries(items)[..i]) + EntryBytes(EntryOf(items[i], (i + 1) % 0x1_0000_0000))
  {
    hide EntryBytes, EntryOf, ArchiveBytes;
    var es, e := Entries(items), EntryOf(items[i], (i + 1) % 0x1_0000_0000);
    assert es[..i + 1] == es[..i] + [e];
    ArchiveConcat(es[..i], [e]);
    OneEntry(e);
  }

  method DirToCpio(children: seq<Child>) returns (cpio: seq<byte>)
    ensures cpio == ArchiveBytes(TreeEntries(children) + [Trailer()])
  {
    hide EntryBytes, Collect, SortItems, EntryOf, ArchiveBytes;
    var items := CollectEntries([], children);
    items := SortItems(items);
    cpio := [];
    assert Entries(items)[..0] == [];
    NoEntries();
    var ino: u32 := 1;
    for i := 0 to |items|
      invariant ino == (i + 1) % 0x1_0000_0000
      invariant cpio == ArchiveBytes(Entries(items)[..i])
    {
      ArchiveSnoc(items, i);
      cpio := WriteItem(cpio, items[i], ino);
      ino := (ino + 1) % 0x1_0000_0000;
    }
    assert Entries(items)[..|items|] == Entries(items);
    ArchiveConcat(Entries(items), [Trailer()]);
    OneEntry(Trailer());
    cpio := WriteEntry(cpio, TRAILER_NAME, 0, [], 0);
  }

  lemma NoEntries()
    ensures ArchiveBytes([]) == []
  {
  }

  lemma OneEntry(e: Entry)
    ensures ArchiveBytes([e]) == EntryBytes(e)
  {
    assert [e][1..] == [];
    assert EntryBytes(e) + [] == EntryBytes(e);
  }

  /** A directory archive with injected files is read back as the sorted tree and then the files. */
  lemma TreeRoundTrip(children: seq<Child>, files: seq<Entry>)
    requires forall i :: 0 <= i < |TreeEntries(children)| ==> Storable(TreeEntries(children)[i])
    requires forall i :: 0 <= i < |files| ==> Storable(files[i])
    ensures ParseAll(ArchiveBytes(TreeEntries(children) + [Trailer()]) + ArchiveBytes(Injected(files))) ==
              Some(TreeEntries(children) + files)
  {
    hide TreeEntries, Storable, ParseAll, ArchiveBytes, Injected;
    ConcatenatedArchives(TreeEntries(children), files);
  }
}
