/**
 Flattening OCI image layers into one root file system, with whiteouts, against
 the overlay semantics of the OCI Image Specification (layer.md, "Whiteouts").
 */
module Layers {
  import opened Bytes

  type Path = seq<string>

  datatype Node = Dir | File(data: seq<byte>)

  /** A file tree below its root directory, which is not itself listed. */
  type Tree = map<Path, Node>

  datatype TarEntry = TarEntry(path: Path, node: Node)

  const OPAQUE_MARK: string := ".wh..wh..opq"
  const WHITEOUT_PREFIX: string := ".wh."

  // ---------------------------------------------------------------- classification of entries

  predicate IsOpaque(e: TarEntry) {
    e.path != [] && e.path[|e.path| - 1] == OPAQUE_MARK
  }

  predicate IsWhiteout(e: TarEntry) {
    e.path != [] && !IsOpaque(e) && WHITEOUT_PREFIX <= e.path[|e.path| - 1]
  }

  predicate IsNormal(e: TarEntry) {
    !IsOpaque(e) && !IsWhiteout(e)
  }

  function Parent(p: Path): (q: Path)
    requires p != []
  {
    p[..|p| - 1]
  }

  /** The path that a regular whiteout names; joining an empty name gives the parent itself. */
  function Target(e: TarEntry): (p: Path)
    requires IsWhiteout(e)
  {
    var name := e.path[|e.path| - 1][|WHITEOUT_PREFIX|..];
    if name == "" then Parent(e.path) else Parent(e.path) + [name]
  }

  function Opaques(layer: seq<TarEntry>): (ds: seq<Path>) {
    if layer == [] then []
    else
      var e := layer[|layer| - 1];
      Opaques(layer[..|layer| - 1]) + if IsOpaque(e) then [Parent(e.path)] else []
  }

  function Whiteouts(layer: seq<TarEntry>): (ws: seq<Path>) {
    if layer == [] then []
    else
      var e := layer[|layer| - 1];
      Whiteouts(layer[..|layer| - 1]) + if IsWhiteout(e) then [Target(e)] else []
  }

  // ---------------------------------------------------------------- tree operations

  function Ancestors(p: Path): (s: set<Path>) {
    set k | 0 < k < |p| :: p[..k]
  }

  /** Create missing parent directories, then the entry itself. */
  function Unpack(t: Tree, e: TarEntry): (t': Tree) {
    (map q | q in t.Keys + Ancestors(e.path) :: if q in t then t[q] else Dir)[e.path := e.node]
  }

  function UnpackAll(t: Tree, layer: seq<TarEntry>): (t': Tree) {
    if layer == [] then t
    else
      var before := UnpackAll(t, layer[..|layer| - 1]);
      var e := layer[|layer| - 1];
      if IsNormal(e) then Unpack(before, e) else before
  }

  predicate IsDir(t: Tree, p: Path) {
    p == [] || (p in t && t[p] == Dir)
  }

  /** Empty a directory but keep it. */
  function ClearDir(t: Tree, d: Path): (t': Tree) {
    if IsDir(t, d) then map q | q in t && !(d < q) :: t[q] else t
  }

  /** Delete a file, or a directory with everything below it. */
  function Delete(t: Tree, p: Path): (t': Tree) {
    if IsDir(t, p) then map q | q in t && !(p <= q) :: t[q]
    else t - {p}
  }

  function ClearAll(t: Tree, ds: seq<Path>): (t': Tree) {
    if ds == [] then t else ClearDir(ClearAll(t, ds[..|ds| - 1]), ds[|ds| - 1])
  }

  function DeleteAll(t: Tree, ws: seq<Path>): (t': Tree) {
    if ws == [] then t else Delete(DeleteAll(t, ws[..|ws| - 1]), ws[|ws| - 1])
  }

  /** One layer as the program applies it: extract, then opaque directories, then whiteouts. */
  function Flatten(t: Tree, layer: seq<TarEntry>): (t': Tree) {
    DeleteAll(ClearAll(UnpackAll(t, layer), Opaques(layer)), Whiteouts(layer))
  }

  function FlattenAll(t: Tree, layers: seq<seq<TarEntry>>): (t': Tree) {
    if layers == [] then t else Flatten(FlattenAll(t, layers[..|layers| - 1]), layers[|layers| - 1])
  }

  // ---------------------------------------------------------------- reference: overlay

  /** `p` lies below an opaque directory or at or below a whiteout target. */
  predicate HiddenBy(ds: seq<Path>, ws: seq<Path>, p: Path) {
    || (exists i :: 0 <= i < |ds| && ds[i] < p)
    || (exists i :: 0 <= i < |ws| && ws[i] <= p)
  }

  predicate Hidden(layer: seq<TarEntry>, p: Path) {
    HiddenBy(Opaques(layer), Whiteouts(layer), p)
  }

  function Visible(t: Tree, layer: seq<TarEntry>): (t': Tree) {
    map q | q in t && !Hidden(layer, q) :: t[q]
  }

  /** The specification's order: hide what the layer removes from below, then add what it contains. */
  function Overlay(lower: Tree, layer: seq<TarEntry>): (t: Tree) {
    UnpackAll(Visible(lower, layer), layer)
  }

  function OverlayAll(t: Tree, layers: seq<seq<TarEntry>>): (t': Tree) {
    if layers == [] then t else Overlay(OverlayAll(t, layers[..|layers| - 1]), layers[|layers| - 1])
  }

  /** No entry of the layer is hidden by the layer's own markers. */
  ghost predicate OwnEntriesVisible(layer: seq<TarEntry>) {
    forall i :: 0 <= i < |layer| && IsNormal(layer[i]) ==> !Hidden(layer, layer[i].path)
  }

  // ---------------------------------------------------------------- well-formed trees

  /** Every entry has a non-empty path whose proper prefixes are directories of the tree. */
  ghost predicate TreeOk(t: Tree) {
    forall p :: p in t ==> p != [] && forall k :: 0 < k < |p| ==> p[..k] in t && t[p[..k]] == Dir
  }

  /** The entry does not put a file where a directory is, or the reverse. */
  ghost predicate Fits(t: Tree, e: TarEntry) {
    && e.path != []
    && (forall k :: 0 < k < |e.path| && e.path[..k] in t ==> t[e.path[..k]] == Dir)
    && (e.path in t ==> (t[e.path] == Dir <==> e.node == Dir))
  }

  ghost predicate AllFit(t: Tree, layer: seq<TarEntry>)
    decreases |layer|
  {
    layer == [] ||
    var init, e := layer[..|layer| - 1], layer[|layer| - 1];
    AllFit(t, init) && (IsNormal(e) ==> Fits(UnpackAll(t, init), e))
  }

  lemma PrefixOfPrefix(p: Path, j: nat, k: nat)
    requires j <= k <= |p|
    ensures p[..k][..j] == p[..j]
  {
  }

  lemma UnpackOk(t: Tree, e: TarEntry)
    requires TreeOk(t) && Fits(t, e)
    ensures TreeOk(Unpack(t, e))
  {
    var t' := Unpack(t, e);
    forall p, k | p in t' && 0 < k < |p|
      ensures p[..k] in t' && t'[p[..k]] == Dir
    {
      if p in t {
        assert p[..k] in t && t[p[..k]] == Dir;
      } else if p != e.path {
        var j :| 0 < j < |e.path| && p == e.path[..j];
        PrefixOfPrefix(e.path, k, j);
        assert e.path[..k] in Ancestors(e.path);
      } else {
        assert e.path[..k] in Ancestors(e.path);
      }
    }
  }

  lemma {:induction false} UnpackAllOk(t: Tree, layer: seq<TarEntry>)
    requires TreeOk(t) && AllFit(t, layer)
    ensures TreeOk(UnpackAll(t, layer))
    decreases |layer|
  {
    if layer != [] {
      UnpackAllOk(t, layer[..|layer| - 1]);
      if IsNormal(layer[|layer| - 1]) {
        UnpackOk(UnpackAll(t, layer[..|layer| - 1]), layer[|layer| - 1]);
      }
    }
  }

  // ---------------------------------------------------------------- deletions hide, in any order

  lemma PrefixTake(d: Path, q: Path)
    ensures d <= q <==> |d| <= |q| && q[..|d|] == d
  {
  }

  /** In a well-formed tree nothing lies below a path that is not a directory of it. */
  lemma NothingBelow(t: Tree, d: Path, q: Path)
    requires TreeOk(t) && !IsDir(t, d) && q in t
    ensures !(d < q)
  {
    if |d| < |q| {
      assert q[..|d|] in t && t[q[..|d|]] == Dir;
      PrefixTake(d, q);
    }
  }

  lemma ClearDirHides(t: Tree, d: Path)
    requires TreeOk(t)
    ensures ClearDir(t, d) == map q | q in t && !(d < q) :: t[q]
    ensures TreeOk(ClearDir(t, d))
  {
    var t' := ClearDir(t, d);
    if !IsDir(t, d) {
      forall q | q in t ensures !(d < q) { NothingBelow(t, d, q); }
    }
    forall p, k | p in t' && 0 < k < |p|
      ensures p[..k] in t' && t'[p[..k]] == Dir
    {
      assert p[..k] in t && t[p[..k]] == Dir;
      if d < p[..k] { PrefixChain(d, p, k); }
    }
  }

  lemma PrefixChain(d: Path, p: Path, k: nat)
    requires k <= |p|
    ensures d <= p[..k] ==> d <= p
    ensures d < p[..k] ==> d < p
  {
  }

  lemma DeleteHides(t: Tree, w: Path)
    requires TreeOk(t)
    ensures Delete(t, w) == map q | q in t && !(w <= q) :: t[q]
    ensures TreeOk(Delete(t, w))
  {
    var t' := Delete(t, w);
    if !IsDir(t, w) {
      forall q | q in t && w <= q
        ensures q == w
      {
        if w != q { NothingBelow(t, w, q); }
      }
    }
    forall p, k | p in t' && 0 < k < |p|
      ensures p[..k] in t' && t'[p[..k]] == Dir
    {
      assert p[..k] in t && t[p[..k]] == Dir;
      PrefixChain(w, p, k);
    }
  }

  lemma {:induction false} ClearAllHides(t: Tree, ds: seq<Path>)
    requires TreeOk(t)
    ensures TreeOk(ClearAll(t, ds))
    ensures ClearAll(t, ds) == map q | q in t && !HiddenBy(ds, [], q) :: t[q]
    decreases |ds|
  {
    hide TreeOk;
    if ds == [] {
      assert t == map q | q in t && !HiddenBy([], [], q) :: t[q];
    } else {
      var init, d := ds[..|ds| - 1], ds[|ds| - 1];
      ClearAllHides(t, init);
      ClearDirHides(ClearAll(t, init), d);
      forall q
        ensures HiddenBy(ds, [], q) <==> HiddenBy(init, [], q) || d < q
      {
        HiddenSnoc(init, d, q);
        assert init + [d] == ds;
      }
    }
  }

  lemma HiddenSnoc(ds: seq<Path>, d: Path, q: Path)
    ensures HiddenBy(ds + [d], [], q) <==> HiddenBy(ds, [], q) || d < q
    ensures HiddenBy([], ds + [d], q) <==> HiddenBy([], ds, q) || d <= q
  {
    var es := ds + [d];
    assert es[|ds|] == d;
    if i :| 0 <= i < |ds| && ds[i] < q { assert es[i] < q; }
    if i :| 0 <= i < |ds| && ds[i] <= q { assert es[i] <= q; }
  }

  lemma {:induction false} DeleteAllHides(t: Tree, ws: seq<Path>)
    requires TreeOk(t)
    ensures TreeOk(DeleteAll(t, ws))
    ensures DeleteAll(t, ws) == map q | q in t && !HiddenBy([], ws, q) :: t[q]
    decreases |ws|
  {
    hide TreeOk;
    if ws == [] {
      assert t == map q | q in t && !HiddenBy([], [], q) :: t[q];
    } else {
      var init, w := ws[..|ws| - 1], ws[|ws| - 1];
      DeleteAllHides(t, init);
      DeleteHides(DeleteAll(t, init), w);
      forall q
        ensures HiddenBy([], ws, q) <==> HiddenBy([], init, q) || w <= q
      {
        HiddenSnoc(init, w, q);
        assert init + [w] == ws;
      }
    }
  }

  /** Opaque directories and whiteouts together remove exactly the hidden paths. */
  lemma RemovalHides(t: Tree, ds: seq<Path>, ws: seq<Path>)
    requires TreeOk(t)
    ensures TreeOk(DeleteAll(ClearAll(t, ds), ws))
    ensures DeleteAll(ClearAll(t, ds), ws) == map q | q in t && !HiddenBy(ds, ws, q) :: t[q]
  {
    hide TreeOk;
    ClearAllHides(t, ds);
    DeleteAllHides(ClearAll(t, ds), ws);
    assert forall q :: HiddenBy(ds, ws, q) <==> HiddenBy(ds, [], q) || HiddenBy([], ws, q);
  }

  /** The order in which a layer lists its markers does not matter. */
  lemma MarkerOrderIrrelevant(t: Tree, ds: seq<Path>, ws: seq<Path>, ds': seq<Path>, ws': seq<Path>)
    requires TreeOk(t)
    requires multiset(ds) == multiset(ds') && multiset(ws) == multiset(ws')
    ensures DeleteAll(ClearAll(t, ds), ws) == DeleteAll(ClearAll(t, ds'), ws')
  {
    hide TreeOk;
    RemovalHides(t, ds, ws);
    RemovalHides(t, ds', ws');
    forall q
      ensures HiddenBy(ds, ws, q) <==> HiddenBy(ds', ws', q)
    {
      SameMembers(ds, ds');
      SameMembers(ws, ws');
      SameHidden(ds, ws, ds', ws', q);
      SameHidden(ds', ws', ds, ws, q);
    }
  }

  lemma SameMembers(a: seq<Path>, b: seq<Path>)
    requires multiset(a) == multiset(b)
    ensures forall x :: x in a <==> x in b
  {
    forall x
      ensures x in a <==> x in b
    {
      assert x in a <==> x in multiset(a);
      assert x in b <==> x in multiset(b);
    }
  }

  lemma SameHidden(ds: seq<Path>, ws: seq<Path>, ds': seq<Path>, ws': seq<Path>, q: Path)
    requires (forall x :: x in ds ==> x in ds') && (forall x :: x in ws ==> x in ws')
    ensures HiddenBy(ds, ws, q) ==> HiddenBy(ds', ws', q)
  {
    if i :| 0 <= i < |ds| && ds[i] < q {
      assert ds[i] in ds';
      var j :| 0 <= j < |ds'| && ds'[j] == ds[i];
    }
    if i :| 0 <= i < |ws| && ws[i] <= q {
      assert ws[i] in ws';
      var j :| 0 <= j < |ws'| && ws'[j] == ws[i];
    }
  }

  // ---------------------------------------------------------------- flattening against the overlay

  lemma HiddenBelow(layer: seq<TarEntry>, p: Path, k: nat)
    requires k <= |p| && Hidden(layer, p[..k])
    ensures Hidden(layer, p)
  {
    var ds, ws := Opaques(layer), Whiteouts(layer);
    if i :| 0 <= i < |ds| && ds[i] < p[..k] {
      PrefixChain(ds[i], p, k);
      assert ds[i] < p;
    } else {
      var i :| 0 <= i < |ws| && ws[i] <= p[..k];
      PrefixChain(ws[i], p, k);
      assert ws[i] <= p;
    }
  }

  /** Hiding before or after extraction makes no difference to the paths that stay visible. */
  lemma {:induction false} VisibleSame(t: Tree, layer: seq<TarEntry>, part: seq<TarEntry>, q: Path)
    requires !Hidden(layer, q)
    ensures q in UnpackAll(t, part) <==> q in UnpackAll(Visible(t, layer), part)
    ensures q in UnpackAll(t, part) ==> UnpackAll(t, part)[q] == UnpackAll(Visible(t, layer), part)[q]
    decreases |part|
  {
    hide Hidden;
    if part != [] {
      VisibleSame(t, layer, part[..|part| - 1], q);
    }
  }

  /**
   In general one layer gives the overlay without the layer's own entries that its
   own markers hide.
   */
  lemma FlattenIsOverlayMinusOwnHidden(t: Tree, layer: seq<TarEntry>)
    requires TreeOk(t) && AllFit(t, layer)
    ensures TreeOk(Flatten(t, layer))
    ensures Flatten(t, layer) == Visible(Overlay(t, layer), layer)
  {
    hide TreeOk, UnpackAll, HiddenBy, DeleteAll, ClearAll, AllFit, Opaques, Whiteouts;
    UnpackAllOk(t, layer);
    RemovalHides(UnpackAll(t, layer), Opaques(layer), Whiteouts(layer));
    assert Flatten(t, layer) == Visible(UnpackAll(t, layer), layer);
    SameVisible(t, layer);
  }

  lemma SameVisible(t: Tree, layer: seq<TarEntry>)
    ensures Visible(UnpackAll(t, layer), layer) == Visible(Overlay(t, layer), layer)
  {
    hide UnpackAll, Hidden;
    forall q | !Hidden(layer, q)
      ensures q in UnpackAll(t, layer) <==> q in Overlay(t, layer)
      ensures q in UnpackAll(t, layer) ==> UnpackAll(t, layer)[q] == Overlay(t, layer)[q]
    {
      VisibleSame(t, layer, layer, q);
    }
  }

  lemma {:induction false} OwnEntriesPresent(t: Tree, layer: seq<TarEntry>, i: nat)
    requires i < |layer| && IsNormal(layer[i])
    ensures layer[i].path in UnpackAll(t, layer)
    decreases |layer|
  {
    if i < |layer| - 1 {
      OwnEntriesPresent(t, layer[..|layer| - 1], i);
    }
  }

  /** Everything extracted is below, an entry, or a parent of an entry. */
  lemma {:induction false} UnpackAllVisible(t: Tree, layer: seq<TarEntry>, part: seq<TarEntry>)
    requires forall q :: q in t ==> !Hidden(layer, q)
    requires forall i :: 0 <= i < |part| && IsNormal(part[i]) ==> !Hidden(layer, part[i].path)
    ensures forall q :: q in UnpackAll(t, part) ==> !Hidden(layer, q)
    decreases |part|
  {
    hide Hidden;
    if part != [] {
      var e := part[|part| - 1];
      UnpackAllVisible(t, layer, part[..|part| - 1]);
      forall q | q in UnpackAll(t, part)
        ensures !Hidden(layer, q)
      {
        if IsNormal(e) && q in Ancestors(e.path) {
          var k :| 0 < k < |e.path| && q == e.path[..k];
          if Hidden(layer, q) { HiddenBelow(layer, e.path, k); }
        }
      }
    }
  }

  /** One layer refines the overlay exactly when none of its own entries is hidden by its own markers. */
  lemma FlattenIsOverlayIff(t: Tree, layer: seq<TarEntry>)
    requires TreeOk(t) && AllFit(t, layer)
    ensures Flatten(t, layer) == Overlay(t, layer) <==> OwnEntriesVisible(layer)
  {
    hide TreeOk, Hidden, UnpackAll, Flatten;
    FlattenIsOverlayMinusOwnHidden(t, layer);
    if OwnEntriesVisible(layer) {
      UnpackAllVisible(Visible(t, layer), layer, layer);
      assert Visible(Overlay(t, layer), layer) == Overlay(t, layer);
    } else {
      var i :| 0 <= i < |layer| && IsNormal(layer[i]) && Hidden(layer, layer[i].path);
      OwnEntriesPresent(Visible(t, layer), layer, i);
      assert layer[i].path !in Visible(Overlay(t, layer), layer);
    }
  }

  ghost predicate StackFits(t: Tree, layers: seq<seq<TarEntry>>)
    decreases |layers|
  {
    layers == [] ||
    var init := layers[..|layers| - 1];
    StackFits(t, init) && AllFit(FlattenAll(t, init), layers[|layers| - 1])
  }

  /** A whole image: flattening is the overlay of the stack, and the result is a well-formed tree. */
  lemma {:induction false} StackIsOverlay(t: Tree, layers: seq<seq<TarEntry>>)
    requires TreeOk(t) && StackFits(t, layers)
    ensures TreeOk(FlattenAll(t, layers))
    ensures (forall i :: 0 <= i < |layers| ==> OwnEntriesVisible(layers[i])) ==>
              FlattenAll(t, layers) == OverlayAll(t, layers)
    decreases |layers|
  {
    hide TreeOk, OwnEntriesVisible, Flatten, Overlay, AllFit;
    if layers != [] {
      var init, last := layers[..|layers| - 1], layers[|layers| - 1];
      StackIsOverlay(t, init);
      FlattenIsOverlayMinusOwnHidden(FlattenAll(t, init), last);
      FlattenIsOverlayIff(FlattenAll(t, init), last);
    }
  }

  // ---------------------------------------------------------------- the extraction loops

  class RootFs {
    var tree: Tree

    constructor ()
      ensures tree == map[]
    {
      tree := map[];
    }

    /** The body of the loop over the layers. */
    method ExtractLayer(layer: seq<TarEntry>)
      modifies this
      ensures tree == Flatten(old(tree), layer)
    {
      hide Unpack, ClearDir, Delete;
      var whiteouts: seq<Path> := [];
      var opaqueDirs: seq<Path> := [];
      assert layer[..0] == [];
      for i := 0 to |layer|
        invariant tree == UnpackAll(old(tree), layer[..i])
        invariant whiteouts == Whiteouts(layer[..i]) && opaqueDirs == Opaques(layer[..i])
      {
        var e := layer[i];
        assert layer[..i + 1][..i] == layer[..i];
        if IsOpaque(e) {
          opaqueDirs := opaqueDirs + [Parent(e.path)];
        } else if IsWhiteout(e) {
          whiteouts := whiteouts + [Target(e)];
        } else {
          tree := Unpack(tree, e);
        }
      }
      assert layer[..|layer|] == layer;
      ghost var unpacked := tree;
      for i := 0 to |opaqueDirs|
        invariant tree == ClearAll(unpacked, opaqueDirs[..i])
      {
        assert opaqueDirs[..i + 1][..i] == opaqueDirs[..i];
        tree := ClearDir(tree, opaqueDirs[i]);
      }
      assert opaqueDirs[..|opaqueDirs|] == opaqueDirs;
      ghost var cleared := tree;
      for i := 0 to |whiteouts|
        invariant tree == DeleteAll(cleared, whiteouts[..i])
      {
        assert whiteouts[..i + 1][..i] == whiteouts[..i];
        tree := Delete(tree, whiteouts[i]);
      }
      assert whiteouts[..|whiteouts|] == whiteouts;
    }

    method ExtractLayers(layers: seq<seq<TarEntry>>)
      modifies this
      ensures tree == FlattenAll(old(tree), layers)
    {
      hide Flatten;
      for i := 0 to |layers|
        invariant tree == FlattenAll(old(tree), layers[..i])
      {
        assert layers[..i + 1][..i] == layers[..i];
        ExtractLayer(layers[i]);
      }
      assert layers[..|layers|] == layers;
    }
  }
}
