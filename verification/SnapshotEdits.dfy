/** Creating, removing and switching snapshots: what the other snapshots read afterwards. */
module SnapshotEdits {
  import opened Image
  import opened SnapshotTree
  import opened Tables
  import opened Descriptor
  import opened SnapshotOps

  lemma CountsLeaf(d: Desc, g: Guid)
    requires DistinctGuids(d) && g in ParentsOf(d)
    ensures Leaf(ParentsOf(d), g) <==> ChildCount(d.snaps, g) == 0
  {
    var par := ParentsOf(d);
    if ChildCount(d.snaps, g) == 0 {
      forall h | h in par ensures par[h] != g { Found(d, h); }
    } else {
      var i :| 0 <= i < |d.snaps| && d.snaps[i].parent == g;
      MapAt(SnapRows(d.snaps), i);
    }
  }

  /** Exactly the leaves other than a base can be removed. */
  lemma RemoveAccepted(d: Desc, g: Guid)
    requires TreeForm(d)
    ensures RemoveCheck(d, g) == Ok <==> Leaf(ParentsOf(d), g) && ParentsOf(d)[g] != NONE_UUID
  {
    Found(d, g);
    if g in ParentsOf(d) { CountsLeaf(d, g); }
  }

  lemma RemovedRows(d: Desc, g: Guid)
    requires DistinctGuids(d) && RemoveCheck(d, g) == Ok
    ensures var s, im := FindSnap(d.snaps, g), FindImage(d.images, g);
      var d' := Desc(RemoveAt(d.images, im), RemoveAt(d.snaps, s), d.top);
      DistinctGuids(d') && ParentsOf(d') == Without(ParentsOf(d), g) && FilesOf(d') == Without(FilesOf(d), g)
  {
    var s, im := FindSnap(d.snaps, g), FindImage(d.images, g);
    var rows, rows' := SnapRows(d.snaps), ImageRows(d.images);
    assert SnapRows(RemoveAt(d.snaps, s)) == rows[..s] + rows[s + 1..];
    assert ImageRows(RemoveAt(d.images, im)) == rows'[..im] + rows'[im + 1..];
    MapRemoved(rows, s);
    RemovedDistinct(rows, s);
    MapRemoved(rows', im);
    RemovedDistinct(rows', im);
  }

  /** Removing a snapshot that is not the top keeps what all others read. */
  lemma RemoveKeepsSnapshots(d: Desc, vol: Volume, g: Guid, renew: bool)
    requires WellFormed(d, vol) && RemoveCheck(d, g) == Ok && (g != d.top || !renew) && g in FilesOf(d)
    ensures Kept(d, vol, Removed(d, g, renew), Without(vol, FilesOf(d)[g]), g, g, g)
    ensures ParentsOf(Removed(d, g, renew)) == Without(ParentsOf(d), g)
  {
    RemoveAccepted(d, g);
    RemovedRows(d, g);
    LeafRemoved(ParentsOf(d), FilesOf(d), vol, g);
  }

  // ---------- removing the top: its parent becomes the top ----------

  /** No entry behind the one of the top names the top's parent, as guid or as parent. */
  predicate NoneBehind(d: Desc, s: nat, x: Guid) {
    forall i :: s < i < |d.snaps| ==> d.snaps[i].guid != x && d.snaps[i].parent != x
  }

  lemma RenewedSnap(d: Desc, x: Guid, i: nat)
    requires RemoveCheck(d, d.top) == Ok && d.top == TOPDELTA_UUID && i < |d.snaps| - 1
    requires var s := FindSnap(d.snaps, d.top); x == d.snaps[s].parent && x != d.top && NoneBehind(d, s, x)
    ensures var s := FindSnap(d.snaps, d.top); var e := d.snaps[if i < s then i else i + 1];
      |Removed(d, d.top, true).snaps| == |d.snaps| - 1 &&
      Removed(d, d.top, true).snaps[i] == e.(guid := Ren(x, d.top, e.guid), parent := Ren(x, d.top, e.parent))
  {
  }

  lemma RenewedSnaps(d: Desc, x: Guid)
    requires RemoveCheck(d, d.top) == Ok && d.top == TOPDELTA_UUID
    requires var s := FindSnap(d.snaps, d.top); x == d.snaps[s].parent && x != d.top && NoneBehind(d, s, x)
    ensures var s, rows := FindSnap(d.snaps, d.top), SnapRows(d.snaps);
      SnapRows(Removed(d, d.top, true).snaps) == RenRows(RemoveAt(rows, s), x, d.top, true)
  {
    var after := SnapRows(Removed(d, d.top, true).snaps);
    var before := RenRows(RemoveAt(SnapRows(d.snaps), FindSnap(d.snaps, d.top)), x, d.top, true);
    assert |after| == |before|;
    forall i: nat | i < |before| ensures after[i] == before[i] { RenewedSnap(d, x, i); }
  }

  lemma RenewedImages(d: Desc, x: Guid)
    requires RemoveCheck(d, d.top) == Ok && d.top == TOPDELTA_UUID && x == d.snaps[FindSnap(d.snaps, d.top)].parent
    ensures var im, rows := FindImage(d.images, d.top), ImageRows(d.images);
      ImageRows(Removed(d, d.top, true).images) == RenRows(rows[..im] + rows[im + 1..], x, d.top, false)
  {
    var im, rows := FindImage(d.images, d.top), ImageRows(d.images);
    var rest, after := rows[..im] + rows[im + 1..], Removed(d, d.top, true).images;
    forall i | 0 <= i < |after| ensures ImageRows(after)[i] == RenRow(rest[i], x, d.top, false) {
      var e := d.images[if i < im then i else i + 1];
      assert rest[i] == Row(e.guid, e.file);
    }
  }

  lemma RenewedParents(d: Desc, x: Guid)
    requires Distinct(SnapRows(d.snaps)) && RemoveCheck(d, d.top) == Ok && d.top == TOPDELTA_UUID
    requires x in ParentsOf(d) && x != d.top
    requires var s := FindSnap(d.snaps, d.top); x == d.snaps[s].parent && NoneBehind(d, s, x)
    ensures var rows := SnapRows(Removed(d, d.top, true).snaps);
      Distinct(rows) && MapOf(rows) == RenamedParents(Without(ParentsOf(d), d.top), x, d.top)
  {
    RenewedSnaps(d, x);
    ParentsReplaced(SnapRows(d.snaps), FindSnap(d.snaps, d.top), d.top, x, SnapRows(Removed(d, d.top, true).snaps));
  }

  lemma RenewedFiles(d: Desc, x: Guid)
    requires Distinct(ImageRows(d.images)) && RemoveCheck(d, d.top) == Ok && d.top == TOPDELTA_UUID
    requires x in FilesOf(d) && x != d.top && x == d.snaps[FindSnap(d.snaps, d.top)].parent
    ensures var rows := ImageRows(Removed(d, d.top, true).images);
      Distinct(rows) && MapOf(rows) == RenamedFiles(Without(FilesOf(d), d.top), x, d.top)
  {
    RenewedImages(d, x);
    FilesReplaced(ImageRows(d.images), FindImage(d.images, d.top), d.top, x, ImageRows(Removed(d, d.top, true).images));
  }

  lemma RenewedMaps(d: Desc, x: Guid)
    requires DistinctGuids(d) && RemoveCheck(d, d.top) == Ok && d.top == TOPDELTA_UUID
    requires x in ParentsOf(d) && x in FilesOf(d) && x != d.top
    requires var s := FindSnap(d.snaps, d.top); x == d.snaps[s].parent && NoneBehind(d, s, x)
    ensures var d' := Removed(d, d.top, true);
      && DistinctGuids(d') && d'.top == d.top
      && ParentsOf(d') == RenamedParents(Without(ParentsOf(d), d.top), x, d.top)
      && FilesOf(d') == RenamedFiles(Without(FilesOf(d), d.top), x, d.top)
  {
    RenewedParents(d, x);
    RenewedFiles(d, x);
  }

  /** If it goes well, the new top reads what the parent of the removed top read, and all others read as before. */
  lemma RemoveTopReads(d: Desc, vol: Volume, x: Guid)
    requires WellFormed(d, vol) && RemoveCheck(d, d.top) == Ok && d.top == TOPDELTA_UUID && d.top in FilesOf(d)
    requires var s := FindSnap(d.snaps, d.top); x == d.snaps[s].parent && NoneBehind(d, s, x)
    ensures Kept(d, vol, Removed(d, d.top, true), Without(vol, FilesOf(d)[d.top]), x, d.top, d.top)
    ensures x in ParentsOf(d) && Removed(d, d.top, true).top == d.top
  {
    RemoveAccepted(d, d.top);
    Found(d, d.top);
    HasParent(d, d.top);
    RenewedMaps(d, x);
    LeafReplaced(ParentsOf(d), FilesOf(d), vol, d.top, x);
  }

  lemma ParentFileRenamed(d: Desc, x: Guid)
    requires RemoveCheck(d, d.top) == Ok && d.top == TOPDELTA_UUID && x == d.snaps[FindSnap(d.snaps, d.top)].parent
    requires x != d.top
    ensures x !in FilesOf(Removed(d, d.top, true))
  {
    var rows := ImageRows(Removed(d, d.top, true).images);
    RenewedImages(d, x);
    if x in MapOf(rows) { MapIn(rows, x); }
  }

  lemma BehindUnchanged(d: Desc, i: nat)
    requires RemoveCheck(d, d.top) == Ok && d.top == TOPDELTA_UUID && FindSnap(d.snaps, d.top) < i < |d.snaps|
    ensures var d' := Removed(d, d.top, true); |d'.snaps| == |d.snaps| - 1 && d'.snaps[i - 1] == d.snaps[i]
  {
  }

  lemma EntryInTree(d: Desc, i: nat, x: Guid)
    requires TreeForm(d) && i < |d.snaps| && (d.snaps[i].guid == x || d.snaps[i].parent == x) && x != NONE_UUID
    ensures x in FilesOf(d)
  {
    MapAt(SnapRows(d.snaps), i);
    PathStep(ParentsOf(d), PathOf(ParentsOf(d), d.snaps[i].guid));
  }

  /** An entry behind the removed top keeps the old name of its parent, which is gone. */
  lemma BehindIsLost(d: Desc, x: Guid, i: nat)
    requires TreeForm(d) && RemoveCheck(d, d.top) == Ok && d.top == TOPDELTA_UUID
    requires var s := FindSnap(d.snaps, d.top); x == d.snaps[s].parent && s < i < |d.snaps|
    requires d.snaps[i].guid == x || d.snaps[i].parent == x
    ensures !TreeForm(Removed(d, d.top, true))
  {
    Found(d, d.top);
    HasParent(d, d.top);
    ParentFileRenamed(d, x);
    BehindUnchanged(d, i);
    if TreeForm(Removed(d, d.top, true)) { EntryInTree(Removed(d, d.top, true), i - 1, x); }
  }

  /** Removing the top goes well exactly if no entry behind it names its parent. */
  lemma RemoveTopExact(d: Desc, vol: Volume)
    requires WellFormed(d, vol) && RemoveCheck(d, d.top) == Ok && d.top == TOPDELTA_UUID && d.top in FilesOf(d)
    ensures var s := FindSnap(d.snaps, d.top);
      WellFormed(Removed(d, d.top, true), Without(vol, FilesOf(d)[d.top])) <==> NoneBehind(d, s, d.snaps[s].parent)
  {
    var s := FindSnap(d.snaps, d.top);
    var x := d.snaps[s].parent;
    if NoneBehind(d, s, x) {
      RemoveTopReads(d, vol, x);
    } else {
      var i :| s < i < |d.snaps| && !(d.snaps[i].guid != x && d.snaps[i].parent != x);
      BehindIsLost(d, x, i);
    }
  }

  function TwoChildren(b: Guid, o: Guid): Desc {
    Desc([ImageEntry(b, "base"), ImageEntry(TOPDELTA_UUID, "top"), ImageEntry(o, "other")],
      [SnapEntry(b, NONE_UUID, false), SnapEntry(TOPDELTA_UUID, b, false), SnapEntry(o, b, false)], TOPDELTA_UUID)
  }

  lemma ThreeRows(a: Row, b: Row, c: Row)
    ensures MapOf([a, b, c]) == map[a.key := a.value][b.key := b.value][c.key := c.value]
  {
    assert MapOf([a][..0]) == map[];
    assert MapOf([a]) == map[a.key := a.value];
    assert [a, b][..1] == [a];
    assert MapOf([a, b]) == MapOf([a])[b.key := b.value];
    assert [a, b, c][..2] == [a, b];
  }

  lemma StarTree(b: Guid, t: Guid, o: Guid, par: Parents)
    requires b != o && b != t && t != o && NONE_UUID !in {b, t, o}
    requires par == map[b := NONE_UUID][t := b][o := b]
    ensures Tree(par) && par.Keys == {b, t, o}
  {
    forall g | g in par ensures exists p :: IsPath(par, p) && p[0] == g {
      var p := if g == b then [b] else [g, b];
      forall k: nat | k < |p| ensures Link(par, p, k) {}
      assert IsPath(par, p);
    }
  }

  lemma TwoChildrenForm(b: Guid, o: Guid)
    requires b != o && NONE_UUID !in {b, o} && TOPDELTA_UUID !in {b, o}
    ensures TreeForm(TwoChildren(b, o))
  {
    var d, t := TwoChildren(b, o), TOPDELTA_UUID;
    var rows, rows' := [Row(b, NONE_UUID), Row(t, b), Row(o, b)], [Row(b, "base"), Row(t, "top"), Row(o, "other")];
    assert SnapRows(d.snaps) == rows && ImageRows(d.images) == rows';
    assert t[1] != NONE_UUID[1];
    ThreeRows(rows[0], rows[1], rows[2]);
    ThreeRows(rows'[0], rows'[1], rows'[2]);
    StarTree(b, t, o, MapOf(rows));
    assert MapOf(rows').Keys == {b, t, o};
  }

  /** Two children of the base, the top listed first: removing the top leaves the other without its parent. */
  lemma SiblingBehindTop(b: Guid, o: Guid)
    requires b != o && NONE_UUID !in {b, o} && TOPDELTA_UUID !in {b, o}
    ensures var d := TwoChildren(b, o);
      TreeForm(d) && RemoveCheck(d, d.top) == Ok && !TreeForm(Removed(d, d.top, true))
  {
    TwoChildrenForm(b, o);
    var d := TwoChildren(b, o);
    assert d.snaps[1].guid == d.images[1].guid == TOPDELTA_UUID;
    assert FindSnap(d.snaps, TOPDELTA_UUID) == 1 && FindImage(d.images, TOPDELTA_UUID) == 1;
    BehindIsLost(TwoChildren(b, o), b, 2);
  }

  // ---------- creating a snapshot ----------

  lemma RenamedText(d: Desc, vol: Volume, x: Guid, y: Guid)
    requires WellFormed(d, vol) && x in ParentsOf(d) && y !in ParentsOf(d) && y != NONE_UUID
    ensures Kept(d, vol, Renamed(d, Text(x), y), vol, x, y, NONE_UUID)
    ensures ParentsOf(Renamed(d, Text(x), y)) == RenamedParents(ParentsOf(d), x, y)
    ensures FilesOf(Renamed(d, Text(x), y)) == RenamedFiles(FilesOf(d), x, y)
  {
    var d' := Renamed(d, Text(x), y);
    assert SnapRows(d'.snaps) == RenRows(SnapRows(d.snaps), x, y, true);
    assert ImageRows(d'.images) == RenRows(ImageRows(d.images), x, y, false);
    MapRenamed(SnapRows(d.snaps), x, y, true);
    RenamedDistinct(SnapRows(d.snaps), x, y, true);
    MapRenamed(ImageRows(d.images), x, y, false);
    RenamedDistinct(ImageRows(d.images), x, y, false);
    RenMapIs(ParentsOf(d), x, y);
    RenMapIs(FilesOf(d), x, y);
    RenamedReads(ParentsOf(d), FilesOf(d), vol, x, y);
  }

  lemma {:induction false} AppendedRow(rows: seq<Row>, r: Row)
    requires Distinct(rows) && r.key !in MapOf(rows)
    ensures Distinct(rows + [r]) && MapOf(rows + [r]) == MapOf(rows)[r.key := r.value]
  {
    assert (rows + [r])[..|rows|] == rows;
    forall i | 0 <= i < |rows| ensures rows[i].key != r.key { MapAt(rows, i); }
  }

  /** `g` of the first descriptor reads like `h` of the second. */
  ghost predicate Alike(d: Desc, vol: Volume, g: Guid, d': Desc, vol': Volume, h: Guid) {
    ReadsLike(ParentsOf(d), FilesOf(d), vol, g, ParentsOf(d'), FilesOf(d'), vol', h)
  }

  /** A new empty delta on top of `x` reads what `x` reads. */
  lemma AddedTop(d: Desc, vol: Volume, x: Guid, y: Guid, f: string, img: Img)
    requires WellFormed(d, vol) && x in ParentsOf(d) && y !in ParentsOf(d) && y != NONE_UUID && f !in vol && Empty(img)
    ensures Kept(d, vol, Added(d, f, y, x), vol[f := img], y, y, y)
    ensures Alike(d, vol, x, Added(d, f, y, x), vol[f := img], y)
  {
    var d' := Added(d, f, y, x);
    assert SnapRows(d'.snaps) == SnapRows(d.snaps) + [Row(y, x)];
    assert ImageRows(d'.images) == ImageRows(d.images) + [Row(y, f)];
    AppendedRow(SnapRows(d.snaps), Row(y, x));
    AppendedRow(ImageRows(d.images), Row(y, f));
    LeafAdded(ParentsOf(d), FilesOf(d), vol, y, x, f, img);
  }

  lemma FlagOnly(d0: Desc, d: Desc, d': Desc, vol: Volume, x: Guid, y: Guid)
    requires Kept(d0, vol, d, vol, x, y, NONE_UUID) && d'.images == d.images && |d'.snaps| == |d.snaps|
    requires forall j :: 0 <= j < |d.snaps| ==>
      d'.snaps[j].guid == d.snaps[j].guid && d'.snaps[j].parent == d.snaps[j].parent
    ensures Kept(d0, vol, d', vol, x, y, NONE_UUID) && ParentsOf(d') == ParentsOf(d)
  {
    assert SnapRows(d'.snaps) == SnapRows(d.snaps);
  }

  lemma KeptTwice(d: Desc, vol: Volume, d1: Desc, vol1: Volume, d2: Desc, vol2: Volume, x: Guid, y: Guid)
    requires Kept(d, vol, d1, vol1, x, y, NONE_UUID) && Kept(d1, vol1, d2, vol2, x, x, x) && x !in ParentsOf(d1)
    ensures Kept(d, vol, d2, vol2, x, y, NONE_UUID)
  {
    var p0, f0, p1, f1, p2, f2 := ParentsOf(d), FilesOf(d), ParentsOf(d1), FilesOf(d1), ParentsOf(d2), FilesOf(d2);
    forall g, v: nat | g in p0 && g != NONE_UUID ensures SameRead(p0, f0, vol, g, p2, f2, vol2, Ren(x, y, g), v) {
      assert SameRead(p0, f0, vol, g, p1, f1, vol1, Ren(x, y, g), v);
      assert SameRead(p1, f1, vol1, Ren(x, y, g), p2, f2, vol2, Ren(x, x, Ren(x, y, g)), v);
    }
  }

  lemma AlikeTwice(d: Desc, vol: Volume, d1: Desc, vol1: Volume, d2: Desc, vol2: Volume, x: Guid, y: Guid)
    requires Kept(d, vol, d1, vol1, x, y, NONE_UUID) && Alike(d1, vol1, y, d2, vol2, x) && x in ParentsOf(d)
    requires x != NONE_UUID
    ensures Alike(d, vol, x, d2, vol2, x)
  {
    var p0, f0, p1, f1, p2, f2 := ParentsOf(d), FilesOf(d), ParentsOf(d1), FilesOf(d1), ParentsOf(d2), FilesOf(d2);
    forall v: nat ensures SameRead(p0, f0, vol, x, p2, f2, vol2, x, v) {
      assert SameRead(p0, f0, vol, x, p1, f1, vol1, Ren(x, y, x), v);
      assert SameRead(p1, f1, vol1, y, p2, f2, vol2, x, v);
    }
  }

  lemma CreatedReads(d0: Desc, d: Desc, vol: Volume, guid: Guid, file: string, img: Img)
    requires Kept(d0, vol, d, vol, TOPDELTA_UUID, guid, NONE_UUID) && TOPDELTA_UUID in ParentsOf(d0)
    requires TOPDELTA_UUID !in ParentsOf(d)
    requires file !in vol && Empty(img)
    ensures Kept(d0, vol, Added(d, file, TOPDELTA_UUID, guid), vol[file := img], TOPDELTA_UUID, guid, NONE_UUID)
    ensures Alike(d0, vol, TOPDELTA_UUID, Added(d, file, TOPDELTA_UUID, guid), vol[file := img], TOPDELTA_UUID)
    ensures TOPDELTA_UUID in ParentsOf(Added(d, file, TOPDELTA_UUID, guid))
  {
    assert TOPDELTA_UUID[1] != NONE_UUID[1];
    assert SameRead(ParentsOf(d0), FilesOf(d0), vol, TOPDELTA_UUID, ParentsOf(d), FilesOf(d), vol,
      Ren(TOPDELTA_UUID, guid, TOPDELTA_UUID), 0);
    AddedTop(d, vol, guid, TOPDELTA_UUID, file, img);
    KeptTwice(d0, vol, d, vol, Added(d, file, TOPDELTA_UUID, guid), vol[file := img], TOPDELTA_UUID, guid);
    AlikeTwice(d0, vol, d, vol, Added(d, file, TOPDELTA_UUID, guid), vol[file := img], TOPDELTA_UUID, guid);
    assert SameRead(ParentsOf(d0), FilesOf(d0), vol, TOPDELTA_UUID, ParentsOf(Added(d, file, TOPDELTA_UUID, guid)),
        FilesOf(Added(d, file, TOPDELTA_UUID, guid)), vol[file := img], TOPDELTA_UUID, 0);
  }

  /** The top becomes the snapshot `guid`, marked if `temporary`. */
  method TurnTopInto(dd: DiskDescriptor, guid: Guid, temporary: bool, ghost vol: Volume)
    requires WellFormed(dd.State(), vol) && dd.topGuid == TOPDELTA_UUID && dd.topGuid in ParentsOf(dd.State())
    requires guid !in ParentsOf(dd.State()) && guid != NONE_UUID && guid != TOPDELTA_UUID
    modifies dd
    ensures Kept(old(dd.State()), vol, dd.State(), vol, TOPDELTA_UUID, guid, NONE_UUID)
    ensures TOPDELTA_UUID !in ParentsOf(dd.State())
    ensures ParentsOf(dd.State()) == RenamedParents(ParentsOf(old(dd.State())), TOPDELTA_UUID, guid)
    ensures FilesOf(dd.State()) == RenamedFiles(FilesOf(old(dd.State())), TOPDELTA_UUID, guid)
    ensures |dd.snapshots| == |old(dd.snapshots)| && forall j :: 0 <= j < |dd.snapshots| ==>
      dd.snapshots[j].temporary == (old(dd.snapshots)[j].temporary ||
        (temporary && old(dd.snapshots)[j].guid == TOPDELTA_UUID))
  {
    ghost var d0 := dd.State();
    dd.ChangeGuid(Text(dd.topGuid), guid);
    ghost var d1 := dd.State();
    RenamedText(d0, vol, TOPDELTA_UUID, guid);
    if temporary {
      dd.SetTemporary(guid);
      FlagAt(d0, d1, guid);
    }
    FlagOnly(d0, d1, dd.State(), vol, TOPDELTA_UUID, guid);
  }

  lemma FlagAt(d0: Desc, d1: Desc, guid: Guid)
    requires d1 == Renamed(d0, Text(TOPDELTA_UUID), guid) && guid !in ParentsOf(d0) && DistinctGuids(d0)
    requires DistinctGuids(d1)
    ensures forall j :: 0 <= j < |d0.snaps| ==> (j == FindSnap(d1.snaps, guid) <==> d0.snaps[j].guid == TOPDELTA_UUID)
  {
    forall j | 0 <= j < |d0.snaps| ensures j == FindSnap(d1.snaps, guid) <==> d0.snaps[j].guid == TOPDELTA_UUID {
      MapAt(SnapRows(d0.snaps), j);
      assert SnapRows(d1.snaps)[j].key == Ren(TOPDELTA_UUID, guid, d0.snaps[j].guid);
      var r := FindSnap(d1.snaps, guid);
      if r != -1 { assert SnapRows(d1.snaps)[r].key == guid; }
    }
  }

  /** The descriptor's part of `do_create_snapshot`: the old top becomes snapshot `guid`, and a new empty
      delta on it becomes the top. Both then read what the old top read; nothing else changes. */
  method CreateSnapshot(dd: DiskDescriptor, guid: Guid, file: string, temporary: bool, ghost vol: Volume,
        ghost img: Img)
    requires WellFormed(dd.State(), vol) && dd.topGuid == TOPDELTA_UUID && dd.topGuid in ParentsOf(dd.State())
    requires guid !in ParentsOf(dd.State()) && guid != NONE_UUID && file !in vol && Empty(img)
    modifies dd
    ensures Kept(old(dd.State()), vol, dd.State(), vol[file := img], TOPDELTA_UUID, guid, NONE_UUID)
    ensures dd.topGuid == TOPDELTA_UUID && TOPDELTA_UUID in ParentsOf(dd.State())
    ensures Alike(old(dd.State()), vol, TOPDELTA_UUID, dd.State(), vol[file := img], TOPDELTA_UUID)
    ensures |dd.snapshots| == |old(dd.snapshots)| + 1
    ensures dd.snapshots[|dd.snapshots| - 1] == SnapEntry(TOPDELTA_UUID, guid, false)
    ensures ParentsOf(dd.State()) ==
      RenamedParents(ParentsOf(old(dd.State())), TOPDELTA_UUID, guid)[TOPDELTA_UUID := guid]
    ensures FilesOf(dd.State()) == RenamedFiles(FilesOf(old(dd.State())), TOPDELTA_UUID, guid)[TOPDELTA_UUID := file]
    ensures forall j :: 0 <= j < |old(dd.snapshots)| ==>
      dd.snapshots[j].temporary == (old(dd.snapshots)[j].temporary ||
        (temporary && old(dd.snapshots)[j].guid == TOPDELTA_UUID))
  {
    ghost var d0 := dd.State();
    TurnTopInto(dd, guid, temporary, vol);
    CreatedReads(d0, dd.State(), vol, guid, file, img);
    AddedMaps(dd.State(), TOPDELTA_UUID, guid, file);
    dd.AddImage(file, TOPDELTA_UUID, guid);
  }

  /** The top, whose file was `oldFile`, is on snapshot `guid` now, in `file`; nothing else changed. */
  ghost predicate TopIs(d: Desc, d': Desc, guid: Guid, file: string, oldFile: string) {
    && TOPDELTA_UUID in FilesOf(d) && oldFile == FilesOf(d)[TOPDELTA_UUID]
    && ParentsOf(d') == ParentsOf(d)[TOPDELTA_UUID := guid] && FilesOf(d') == FilesOf(d)[TOPDELTA_UUID := file]
  }

  lemma AddedMaps(d: Desc, y: Guid, x: Guid, f: string)
    requires DistinctGuids(d) && y !in ParentsOf(d) && y !in FilesOf(d)
    ensures ParentsOf(Added(d, f, y, x)) == ParentsOf(d)[y := x] && FilesOf(Added(d, f, y, x)) == FilesOf(d)[y := f]
  {
    assert SnapRows(Added(d, f, y, x).snaps) == SnapRows(d.snaps) + [Row(y, x)];
    assert ImageRows(Added(d, f, y, x).images) == ImageRows(d.images) + [Row(y, f)];
    AppendedRow(SnapRows(d.snaps), Row(y, x));
    AppendedRow(ImageRows(d.images), Row(y, f));
  }

  lemma SwitchedTop(d: Desc, guid: Guid, file: string)
    requires DistinctGuids(d) && RemoveCheck(d, TOPDELTA_UUID) == Ok
    ensures TopIs(d, Added(Removed(d, TOPDELTA_UUID, false), file, TOPDELTA_UUID, guid), guid, file,
      d.images[FindImage(d.images, TOPDELTA_UUID)].file)
  {
    Found(d, TOPDELTA_UUID);
    RemovedRows(d, TOPDELTA_UUID);
    AddedMaps(Removed(d, TOPDELTA_UUID, false), TOPDELTA_UUID, guid, file);
  }

  /** The descriptor's part of switching to snapshot `guid`, and of dropping the old top: the new top reads what
      the snapshot reads, and nothing but the old top is lost. */
  method SwitchSnapshot(dd: DiskDescriptor, guid: Guid, file: string, ghost vol: Volume, ghost img: Img)
    returns (r: Code, oldFile: string)
    requires WellFormed(dd.State(), vol) && dd.topGuid == TOPDELTA_UUID
    requires guid in ParentsOf(dd.State()) && guid != TOPDELTA_UUID && file !in vol && Empty(img)
    modifies dd
    ensures r == old(RemoveCheck(dd.State(), TOPDELTA_UUID)) && (r != Ok ==> unchanged(dd))
    ensures r == Ok ==> var vol' := Without(vol, oldFile)[file := img];
      Kept(old(dd.State()), vol, dd.State(), vol', TOPDELTA_UUID, TOPDELTA_UUID, TOPDELTA_UUID) &&
      Alike(old(dd.State()), vol, guid, dd.State(), vol', TOPDELTA_UUID) && dd.topGuid == TOPDELTA_UUID
    ensures r == Ok ==> TopIs(old(dd.State()), dd.State(), guid, file, oldFile)
  {
    ghost var d := dd.State();
    r, oldFile := dd.RemoveImage(dd.topGuid, false);
    if r != Ok { return; }
    Found(d, TOPDELTA_UUID);
    RemoveKeepsSnapshots(d, vol, TOPDELTA_UUID, false);
    SwitchedReads(d, dd.State(), vol, Without(vol, oldFile), guid, file, img);
    SwitchedTop(d, guid, file);
    dd.AddImage(file, TOPDELTA_UUID, guid);
  }

  lemma SwitchedReads(d: Desc, d1: Desc, vol: Volume, vol1: Volume, guid: Guid, file: string, img: Img)
    requires Kept(d, vol, d1, vol1, TOPDELTA_UUID, TOPDELTA_UUID, TOPDELTA_UUID) && TOPDELTA_UUID !in ParentsOf(d1)
    requires guid in ParentsOf(d) && guid != TOPDELTA_UUID && file !in vol1 && Empty(img)
    ensures Kept(d, vol, Added(d1, file, TOPDELTA_UUID, guid), vol1[file := img], TOPDELTA_UUID, TOPDELTA_UUID,
      TOPDELTA_UUID)
    ensures Alike(d, vol, guid, Added(d1, file, TOPDELTA_UUID, guid), vol1[file := img], TOPDELTA_UUID)
  {
    var t, d2, vol2 := TOPDELTA_UUID, Added(d1, file, TOPDELTA_UUID, guid), vol1[file := img];
    var p0, f0, p1, f1, p2, f2 := ParentsOf(d), FilesOf(d), ParentsOf(d1), FilesOf(d1), ParentsOf(d2), FilesOf(d2);
    assert t[1] != NONE_UUID[1];
    assert SameRead(p0, f0, vol, guid, p1, f1, vol1, Ren(t, t, guid), 0);
    AddedTop(d1, vol1, guid, t, file, img);
    forall g, v: nat | g in p0 && g != t ensures SameRead(p0, f0, vol, g, p2, f2, vol2, Ren(t, t, g), v) {
      assert SameRead(p0, f0, vol, g, p1, f1, vol1, Ren(t, t, g), v);
      assert SameRead(p1, f1, vol1, g, p2, f2, vol2, Ren(t, t, g), v);
    }
    forall v: nat ensures SameRead(p0, f0, vol, guid, p2, f2, vol2, t, v) {
      assert SameRead(p0, f0, vol, guid, p1, f1, vol1, Ren(t, t, guid), v);
      assert SameRead(p1, f1, vol1, guid, p2, f2, vol2, t, v);
    }
  }
}
