/** What the edits of a descriptor mean for the snapshots it describes. */
module SnapshotOps {
  import opened Image
  import opened Stack
  import opened SnapshotTree
  import opened Tables
  import opened Descriptor
  import opened MergeOffline
  import opened Wrappers

  function SnapRows(snaps: seq<SnapEntry>): (r: seq<Row>)
    ensures |r| == |snaps| && forall i :: 0 <= i < |snaps| ==> r[i] == Row(snaps[i].guid, snaps[i].parent)
  {
    seq(|snaps|, i requires 0 <= i < |snaps| => Row(snaps[i].guid, snaps[i].parent))
  }

  function ImageRows(images: seq<ImageEntry>): (r: seq<Row>)
    ensures |r| == |images| && forall i :: 0 <= i < |images| ==> r[i] == Row(images[i].guid, images[i].file)
  {
    seq(|images|, i requires 0 <= i < |images| => Row(images[i].guid, images[i].file))
  }

  function ParentsOf(d: Desc): Parents { MapOf(SnapRows(d.snaps)) }
  function FilesOf(d: Desc): Files { MapOf(ImageRows(d.images)) }

  ghost predicate DistinctGuids(d: Desc) {
    Distinct(SnapRows(d.snaps)) && Distinct(ImageRows(d.images))
  }

  /** Guids are unique, every snapshot has an image, and the parents form a tree. */
  ghost predicate TreeForm(d: Desc) {
    DistinctGuids(d) && Tree(ParentsOf(d)) && ParentsOf(d).Keys == FilesOf(d).Keys
  }

  /** A descriptor whose snapshots form a tree and have image files of their own. */
  ghost predicate WellFormed(d: Desc, vol: Volume) {
    DistinctGuids(d) && Stored(ParentsOf(d), FilesOf(d), vol)
  }

  /** What snapshot `g` of the descriptor reads. */
  ghost function ReadOf(d: Desc, vol: Volume, g: Guid, v: nat): Lookup
    requires WellFormed(d, vol) && g in ParentsOf(d)
  {
    ReadSnapshot(ParentsOf(d), FilesOf(d), vol, g, v)
  }

  /** From `(d, vol)` to `(d', vol')`: every snapshot but `gone` is still there, `x` under the name `y`, and
      reads as before. */
  ghost predicate Kept(d: Desc, vol: Volume, d': Desc, vol': Volume, x: Guid, y: Guid, gone: Guid) {
    DistinctGuids(d) && DistinctGuids(d') &&
    ReadsAs(ParentsOf(d), FilesOf(d), vol, ParentsOf(d'), FilesOf(d'), vol', x, y, gone)
  }

  /** The same in terms of what the descriptor's snapshots read. */
  lemma KeptReadOf(d: Desc, vol: Volume, d': Desc, vol': Volume, x: Guid, y: Guid, gone: Guid, g: Guid, v: nat)
    requires Kept(d, vol, d', vol', x, y, gone)
    ensures WellFormed(d, vol) && WellFormed(d', vol')
    ensures g in ParentsOf(d) && g != gone ==>
      Ren(x, y, g) in ParentsOf(d') && ReadOf(d', vol', Ren(x, y, g), v) == ReadOf(d, vol, g, v)
  {
    if g in ParentsOf(d) && g != gone {
      assert SameRead(ParentsOf(d), FilesOf(d), vol, g, ParentsOf(d'), FilesOf(d'), vol', Ren(x, y, g), v);
    }
  }

  /** Lookup by guid is lookup in the map. */
  lemma Found(d: Desc, g: Guid)
    requires DistinctGuids(d)
    ensures FindSnap(d.snaps, g) != -1 <==> g in ParentsOf(d)
    ensures g in ParentsOf(d) ==> ParentsOf(d)[g] == d.snaps[FindSnap(d.snaps, g)].parent
    ensures FindImage(d.images, g) != -1 <==> g in FilesOf(d)
    ensures g in FilesOf(d) ==> FilesOf(d)[g] == d.images[FindImage(d.images, g)].file
  {
    var s, im := FindSnap(d.snaps, g), FindImage(d.images, g);
    if s != -1 { MapAt(SnapRows(d.snaps), s); } else if g in ParentsOf(d) { MapIn(SnapRows(d.snaps), g); }
    if im != -1 { MapAt(ImageRows(d.images), im); } else if g in FilesOf(d) { MapIn(ImageRows(d.images), g); }
  }

  // ---------- the chain of files ----------

  function FilesAlong(p: seq<Guid>, files: Files): (fs: seq<string>)
    requires forall g :: g in p ==> g in files
    ensures |fs| == |p| && forall k :: 0 <= k < |p| ==> fs[k] == files[p[k]]
  {
    seq(|p|, k requires 0 <= k < |p| => files[p[k]])
  }

  /** Opening a list of files. */
  function Open(fs: seq<string>, vol: Volume): (imgs: seq<Img>)
    requires forall f :: f in fs ==> f in vol
    ensures |imgs| == |fs| && forall k :: 0 <= k < |fs| ==> imgs[k] == vol[fs[k]]
  {
    seq(|fs|, k requires 0 <= k < |fs| => vol[fs[k]])
  }

  predicate LooksUp(d: Desc, par: Parents, files: Files, g: Guid) {
    var s, im := FindSnap(d.snaps, g), FindImage(d.images, g);
    s != -1 && im != -1 && g in par && g in files && d.snaps[s].parent == par[g] && d.images[im].file == files[g]
  }

  lemma ChainStep(d: Desc, par: Parents, files: Files, g: Guid, n: nat, steps: nat)
    requires LooksUp(d, par, files, g) && steps > 0 && n < |d.images|
    ensures Chain(d, g, n, steps) ==
      if par[g] == NONE_UUID then Some([files[g]]) else Onto([files[g]], Chain(d, par[g], n + 1, steps - 1))
  {
  }

  lemma FilesStep(p: seq<Guid>, files: Files)
    requires |p| > 0 && forall g :: g in p ==> g in files
    ensures FilesAlong(p, files) == [files[p[0]]] + FilesAlong(p[1..], files)
    ensures |p| == 1 ==> FilesAlong(p, files) == [files[p[0]]]
  {
  }

  lemma {:induction false} ChainIsPath(d: Desc, par: Parents, files: Files, p: seq<Guid>, n: nat, steps: nat)
    requires NONE_UUID !in par && IsPath(par, p)
    requires (forall k :: 0 <= k < |p| ==> LooksUp(d, par, files, p[k])) && forall g :: g in p ==> g in files
    requires |p| <= steps && n + |p| <= |d.images|
    ensures Chain(d, p[0], n, steps) == Some(FilesAlong(p, files))
    decreases steps
  {
    assert Link(par, p, 0) && LooksUp(d, par, files, p[0]);
    ChainStep(d, par, files, p[0], n, steps);
    FilesStep(p, files);
    if |p| > 1 {
      assert Link(par, p, 1);
      PathTail(par, p, 1);
      ChainIsPath(d, par, files, p[1..], n + 1, steps - 1);
    }
  }

  /** A path is no longer than the arrays. */
  lemma PathFits(d: Desc, p: seq<Guid>)
    requires DistinctGuids(d) && NONE_UUID !in ParentsOf(d) && ParentsOf(d).Keys == FilesOf(d).Keys
    requires IsPath(ParentsOf(d), p)
    ensures |p| <= |d.snaps| && |p| <= |d.images|
    ensures (forall k :: 0 <= k < |p| ==> LooksUp(d, ParentsOf(d), FilesOf(d), p[k]))
    ensures forall g :: g in p ==> g in FilesOf(d)
  {
    var par, files := ParentsOf(d), FilesOf(d);
    PathBounded(par, p);
    PathInside(par, p);
    MapSize(SnapRows(d.snaps));
    MapSize(ImageRows(d.images));
    assert |par.Keys| == |par| && |files.Keys| == |files|;
    forall k | 0 <= k < |p| ensures LooksUp(d, par, files, p[k]) { Found(d, p[k]); }
  }

  lemma OpenAlong(files: Files, vol: Volume, p: seq<Guid>)
    requires (forall g :: g in files ==> files[g] in vol) && forall g :: g in p ==> g in files
    ensures forall f :: f in FilesAlong(p, files) ==> f in vol
    ensures Open(FilesAlong(p, files), vol) == Images(p, files, vol)
  {
    var fs := FilesAlong(p, files);
    forall f | f in fs ensures f in vol {
      var k :| 0 <= k < |fs| && fs[k] == f;
      assert p[k] in p;
    }
    assert Open(fs, vol) == Images(p, files, vol);
  }

  /** On a well-formed descriptor `make_images_list` succeeds exactly for known guids, and opening the files
      it lists gives what the snapshot reads. */
  lemma ChainReads(d: Desc, vol: Volume, g: Guid, v: nat)
    requires WellFormed(d, vol)
    ensures Chain(d, g, 0, |d.snaps|).Some? <==> g in ParentsOf(d)
    ensures g in ParentsOf(d) ==>
      var fs := Chain(d, g, 0, |d.snaps|).value;
      (forall f :: f in fs ==> f in vol) && ReadOf(d, vol, g, v) == StackRead(Open(fs, vol), v)
  {
    var par, files := ParentsOf(d), FilesOf(d);
    Found(d, g);
    if g in par {
      var p := PathOf(par, g);
      PathFits(d, p);
      ChainIsPath(d, par, files, p, 0, |d.snaps|);
      OpenAlong(files, vol, p);
    }
  }

  // ---------- merging ----------

  /** A parent with at most one child: the child count decides whether the merge would break the tree. */
  lemma CountsChildren(d: Desc, c: Guid)
    requires DistinctGuids(d) && c in ParentsOf(d) && ParentsOf(d)[c] in ParentsOf(d)
    ensures OnlyChild(ParentsOf(d), c) <==> ChildCount(d.snaps, ParentsOf(d)[c]) <= 1
  {
    var par, x := ParentsOf(d), ParentsOf(d)[c];
    Found(d, c);
    var s := FindSnap(d.snaps, c);
    ChildCountOne(d.snaps, x);
    if ChildCount(d.snaps, x) <= 1 {
      forall g | g in par && par[g] == x ensures g == c {
        Found(d, g);
        var t := FindSnap(d.snaps, g);
        assert t == s;
      }
    } else {
      var i, j :| 0 <= i < j < |d.snaps| && d.snaps[i].parent == x && d.snaps[j].parent == x;
      MapAt(SnapRows(d.snaps), i);
      MapAt(SnapRows(d.snaps), j);
      assert SnapRows(d.snaps)[i].key != SnapRows(d.snaps)[j].key;
    }
  }

  lemma AbsorbedSnaps(d: Desc, c: Guid)
    requires MergeCheck(d, c) == Ok
    ensures var s := FindSnap(d.snaps, c); var rows := SnapRows(d.snaps);
      SnapRows(Absorbed(d, c).snaps) == RenRows(rows[..s] + rows[s + 1..], d.snaps[s].parent, c, false)
  {
    var s, rows := FindSnap(d.snaps, c), SnapRows(d.snaps);
    var rest, after := rows[..s] + rows[s + 1..], Absorbed(d, c).snaps;
    forall i | 0 <= i < |after|
      ensures SnapRows(after)[i] == RenRow(rest[i], d.snaps[s].parent, c, false)
    {
      var e := d.snaps[if i < s then i else i + 1];
      assert after[i] == AbsorbSnap(e, d.snaps[s], c) && rest[i] == Row(e.guid, e.parent);
    }
  }

  lemma AbsorbedImages(d: Desc, c: Guid)
    requires MergeCheck(d, c) == Ok
    ensures var s, im := FindSnap(d.snaps, c), FindImage(d.images, c); var rows := ImageRows(d.images);
      ImageRows(Absorbed(d, c).images) == RenRows(rows[..im] + rows[im + 1..], d.snaps[s].parent, c, false)
  {
    var s, im, rows := FindSnap(d.snaps, c), FindImage(d.images, c), ImageRows(d.images);
    var rest, after := rows[..im] + rows[im + 1..], Absorbed(d, c).images;
    forall i | 0 <= i < |after|
      ensures ImageRows(after)[i] == RenRow(rest[i], d.snaps[s].parent, c, false)
    {
      var e := d.images[if i < im then i else i + 1];
      assert after[i] == e.(guid := Ren(d.snaps[s].parent, c, e.guid)) && rest[i] == Row(e.guid, e.file);
    }
  }

  /** A snapshot other than a base has a parent, and is not its own. */
  lemma HasParent(d: Desc, c: Guid)
    requires TreeForm(d) && c in ParentsOf(d) && ParentsOf(d)[c] != NONE_UUID
    ensures ParentsOf(d)[c] in ParentsOf(d) && ParentsOf(d)[c] != c
  {
    PathStep(ParentsOf(d), PathOf(ParentsOf(d), c));
    MergeNeedsOnlyChild(ParentsOf(d), c);
  }

  /** The merge is accepted exactly for snapshots that are the only child of a parent. */
  lemma MergeAccepted(d: Desc, c: Guid)
    requires TreeForm(d)
    ensures MergeCheck(d, c) == Ok <==> OnlyChild(ParentsOf(d), c)
  {
    Found(d, c);
    if c in ParentsOf(d) && ParentsOf(d)[c] != NONE_UUID {
      HasParent(d, c);
      CountsChildren(d, c);
    }
  }

  /** The maps of the descriptor after the entries were merged. */
  lemma AbsorbedMaps(d: Desc, c: Guid)
    requires TreeForm(d) && MergeCheck(d, c) == Ok
    ensures OnlyChild(ParentsOf(d), c) && c != ParentsOf(d)[c] && DistinctGuids(Absorbed(d, c))
    ensures ParentsOf(Absorbed(d, c)) == MergedParents(ParentsOf(d), c)
    ensures FilesOf(Absorbed(d, c)) == MergedFiles(ParentsOf(d), FilesOf(d), c)
  {
    MergeAccepted(d, c);
    HasParent(d, c);
    Found(d, c);
    AbsorbedSnaps(d, c);
    AbsorbedImages(d, c);
    MapAbsorbed(SnapRows(d.snaps), FindSnap(d.snaps, c), ParentsOf(d)[c]);
    MapAbsorbed(ImageRows(d.images), FindImage(d.images, c), ParentsOf(d)[c]);
  }

  /** Renaming a guid that no entry mentions changes no entry. */
  lemma RenamedNothing(d: Desc, x: Guid, y: Guid)
    requires TreeForm(d) && x !in ParentsOf(d) && x != NONE_UUID
    ensures Renamed(d, Text(x), y).snaps == d.snaps && Renamed(d, Text(x), y).images == d.images
  {
    var e := Renamed(d, Text(x), y);
    forall i | 0 <= i < |d.snaps| ensures e.snaps[i] == d.snaps[i] {
      MapAt(SnapRows(d.snaps), i);
      PathStep(ParentsOf(d), PathOf(ParentsOf(d), d.snaps[i].guid));
    }
    forall i | 0 <= i < |d.images| ensures e.images[i] == d.images[i] {
      MapAt(ImageRows(d.images), i);
    }
  }

  lemma AbsorbedTreeForm(d: Desc, c: Guid)
    requires TreeForm(d) && MergeCheck(d, c) == Ok
    ensures c in ParentsOf(d) && TreeForm(Absorbed(d, c)) && ParentsOf(d)[c] !in ParentsOf(Absorbed(d, c))
    ensures ParentsOf(d)[c] != NONE_UUID
  {
    AbsorbedMaps(d, c);
    MergedTree(ParentsOf(d), c);
    MergedKeys(ParentsOf(d), FilesOf(d), c);
  }

  lemma SameEntries(d: Desc, c: Guid)
    requires TreeForm(d) && MergeCheck(d, c) == Ok
    ensures DescMerged(d, c).snaps == Absorbed(d, c).snaps && DescMerged(d, c).images == Absorbed(d, c).images
  {
    AbsorbedTreeForm(d, c);
    Found(d, c);
    if c == TOPDELTA_UUID { RenamedNothing(Absorbed(d, c), ParentsOf(d)[c], TOPDELTA_UUID); }
  }

  /** Merging entries, last step included, gives a tree again: the parent is gone, the child is in its place. */
  lemma MergedTreeForm(d: Desc, c: Guid)
    requires TreeForm(d) && MergeCheck(d, c) == Ok
    ensures OnlyChild(ParentsOf(d), c) && c != ParentsOf(d)[c] && TreeForm(DescMerged(d, c))
    ensures ParentsOf(DescMerged(d, c)) == MergedParents(ParentsOf(d), c)
    ensures FilesOf(DescMerged(d, c)) == MergedFiles(ParentsOf(d), FilesOf(d), c)
    ensures ParentsOf(DescMerged(d, c)).Keys == ParentsOf(d).Keys - {ParentsOf(d)[c]}
  {
    SameEntries(d, c);
    AbsorbedMaps(d, c);
    AbsorbedTreeForm(d, c);
    MergedKeys(ParentsOf(d), FilesOf(d), c);
  }

  /** The image side of a merge: `out` took the place of the parent's image. */
  ghost predicate MergeableInto(child: Img, parent: Img, out: Img) {
    Valid(child) && Valid(parent) && parent.hdr.L2() <= child.hdr.L2() && MergeDone([child], parent, out)
  }

  /** After a snapshot was merged into its parent, in the descriptor and on disk, every snapshot other than
      the parent reads exactly what it read before. */
  lemma MergeKeepsSnapshots(d: Desc, vol: Volume, c: Guid, x: Guid, out: Img)
    requires WellFormed(d, vol) && MergeCheck(d, c) == Ok
    requires c in ParentsOf(d) && x == ParentsOf(d)[c] && x in ParentsOf(d)
    requires MergeableInto(vol[FilesOf(d)[c]], vol[FilesOf(d)[x]], out)
    ensures Kept(d, vol, DescMerged(d, c), MergedVolume(ParentsOf(d), FilesOf(d), vol, c, out), x, x, x)
    ensures ParentsOf(DescMerged(d, c)).Keys == ParentsOf(d).Keys - {x}
  {
    MergedTreeForm(d, c);
    MergeKeepsReads(ParentsOf(d), FilesOf(d), vol, c, out);
  }
}
