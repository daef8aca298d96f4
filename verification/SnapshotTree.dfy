/** The tree of snapshots as maps from guid to parent and to image file, and what each snapshot reads. */
module SnapshotTree {
  import opened Image
  import opened Stack
  import opened MergeOffline

  type Guid = string
  const NONE_UUID: Guid := "{00000000-0000-0000-0000-000000000000}"

  type Parents = map<Guid, Guid>

  /** The parent of `p[k]` is the next guid, or none at the end. */
  predicate Link(par: Parents, p: seq<Guid>, k: nat)
    requires k < |p|
  {
    p[k] in par && par[p[k]] == if k + 1 < |p| then p[k + 1] else NONE_UUID
  }

  /** `p` leads from its first guid to the base. */
  ghost predicate IsPath(par: Parents, p: seq<Guid>) {
    |p| > 0 && forall k: nat :: k < |p| ==> Link(par, p, k)
  }

  /** Every snapshot has a path to a base. */
  ghost predicate Tree(par: Parents) {
    NONE_UUID !in par && forall g :: g in par ==> exists p :: IsPath(par, p) && p[0] == g
  }

  lemma PathTail(par: Parents, p: seq<Guid>, k: nat)
    requires IsPath(par, p) && k < |p|
    ensures IsPath(par, p[k..])
  {
    forall i: nat | i < |p[k..]| ensures Link(par, p[k..], i) { assert Link(par, p, k + i); }
  }

  lemma PathInside(par: Parents, p: seq<Guid>)
    requires IsPath(par, p)
    ensures forall k :: 0 <= k < |p| ==> p[k] in par
  {
    forall k | 0 <= k < |p| ensures p[k] in par { assert Link(par, p, k); }
  }

  /** Paths are determined by where they start. */
  lemma {:induction false} PathUnique(par: Parents, p: seq<Guid>, q: seq<Guid>)
    requires NONE_UUID !in par && IsPath(par, p) && IsPath(par, q) && p[0] == q[0]
    ensures p == q
    decreases |p|
  {
    assert Link(par, p, 0) && Link(par, q, 0);
    assert |p| > 1 ==> Link(par, p, 1);
    assert |q| > 1 ==> Link(par, q, 1);
    if |p| > 1 && |q| > 1 {
      PathTail(par, p, 1);
      PathTail(par, q, 1);
      PathUnique(par, p[1..], q[1..]);
      assert p == [p[0]] + p[1..] && q == [q[0]] + q[1..];
    }
  }

  /** A path visits no guid twice. */
  lemma PathDistinct(par: Parents, p: seq<Guid>)
    requires NONE_UUID !in par && IsPath(par, p)
    ensures forall a, b :: 0 <= a < b < |p| ==> p[a] != p[b]
  {
    forall a, b | 0 <= a < b < |p| ensures p[a] != p[b] {
      if p[a] == p[b] {
        PathTail(par, p, a);
        PathTail(par, p, b);
        PathUnique(par, p[a..], p[b..]);
      }
    }
  }

  lemma {:induction false} DistinctBounded(p: seq<Guid>, s: set<Guid>)
    requires (forall a, b :: 0 <= a < b < |p| ==> p[a] != p[b]) && forall a :: 0 <= a < |p| ==> p[a] in s
    ensures |p| <= |s|
    decreases |p|
  {
    if |p| > 0 {
      var q, x := p[..|p| - 1], p[|p| - 1];
      DistinctBounded(q, s - {x});
      assert |s - {x}| == |s| - 1;
    }
  }

  /** A path is no longer than there are snapshots. */
  lemma PathBounded(par: Parents, p: seq<Guid>)
    requires NONE_UUID !in par && IsPath(par, p)
    ensures |p| <= |par|
  {
    PathDistinct(par, p);
    PathInside(par, p);
    DistinctBounded(p, par.Keys);
    assert |par.Keys| == |par|;
  }

  ghost function PathOf(par: Parents, g: Guid): (p: seq<Guid>)
    requires Tree(par) && g in par
    ensures IsPath(par, p) && p[0] == g && forall h :: h in p ==> h in par
  {
    var p :| IsPath(par, p) && p[0] == g;
    PathInside(par, p);
    p
  }

  // ---------- what a snapshot reads ----------

  type Files = map<Guid, string>
  type Volume = map<string, Img>

  /** The images along a path, topmost first. */
  function Images(p: seq<Guid>, files: Files, vol: Volume): seq<Img>
    requires forall g :: g in p ==> g in files && files[g] in vol
  {
    seq(|p|, k requires 0 <= k < |p| => vol[files[p[k]]])
  }

  /** A tree all of whose snapshots have image files of their own. */
  ghost predicate Stored(par: Parents, files: Files, vol: Volume) {
    && Tree(par) && par.Keys == files.Keys
    && (forall g :: g in files ==> files[g] in vol)
    && (forall g, h :: g in files && h in files && g != h ==> files[g] != files[h])
  }

  ghost function ReadSnapshot(par: Parents, files: Files, vol: Volume, g: Guid, v: nat): Lookup
    requires Stored(par, files, vol) && g in par
  {
    StackRead(Images(PathOf(par, g), files, vol), v)
  }

  function Ren(x: Guid, y: Guid, g: Guid): Guid { if g == x then y else g }

  /** Snapshot `g` of the first volume reads cluster `v` like `h` of the second. */
  ghost predicate SameRead(par: Parents, files: Files, vol: Volume, g: Guid, par': Parents, files': Files, vol': Volume,
        h: Guid, v: nat)
  {
    Stored(par, files, vol) && Stored(par', files', vol') && g in par && h in par' &&
    ReadSnapshot(par', files', vol', h, v) == ReadSnapshot(par, files, vol, g, v)
  }

  ghost predicate ReadsLike(par: Parents, files: Files, vol: Volume, g: Guid, par': Parents, files': Files,
        vol': Volume, h: Guid)
  {
    forall v: nat :: SameRead(par, files, vol, g, par', files', vol', h, v)
  }

  /** Every snapshot but `gone` is still there, `x` under the name `y`, and reads as before. */
  ghost predicate ReadsAs(par: Parents, files: Files, vol: Volume, par': Parents, files': Files, vol': Volume,
    x: Guid, y: Guid, gone: Guid)
  {
    && Stored(par, files, vol) && Stored(par', files', vol')
    && forall g, v: nat :: g in par && g != gone ==> SameRead(par, files, vol, g, par', files', vol', Ren(x, y, g), v)
  }

  lemma StackConcat(a: seq<Img>, b: seq<Img>, v: nat)
    ensures StackRead(a + b, v) == if StackRead(a, v) == Hole then StackRead(b, v) else StackRead(a, v)
  {
    if a == [] {
      assert a + b == b;
    } else {
      assert (a + b)[1..] == a[1..] + b;
      StackConcat(a[1..], b, v);
    }
  }

  // ---------- merging a snapshot into its parent ----------

  /** `c` takes the place of its parent; the parent's entry disappears. */
  function MergedParents(par: Parents, c: Guid): Parents
    requires c in par && par[c] in par
  {
    (map g | g in par && g != par[c] :: par[g])[c := par[par[c]]]
  }

  /** The child keeps its guid and takes over the parent's file. */
  function MergedFiles(par: Parents, files: Files, c: Guid): Files
    requires c in par && par[c] in files
  {
    (map g | g in files && g != par[c] :: files[g])[c := files[par[c]]]
  }

  /** The parent's file now holds the merged image; the child's file is gone. */
  function MergedVolume(par: Parents, files: Files, vol: Volume, c: Guid, out: Img): Volume
    requires c in par && par[c] in files && c in files
  {
    Without(vol, files[c])[files[par[c]] := out]
  }

  lemma MergedKeys(par: Parents, files: Files, c: Guid)
    requires c in par && par[c] in par && c != par[c] && files.Keys == par.Keys
    ensures MergedParents(par, c).Keys == MergedFiles(par, files, c).Keys == par.Keys - {par[c]}
  {
  }

  ghost predicate OnlyChild(par: Parents, c: Guid) {
    c in par && par[c] in par && forall g :: g in par && par[g] == par[c] ==> g == c
  }

  /** The path of a remaining snapshot after the merge: the absorbed parent is skipped. */
  ghost function Skip(p: seq<Guid>, x: Guid): seq<Guid> {
    if x in p then var k :| 0 <= k < |p| && p[k] == x; p[..k] + p[k + 1..] else p
  }

  /** On a path that does not start at it, the absorbed parent comes right after its only child. */
  lemma ChildBefore(par: Parents, c: Guid, p: seq<Guid>, k: nat)
    requires OnlyChild(par, c) && IsPath(par, p) && p[0] != par[c] && k < |p| && p[k] == par[c]
    ensures k > 0 && p[k - 1] == c
  {
    assert k > 0 && Link(par, p, k - 1);
  }

  lemma SkipInside(par: Parents, c: Guid, p: seq<Guid>, k: nat)
    requires NONE_UUID !in par && OnlyChild(par, c) && c != par[c] && IsPath(par, p)
    requires 0 < k < |p| && p[k - 1] == c && p[k] == par[c]
    ensures IsPath(MergedParents(par, c), p[..k] + p[k + 1..])
  {
    var q := p[..k] + p[k + 1..];
    PathDistinct(par, p);
    forall i: nat | i < |q| ensures Link(MergedParents(par, c), q, i) {
      assert Link(par, p, if i < k then i else i + 1) && Link(par, p, k);
    }
  }

  lemma SkipPath(par: Parents, c: Guid, p: seq<Guid>)
    requires NONE_UUID !in par && OnlyChild(par, c) && c != par[c] && IsPath(par, p) && p[0] != par[c]
    ensures IsPath(MergedParents(par, c), Skip(p, par[c])) && Skip(p, par[c])[0] == p[0]
    ensures par[c] in p ==>
      exists k :: 0 < k < |p| && p[k - 1] == c && p[k] == par[c] && Skip(p, par[c]) == p[..k] + p[k + 1..]
    ensures par[c] !in p ==> c !in p
  {
    var x, par' := par[c], MergedParents(par, c);
    if x in p {
      var k :| 0 <= k < |p| && p[k] == x && Skip(p, x) == p[..k] + p[k + 1..];
      ChildBefore(par, c, p, k);
      SkipInside(par, c, p, k);
    } else {
      forall i: nat | i < |p| ensures p[i] != c && Link(par', p, i) {
        assert Link(par, p, i);
        assert i + 1 < |p| ==> p[i + 1] in p;
      }
    }
  }

  /** Merging keeps the tree a tree. */
  lemma MergedTree(par: Parents, c: Guid)
    requires Tree(par) && OnlyChild(par, c) && c != par[c]
    ensures Tree(MergedParents(par, c))
  {
    forall g | g in MergedParents(par, c) ensures exists p :: IsPath(MergedParents(par, c), p) && p[0] == g {
      SkipPath(par, c, PathOf(par, g));
    }
  }

  lemma PathIs(par: Parents, p: seq<Guid>)
    requires Tree(par) && IsPath(par, p)
    ensures p[0] in par && PathOf(par, p[0]) == p
  {
    assert Link(par, p, 0);
    PathUnique(par, p, PathOf(par, p[0]));
  }

  lemma MergedStored(par: Parents, files: Files, vol: Volume, c: Guid, out: Img)
    requires Stored(par, files, vol) && OnlyChild(par, c) && c != par[c]
    ensures Stored(MergedParents(par, c), MergedFiles(par, files, c), MergedVolume(par, files, vol, c, out))
  {
    MergedTree(par, c);
    assert MergedParents(par, c).Keys == MergedFiles(par, files, c).Keys;
  }

  lemma ReadOne(img: Img, v: nat)
    requires Valid(img)
    ensures StackRead([img], v) == if Read(img, v).Data? then Read(img, v) else Hole
    ensures v >= img.hdr.L2() ==> Read(img, v) == Outside
  {
    ReadEntry(img, v);
    assert StackRead([img][1..], v) == Hole;
  }

  lemma ReadTwo(a: Img, b: Img, v: nat)
    requires Valid(a) && Valid(b)
    ensures StackRead([a, b], v) == if Read(a, v).Data? then Read(a, v) else StackRead([b], v)
  {
    assert [a] + [b] == [a, b];
    StackAppend([a], b, v);
    ReadOne(a, v);
  }

  /** The merged image stands for the child over the parent. */
  lemma OutReads(child: Img, parent: Img, out: Img, v: nat)
    requires MergeDone([child], parent, out) && Valid(parent) && Valid(child) && parent.hdr.L2() <= child.hdr.L2()
    ensures StackRead([out], v) == StackRead([child, parent], v)
  {
    assert [child] + [parent] == [child, parent];
    ReadTwo(child, parent, v);
    ReadOne(out, v);
    ReadOne(child, v);
    ReadOne(parent, v);
  }

  /** A part of a stack may be replaced by one that reads the same. */
  lemma SplicedRead(a: seq<Img>, m: seq<Img>, m': seq<Img>, b: seq<Img>, v: nat)
    requires StackRead(m, v) == StackRead(m', v)
    ensures StackRead(a + m + b, v) == StackRead(a + m' + b, v)
  {
    StackConcat(a + m, b, v);
    StackConcat(a, m, v);
    StackConcat(a + m', b, v);
    StackConcat(a, m', v);
  }

  lemma MergedImage(par: Parents, files: Files, vol: Volume, c: Guid, out: Img, h: Guid)
    requires Stored(par, files, vol) && OnlyChild(par, c) && c != par[c] && h in par && h != par[c]
    ensures var files', vol' := MergedFiles(par, files, c), MergedVolume(par, files, vol, c, out);
      h in files' && files'[h] in vol' && vol'[files'[h]] == if h == c then out else vol[files[h]]
  {
  }

  /** A path through the absorbed parent: its two images became one. */
  lemma SplicedPath(files: Files, vol: Volume, files': Files, vol': Volume, p: seq<Guid>, k: nat, out: Img, v: nat)
    requires 0 < k < |p| && (forall g :: g in p ==> g in files && files[g] in vol)
    requires forall g :: g in p && g != p[k] ==> g in files' && files'[g] in vol'
    requires p[k - 1] != p[k] && vol'[files'[p[k - 1]]] == out
    requires forall j :: 0 <= j < |p| && j != k && j != k - 1 ==> p[j] != p[k] && vol'[files'[p[j]]] == vol[files[p[j]]]
    requires StackRead([out], v) == StackRead([vol[files[p[k - 1]]], vol[files[p[k]]]], v)
    ensures forall g :: g in p[..k] + p[k + 1..] ==> g in files' && files'[g] in vol'
    ensures StackRead(Images(p[..k] + p[k + 1..], files', vol'), v) == StackRead(Images(p, files, vol), v)
  {
    var q, imgs := p[..k] + p[k + 1..], Images(p, files, vol);
    forall g | g in q ensures g in files' && files'[g] in vol' {
      var j :| 0 <= j < |q| && q[j] == g;
      assert g == p[if j < k then j else j + 1];
    }
    assert Images(q, files', vol') == imgs[..k - 1] + [out] + imgs[k + 1..];
    assert imgs == imgs[..k - 1] + [imgs[k - 1], imgs[k]] + imgs[k + 1..];
    SplicedRead(imgs[..k - 1], [out], [imgs[k - 1], imgs[k]], imgs[k + 1..], v);
  }

  lemma MergedImages(par: Parents, files: Files, vol: Volume, c: Guid, out: Img, p: seq<Guid>)
    requires Stored(par, files, vol) && OnlyChild(par, c) && c != par[c] && IsPath(par, p)
    ensures forall h :: h in p ==> h in files && files[h] in vol
    ensures var files', vol' := MergedFiles(par, files, c), MergedVolume(par, files, vol, c, out);
      forall h :: h in p && h != par[c] ==>
        h in files' && files'[h] in vol' && vol'[files'[h]] == if h == c then out else vol[files[h]]
  {
    var files', vol' := MergedFiles(par, files, c), MergedVolume(par, files, vol, c, out);
    PathInside(par, p);
    forall h | h in p && h != par[c]
      ensures h in files' && files'[h] in vol' && vol'[files'[h]] == if h == c then out else vol[files[h]]
    {
      MergedImage(par, files, vol, c, out, h);
    }
  }

  /** A path beside the absorbed parent: nothing on it changed. */
  lemma UntouchedPath(files: Files, vol: Volume, files': Files, vol': Volume, p: seq<Guid>, v: nat)
    requires forall h :: h in p ==> h in files && files[h] in vol
    requires forall h :: h in p ==> h in files' && files'[h] in vol' && vol'[files'[h]] == vol[files[h]]
    ensures StackRead(Images(p, files', vol'), v) == StackRead(Images(p, files, vol), v)
  {
    assert Images(p, files', vol') == Images(p, files, vol);
  }

  lemma MergeKeepsPath(par: Parents, files: Files, vol: Volume, c: Guid, out: Img, p: seq<Guid>, v: nat)
    requires Stored(par, files, vol) && OnlyChild(par, c) && c != par[c] && IsPath(par, p) && p[0] != par[c]
    requires StackRead([out], v) == StackRead([vol[files[c]], vol[files[par[c]]]], v)
    ensures var files', vol', q := MergedFiles(par, files, c), MergedVolume(par, files, vol, c, out), Skip(p, par[c]);
      && (forall g :: g in p ==> g in files && files[g] in vol)
      && (forall g :: g in q ==> g in files' && files'[g] in vol')
      && StackRead(Images(q, files', vol'), v) == StackRead(Images(p, files, vol), v)
  {
    var files', vol', x := MergedFiles(par, files, c), MergedVolume(par, files, vol, c, out), par[c];
    SkipPath(par, c, p);
    PathDistinct(par, p);
    MergedImages(par, files, vol, c, out, p);
    if x in p {
      var k :| 0 < k < |p| && p[k - 1] == c && p[k] == x && Skip(p, x) == p[..k] + p[k + 1..];
      SplicedPath(files, vol, files', vol', p, k, out, v);
    } else {
      UntouchedPath(files, vol, files', vol', p, v);
    }
  }

  lemma MergeKeepsRead(par: Parents, files: Files, vol: Volume, c: Guid, out: Img, g: Guid, v: nat)
    requires Stored(par, files, vol) && OnlyChild(par, c) && c != par[c]
    requires var child, parent := vol[files[c]], vol[files[par[c]]];
      Valid(child) && Valid(parent) && parent.hdr.L2() <= child.hdr.L2() && MergeDone([child], parent, out)
    requires g in par && g != par[c]
    ensures Stored(MergedParents(par, c), MergedFiles(par, files, c), MergedVolume(par, files, vol, c, out))
    ensures g in MergedParents(par, c)
    ensures ReadSnapshot(MergedParents(par, c), MergedFiles(par, files, c), MergedVolume(par, files, vol, c, out), g, v)
      == ReadSnapshot(par, files, vol, g, v)
  {
    var p := PathOf(par, g);
    MergedStored(par, files, vol, c, out);
    SkipPath(par, c, p);
    PathIs(MergedParents(par, c), Skip(p, par[c]));
    OutReads(vol[files[c]], vol[files[par[c]]], out, v);
    MergeKeepsPath(par, files, vol, c, out, p, v);
  }

  /** After snapshot `c` was merged into its parent, every snapshot other than the parent reads exactly
      what it read before. */
  lemma MergeKeepsReads(par: Parents, files: Files, vol: Volume, c: Guid, out: Img)
    requires Stored(par, files, vol) && OnlyChild(par, c) && c != par[c]
    requires var child, parent := vol[files[c]], vol[files[par[c]]];
      Valid(child) && Valid(parent) && parent.hdr.L2() <= child.hdr.L2() && MergeDone([child], parent, out)
    ensures ReadsAs(par, files, vol, MergedParents(par, c), MergedFiles(par, files, c),
      MergedVolume(par, files, vol, c, out), par[c], par[c], par[c])
  {
    var par', files', vol' := MergedParents(par, c), MergedFiles(par, files, c), MergedVolume(par, files, vol, c, out);
    MergedStored(par, files, vol, c, out);
    forall g, v: nat | g in par && g != par[c]
      ensures SameRead(par, files, vol, g, par', files', vol', g, v)
    {
      MergeKeepsRead(par, files, vol, c, out, g, v);
    }
  }

  lemma ReplacedPath(files: Files, vol: Volume, x: Guid, img: Img, p: seq<Guid>, k: nat, v: nat)
    requires 0 < k < |p| && p[k] == x && (forall g :: g in p ==> g in files && files[g] in vol)
    requires forall j :: 0 <= j < |p| && j != k ==> files[p[j]] != files[x]
    requires StackRead([vol[files[p[k - 1]]], img], v) == StackRead([vol[files[p[k - 1]]], vol[files[x]]], v)
    ensures StackRead(Images(p, files, vol[files[x] := img]), v) == StackRead(Images(p, files, vol), v)
  {
    var imgs, imgs' := Images(p, files, vol), Images(p, files, vol[files[x] := img]);
    assert imgs == imgs[..k - 1] + [imgs[k - 1], imgs[k]] + imgs[k + 1..];
    assert imgs' == imgs[..k - 1] + [imgs[k - 1], img] + imgs[k + 1..];
    SplicedRead(imgs[..k - 1], [imgs[k - 1], imgs[k]], [imgs[k - 1], img], imgs[k + 1..], v);
  }

  lemma RunningMergeKeepsRead(par: Parents, files: Files, vol: Volume, c: Guid, img: Img, g: Guid, v: nat)
    requires Stored(par, files, vol) && OnlyChild(par, c) && c != par[c] && g in par && g != par[c]
    requires StackRead([vol[files[c]], img], v) == StackRead([vol[files[c]], vol[files[par[c]]]], v)
    ensures Stored(par, files, vol[files[par[c]] := img])
    ensures ReadSnapshot(par, files, vol[files[par[c]] := img], g, v) == ReadSnapshot(par, files, vol, g, v)
  {
    var p, x := PathOf(par, g), par[c];
    PathDistinct(par, p);
    if x in p {
      var k :| 0 <= k < |p| && p[k] == x;
      ChildBefore(par, c, p, k);
      ReplacedPath(files, vol, x, img, p, k, v);
    } else {
      UntouchedPath(files, vol, files, vol[files[x] := img], p, v);
    }
  }

  /** While the merge runs, the parent's file may be in any state `img` that reads the same below the child:
      every snapshot other than the parent then reads what it read before. */
  lemma RunningMergeKeepsReads(par: Parents, files: Files, vol: Volume, c: Guid, img: Img)
    requires Stored(par, files, vol) && OnlyChild(par, c) && c != par[c]
    requires forall v: nat :: StackRead([vol[files[c]], img], v) == StackRead([vol[files[c]], vol[files[par[c]]]], v)
    ensures ReadsAs(par, files, vol, par, files, vol[files[par[c]] := img], par[c], par[c], par[c])
  {
    var vol' := vol[files[par[c]] := img];
    forall g, v: nat | g in par && g != par[c] ensures SameRead(par, files, vol, g, par, files, vol', g, v) {
      RunningMergeKeepsRead(par, files, vol, c, img, g, v);
    }
  }

  lemma PathStep(par: Parents, p: seq<Guid>)
    requires IsPath(par, p)
    ensures p[0] in par && (par[p[0]] == NONE_UUID || par[p[0]] in par)
  {
    assert Link(par, p, 0);
    assert |p| > 1 ==> Link(par, p, 1);
  }

  /** If the parent has another child, merging into it would leave that child without a parent. */
  lemma MergeNeedsOnlyChild(par: Parents, c: Guid)
    requires Tree(par) && c in par && par[c] in par
    ensures c != par[c]
    ensures Tree(MergedParents(par, c)) <==> OnlyChild(par, c)
  {
    PathDistinct(par, PathOf(par, c));
    assert Link(par, PathOf(par, c), 0);
    if OnlyChild(par, c) {
      MergedTree(par, c);
    } else if Tree(MergedParents(par, c)) {
      var g :| g in par && par[g] == par[c] && g != c;
      PathDistinct(par, PathOf(par, g));
      assert Link(par, PathOf(par, g), 0);
      PathStep(MergedParents(par, c), PathOf(MergedParents(par, c), g));
    }
  }

  // ---------- renaming, removing and adding snapshots ----------

  function RenamedParents(par: Parents, x: Guid, y: Guid): Parents
    requires x in par
  {
    (map g | g in par && g != x :: Ren(x, y, par[g]))[y := Ren(x, y, par[x])]
  }

  function RenamedFiles(files: Files, x: Guid, y: Guid): Files
    requires x in files
  {
    (map g | g in files && g != x :: files[g])[y := files[x]]
  }

  function Without<V>(m: map<string, V>, x: string): map<string, V> {
    map g | g in m && g != x :: m[g]
  }

  function RenPath(x: Guid, y: Guid, p: seq<Guid>): (q: seq<Guid>)
    ensures |q| == |p| && forall k :: 0 <= k < |p| ==> q[k] == Ren(x, y, p[k])
  {
    seq(|p|, k requires 0 <= k < |p| => Ren(x, y, p[k]))
  }

  lemma RenamedPath(par: Parents, x: Guid, y: Guid, p: seq<Guid>)
    requires NONE_UUID !in par && x in par && y !in par && y != NONE_UUID && IsPath(par, p)
    ensures IsPath(RenamedParents(par, x, y), RenPath(x, y, p))
  {
    forall k: nat | k < |p| ensures Link(RenamedParents(par, x, y), RenPath(x, y, p), k) {
      assert Link(par, p, k);
    }
  }

  lemma RenamedStored(par: Parents, files: Files, vol: Volume, x: Guid, y: Guid)
    requires Stored(par, files, vol) && x in par && y !in par && y != NONE_UUID
    ensures Stored(RenamedParents(par, x, y), RenamedFiles(files, x, y), vol)
  {
    var par' := RenamedParents(par, x, y);
    forall g' | g' in par' ensures exists p :: IsPath(par', p) && p[0] == g' {
      var g := if g' == y then x else g';
      RenamedPath(par, x, y, PathOf(par, g));
    }
    assert par'.Keys == RenamedFiles(files, x, y).Keys;
  }

  lemma RenamedRead(par: Parents, files: Files, vol: Volume, x: Guid, y: Guid, g: Guid, v: nat)
    requires Stored(par, files, vol) && x in par && y !in par && y != NONE_UUID && g in par
    ensures Stored(RenamedParents(par, x, y), RenamedFiles(files, x, y), vol)
    ensures Ren(x, y, g) in RenamedParents(par, x, y)
    ensures ReadSnapshot(RenamedParents(par, x, y), RenamedFiles(files, x, y), vol, Ren(x, y, g), v)
      == ReadSnapshot(par, files, vol, g, v)
  {
    RenamedStored(par, files, vol, x, y);
    var p := PathOf(par, g);
    RenamedPath(par, x, y, p);
    PathIs(RenamedParents(par, x, y), RenPath(x, y, p));
    assert Images(RenPath(x, y, p), RenamedFiles(files, x, y), vol) == Images(p, files, vol);
  }

  /** Under its new guid a renamed snapshot reads as before; so do all others. */
  lemma RenamedReads(par: Parents, files: Files, vol: Volume, x: Guid, y: Guid)
    requires Stored(par, files, vol) && x in par && y !in par && y != NONE_UUID
    ensures ReadsAs(par, files, vol, RenamedParents(par, x, y), RenamedFiles(files, x, y), vol, x, y, NONE_UUID)
  {
    var par', files' := RenamedParents(par, x, y), RenamedFiles(files, x, y);
    RenamedStored(par, files, vol, x, y);
    forall g, v: nat | g in par
      ensures SameRead(par, files, vol, g, par', files', vol, Ren(x, y, g), v)
    {
      RenamedRead(par, files, vol, x, y, g, v);
    }
  }

  ghost predicate Leaf(par: Parents, x: Guid) {
    x in par && forall g :: g in par ==> par[g] != x
  }

  lemma LeafPath(par: Parents, x: Guid, p: seq<Guid>)
    requires NONE_UUID !in par && Leaf(par, x) && IsPath(par, p) && p[0] != x
    ensures x !in p && IsPath(Without(par, x), p)
  {
    forall k: nat | k < |p| ensures p[k] != x && Link(Without(par, x), p, k) {
      assert Link(par, p, k);
      if k > 0 { assert Link(par, p, k - 1); }
    }
  }

  /** Removing a leaf and its file changes what no other snapshot reads. */
  lemma LeafRemoved(par: Parents, files: Files, vol: Volume, x: Guid)
    requires Stored(par, files, vol) && Leaf(par, x)
    ensures ReadsAs(par, files, vol, Without(par, x), Without(files, x), Without(vol, files[x]), x, x, x)
  {
    var par', files', vol' := Without(par, x), Without(files, x), Without(vol, files[x]);
    forall g | g in par' ensures IsPath(par', PathOf(par, g)) && PathOf(par, g)[0] == g {
      LeafPath(par, x, PathOf(par, g));
    }
    assert par'.Keys == files'.Keys;
    forall g, v: nat | g in par && g != x
      ensures SameRead(par, files, vol, g, par', files', vol', g, v)
    {
      var p := PathOf(par, g);
      LeafPath(par, x, p);
      PathIs(par', p);
      assert Images(p, files', vol') == Images(p, files, vol);
    }
  }

  /** A leaf goes and its parent takes over its guid. */
  lemma LeafReplaced(par: Parents, files: Files, vol: Volume, t: Guid, x: Guid)
    requires Stored(par, files, vol) && Leaf(par, t) && x in par && x != t
    ensures ReadsAs(par, files, vol, RenamedParents(Without(par, t), x, t), RenamedFiles(Without(files, t), x, t),
      Without(vol, files[t]), x, t, t)
  {
    LeafRemoved(par, files, vol, t);
    var par1, files1, vol1 := Without(par, t), Without(files, t), Without(vol, files[t]);
    RenamedReads(par1, files1, vol1, x, t);
    var par', files' := RenamedParents(par1, x, t), RenamedFiles(files1, x, t);
    forall g, v: nat | g in par && g != t ensures SameRead(par, files, vol, g, par', files', vol1, Ren(x, t, g), v) {
      assert SameRead(par, files, vol, g, par1, files1, vol1, Ren(t, t, g), v);
      assert SameRead(par1, files1, vol1, g, par', files', vol1, Ren(x, t, g), v);
    }
  }

  /** A delta without data. */
  ghost predicate Empty(img: Img) {
    forall v: nat :: Read(img, v) == Hole || Read(img, v) == Outside
  }

  lemma AddedPath(par: Parents, y: Guid, x: Guid, p: seq<Guid>)
    requires NONE_UUID !in par && y !in par && x in par && IsPath(par, p)
    ensures IsPath(par[y := x], p)
    ensures p[0] == x ==> IsPath(par[y := x], [y] + p)
  {
    var par', q := par[y := x], [y] + p;
    forall k: nat | k < |p| ensures Link(par', p, k) {
      assert Link(par, p, k);
    }
    if p[0] == x {
      forall k: nat | k < |q| ensures Link(par', q, k) {
        if k > 0 { assert Link(par, p, k - 1); }
      }
    }
  }

  /** An empty delta on top of `x` reads what `x` reads, and changes what no other snapshot reads. */
  lemma LeafAdded(par: Parents, files: Files, vol: Volume, y: Guid, x: Guid, f: string, img: Img)
    requires Stored(par, files, vol) && x in par && y !in par && y != NONE_UUID && f !in vol && Empty(img)
    ensures ReadsAs(par, files, vol, par[y := x], files[y := f], vol[f := img], y, y, y)
    ensures ReadsLike(par, files, vol, x, par[y := x], files[y := f], vol[f := img], y)
  {
    var par', files', vol' := par[y := x], files[y := f], vol[f := img];
    forall g | g in par' ensures exists p :: IsPath(par', p) && p[0] == g {
      AddedPath(par, y, x, PathOf(par, if g == y then x else g));
      if g == y { assert IsPath(par', [y] + PathOf(par, x)); } else { assert IsPath(par', PathOf(par, g)); }
    }
    forall g, v: nat | g in par ensures SameRead(par, files, vol, g, par', files', vol', g, v) {
      var p := PathOf(par, g);
      AddedPath(par, y, x, p);
      PathIs(par', p);
      assert Images(p, files', vol') == Images(p, files, vol);
    }
    forall v: nat ensures SameRead(par, files, vol, x, par', files', vol', y, v) {
      var p := PathOf(par, x);
      AddedPath(par, y, x, p);
      PathIs(par', [y] + p);
      var imgs := Images([y] + p, files', vol');
      assert imgs[1..] == Images(p, files, vol) && imgs[0] == img;
    }
  }
}
