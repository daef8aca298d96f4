/** A tree of snapshots over a raw base: what its snapshots read, word by word, and merging into the base. */
module RawTree {
  import opened Image
  import opened Disk
  import opened Stack
  import opened MergeImage
  import opened SnapshotTree
  import opened Descriptor
  import opened SnapshotOps
  import opened MergeOffline
  import opened MergeSnapshot
  import opened RawImage
  import opened RawMerge

  /** Stands in a volume for the raw file, which is no image: it has no cluster of its own. */
  const RAW: Img := Img(Header(V1, 0, 0, 0, 0, false, 0), [])

  /** The base `x` of the tree is raw, all other snapshots are valid deltas. */
  ghost predicate Based(par: Parents, files: Files, vol: Volume, x: Guid) {
    && Stored(par, files, vol) && x in par && vol[files[x]] == RAW
    && (forall g :: g in par ==> (par[g] == NONE_UUID <==> g == x))
    && forall g :: g in par && g != x ==> Valid(vol[files[g]])
  }

  ghost predicate RawBased(d: Desc, vol: Volume, x: Guid) {
    DistinctGuids(d) && Based(ParentsOf(d), FilesOf(d), vol, x)
  }

  /** Word `q` of the device as snapshot `g` has it, with `base` in the raw file and clusters of `n` words. */
  ghost function TreeWord(d: Desc, vol: Volume, base: Content, n: nat, g: Guid, q: nat): U32
    requires WellFormed(d, vol) && n > 0 && g in ParentsOf(d)
  {
    StackWord(Images(PathOf(ParentsOf(d), g), FilesOf(d), vol), base, n, q)
  }

  ghost predicate SameWord(d: Desc, vol: Volume, base: Content, d': Desc, vol': Volume, base': Content, n: nat, g: Guid,
    q: nat)
  {
    && n > 0 && WellFormed(d, vol) && WellFormed(d', vol') && g in ParentsOf(d) && g in ParentsOf(d')
    && TreeWord(d', vol', base', n, g, q) == TreeWord(d, vol, base, n, g, q)
  }

  /** Every snapshot but `gone` is still there and has the device it had before. */
  ghost predicate WordsKept(d: Desc, vol: Volume, base: Content, d': Desc, vol': Volume, base': Content, n: nat,
    gone: Guid)
  {
    forall g, q: nat :: g in ParentsOf(d) && g != gone ==> SameWord(d, vol, base, d', vol', base', n, g, q)
  }

  /** What keeps all clusters, such as a merge of two deltas or removing a leaf, keeps all words over the same base. */
  lemma KeptWords(d: Desc, vol: Volume, d': Desc, vol': Volume, base: Content, n: nat, x: Guid)
    requires Kept(d, vol, d', vol', x, x, x) && n > 0
    ensures WordsKept(d, vol, base, d', vol', base, n, x)
  {
    forall g, q: nat | g in ParentsOf(d) && g != x ensures SameWord(d, vol, base, d', vol', base, n, g, q) {
      KeptReadOf(d, vol, d', vol', x, x, x, g, Cluster(q, n));
    }
  }

  // ---------- stacks that end at the raw file ----------

  lemma NeverBroken(a: seq<Img>, v: nat)
    requires forall j :: 0 <= j < |a| ==> Valid(a[j])
    ensures StackRead(a, v) == Hole || StackRead(a, v).Data?
  {
    if a != [] { Stack.ReadEntry(a[0], v); }
  }

  /** A stack of deltas on top of `c`, which lies on the raw file. */
  lemma OverRaw(a: seq<Img>, c: Img, v: nat)
    ensures StackRead(a + [RAW], v) == StackRead(a, v) || (StackRead(a, v) == Hole && StackRead(a + [RAW], v) == Hole)
    ensures StackRead(a + [c, RAW], v) == if StackRead(a, v) == Hole then StackRead([c], v) else StackRead(a, v)
  {
    StackConcat(a, [RAW], v);
    StackConcat(a, [c, RAW], v);
    StackConcat([c], [RAW], v);
    assert [c] + [RAW] == [c, RAW];
    assert StackRead([RAW][1..], v) == Hole;
  }

  /** The raw file took in the data of `c`. */
  lemma AbsorbedWord(a: seq<Img>, c: Img, base: Content, out: Content, n: nat, q: nat)
    requires n > 0 && (forall j :: 0 <= j < |a| ==> Valid(a[j])) && Word(out, q) == StackWord([c], base, n, q)
    ensures StackWord(a + [RAW], out, n, q) == StackWord(a + [c, RAW], base, n, q)
  {
    NeverBroken(a, Cluster(q, n));
    OverRaw(a, c, Cluster(q, n));
  }

  /** The raw file changed where `c` hides it. */
  lemma HiddenWord(a: seq<Img>, c: Img, base: Content, crashed: Content, n: nat, q: nat)
    requires n > 0 && (forall j :: 0 <= j < |a| ==> Valid(a[j]))
    requires StackWord([c], crashed, n, q) == StackWord([c], base, n, q)
    ensures StackWord(a + [c, RAW], crashed, n, q) == StackWord(a + [c, RAW], base, n, q)
  {
    NeverBroken(a, Cluster(q, n));
    OverRaw(a, c, Cluster(q, n));
  }

  lemma LastTwo(par: Parents, x: Guid, c: Guid, w: seq<Guid>) returns (p: seq<Guid>)
    requires Tree(par) && OnlyChild(par, c) && par[c] == x && IsPath(par, w) && w[0] != x
    requires forall g :: g in par ==> (par[g] == NONE_UUID <==> g == x)
    ensures w == p + [c, x] && forall j :: 0 <= j < |p| ==> w[j] == p[j] && p[j] in par && p[j] != x && p[j] != c
  {
    var k := |w| - 1;
    assert Link(par, w, k);
    ChildBefore(par, c, w, k);
    PathDistinct(par, w);
    PathInside(par, w);
    p := w[..k - 1];
    assert w == p + [c, x];
  }

  /** Every path ends with the only child of the base, and the base. */
  lemma PathToBase(par: Parents, files: Files, vol: Volume, x: Guid, c: Guid, g: Guid)
    returns (p: seq<Guid>, a: seq<Img>)
    requires Based(par, files, vol, x) && OnlyChild(par, c) && par[c] == x && g in par && g != x
    ensures IsPath(par, p + [c, x]) && PathOf(par, g) == p + [c, x] && (p + [c])[0] == g
    ensures |a| == |p| && forall j :: 0 <= j < |p| ==> p[j] in par && p[j] != x && p[j] != c
    ensures forall j :: 0 <= j < |p| ==> Valid(a[j]) && a[j] == vol[files[p[j]]]
    ensures Images(PathOf(par, g), files, vol) == a + [vol[files[c]], RAW]
  {
    p := LastTwo(par, x, c, PathOf(par, g));
    a := Images(PathOf(par, g), files, vol)[..|p|];
  }

  // ---------- merging the only child of the base into it ----------

  /** The volume after that: the child's file is gone. */
  function BaseMerged(d: Desc, vol: Volume, c: Guid): Volume
    requires c in ParentsOf(d) && ParentsOf(d)[c] in FilesOf(d) && c in FilesOf(d)
  {
    MergedVolume(ParentsOf(d), FilesOf(d), vol, c, RAW)
  }

  lemma BasedAfter(par: Parents, files: Files, vol: Volume, x: Guid, c: Guid)
    requires Based(par, files, vol, x) && OnlyChild(par, c) && c != x && par[c] == x
    ensures Based(MergedParents(par, c), MergedFiles(par, files, c), MergedVolume(par, files, vol, c, RAW), c)
  {
    MergedStored(par, files, vol, c, RAW);
    MergedKeys(par, files, c);
    forall g | g in par && g != x
      ensures MergedVolume(par, files, vol, c, RAW)[MergedFiles(par, files, c)[g]] ==
        if g == c then RAW else vol[files[g]]
    {
      MergedImage(par, files, vol, c, RAW, g);
    }
  }

  lemma MergedIntoBase(d: Desc, vol: Volume, x: Guid, c: Guid)
    requires RawBased(d, vol, x) && MergeCheck(d, c) == Ok && c in ParentsOf(d) && ParentsOf(d)[c] == x
    ensures OnlyChild(ParentsOf(d), c) && c != x && RawBased(DescMerged(d, c), BaseMerged(d, vol, c), c)
  {
    MergedTreeForm(d, c);
    BasedAfter(ParentsOf(d), FilesOf(d), vol, x, c);
  }

  /** A path that ends with the child and the base ends with the child afterwards. */
  lemma PathAfter(par: Parents, files: Files, vol: Volume, c: Guid, p: seq<Guid>, a: seq<Img>)
    requires Stored(par, files, vol) && OnlyChild(par, c) && c != par[c] && IsPath(par, p + [c, par[c]])
    requires |a| == |p| && forall j :: 0 <= j < |p| ==> p[j] in par && p[j] != par[c] && p[j] != c
    requires forall j :: 0 <= j < |p| ==> a[j] == vol[files[p[j]]]
    ensures IsPath(MergedParents(par, c), p + [c])
    ensures var files', vol' := MergedFiles(par, files, c), MergedVolume(par, files, vol, c, RAW);
      (forall g :: g in p + [c] ==> g in files' && files'[g] in vol') && Images(p + [c], files', vol') == a + [RAW]
  {
    var w, q := p + [c, par[c]], p + [c];
    SkipInside(par, c, w, |p| + 1);
    assert w[..|p| + 1] + w[|p| + 2..] == q;
    forall j | 0 <= j < |q|
      ensures q[j] in MergedFiles(par, files, c)
      ensures MergedFiles(par, files, c)[q[j]] in MergedVolume(par, files, vol, c, RAW)
      ensures MergedVolume(par, files, vol, c, RAW)[MergedFiles(par, files, c)[q[j]]] == (a + [RAW])[j]
    {
      MergedImage(par, files, vol, c, RAW, q[j]);
    }
  }

  lemma MergedWords(d: Desc, vol: Volume, base: Content, out: Content, n: nat, x: Guid, c: Guid, g: Guid, q: nat)
    requires RawBased(d, vol, x) && MergeCheck(d, c) == Ok && c in ParentsOf(d) && ParentsOf(d)[c] == x && n > 0
    requires g in ParentsOf(d) && g != x && Word(out, q) == StackWord([vol[FilesOf(d)[c]]], base, n, q)
    ensures SameWord(d, vol, base, DescMerged(d, c), BaseMerged(d, vol, c), out, n, g, q)
  {
    MergedIntoBase(d, vol, x, c);
    MergedTreeForm(d, c);
    var p, a := PathToBase(ParentsOf(d), FilesOf(d), vol, x, c, g);
    PathAfter(ParentsOf(d), FilesOf(d), vol, c, p, a);
    PathIs(ParentsOf(DescMerged(d, c)), p + [c]);
    AbsorbedWord(a, vol[FilesOf(d)[c]], base, out, n, q);
  }

  /** All other snapshots keep their devices. */
  lemma BaseMergeKeeps(d: Desc, vol: Volume, base: Content, out: Content, x: Guid, c: Guid)
    requires RawBased(d, vol, x) && MergeCheck(d, c) == Ok && c in ParentsOf(d) && ParentsOf(d)[c] == x
    requires RawDone([vol[FilesOf(d)[c]]], base, out)
    ensures RawBased(DescMerged(d, c), BaseMerged(d, vol, c), c)
    ensures var n := vol[FilesOf(d)[c]].hdr.Words();
      WordsKept(d, vol, base, DescMerged(d, c), BaseMerged(d, vol, c), out, n, x)
  {
    var n := vol[FilesOf(d)[c]].hdr.Words();
    MergedIntoBase(d, vol, x, c);
    forall g, q: nat | g in ParentsOf(d) && g != x
      ensures SameWord(d, vol, base, DescMerged(d, c), BaseMerged(d, vol, c), out, n, g, q)
    {
      MergedWords(d, vol, base, out, n, x, c, g, q);
    }
  }

  /** Whatever a crash leaves in the raw file, all snapshots but the base have their devices. */
  ghost predicate RawCrashSafe(d: Desc, vol: Volume, base: Content, n: nat, x: Guid, s: RawState) {
    forall crashed :: RawPossible(s, crashed) ==> WordsKept(d, vol, base, d, vol, crashed, n, x)
  }

  lemma BaseMergeIsCrashSafe(d: Desc, vol: Volume, base: Content, x: Guid, c: Guid, n: nat, s: RawState)
    requires RawBased(d, vol, x) && MergeCheck(d, c) == Ok && c in ParentsOf(d) && ParentsOf(d)[c] == x && n > 0
    requires RawSafe([vol[FilesOf(d)[c]]], base, n, s)
    ensures RawCrashSafe(d, vol, base, n, x, s)
  {
    MergedIntoBase(d, vol, x, c);
    forall crashed, g, q: nat | RawPossible(s, crashed) && g in ParentsOf(d) && g != x
      ensures SameWord(d, vol, base, d, vol, crashed, n, g, q)
    {
      var p, a := PathToBase(ParentsOf(d), FilesOf(d), vol, x, c, g);
      HiddenWord(a, vol[FilesOf(d)[c]], base, crashed, n, q);
    }
  }

  // ---------- the operation ----------

  /** The files of the deltas, and the raw file `base` beside them. */
  ghost function RawVol(files: map<string, File>, base: string): Volume
    reads files.Values
  {
    VolOf(files)[base := RAW]
  }

  /** Snapshot `c` lies on the raw base `x`, whose file is none of the deltas'. */
  ghost predicate OnRaw(d: Desc, vol: Volume, c: Guid, x: Guid) {
    && RawBased(d, vol, x) && c in ParentsOf(d) && ParentsOf(d)[c] == x && c != x
    && Valid(vol[FilesOf(d)[c]]) && vol[FilesOf(d)[c]].hdr.L1() > 0
  }

  /** Words of a cluster of the child. */
  function ChildWords(d: Desc, vol: Volume, c: Guid): nat {
    if c in FilesOf(d) && FilesOf(d)[c] in vol then vol[FilesOf(d)[c]].hdr.Words() else 0
  }

  /** What the merge of the images needs, and what its outcomes keep. */
  lemma PreparedRaw(d: Desc, vol: Volume, base: Content, c: Guid, x: Guid, child: string, parent: string)
    returns (kept: (Content, Volume) -> bool, safe: RawState -> bool)
    requires OnRaw(d, vol, c, x) && MergeCheck(d, c) == Ok && Names(d, c, child, parent)
    ensures child in vol && child != parent && Valid(vol[child]) && vol[child].hdr.L1() > 0
    ensures parent == FilesOf(d)[x] && child == d.images[FindImage(d.images, c)].file
    ensures forall out :: RawDone([vol[child]], base, out) ==> kept(out, Without(vol, child)[parent := RAW])
    ensures forall s :: RawSafe([vol[child]], base, vol[child].hdr.Words(), s) ==> safe(s)
    ensures forall out, vol' :: kept(out, vol') ==>
      RawBased(DescMerged(d, c), vol', c) &&
      WordsKept(d, vol, base, DescMerged(d, c), vol', out, ChildWords(d, vol, c), x)
    ensures forall s :: safe(s) ==> RawCrashSafe(d, vol, base, ChildWords(d, vol, c), x, s)
  {
    var n := ChildWords(d, vol, c);
    safe := s => RawCrashSafe(d, vol, base, n, x, s);
    kept := (out, vol') =>
      RawBased(DescMerged(d, c), vol', c) && WordsKept(d, vol, base, DescMerged(d, c), vol', out, n, x);
    Found(d, c);
    forall s | RawSafe([vol[child]], base, n, s) ensures RawCrashSafe(d, vol, base, n, x, s) {
      BaseMergeIsCrashSafe(d, vol, base, x, c, n, s);
    }
    forall out | RawDone([vol[child]], base, out) ensures kept(out, Without(vol, child)[parent := RAW]) {
      BaseMergeKeeps(d, vol, base, out, x, c);
    }
  }

  /** The images: the child's data go into the raw file, and its file goes. */
  method MergeRawFiles(files: map<string, File>, raw: RawFile, child: string, ghost parent: string,
        ghost kept: (Content, Volume) -> bool, ghost safe: RawState -> bool)
    returns (m: MergeResult, left: map<string, File>)
    requires child in files && child != parent && Quiescent(files) && raw.State() == RawState(raw.cur, raw.cur, [])
    requires Valid(files[child].cur) && files[child].cur.hdr.L1() > 0
    requires forall out :: RawDone([files[child].cur], raw.cur, out) ==>
      kept(out, Without(RawVol(files, parent), child)[parent := RAW])
    requires forall s :: RawSafe([files[child].cur], raw.cur, files[child].cur.hdr.Words(), s) ==> safe(s)
    modifies raw
    ensures m == MergeResult.Merged <==> !files[child].cur.hdr.inUse
    ensures m != MergeResult.Merged ==> raw.cur == old(raw.cur) && left == files
    ensures m == MergeResult.Merged ==> left.Keys == files.Keys - {child}
    ensures m == MergeResult.Merged ==> kept(raw.cur, RawVol(left, parent))
    ensures m == MergeResult.Merged ==> raw.State() == RawState(raw.cur, raw.cur, [])
    ensures forall f :: f in left ==> f in files && left[f] == files[f]
    ensures old(raw.trace) <= raw.trace && forall k :: |old(raw.trace)| <= k < |raw.trace| ==> safe(raw.trace[k])
  {
    left := files;
    m := MergeIntoRaw([files[child].cur], raw);
    if m == MergeResult.Merged {
      left := map f | f in files && f != child :: files[f];
      assert RawVol(left, parent) == Without(RawVol(files, parent), child)[parent := RAW];
    }
  }

  /** First the descriptor's entries, then the images. */
  method MergeRawPrepared(dd: DiskDescriptor, files: map<string, File>, raw: RawFile, guid: Guid, child: string,
        ghost parent: string, ghost kept: (Content, Volume) -> bool, ghost safe: RawState -> bool)
    returns (r: Code, left: map<string, File>)
    requires MergeCheck(dd.State(), guid) == Ok && child == dd.images[FindImage(dd.images, guid)].file
    requires child in files && child != parent && Quiescent(files) && raw.State() == RawState(raw.cur, raw.cur, [])
    requires Valid(files[child].cur) && files[child].cur.hdr.L1() > 0
    requires forall out :: RawDone([files[child].cur], raw.cur, out) ==>
      kept(out, Without(RawVol(files, parent), child)[parent := RAW])
    requires forall s :: RawSafe([files[child].cur], raw.cur, files[child].cur.hdr.Words(), s) ==> safe(s)
    modifies dd, raw
    ensures dd.State() == DescMerged(old(dd.State()), guid)
    ensures r == Ok <==> !files[child].cur.hdr.inUse
    ensures r == Ok ==> kept(raw.cur, RawVol(left, parent)) && raw.State() == RawState(raw.cur, raw.cur, [])
    ensures r == Ok ==> left.Keys == files.Keys - {child}
    ensures r != Ok ==> raw.cur == old(raw.cur) && left == files
    ensures old(raw.trace) <= raw.trace && forall k :: |old(raw.trace)| <= k < |raw.trace| ==> safe(raw.trace[k])
  {
    var fname, m;
    r, fname := dd.MergeImage(guid);
    m, left := MergeRawFiles(files, raw, fname, parent, kept, safe);
    if m != MergeResult.Merged { r := MergeFailed; }
  }

  /** `ploop_merge_snapshot_by_guid` in raw mode, offline, for the snapshot on the base. On success every snapshot but
      the absorbed base has word for word the device it had; a crash on the way changes the device of none. */
  method MergeSnapshotIntoRaw(dd: DiskDescriptor, files: map<string, File>, raw: RawFile, guid: Guid, mounted: Code,
        ghost x: Guid, ghost base: string)
    returns (r: Code, left: map<string, File>)
    requires Quiescent(files) && raw.State() == RawState(raw.cur, raw.cur, []) && TreeForm(dd.State())
    requires base !in files && x in FilesOf(dd.State()) && base == FilesOf(dd.State())[x]
    requires OnRaw(dd.State(), RawVol(files, base), guid, x)
    modifies dd, raw
    ensures r == Ok <==>
      old(MergeCheck(dd.State(), guid) == Ok && !DeltaInUse(dd.State(), RawVol(files, base), guid)) && mounted == Ok
    ensures old(MergeCheck(dd.State(), guid)) != Ok || mounted != Ok ==> unchanged(dd)
    ensures r != Ok ==> raw.cur == old(raw.cur) && left == files
    ensures r == Ok ==> left.Keys == files.Keys - {old(FilesOf(dd.State())[guid])}
    ensures r == Ok ==>
      dd.State() == DescMerged(old(dd.State()), guid) && RawBased(dd.State(), RawVol(left, base), guid)
    ensures r == Ok ==> WordsKept(old(dd.State()), old(RawVol(files, base)), old(raw.cur), dd.State(),
      RawVol(left, base), raw.cur, old(ChildWords(dd.State(), RawVol(files, base), guid)), x)
    ensures old(raw.trace) <= raw.trace && forall k :: |old(raw.trace)| <= k < |raw.trace| ==>
      RawCrashSafe(old(dd.State()), old(RawVol(files, base)), old(raw.cur),
        old(ChildWords(dd.State(), RawVol(files, base), guid)), x, raw.trace[k])
  {
    left := files;
    var child, parent;
    r, child, parent := Resolve(dd, guid);
    if r != Ok { return; }
    if mounted != Ok { return mounted, files; }
    ghost var kept, safe := PreparedRaw(dd.State(), RawVol(files, base), raw.cur, guid, x, child, parent);
    r, left := MergeRawPrepared(dd, files, raw, guid, child, parent, kept, safe);
  }
}
