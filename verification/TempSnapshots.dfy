/** Deleting a snapshot, and removing all temporary snapshots that are not in use. */
module TempSnapshots {
  import opened Image
  import opened Disk
  import opened Merge
  import opened MergeOffline
  import opened SnapshotTree
  import opened Tables
  import opened Descriptor
  import opened SnapshotOps
  import opened SnapshotEdits
  import opened MergeSnapshot
  import opened DeltaTree
  import opened OfflineSnapshots

  datatype Running = Unknown | Yes | No

  /** What the surroundings answer: whether the device runs, which snapshots are in use, what the mount check
      says, and how merging the images of a snapshot and its parent ends. */
  datatype Env = Env(running: Running, inUse: Guid -> bool, mounted: Guid -> Code, mergeImages: (Desc, Guid) -> Code)

  /** The temporary flag of snapshot `g`. */
  predicate Temporary(d: Desc, g: Guid) {
    FindSnap(d.snaps, g) != -1 && d.snaps[FindSnap(d.snaps, g)].temporary
  }

  /** Snapshot `g` has the children `a` and `b`, neither of them temporary. */
  ghost predicate Fork(d: Desc, g: Guid, a: Guid, b: Guid) {
    && g in ParentsOf(d) && a in ParentsOf(d) && b in ParentsOf(d) && a != b
    && ParentsOf(d)[a] == g && ParentsOf(d)[b] == g && !Temporary(d, a) && !Temporary(d, b)
  }

  /** Snapshots only went: those that stay keep their flags, those that are gone were temporary, and none of them had
      two children that are not. */
  ghost predicate Shrunk(d: Desc, d': Desc) {
    && TreeForm(d) && TreeForm(d') && d'.top == d.top && |d'.snaps| <= |d.snaps|
    && ParentsOf(d').Keys <= ParentsOf(d).Keys
    && (forall g :: g in ParentsOf(d') ==> (Temporary(d', g) <==> Temporary(d, g)))
    && (forall g :: g in ParentsOf(d) && g !in ParentsOf(d') ==> Temporary(d, g))
    && (forall g, a, b :: Fork(d, g, a, b) ==> Fork(d', g, a, b))
  }

  /** The top is a known snapshot and not temporary. */
  predicate TopPlain(d: Desc) {
    FindSnap(d.snaps, d.top) != -1 && !Temporary(d, d.top)
  }

  lemma ShrunkTwice(a: Desc, b: Desc, c: Desc)
    requires Shrunk(a, b) && Shrunk(b, c)
    ensures Shrunk(a, c)
  {
  }

  lemma ShrunkTop(a: Desc, b: Desc)
    requires Shrunk(a, b) && TopPlain(a)
    ensures TopPlain(b)
  {
    Found(a, a.top);
    Found(b, a.top);
  }

  lemma FlagAtIndex(d: Desc, i: nat)
    requires DistinctGuids(d) && i < |d.snaps|
    ensures FindSnap(d.snaps, d.snaps[i].guid) == i && (Temporary(d, d.snaps[i].guid) <==> d.snaps[i].temporary)
  {
    var j := FindSnap(d.snaps, d.snaps[i].guid);
    assert j != -1;
    assert SnapRows(d.snaps)[i].key == SnapRows(d.snaps)[j].key;
  }

  lemma AbsorbedEntry(d: Desc, c: Guid, j: nat)
    requires MergeCheck(d, c) == Ok && j < |Absorbed(d, c).snaps|
    ensures var s := FindSnap(d.snaps, c); var i := if j < s then j else j + 1;
      i < |d.snaps| && i != s && Absorbed(d, c).snaps[j] == AbsorbSnap(d.snaps[i], d.snaps[s], c)
  {
  }

  lemma AbsorbedFlag(d: Desc, c: Guid, j: nat)
    requires DistinctGuids(d) && MergeCheck(d, c) == Ok && j < |Absorbed(d, c).snaps|
    ensures var e := Absorbed(d, c).snaps[j]; Temporary(d, e.guid) <==> e.temporary
  {
    var s := FindSnap(d.snaps, c);
    AbsorbedEntry(d, c, j);
    FlagAtIndex(d, if j < s then j else j + 1);
    FlagAtIndex(d, s);
  }

  lemma MergedFlag(d: Desc, c: Guid, g: Guid)
    requires TreeForm(d) && MergeCheck(d, c) == Ok && g in ParentsOf(DescMerged(d, c))
    ensures Temporary(DescMerged(d, c), g) <==> Temporary(d, g)
  {
    SameEntries(d, c);
    MergedTreeForm(d, c);
    Found(DescMerged(d, c), g);
    AbsorbedFlag(d, c, FindSnap(Absorbed(d, c).snaps, g));
  }

  /** Merging child `c` into a temporary parent. */
  lemma MergeShrinks(d: Desc, c: Guid)
    requires TreeForm(d) && MergeCheck(d, c) == Ok && c in ParentsOf(d) && Temporary(d, ParentsOf(d)[c]) && TopPlain(d)
    ensures Shrunk(d, DescMerged(d, c)) && |DescMerged(d, c).snaps| == |d.snaps| - 1
  {
    MergedTreeForm(d, c);
    Found(d, c);
    forall g | g in ParentsOf(DescMerged(d, c)) ensures Temporary(DescMerged(d, c), g) <==> Temporary(d, g) {
      MergedFlag(d, c, g);
    }
    SameEntries(d, c);
    forall g, a, b | Fork(d, g, a, b) ensures Fork(DescMerged(d, c), g, a, b) { MergeKeepsFork(d, c, g, a, b); }
  }

  /** The absorbed parent is neither the fork, which has two children, nor one of the two, which are not temporary. */
  lemma MergeKeepsFork(d: Desc, c: Guid, g: Guid, a: Guid, b: Guid)
    requires TreeForm(d) && MergeCheck(d, c) == Ok && c in ParentsOf(d) && Temporary(d, ParentsOf(d)[c])
    requires Fork(d, g, a, b)
    ensures Fork(DescMerged(d, c), g, a, b)
  {
    MergedTreeForm(d, c);
    assert g != ParentsOf(d)[c] && a != ParentsOf(d)[c] && b != ParentsOf(d)[c];
    MergedFlag(d, c, a);
    MergedFlag(d, c, b);
  }

  lemma RemovedFlag(d: Desc, x: Guid, h: Guid)
    requires TreeForm(d) && RemoveCheck(d, x) == Ok && x != d.top && h in ParentsOf(Removed(d, x, true))
    ensures h in ParentsOf(d) && (Temporary(Removed(d, x, true), h) <==> Temporary(d, h))
  {
    var d', s := Removed(d, x, true), FindSnap(d.snaps, x);
    RemovedRows(d, x);
    Found(d', h);
    var j := FindSnap(d'.snaps, h);
    var i := if j < s then j else j + 1;
    assert d'.snaps[j] == d.snaps[i];
    FlagAtIndex(d, i);
    Found(d, h);
  }

  lemma RemovedTree(par: Parents, files: Files, x: Guid)
    requires Tree(par) && Leaf(par, x) && par.Keys == files.Keys
    ensures Tree(Without(par, x)) && Without(par, x).Keys == Without(files, x).Keys == par.Keys - {x}
  {
    var par' := Without(par, x);
    forall g | g in par' ensures IsPath(par', PathOf(par, g)) && PathOf(par, g)[0] == g {
      LeafPath(par, x, PathOf(par, g));
    }
  }

  /** Removing a temporary leaf. */
  lemma RemoveShrinks(d: Desc, x: Guid)
    requires TreeForm(d) && RemoveCheck(d, x) == Ok && Temporary(d, x) && TopPlain(d)
    ensures Shrunk(d, Removed(d, x, true)) && |Removed(d, x, true).snaps| == |d.snaps| - 1
  {
    RemoveAccepted(d, x);
    RemovedRows(d, x);
    RemovedTree(ParentsOf(d), FilesOf(d), x);
    forall h | h in ParentsOf(Removed(d, x, true)) ensures Temporary(Removed(d, x, true), h) <==> Temporary(d, h) {
      RemovedFlag(d, x, h);
    }
    forall g, a, b | Fork(d, g, a, b) ensures Fork(Removed(d, x, true), g, a, b) { RemoveKeepsFork(d, x, g, a, b); }
  }

  lemma RemoveKeepsFork(d: Desc, x: Guid, g: Guid, a: Guid, b: Guid)
    requires TreeForm(d) && RemoveCheck(d, x) == Ok && Temporary(d, x) && x != d.top && Fork(d, g, a, b)
    ensures Fork(Removed(d, x, true), g, a, b)
  {
    RemoveAccepted(d, x);
    RemovedRows(d, x);
    RemovedFlag(d, x, a);
    RemovedFlag(d, x, b);
  }

  // ---------- deleting one snapshot ----------

  /** What is promised of the image files when a step succeeds while the device does not run. */
  ghost predicate Done(lim: Limits, d: Desc, vol: Volume, d': Desc, left: map<string, File>)
    reads left.Values
  {
    Quiescent(left) && Passed(lim, d, vol, d', VolOf(left))
  }

  /** The parent of `g`; `g` itself if it is not known. */
  function Above(d: Desc, g: Guid): Guid { if g in ParentsOf(d) then ParentsOf(d)[g] else g }

  /** What was recorded of each file. */
  ghost function Recorded(files: map<string, File>): map<string, seq<Snap>>
    reads files.Values
  {
    map f | f in files :: files[f].trace
  }

  /** State `s` of file `f` comes from absorbing snapshot `x`, whose file it is: whatever a crash then leaves of it,
      all other snapshots read as before. */
  ghost predicate Absorbing(d: Desc, vol: Volume, x: Guid, f: string, s: Snap) {
    x in FilesOf(d) && FilesOf(d)[x] == f && CrashSafe(d, vol, x, s)
  }

  /** Everything recorded since `was` comes from absorbing snapshot `x`. */
  ghost predicate OnlyAbsorbing(d: Desc, vol: Volume, x: Guid, now: map<string, seq<Snap>>,
    was: map<string, seq<Snap>>)
  {
    && (forall f :: f in now ==> f in was && was[f] <= now[f])
    && forall f, k :: f in now && |was[f]| <= k < |now[f]| ==> Absorbing(d, vol, x, f, now[f][k])
  }

  /** The image files, `vol'` if nothing is pending, after deleting `guid` while the device does not run, unless it
      was the top; and what was recorded of them meanwhile. */
  ghost predicate FilesAfter(lim: Limits, d: Desc, vol: Volume, d': Desc, guid: Guid, r: Code, quiet: bool,
    vol': Volume, now: map<string, seq<Snap>>, was: map<string, seq<Snap>>)
  {
    && (r == Ok && guid != d.top ==> quiet && Passed(lim, d, vol, d', vol'))
    && OnlyAbsorbing(d, vol, guid, now, was)
  }

  predicate Within(left: map<string, File>, files: map<string, File>) {
    forall f :: f in left ==> f in files && left[f] == files[f]
  }

  /** Neither the delta of `c` nor the one below it is in use. */
  predicate Idle(d: Desc, vol: Volume, c: Guid) {
    !DeltaInUse(d, vol, c) && !DeltaInUse(d, vol, Above(d, c))
  }

  /** Merging `c` into its parent succeeds. */
  predicate MergeAllowed(d: Desc, vol: Volume, c: Guid, env: Env) {
    && MergeCheck(d, c) == Ok && env.mounted(Above(d, c)) == Ok && env.mounted(c) == Ok
    && match env.running
       case Unknown => false
       case Yes => env.mergeImages(DescMerged(d, c), c) == Ok
       case No => Idle(d, vol, c)
  }

  /** What merging `c` does to the descriptor and to the names of the files. */
  ghost predicate MergeEffect(d: Desc, vol: Volume, c: Guid, env: Env, r: Code, d': Desc, names: set<string>,
    names': set<string>)
  {
    && (r == Ok <==> MergeAllowed(d, vol, c, env))
    && (r == Ok ==> c in FilesOf(d) && d' == DescMerged(d, c) && names' == names - {FilesOf(d)[c]})
    && (r != Ok ==> names' == names && (d' == d || (MergeCheck(d, c) == Ok && d' == DescMerged(d, c))))
  }

  /** What merging images offline needs and keeps. */
  lemma PreparedOffline(d: Desc, vol: Volume, lim: Limits, c: Guid, child: string, parent: string)
    returns (kept: Volume -> bool, safe: Snap -> bool)
    requires Healthy(d, vol, lim) && MergeCheck(d, c) == Ok && Names(d, c, child, parent)
    ensures child in vol && parent in vol && child != parent && CanMerge([vol[child]], vol[parent])
    ensures child == d.images[FindImage(d.images, c)].file
    ensures !vol[child].hdr.inUse && !vol[parent].hdr.inUse <==> Idle(d, vol, c)
    ensures forall s :: MergeSafe([vol[child]], vol[parent], s) ==> safe(s)
    ensures forall out :: MergeDone([vol[child]], vol[parent], out) ==> kept(Without(vol, child)[parent := out])
    ensures forall vol' :: kept(vol') ==> Passed(lim, d, vol, DescMerged(d, c), vol')
    ensures forall s :: safe(s) ==> Absorbing(d, vol, Above(d, c), parent, s)
  {
    safe := s => Absorbing(d, vol, Above(d, c), parent, s);
    kept := vol' => Passed(lim, d, vol, DescMerged(d, c), vol');
    CanMergeHealthy(d, vol, lim, c);
    MergedTreeForm(d, c);
    forall s | MergeSafe([vol[child]], vol[parent], s) ensures Absorbing(d, vol, Above(d, c), parent, s) {
      MergeIsCrashSafe(d, vol, c, s);
    }
    forall out | MergeDone([vol[child]], vol[parent], out)
      ensures Passed(lim, d, vol, DescMerged(d, c), Without(vol, child)[parent := out])
    {
      MergePassed(d, vol, lim, c, out);
    }
  }

  /** Since `was` only file `parent` was written, and every state recorded of it is one that is `safe`. */
  ghost predicate OnlyIn(files: map<string, File>, was: map<string, seq<Snap>>, parent: string, safe: Snap -> bool)
    reads files.Values
  {
    && was.Keys == files.Keys && parent in files && was[parent] <= files[parent].trace
    && (forall f :: f in files && f != parent ==> files[f].trace == was[f])
    && forall k :: |was[parent]| <= k < |files[parent].trace| ==> safe(files[parent].trace[k])
  }

  /** The merge of entries and images, with what is recorded of all files. */
  method MergeRecorded(dd: DiskDescriptor, files: map<string, File>, guid: Guid, child: string, parent: string,
        ghost kept: Volume -> bool, ghost safe: Snap -> bool)
    returns (r: Code, left: map<string, File>)
    requires MergeCheck(dd.State(), guid) == Ok && child == dd.images[FindImage(dd.images, guid)].file
    requires child in files && parent in files && child != parent && Quiescent(files)
    requires CanMerge([files[child].cur], files[parent].cur)
    requires forall out :: MergeDone([files[child].cur], files[parent].cur, out) ==>
      kept(Without(VolOf(files), child)[parent := out])
    requires forall s :: MergeSafe([files[child].cur], files[parent].cur, s) ==> safe(s)
    modifies dd, files[parent]
    ensures dd.State() == DescMerged(old(dd.State()), guid) && Within(left, files)
    ensures r == Ok <==> !old(files[child].cur.hdr.inUse) && !old(files[parent].cur.hdr.inUse)
    ensures left.Keys == if r == Ok then files.Keys - {child} else files.Keys
    ensures r == Ok ==> kept(VolOf(left)) && Quiescent(left)
    ensures OnlyIn(files, old(Recorded(files)), parent, safe)
  {
    r, left := MergePrepared(dd, files, guid, child, parent, kept, safe);
  }

  /** The merge itself while the device does not run. */
  method MergeStopped(dd: DiskDescriptor, files: map<string, File>, guid: Guid, child: string, parent: string,
        ghost lim: Limits)
    returns (r: Code, left: map<string, File>)
    requires Quiescent(files) && Healthy(dd.State(), VolOf(files), lim)
    requires MergeCheck(dd.State(), guid) == Ok && Names(dd.State(), guid, child, parent)
    modifies dd, files.Values
    ensures dd.State() == DescMerged(old(dd.State()), guid) && Within(left, files)
    ensures r == Ok <==> Idle(old(dd.State()), old(VolOf(files)), guid)
    ensures left.Keys == if r == Ok then files.Keys - {child} else files.Keys
    ensures r == Ok ==> Done(lim, old(dd.State()), old(VolOf(files)), dd.State(), left)
    ensures OnlyAbsorbing(old(dd.State()), old(VolOf(files)), Above(old(dd.State()), guid), Recorded(files),
      old(Recorded(files)))
  {
    ghost var d, vol, was := dd.State(), VolOf(files), Recorded(files);
    ghost var kept, safe := PreparedOffline(d, vol, lim, guid, child, parent);
    r, left := MergeRecorded(dd, files, guid, child, parent, kept, safe);
    OneAbsorbing(d, vol, Above(d, guid), files, was, parent, safe);
  }

  lemma OneAbsorbing(d: Desc, vol: Volume, x: Guid, files: map<string, File>, was: map<string, seq<Snap>>,
        parent: string, safe: Snap -> bool)
    requires OnlyIn(files, was, parent, safe) && forall s :: safe(s) ==> Absorbing(d, vol, x, parent, s)
    ensures OnlyAbsorbing(d, vol, x, Recorded(files), was)
  {
  }

  lemma AboveIsParent(d: Desc, c: Guid)
    requires TreeForm(d) && MergeCheck(d, c) == Ok
    ensures Above(d, c) == d.snaps[FindSnap(d.snaps, c)].parent && c in FilesOf(d)
    ensures FilesOf(d)[c] == d.images[FindImage(d.images, c)].file
  {
    Found(d, c);
  }

  /** `ploop_merge_snapshot_by_guid`. While the device runs, merging the images is up to the kernel. */
  method MergeByGuid(dd: DiskDescriptor, files: map<string, File>, guid: Guid, env: Env, ghost lim: Limits)
    returns (r: Code, left: map<string, File>)
    requires TreeForm(dd.State())
    requires env.running == No ==> Quiescent(files) && Healthy(dd.State(), VolOf(files), lim)
    modifies dd, files.Values
    ensures MergeEffect(old(dd.State()), old(VolOf(files)), guid, env, r, dd.State(), files.Keys, left.Keys)
    ensures Within(left, files)
    ensures (env.running == No && r == Ok ==> Done(lim, old(dd.State()), old(VolOf(files)), dd.State(), left))
    ensures env.running == No ==>
      OnlyAbsorbing(old(dd.State()), old(VolOf(files)), Above(old(dd.State()), guid), Recorded(files),
      old(Recorded(files)))
  {
    left := files;
    var child, parent;
    r, child, parent := Resolve(dd, guid);
    if r != Ok { return; }
    if env.running == Unknown { return Sys, files; }
    AboveIsParent(dd.State(), guid);
    var parentGuid := dd.snapshots[FindSnap(dd.snapshots, guid)].parent;
    if env.mounted(parentGuid) != Ok { return env.mounted(parentGuid), files; }
    if env.mounted(guid) != Ok { return env.mounted(guid), files; }
    if env.running == No {
      r, left := MergeStopped(dd, files, guid, child, parent, lim);
    } else {
      r, left := MergeRunning(dd, files, guid, env);
    }
  }

  method MergeRunning(dd: DiskDescriptor, files: map<string, File>, guid: Guid, env: Env)
    returns (r: Code, left: map<string, File>)
    requires TreeForm(dd.State()) && MergeCheck(dd.State(), guid) == Ok
    modifies dd
    ensures dd.State() == DescMerged(old(dd.State()), guid) && r == env.mergeImages(dd.State(), guid)
    ensures guid in FilesOf(old(dd.State())) && Within(left, files)
    ensures left.Keys == if r == Ok then files.Keys - {FilesOf(old(dd.State()))[guid]} else files.Keys
  {
    AboveIsParent(dd.State(), guid);
    var fname;
    r, fname := dd.MergeImage(guid);
    r := env.mergeImages(Desc(dd.images, dd.snapshots, dd.topGuid), guid);
    left := if r == Ok then Drop(files, fname) else files;
  }

  /** Removing leaf `g` succeeds. */
  predicate LeafAllowed(d: Desc, g: Guid, env: Env) {
    && RemoveCheck(d, g) == Ok && env.mounted(g) == Ok
    && var x := d.snaps[FindSnap(d.snaps, g)].parent; g == d.top ==> FindSnap(d.snaps, x) != -1 && !Temporary(d, x)
  }

  /** Deleting snapshot `g` succeeds. */
  ghost predicate DeleteAllowed(d: Desc, vol: Volume, g: Guid, env: Env) {
    && g in ParentsOf(d) && env.running != Unknown && !(env.running == Yes && d.top == g)
    && if ChildCount(d.snaps, g) == 0 then LeafAllowed(d, g, env)
       else if ChildCount(d.snaps, g) == 1 then
         forall c :: c in ParentsOf(d) && ParentsOf(d)[c] == g ==> MergeAllowed(d, vol, c, env)
       else !Temporary(d, g) || env.running == Yes
  }

  ghost predicate LeafGoes(d: Desc, g: Guid, d': Desc, names: set<string>, names': set<string>) {
    && RemoveCheck(d, g) == Ok && g in FilesOf(d) && d' == Removed(d, g, true) && names' == names - {FilesOf(d)[g]}
    && (g != d.top ==> ParentsOf(d').Keys == ParentsOf(d).Keys - {g})
  }

  ghost predicate ChildTakesPlace(d: Desc, g: Guid, c: Guid, d': Desc, names: set<string>, names': set<string>) {
    && MergeCheck(d, c) == Ok && c in ParentsOf(d) && ParentsOf(d)[c] == g && c in FilesOf(d) && d' == DescMerged(d, c)
    && names' == names - {FilesOf(d)[c]} && ParentsOf(d').Keys == ParentsOf(d).Keys - {g}
  }

  /** What deleting `g` comes to, whether it was temporary or not: a leaf goes with its file, an only child takes the
      place of `g` and its file goes, and with more children all files stay. */
  ghost predicate Effect(d: Desc, vol: Volume, g: Guid, env: Env, r: Code, d': Desc, names: set<string>,
    names': set<string>)
  {
    && (r == Ok <==> DeleteAllowed(d, vol, g, env))
    && (r == Ok && ChildCount(d.snaps, g) == 0 ==> LeafGoes(d, g, d', names, names'))
    && (r == Ok && ChildCount(d.snaps, g) == 1 ==> exists c :: ChildTakesPlace(d, g, c, d', names, names'))
    && (r != Ok || ChildCount(d.snaps, g) >= 2 ==> names' == names)
    && (r != Ok ==> d' == d || (ChildCount(d.snaps, g) == 1 && exists c :: BeganMerging(d, g, c, d')))
  }

  /** The descriptor in memory after the merge of `c` into `g` failed at the images. */
  ghost predicate BeganMerging(d: Desc, g: Guid, c: Guid, d': Desc) {
    MergeCheck(d, c) == Ok && c in ParentsOf(d) && ParentsOf(d)[c] == g && d' == DescMerged(d, c)
  }

  lemma LeafEffect(d: Desc, vol: Volume, g: Guid, env: Env, r: Code, d': Desc, names: set<string>, names': set<string>)
    requires TreeForm(d) && env.running != Unknown && !(env.running == Yes && d.top == g)
    requires g in ParentsOf(d) && ChildCount(d.snaps, g) == 0 && (r == Ok <==> LeafAllowed(d, g, env))
    requires r == Ok ==> d' == Removed(d, g, true) && names' == names - {d.images[FindImage(d.images, g)].file}
    requires r != Ok ==> names' == names && d' == d
    ensures Effect(d, vol, g, env, r, d', names, names')
  {
    if r == Ok {
      Found(d, g);
      if g != d.top { RemovedRows(d, g); }
    }
  }

  lemma ChildEffect(d: Desc, vol: Volume, g: Guid, c: Guid, env: Env, r: Code, d': Desc, names: set<string>,
        names': set<string>)
    requires TreeForm(d) && env.running != Unknown && !(env.running == Yes && d.top == g)
    requires g in ParentsOf(d) && ChildCount(d.snaps, g) == 1
    requires exists i :: 0 <= i < |d.snaps| && d.snaps[i].guid == c && d.snaps[i].parent == g
    requires MergeEffect(d, vol, c, env, r, d', names, names')
    ensures Effect(d, vol, g, env, r, d', names, names')
  {
    var i :| 0 <= i < |d.snaps| && d.snaps[i].guid == c && d.snaps[i].parent == g;
    MapAt(SnapRows(d.snaps), i);
    CountsChildren(d, c);
    MergeAccepted(d, c);
    MergedTreeForm(d, c);
    if r == Ok { assert ChildTakesPlace(d, g, c, d', names, names'); }
    if d' != d { assert BeganMerging(d, g, c, d'); }
  }

  lemma ForkEffect(d: Desc, vol: Volume, g: Guid, env: Env, r: Code, d': Desc, names: set<string>)
    requires g in ParentsOf(d) && env.running != Unknown && !(env.running == Yes && d.top == g)
    requires ChildCount(d.snaps, g) >= 2 && (r == Ok <==> !Temporary(d, g) || env.running == Yes)
    requires r != Ok ==> d' == d
    ensures Effect(d, vol, g, env, r, d', names, names)
  {
  }

  lemma NoEffect(d: Desc, vol: Volume, g: Guid, env: Env, r: Code, names: set<string>)
    requires DistinctGuids(d) && r != Ok
    requires FindSnap(d.snaps, g) == -1 || env.running == Unknown || (env.running == Yes && d.top == g)
    ensures Effect(d, vol, g, env, r, d, names, names)
  {
    Found(d, g);
  }

  /** The checks before a leaf is removed, and its entries. */
  method DeleteEntries(dd: DiskDescriptor, guid: Guid, snapId: nat, env: Env) returns (r: Code, fname: string)
    requires snapId == FindSnap(dd.snapshots, guid)
    modifies dd
    ensures r == Ok <==> LeafAllowed(old(dd.State()), guid, env)
    ensures r != Ok ==> unchanged(dd)
    ensures r == Ok ==> dd.State() == Removed(old(dd.State()), guid, true)
    ensures r == Ok ==> fname == old(dd.images)[FindImage(old(dd.images), guid)].file
  {
    fname := "";
    if dd.snapshots[snapId].parent == NONE_UUID { return Param, fname; }
    if dd.topGuid == guid {
      var id := dd.FindSnapshotByGuid(dd.snapshots[snapId].parent);
      if id == -1 { return Param, fname; }
      if dd.snapshots[id].temporary { return Param, fname; }
    }
    var im := dd.FindImageIdxByGuid(guid);
    if im == -1 { return Param, fname; }
    if env.mounted(guid) != Ok { return env.mounted(guid), fname; }
    r, fname := dd.RemoveImage(guid, true);
  }

  lemma LeafFile(d: Desc, vol: Volume, lim: Limits, g: Guid)
    requires RemoveCheck(d, g) == Ok && g != d.top && Healthy(d, vol, lim)
    ensures Passed(lim, d, vol, Removed(d, g, true), Without(vol, d.images[FindImage(d.images, g)].file))
  {
    RemovedIs(d, g);
    RemovePassed(d, vol, lim, g);
  }

  function Drop(files: map<string, File>, fname: string): map<string, File> {
    map f | f in files && f != fname :: files[f]
  }

  lemma Dropped(files: map<string, File>, fname: string)
    ensures VolOf(Drop(files, fname)) == Without(VolOf(files), fname)
    ensures Quiescent(files) ==> Quiescent(Drop(files, fname))
  {
  }

  /** The entries of a leaf go, and its image file. */
  method RemoveLeaf(dd: DiskDescriptor, files: map<string, File>, guid: Guid, snapId: nat, env: Env)
    returns (r: Code, left: map<string, File>)
    requires snapId == FindSnap(dd.snapshots, guid)
    modifies dd
    ensures r == Ok <==> LeafAllowed(old(dd.State()), guid, env)
    ensures r != Ok ==> unchanged(dd) && left == files
    ensures r == Ok ==> dd.State() == Removed(old(dd.State()), guid, true)
    ensures r == Ok ==> left == Drop(files, old(dd.images)[FindImage(old(dd.images), guid)].file)
  {
    var fname;
    r, fname := DeleteEntries(dd, guid, snapId, env);
    left := if r == Ok then Drop(files, fname) else files;
  }

  /** A leaf goes, and its image file with it. */
  method DeleteLeaf(dd: DiskDescriptor, files: map<string, File>, guid: Guid, snapId: nat, env: Env, ghost lim: Limits)
    returns (r: Code, left: map<string, File>)
    requires snapId == FindSnap(dd.snapshots, guid)
    requires env.running == No ==> Quiescent(files) && Healthy(dd.State(), VolOf(files), lim)
    modifies dd
    ensures r == Ok <==> LeafAllowed(old(dd.State()), guid, env)
    ensures r != Ok ==> unchanged(dd) && left == files
    ensures r == Ok ==> dd.State() == Removed(old(dd.State()), guid, true)
    ensures r == Ok ==> left.Keys == files.Keys - {old(dd.images)[FindImage(old(dd.images), guid)].file}
    ensures Within(left, files)
    ensures env.running == No ==>
      FilesAfter(lim, old(dd.State()), old(VolOf(files)), dd.State(), guid, r, Quiescent(left), VolOf(left),
        Recorded(files), old(Recorded(files)))
  {
    ghost var d, vol, was := dd.State(), VolOf(files), Recorded(files);
    r, left := RemoveLeaf(dd, files, guid, snapId, env);
    assert VolOf(files) == vol && Recorded(files) == was;
    if r == Ok { Dropped(files, d.images[FindImage(d.images, guid)].file); }
    if env.running == No { LeafAfter(lim, d, vol, dd.State(), guid, r, Quiescent(left), VolOf(left), was); }
  }

  lemma LeafAfter(lim: Limits, d: Desc, vol: Volume, d': Desc, guid: Guid, r: Code, quiet: bool, vol': Volume,
        was: map<string, seq<Snap>>)
    requires Healthy(d, vol, lim) && (r == Ok ==> RemoveCheck(d, guid) == Ok && d' == Removed(d, guid, true) && quiet)
    requires r == Ok ==> vol' == Without(vol, d.images[FindImage(d.images, guid)].file)
    ensures FilesAfter(lim, d, vol, d', guid, r, quiet, vol', was, was)
  {
    if r == Ok && guid != d.top { LeafFile(d, vol, lim, guid); }
  }

  /** Exactly one child: it is merged into the snapshot, whose guid goes. */
  method DeleteOnlyChild(dd: DiskDescriptor, files: map<string, File>, guid: Guid, env: Env, ghost lim: Limits)
    returns (r: Code, ghost child: Guid, left: map<string, File>)
    requires TreeForm(dd.State()) && ChildCount(dd.snapshots, guid) == 1
    requires env.running == No ==> Quiescent(files) && Healthy(dd.State(), VolOf(files), lim)
    modifies dd, files.Values
    ensures exists i ::
      0 <= i < |old(dd.snapshots)| && old(dd.snapshots)[i].guid == child && old(dd.snapshots)[i].parent == guid
    ensures MergeEffect(old(dd.State()), old(VolOf(files)), child, env, r, dd.State(), files.Keys, left.Keys)
    ensures Within(left, files)
    ensures env.running == No ==>
      FilesAfter(lim, old(dd.State()), old(VolOf(files)), dd.State(), guid, r, Quiescent(left), VolOf(left),
        Recorded(files), old(Recorded(files)))
  {
    var c := dd.GetChildByUuid(guid);
    child := c.value;
    AboveIs(dd.State(), child, guid);
    r, left := MergeByGuid(dd, files, c.value, env, lim);
  }

  lemma AboveIs(d: Desc, c: Guid, x: Guid)
    requires DistinctGuids(d) && exists i :: 0 <= i < |d.snaps| && d.snaps[i].guid == c && d.snaps[i].parent == x
    ensures Above(d, c) == x
  {
    var i :| 0 <= i < |d.snaps| && d.snaps[i].guid == c && d.snaps[i].parent == x;
    MapAt(SnapRows(d.snaps), i);
  }

  lemma MergedInto(d: Desc, guid: Guid, child: Guid)
    requires TreeForm(d) && MergeCheck(d, child) == Ok
    requires exists i :: 0 <= i < |d.snaps| && d.snaps[i].guid == child && d.snaps[i].parent == guid
    ensures TreeForm(DescMerged(d, child)) && |DescMerged(d, child).snaps| == |d.snaps| - 1
    ensures guid in ParentsOf(d) && ParentsOf(DescMerged(d, child)).Keys == ParentsOf(d).Keys - {guid}
    ensures Temporary(d, guid) && TopPlain(d) ==> Shrunk(d, DescMerged(d, child))
  {
    var i :| 0 <= i < |d.snaps| && d.snaps[i].guid == child && d.snaps[i].parent == guid;
    MapAt(SnapRows(d.snaps), i);
    MergedTreeForm(d, child);
    SameEntries(d, child);
    if Temporary(d, guid) && TopPlain(d) { MergeShrinks(d, child); }
  }

  lemma RemovedOne(d: Desc, guid: Guid)
    requires TreeForm(d) && RemoveCheck(d, guid) == Ok && Temporary(d, guid) && TopPlain(d)
    ensures ParentsOf(Removed(d, guid, true)).Keys == ParentsOf(d).Keys - {guid}
    ensures Shrunk(d, Removed(d, guid, true)) && |Removed(d, guid, true).snaps| == |d.snaps| - 1
  {
    RemoveShrinks(d, guid);
    RemovedRows(d, guid);
  }

  /** Two children or more: the snapshot is marked. */
  method MarkTemporary(dd: DiskDescriptor, guid: Guid, snapId: nat, env: Env) returns (r: Code)
    requires DistinctGuids(dd.State()) && snapId == FindSnap(dd.snapshots, guid) && env.running != Unknown
    modifies dd
    ensures old(Temporary(dd.State(), guid)) ==> unchanged(dd) && r == if env.running == Yes then Ok else FoundNone
    ensures !old(Temporary(dd.State(), guid)) ==> r == Ok && Temporary(dd.State(), guid)
    ensures dd.images == old(dd.images) && SnapRows(dd.snapshots) == SnapRows(old(dd.snapshots))
  {
    if !dd.snapshots[snapId].temporary {
      ghost var before := dd.snapshots;
      dd.snapshots := dd.snapshots[snapId := dd.snapshots[snapId].(temporary := true)];
      assert SnapRows(dd.snapshots) == SnapRows(before);
      FlagAtIndex(dd.State(), snapId);
      r := Ok;
    } else {
      r := if env.running == Yes then Ok else FoundNone;
    }
  }

  /** Deleting a temporary snapshot takes no other with it. One with two children or more stays, and then deleting it
      succeeds exactly if the device runs. */
  ghost predicate TempDeleted(d: Desc, d': Desc, guid: Guid, running: Running, r: Code) {
    Temporary(d, guid) && TopPlain(d) ==>
      && Shrunk(d, d') && ParentsOf(d).Keys - {guid} <= ParentsOf(d').Keys
      && (r == Ok && ChildCount(d.snaps, guid) < 2 ==> |d'.snaps| < |d.snaps| && guid !in ParentsOf(d'))
      && (r == Ok && ChildCount(d.snaps, guid) >= 2 ==> d' == d && running == Yes)
      && (ChildCount(d.snaps, guid) >= 2 && running == No ==> r == FoundNone)
      && (ChildCount(d.snaps, guid) >= 2 && running == Yes ==> r == Ok)
  }

  /** A snapshot with two children or more that was not temporary is marked, and nothing else changes. */
  ghost predicate ForkMarked(d: Desc, d': Desc, guid: Guid, r: Code) {
    r == Ok && ChildCount(d.snaps, guid) >= 2 && FindSnap(d.snaps, guid) != -1 && !Temporary(d, guid) ==>
      Temporary(d', guid) && d'.images == d.images && SnapRows(d'.snaps) == SnapRows(d.snaps)
  }

  lemma NothingDeleted(d: Desc, guid: Guid, running: Running, r: Code)
    requires TreeForm(d) && r != Ok
    requires ChildCount(d.snaps, guid) < 2 || FindSnap(d.snaps, guid) == -1 || running == Unknown ||
      (running == Yes && d.top == guid)
    ensures TempDeleted(d, d, guid, running, r) && ForkMarked(d, d, guid, r)
  {
  }

  lemma LeafDeleted(d: Desc, guid: Guid, running: Running)
    requires TreeForm(d) && RemoveCheck(d, guid) == Ok && ChildCount(d.snaps, guid) == 0
    ensures TempDeleted(d, Removed(d, guid, true), guid, running, Ok) && ForkMarked(d, Removed(d, guid, true), guid, Ok)
  {
    if Temporary(d, guid) && TopPlain(d) { RemovedOne(d, guid); }
  }

  lemma ChildMerged(d: Desc, guid: Guid, child: Guid, running: Running, r: Code)
    requires TreeForm(d) && MergeCheck(d, child) == Ok && ChildCount(d.snaps, guid) == 1
    requires exists i :: 0 <= i < |d.snaps| && d.snaps[i].guid == child && d.snaps[i].parent == guid
    ensures TempDeleted(d, DescMerged(d, child), guid, running, r) && ForkMarked(d, DescMerged(d, child), guid, r)
  {
    MergedInto(d, guid, child);
  }

  lemma Marked(d: Desc, d': Desc, guid: Guid, running: Running, r: Code)
    requires TreeForm(d) && running != Unknown && ChildCount(d.snaps, guid) >= 2 && d'.images == d.images
    requires SnapRows(d'.snaps) == SnapRows(d.snaps)
    requires Temporary(d, guid) ==> d' == d && r == if running == Yes then Ok else FoundNone
    requires !Temporary(d, guid) ==> Temporary(d', guid)
    ensures TempDeleted(d, d', guid, running, r) && ForkMarked(d, d', guid, r)
  {
  }

  /** All of this together. */
  ghost predicate DeleteOutcome(d: Desc, vol: Volume, g: Guid, env: Env, r: Code, d': Desc, names: set<string>,
    names': set<string>)
  {
    Effect(d, vol, g, env, r, d', names, names') && TempDeleted(d, d', g, env.running, r) && ForkMarked(d, d', g, r)
  }

  lemma NoOutcome(d: Desc, vol: Volume, g: Guid, env: Env, r: Code, names: set<string>)
    requires TreeForm(d) && r != Ok
    requires FindSnap(d.snaps, g) == -1 || env.running == Unknown || (env.running == Yes && d.top == g)
    ensures DeleteOutcome(d, vol, g, env, r, d, names, names)
  {
    NoEffect(d, vol, g, env, r, names);
    NothingDeleted(d, g, env.running, r);
  }

  lemma LeafOutcome(d: Desc, vol: Volume, g: Guid, env: Env, r: Code, d': Desc, names: set<string>, names': set<string>)
    requires TreeForm(d) && env.running != Unknown && !(env.running == Yes && d.top == g)
    requires FindSnap(d.snaps, g) != -1 && ChildCount(d.snaps, g) == 0 && (r == Ok <==> LeafAllowed(d, g, env))
    requires r == Ok ==> d' == Removed(d, g, true) && names' == names - {d.images[FindImage(d.images, g)].file}
    requires r != Ok ==> names' == names && d' == d
    ensures DeleteOutcome(d, vol, g, env, r, d', names, names')
  {
    Found(d, g);
    LeafEffect(d, vol, g, env, r, d', names, names');
    if r == Ok { LeafDeleted(d, g, env.running); } else { NothingDeleted(d, g, env.running, r); }
  }

  lemma ChildOutcome(d: Desc, vol: Volume, g: Guid, c: Guid, env: Env, r: Code, d': Desc, names: set<string>,
        names': set<string>)
    requires TreeForm(d) && env.running != Unknown && !(env.running == Yes && d.top == g)
    requires FindSnap(d.snaps, g) != -1 && ChildCount(d.snaps, g) == 1
    requires exists i :: 0 <= i < |d.snaps| && d.snaps[i].guid == c && d.snaps[i].parent == g
    requires MergeEffect(d, vol, c, env, r, d', names, names')
    ensures DeleteOutcome(d, vol, g, env, r, d', names, names')
  {
    Found(d, g);
    ChildEffect(d, vol, g, c, env, r, d', names, names');
    if d' == d && r != Ok { NothingDeleted(d, g, env.running, r); } else { ChildMerged(d, g, c, env.running, r); }
  }

  lemma ForkOutcome(d: Desc, vol: Volume, g: Guid, env: Env, r: Code, d': Desc, names: set<string>)
    requires TreeForm(d) && env.running != Unknown && !(env.running == Yes && d.top == g)
    requires FindSnap(d.snaps, g) != -1 && ChildCount(d.snaps, g) >= 2
    requires d'.images == d.images && SnapRows(d'.snaps) == SnapRows(d.snaps)
    requires Temporary(d, g) ==> d' == d && r == if env.running == Yes then Ok else FoundNone
    requires !Temporary(d, g) ==> r == Ok && Temporary(d', g)
    ensures DeleteOutcome(d, vol, g, env, r, d', names, names)
  {
    Found(d, g);
    ForkEffect(d, vol, g, env, r, d', names);
    Marked(d, d', g, env.running, r);
  }

  /** `do_delete_snapshot`: a leaf is removed, a snapshot with one child absorbs it, one with more children is
      only marked temporary. On one that is marked already the result is the answer about the device. While the
      device does not run, every snapshot that is left reads what it read before, unless the top was deleted. */
  method DoDeleteSnapshot(dd: DiskDescriptor, files: map<string, File>, guid: Guid, env: Env, ghost lim: Limits)
    returns (r: Code, left: map<string, File>)
    requires TreeForm(dd.State())
    requires env.running == No ==> Quiescent(files) && Healthy(dd.State(), VolOf(files), lim)
    modifies dd, files.Values
    ensures DeleteOutcome(old(dd.State()), old(VolOf(files)), guid, env, r, dd.State(), files.Keys, left.Keys)
    ensures Within(left, files)
    ensures env.running == No ==>
      FilesAfter(lim, old(dd.State()), old(VolOf(files)), dd.State(), guid, r, Quiescent(left), VolOf(left),
        Recorded(files), old(Recorded(files)))
  {
    left := files;
    ghost var d, vol := dd.State(), VolOf(files);
    var snapId := dd.FindSnapshotByGuid(guid);
    if snapId == -1 {
      NoOutcome(d, vol, guid, env, NoSnap, files.Keys);
      return NoSnap, files;
    }
    if env.running == Unknown {
      NoOutcome(d, vol, guid, env, Sys, files.Keys);
      return Sys, files;
    }
    if env.running == Yes && dd.topGuid == guid {
      NoOutcome(d, vol, guid, env, Param, files.Keys);
      return Param, files;
    }
    r, left := DeleteKnown(dd, files, guid, snapId, env, lim);
  }

  /** The same for a snapshot that is there. */
  method DeleteKnown(dd: DiskDescriptor, files: map<string, File>, guid: Guid, snapId: nat, env: Env, ghost lim: Limits)
    returns (r: Code, left: map<string, File>)
    requires TreeForm(dd.State()) && snapId == FindSnap(dd.snapshots, guid) && env.running != Unknown
    requires !(env.running == Yes && dd.topGuid == guid)
    requires env.running == No ==> Quiescent(files) && Healthy(dd.State(), VolOf(files), lim)
    modifies dd, files.Values
    ensures DeleteOutcome(old(dd.State()), old(VolOf(files)), guid, env, r, dd.State(), files.Keys, left.Keys)
    ensures Within(left, files)
    ensures env.running == No ==>
      FilesAfter(lim, old(dd.State()), old(VolOf(files)), dd.State(), guid, r, Quiescent(left), VolOf(left),
        Recorded(files), old(Recorded(files)))
  {
    left := files;
    ghost var d, vol := dd.State(), VolOf(files);
    var nelem := dd.GetChildCountByUuid(guid);
    if nelem == 0 {
      r, left := DeleteLeaf(dd, files, guid, snapId, env, lim);
      LeafOutcome(d, vol, guid, env, r, dd.State(), files.Keys, left.Keys);
    } else if nelem == 1 {
      ghost var child;
      r, child, left := DeleteOnlyChild(dd, files, guid, env, lim);
      ChildOutcome(d, vol, guid, child, env, r, dd.State(), files.Keys, left.Keys);
    } else {
      r := MarkFork(dd, files, guid, snapId, env, lim);
      ForkOutcome(d, vol, guid, env, r, dd.State(), files.Keys);
    }
  }

  method MarkFork(dd: DiskDescriptor, files: map<string, File>, guid: Guid, snapId: nat, env: Env, ghost lim: Limits)
    returns (r: Code)
    requires DistinctGuids(dd.State()) && snapId == FindSnap(dd.snapshots, guid) && env.running != Unknown
    requires env.running == No ==> Quiescent(files) && Healthy(dd.State(), VolOf(files), lim)
    modifies dd
    ensures old(Temporary(dd.State(), guid)) ==> unchanged(dd) && r == if env.running == Yes then Ok else FoundNone
    ensures !old(Temporary(dd.State(), guid)) ==> r == Ok && Temporary(dd.State(), guid)
    ensures dd.images == old(dd.images) && SnapRows(dd.snapshots) == SnapRows(old(dd.snapshots))
    ensures env.running == No ==>
      FilesAfter(lim, old(dd.State()), old(VolOf(files)), dd.State(), guid, r, Quiescent(files), VolOf(files),
        Recorded(files), old(Recorded(files)))
  {
    ghost var kept: Desc -> bool := e => false;
    if env.running == No { kept := FlagsDone(lim, dd.State(), guid, files); }
    r := MarkTemporary(dd, guid, snapId, env);
    assert VolOf(files) == old(VolOf(files)) && Recorded(files) == old(Recorded(files));
    assert env.running == No ==> kept(dd.State());
  }

  lemma FlagsDone(lim: Limits, d: Desc, guid: Guid, files: map<string, File>) returns (kept: Desc -> bool)
    requires Quiescent(files) && Healthy(d, VolOf(files), lim)
    ensures forall d': Desc :: d'.images == d.images && SnapRows(d'.snaps) == SnapRows(d.snaps) ==> kept(d')
    ensures forall d', r :: kept(d') ==> FilesAfter(lim, d, VolOf(files), d', guid, r, Quiescent(files), VolOf(files),
        Recorded(files), Recorded(files))
  {
    var vol := VolOf(files);
    kept := (d': Desc) => d'.images == d.images && SnapRows(d'.snaps) == SnapRows(d.snaps);
    forall d' | kept(d') ensures Done(lim, d, vol, d', files) { FlagsPassed(d, vol, lim, d'); }
  }

  ghost predicate Usable(d: Desc) { TreeForm(d) && TopPlain(d) }

  /** No snapshot that is in use went. */
  ghost predicate UsedStay(d: Desc, d': Desc, env: Env) {
    forall g :: g in ParentsOf(d) && env.inUse(g) ==> g in ParentsOf(d')
  }

  ghost predicate Progress(d: Desc, d': Desc, env: Env) { Shrunk(d, d') && UsedStay(d, d', env) }

  /** The descriptors the loop may come to from `d`. */
  lemma Reachable(d: Desc, env: Env) returns (ok: Desc -> bool)
    requires TreeForm(d) && TopPlain(d)
    ensures ok(d) && (forall e :: ok(e) ==> Progress(d, e, env)) && forall e {:trigger Usable(e)} :: ok(e) ==> Usable(e)
    ensures forall a, b :: ok(a) && Progress(a, b, env) ==> ok(b)
  {
    ok := e => TreeForm(e) && TopPlain(e) && Progress(d, e, env);
    forall a, b | ok(a) && Progress(a, b, env) ensures ok(b) {
      ShrunkTwice(d, a, b);
      ShrunkTop(a, b);
    }
  }

  /** What `Passed` keeps, for the loop. */
  lemma Passing(lim: Limits, d: Desc, vol: Volume) returns (fine: (Desc, Volume) -> bool)
    requires Healthy(d, vol, lim)
    ensures fine(d, vol) && forall e, ve {:trigger fine(e, ve)} :: fine(e, ve) ==> Passed(lim, d, vol, e, ve)
    ensures forall a, va, b, vb :: fine(a, va) && Passed(lim, a, va, b, vb) ==> fine(b, vb)
    ensures forall e, ve {:trigger Healthy(e, ve, lim)} :: fine(e, ve) ==> Healthy(e, ve, lim)
  {
    fine := (e, ve) => Passed(lim, d, vol, e, ve);
    NothingPassed(lim, d, vol);
    forall a, va, b, vb | fine(a, va) && Passed(lim, a, va, b, vb) ensures fine(b, vb) {
      PassedTwice(lim, d, vol, a, va, b, vb);
    }
  }

  /** The state of the files between two deletions. */
  ghost predicate Fine(fine: (Desc, Volume) -> bool, d: Desc, files: map<string, File>)
    reads files.Values
  {
    Quiescent(files) && fine(d, VolOf(files))
  }

  /** Everything recorded since `was` comes from absorbing some temporary snapshot. */
  ghost predicate TempAbsorbing(d: Desc, vol: Volume, now: map<string, seq<Snap>>, was: map<string, seq<Snap>>) {
    exists x :: Temporary(d, x) && OnlyAbsorbing(d, vol, x, now, was)
  }

  /** Deleting some temporary snapshot that is not in use is not allowed in a state the loop may come to. */
  ghost predicate Refused(ok: Desc -> bool, fine: (Desc, Volume) -> bool, env: Env) {
    exists e, ve, g :: RefusedAt(ok, fine, env, e, ve, g)
  }

  ghost predicate RefusedAt(ok: Desc -> bool, fine: (Desc, Volume) -> bool, env: Env, e: Desc, ve: Volume, g: Guid) {
    ok(e) && (env.running == No ==> fine(e, ve)) && Temporary(e, g) && !env.inUse(g) && !DeleteAllowed(e, ve, g, env)
  }

  lemma OutcomeProgress(d: Desc, vol: Volume, g: Guid, env: Env, r: Code, d': Desc, names: set<string>,
        names': set<string>)
    requires DeleteOutcome(d, vol, g, env, r, d', names, names')
    requires Usable(d) && Temporary(d, g) && !env.inUse(g)
    ensures Progress(d, d', env) && |d'.snaps| <= |d.snaps| && (r != Ok ==> !DeleteAllowed(d, vol, g, env))
    ensures r == Ok && |d'.snaps| == |d.snaps| ==> d' == d && env.running == Yes && ChildCount(d.snaps, g) >= 2
  {
  }

  /** Deletes the temporary snapshot at `i`. */
  method DeleteAt(dd: DiskDescriptor, files: map<string, File>, i: nat, env: Env, ghost lim: Limits,
        ghost ok: Desc -> bool, ghost fine: (Desc, Volume) -> bool)
    returns (r: Code, left: map<string, File>)
    requires i < |dd.snapshots| && dd.snapshots[i].temporary && !env.inUse(dd.snapshots[i].guid) && ok(dd.State())
    requires forall e {:trigger Usable(e)} :: ok(e) ==> Usable(e)
    requires forall a, b :: ok(a) && Progress(a, b, env) ==> ok(b)
    requires env.running == No ==> Fine(fine, dd.State(), files)
    requires forall a, va, b, vb :: fine(a, va) && Passed(lim, a, va, b, vb) ==> fine(b, vb)
    requires forall e, ve {:trigger Healthy(e, ve, lim)} :: fine(e, ve) ==> Healthy(e, ve, lim)
    modifies dd, files.Values
    ensures ok(dd.State()) && |dd.State().snaps| <= |old(dd.State()).snaps|
    ensures r != Ok ==> Refused(ok, fine, env)
    ensures r == Ok && |dd.snapshots| == |old(dd.snapshots)| ==>
      dd.State() == old(dd.State()) && env.running == Yes && ChildCount(dd.snapshots, dd.snapshots[i].guid) >= 2
    ensures Within(left, files) && (env.running == No && r == Ok ==> Fine(fine, dd.State(), left))
    ensures env.running == No ==> TempAbsorbing(old(dd.State()), old(VolOf(files)), Recorded(files),
      old(Recorded(files)))
  {
    assert Usable(dd.State());
    FlagAtIndex(dd.State(), i);
    assert env.running == No ==> Healthy(dd.State(), VolOf(files), lim);
    ghost var d, vol, guid := dd.State(), VolOf(files), dd.snapshots[i].guid;
    r, left := DoDeleteSnapshot(dd, files, dd.snapshots[i].guid, env, lim);
    OutcomeProgress(d, vol, guid, env, r, dd.State(), files.Keys, left.Keys);
    assert r != Ok ==> RefusedAt(ok, fine, env, d, vol, guid);
  }

  /** Of the first `n` snapshots, each temporary one that is not in use has two children or more, and there are
      none while the device does not run. */
  predicate OnlyForks(snaps: seq<SnapEntry>, n: nat, env: Env)
    requires n <= |snaps|
  {
    forall j :: 0 <= j < n && snaps[j].temporary && !env.inUse(snaps[j].guid) ==>
      ChildCount(snaps, snaps[j].guid) >= 2 && env.running == Yes
  }

  /** A temporary snapshot that is not in use and has two children that are not temporary. */
  ghost predicate Stuck(d: Desc, env: Env) {
    exists g, a, b :: Fork(d, g, a, b) && Temporary(d, g) && !env.inUse(g)
  }

  /** Such a snapshot is never taken away, and it is none of those that may be left while the device does not run. */
  lemma StuckStays(d: Desc, d': Desc, env: Env)
    requires Shrunk(d, d') && OnlyForks(d'.snaps, |d'.snaps|, env) && env.running == No
    ensures !Stuck(d, env)
  {
    forall g, a, b | Fork(d, g, a, b) && Temporary(d, g) ensures env.inUse(g) { ForkStays(d, d', env, g, a, b); }
  }

  lemma ForkStays(d: Desc, d': Desc, env: Env, g: Guid, a: Guid, b: Guid)
    requires Shrunk(d, d') && OnlyForks(d'.snaps, |d'.snaps|, env) && env.running == No
    requires Fork(d, g, a, b) && Temporary(d, g)
    ensures env.inUse(g)
  {
    Found(d', g);
  }

  /** A base marked temporary, with the top and another snapshot on it. */
  lemma StuckBase(b: Guid, o: Guid, env: Env) returns (d: Desc)
    requires b != o && NONE_UUID !in {b, o} && TOPDELTA_UUID !in {b, o} && !env.inUse(b)
    ensures TreeForm(d) && TopPlain(d) && Stuck(d, env)
  {
    var e := TwoChildren(b, o);
    d := e.(snaps := e.snaps[0 := e.snaps[0].(temporary := true)]);
    TwoChildrenForm(b, o);
    assert SnapRows(d.snaps) == SnapRows(e.snaps);
    FlagAtIndex(d, 0);
    FlagAtIndex(d, 1);
    FlagAtIndex(d, 2);
    MapAt(SnapRows(d.snaps), 0);
    MapAt(SnapRows(d.snaps), 1);
    MapAt(SnapRows(d.snaps), 2);
    assert Fork(d, b, TOPDELTA_UUID, o);
  }

  /** After some deletions that succeeded, deleting a temporary snapshot that is not in use is not allowed. */
  ghost predicate StopsAt(lim: Limits, d: Desc, vol: Volume, env: Env) {
    exists e, ve, g {:trigger DeleteAllowed(e, ve, g, env), Shrunk(d, e)} ::
      Shrunk(d, e) && (env.running == No ==> Passed(lim, d, vol, e, ve)) && Temporary(e, g) && !env.inUse(g) &&
      !DeleteAllowed(e, ve, g, env)
  }

  lemma StopReason(lim: Limits, d: Desc, vol: Volume, env: Env, ok: Desc -> bool, fine: (Desc, Volume) -> bool)
    requires Refused(ok, fine, env) && forall e :: ok(e) ==> Progress(d, e, env)
    requires env.running == No ==> forall e, ve {:trigger fine(e, ve)} :: fine(e, ve) ==> Passed(lim, d, vol, e, ve)
    ensures StopsAt(lim, d, vol, env)
  {
    var e, ve, g :| RefusedAt(ok, fine, env, e, ve, g);
  }

  /** Everything recorded since `was` may be left by a crash. */
  ghost predicate CrashesLeave(lim: Limits, d: Desc, vol: Volume, now: map<string, seq<Snap>>,
    was: map<string, seq<Snap>>)
  {
    && (forall f :: f in now ==> f in was && was[f] <= now[f])
    && forall f, k :: f in now && |was[f]| <= k < |now[f]| ==> CrashLeaves(lim, d, vol, f, now[f][k])
  }

  /** What the loop keeps: the descriptors it may come to, the files with them, and what a crash may leave. */
  lemma LoopSetup(lim: Limits, d: Desc, vol: Volume, env: Env)
    returns (ok: Desc -> bool, fine: (Desc, Volume) -> bool, calm: (string, Snap) -> bool)
    requires Usable(d) && (env.running == No ==> Healthy(d, vol, lim))
    ensures ok(d) && (forall e :: ok(e) ==> Progress(d, e, env)) && forall e {:trigger Usable(e)} :: ok(e) ==> Usable(e)
    ensures forall a, b :: ok(a) && Progress(a, b, env) ==> ok(b)
    ensures env.running == No ==> fine(d, vol)
    ensures forall e, ve {:trigger fine(e, ve)} :: fine(e, ve) ==> Passed(lim, d, vol, e, ve)
    ensures forall a, va, b, vb :: fine(a, va) && Passed(lim, a, va, b, vb) ==> fine(b, vb)
    ensures forall e, ve {:trigger Healthy(e, ve, lim)} :: fine(e, ve) ==> Healthy(e, ve, lim)
    ensures forall e, ve, x, f, s {:trigger Calming(ok, fine, calm, e, ve, x, f, s)} ::
      Calming(ok, fine, calm, e, ve, x, f, s)
    ensures forall f, s :: calm(f, s) ==> CrashLeaves(lim, d, vol, f, s)
  {
    ok := Reachable(d, env);
    fine := (e, ve) => false;
    calm := (f, s) => CrashLeaves(lim, d, vol, f, s);
    if env.running == No { fine := Passing(lim, d, vol); }
    forall e, ve, x, f, s ensures Calming(ok, fine, calm, e, ve, x, f, s) {
      if ok(e) && fine(e, ve) && Temporary(e, x) && Absorbing(e, ve, x, f, s) {
        assert Shrunk(d, e) && Passed(lim, d, vol, e, ve);
      }
    }
  }

  /** `merge_temporary_snapshots`. Snapshots that are not temporary stay, and the tree stays a tree, however it
      ends. While the device does not run, it fails if some temporary snapshot that is not in use has two children
      that are not temporary. On success every temporary snapshot that is left and not in use has two children or
      more; while the device does not run, none is left, and every snapshot that is left reads exactly what it read
      before. A crash on the way leaves what `CrashLeaves` says. */
  method MergeTemporarySnapshots(dd: DiskDescriptor, files: map<string, File>, env: Env, ghost lim: Limits)
    returns (r: Code, left: map<string, File>)
    requires TreeForm(dd.State()) && TopPlain(dd.State())
    requires OwnFiles(files) && (env.running == No ==> Quiescent(files) && Healthy(dd.State(), VolOf(files), lim))
    modifies dd, files.Values
    ensures Shrunk(old(dd.State()), dd.State()) && UsedStay(old(dd.State()), dd.State(), env)
    ensures r == Ok ==> OnlyForks(dd.snapshots, |dd.snapshots|, env)
    ensures r != Ok ==> StopsAt(lim, old(dd.State()), old(VolOf(files)), env)
    ensures env.running == No && old(Stuck(dd.State(), env)) ==> r != Ok
    ensures Within(left, files)
    ensures (env.running == No && r == Ok ==> Done(lim, old(dd.State()), old(VolOf(files)), dd.State(), left))
    ensures env.running == No ==> CrashesLeave(lim, old(dd.State()), old(VolOf(files)), Recorded(files),
      old(Recorded(files)))
  {
    ghost var d, vol := dd.State(), VolOf(files);
    ghost var ok, fine, calm := LoopSetup(lim, d, vol, env);
    r, left := MergeTemporaryLoop(dd, files, env, lim, ok, fine, calm);
    if r == Ok && env.running == No { StuckStays(d, dd.State(), env); }
    if r != Ok { StopReason(lim, d, vol, env, ok, fine); }
  }

  /** A crash while temporary snapshots are deleted: some of them may be gone already, one is being absorbed, and
      whatever the crash leaves of the file `f` it is absorbed into, all others read what they read at first. */
  ghost predicate CrashLeaves(lim: Limits, d: Desc, vol: Volume, f: string, s: Snap) {
    exists e, ve, x :: Shrunk(d, e) && Passed(lim, d, vol, e, ve) && Temporary(e, x) && Absorbing(e, ve, x, f, s)
  }

  /** So a snapshot that is not temporary reads what it read at first in every crash. */
  lemma CrashReads(lim: Limits, d: Desc, vol: Volume, f: string, s: Snap, img: Img)
    returns (e: Desc, ve: Volume, crashed: Volume)
    requires CrashLeaves(lim, d, vol, f, s) && Possible(s, img)
    ensures Shrunk(d, e) && Passed(lim, d, vol, e, ve) && crashed == ve[f := img]
    ensures forall g, v: nat :: g in ParentsOf(d) && !Temporary(d, g) ==> ReadsSame(d, vol, e, crashed, g, v)
  {
    var x;
    e, ve, x :| Shrunk(d, e) && Passed(lim, d, vol, e, ve) && Temporary(e, x) && Absorbing(e, ve, x, f, s);
    crashed := ve[f := img];
    forall g, v: nat | g in ParentsOf(d) && !Temporary(d, g) ensures ReadsSame(d, vol, e, crashed, g, v) {
      assert ReadsSame(d, vol, e, ve, g, v);
      CrashReadsOne(e, ve, x, f, s, img, g, v);
    }
  }

  lemma CrashReadsOne(e: Desc, ve: Volume, x: Guid, f: string, s: Snap, img: Img, g: Guid, v: nat)
    requires Absorbing(e, ve, x, f, s) && Possible(s, img) && g in ParentsOf(e) && g != x
    ensures ReadsSame(e, ve, e, ve[f := img], g, v)
  {
    assert Kept(e, ve, e, ve[f := img], x, x, x);
    assert SameRead(ParentsOf(e), FilesOf(e), ve, g, ParentsOf(e), FilesOf(e), ve[f := img], Ren(x, x, g), v);
  }

  /** All that was recorded since `was` may be left by a crash. */
  ghost predicate Calm(calm: (string, Snap) -> bool, now: map<string, seq<Snap>>, was: map<string, seq<Snap>>) {
    && (forall f :: f in now ==> f in was && was[f] <= now[f])
    && forall f, k :: f in now && |was[f]| <= k < |now[f]| ==> calm(f, now[f][k])
  }

  /** From `before` to `now` only the files recorded in `part` and then in `part'` went on. */
  lemma StaysCalm(d: Desc, vol: Volume, ok: Desc -> bool, fine: (Desc, Volume) -> bool,
        calm: (string, Snap) -> bool, before: map<string, seq<Snap>>, now: map<string, seq<Snap>>,
        part: map<string, seq<Snap>>, part': map<string, seq<Snap>>, was: map<string, seq<Snap>>)
    requires ok(d) && fine(d, vol) && Calm(calm, before, was) && TempAbsorbing(d, vol, part', part)
    requires forall e, ve, x, f, s {:trigger Calming(ok, fine, calm, e, ve, x, f, s)} ::
      Calming(ok, fine, calm, e, ve, x, f, s)
    requires now.Keys == before.Keys && part'.Keys == part.Keys <= now.Keys
    requires forall f :: f in now ==>
      if f in part then now[f] == part'[f] && before[f] == part[f] else now[f] == before[f]
    ensures Calm(calm, now, was)
  {
    var x :| Temporary(d, x) && OnlyAbsorbing(d, vol, x, part', part);
    forall f, k | f in now && |was[f]| <= k < |now[f]| ensures calm(f, now[f][k]) {
      if k < |before[f]| {
        assert now[f][k] == before[f][k];
      } else {
        assert Calming(ok, fine, calm, d, vol, x, f, now[f][k]);
      }
    }
  }

  ghost predicate Calming(ok: Desc -> bool, fine: (Desc, Volume) -> bool, calm: (string, Snap) -> bool, e: Desc,
    ve: Volume, x: Guid, f: string, s: Snap)
  {
    ok(e) && fine(e, ve) && Temporary(e, x) && Absorbing(e, ve, x, f, s) ==> calm(f, s)
  }

  predicate OwnFiles(files: map<string, File>) {
    forall a, b :: a in files && b in files && a != b ==> files[a] != files[b]
  }

  /** The same with the record of all files, those included that are no longer left. */
  method DeleteNext(dd: DiskDescriptor, files: map<string, File>, left0: map<string, File>, i: nat, env: Env,
        ghost lim: Limits, ghost ok: Desc -> bool, ghost fine: (Desc, Volume) -> bool,
        ghost calm: (string, Snap) -> bool, ghost was: map<string, seq<Snap>>)
    returns (r: Code, left: map<string, File>)
    requires i < |dd.snapshots| && dd.snapshots[i].temporary && !env.inUse(dd.snapshots[i].guid) && ok(dd.State())
    requires forall e {:trigger Usable(e)} :: ok(e) ==> Usable(e)
    requires forall a, b :: ok(a) && Progress(a, b, env) ==> ok(b)
    requires env.running == No ==> Fine(fine, dd.State(), left0)
    requires forall a, va, b, vb :: fine(a, va) && Passed(lim, a, va, b, vb) ==> fine(b, vb)
    requires forall e, ve {:trigger Healthy(e, ve, lim)} :: fine(e, ve) ==> Healthy(e, ve, lim)
    requires Within(left0, files) && OwnFiles(files) && (env.running == No ==> Calm(calm, Recorded(files), was))
    requires env.running == No ==> forall e, ve, x, f, s {:trigger Calming(ok, fine, calm, e, ve, x, f, s)} ::
      Calming(ok, fine, calm, e, ve, x, f, s)
    modifies dd, files.Values
    ensures ok(dd.State()) && |dd.State().snaps| <= |old(dd.State()).snaps|
    ensures r != Ok ==> Refused(ok, fine, env)
    ensures r == Ok && |dd.snapshots| == |old(dd.snapshots)| ==>
      dd.State() == old(dd.State()) && env.running == Yes && ChildCount(dd.snapshots, dd.snapshots[i].guid) >= 2
    ensures Within(left, files) && (env.running == No && r == Ok ==> Fine(fine, dd.State(), left))
    ensures env.running == No ==> Calm(calm, Recorded(files), was)
  {
    ghost var d, vol, record := dd.State(), VolOf(left0), Recorded(left0);
    ghost var all := Recorded(files);
    r, left := DeleteAt(dd, left0, i, env, lim, ok, fine);
    if env.running == No {
      StaysCalm(d, vol, ok, fine, calm, all, Recorded(files), record, Recorded(left0), was);
    }
  }

  method MergeTemporaryLoop(dd: DiskDescriptor, files: map<string, File>, env: Env, ghost lim: Limits,
        ghost ok: Desc -> bool, ghost fine: (Desc, Volume) -> bool, ghost calm: (string, Snap) -> bool)
    returns (r: Code, left: map<string, File>)
    requires ok(dd.State()) && forall e {:trigger Usable(e)} :: ok(e) ==> Usable(e)
    requires forall a, b :: ok(a) && Progress(a, b, env) ==> ok(b)
    requires env.running == No ==> Fine(fine, dd.State(), files)
    requires forall a, va, b, vb :: fine(a, va) && Passed(lim, a, va, b, vb) ==> fine(b, vb)
    requires forall e, ve {:trigger Healthy(e, ve, lim)} :: fine(e, ve) ==> Healthy(e, ve, lim)
    requires OwnFiles(files)
    requires env.running == No ==> forall e, ve, x, f, s {:trigger Calming(ok, fine, calm, e, ve, x, f, s)} ::
      Calming(ok, fine, calm, e, ve, x, f, s)
    modifies dd, files.Values
    ensures ok(dd.State())
    ensures r == Ok ==> OnlyForks(dd.snapshots, |dd.snapshots|, env)
    ensures r != Ok ==> Refused(ok, fine, env)
    ensures Within(left, files) && (env.running == No && r == Ok ==> Fine(fine, dd.State(), left))
    ensures env.running == No ==> Calm(calm, Recorded(files), old(Recorded(files)))
  {
    var i := 0;
    ghost var was := Recorded(files);
    left := files;
    while i < |dd.snapshots|
      invariant 0 <= i <= |dd.snapshots| && ok(dd.State())
      invariant OnlyForks(dd.snapshots, i, env)
      invariant Within(left, files) && (env.running == No ==> Fine(fine, dd.State(), left))
      invariant env.running == No ==> Calm(calm, Recorded(files), was)
      decreases |dd.snapshots|, |dd.snapshots| - i
    {
      var guid := dd.snapshots[i].guid;
      if dd.snapshots[i].temporary && !env.inUse(guid) {
        var nsnapshots := |dd.snapshots|;
        r, left := DeleteNext(dd, files, left, i, env, lim, ok, fine, calm, was);
        if r != Ok { return; }
        if nsnapshots != |dd.snapshots| {
          i := 0;
          continue;
        }
      }
      i := i + 1;
    }
    r := Ok;
  }
}
