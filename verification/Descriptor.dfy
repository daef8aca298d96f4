/** The disk descriptor: arrays of images and snapshots linked by guid, edited in place. */
module Descriptor {
  import opened SnapshotTree
  import opened Wrappers

  const TOPDELTA_UUID: Guid := "{5fbaabe3-6958-40ff-92a7-860e329aab41}"

  datatype ImageEntry = ImageEntry(guid: Guid, file: string)
  datatype SnapEntry = SnapEntry(guid: Guid, parent: Guid, temporary: bool)

  /** The contents of a descriptor. */
  datatype Desc = Desc(images: seq<ImageEntry>, snaps: seq<SnapEntry>, top: Guid)

  datatype Code = Ok | Param | NoSnap | Sys | MergeFailed | Busy | FoundNone

  /** A guid argument: a text of its own, or a pointer to the parent field of an entry. */
  datatype GuidArg = Text(guid: Guid) | ParentField(index: nat)

  // ---------- lookup ----------

  function FindSnap(snaps: seq<SnapEntry>, g: Guid): (r: int)
    ensures r == -1 || 0 <= r < |snaps|
    ensures r >= 0 ==> snaps[r].guid == g && forall i :: 0 <= i < r ==> snaps[i].guid != g
    ensures r == -1 ==> forall i :: 0 <= i < |snaps| ==> snaps[i].guid != g
  {
    if snaps == [] then -1
    else if snaps[0].guid == g then 0
    else var r := FindSnap(snaps[1..], g); if r == -1 then -1 else r + 1
  }

  function FindImage(images: seq<ImageEntry>, g: Guid): (r: int)
    ensures r == -1 || 0 <= r < |images|
    ensures r >= 0 ==> images[r].guid == g && forall i :: 0 <= i < r ==> images[i].guid != g
    ensures r == -1 ==> forall i :: 0 <= i < |images| ==> images[i].guid != g
  {
    if images == [] then -1
    else if images[0].guid == g then 0
    else var r := FindImage(images[1..], g); if r == -1 then -1 else r + 1
  }

  /** The number of entries whose parent is `g`. */
  function ChildCount(snaps: seq<SnapEntry>, g: Guid): (n: nat)
    ensures n == 0 <==> forall i :: 0 <= i < |snaps| ==> snaps[i].parent != g
  {
    if snaps == [] then 0 else ChildCount(snaps[..|snaps| - 1], g) + if snaps[|snaps| - 1].parent == g then 1 else 0
  }

  lemma {:induction false} ChildCountOne(snaps: seq<SnapEntry>, g: Guid)
    ensures ChildCount(snaps, g) <= 1 <==>
      forall i, j :: 0 <= i < j < |snaps| && snaps[i].parent == g ==> snaps[j].parent != g
  {
    if snaps != [] {
      ChildCountOne(snaps[..|snaps| - 1], g);
    }
  }

  // ---------- edits ----------

  /** `change_guid`: what the loops make of a descriptor. After the entry the argument points into,
      the argument reads as the new guid, so later entries keep the old one. */
  function Renamed(d: Desc, arg: GuidArg, y: Guid): Desc
    requires arg.ParentField? ==> arg.index < |d.snaps|
  {
    var x := if arg.Text? then arg.guid else d.snaps[arg.index].parent;
    Desc(
      seq(|d.images|, i requires 0 <= i < |d.images| => d.images[i].(guid := Ren(x, y, d.images[i].guid))),
      seq(|d.snaps|, i requires 0 <= i < |d.snaps| =>
        if arg.ParentField? && i > arg.index then d.snaps[i]
        else d.snaps[i].(guid := Ren(x, y, d.snaps[i].guid), parent := Ren(x, y, d.snaps[i].parent))),
      if arg.ParentField? then d.top else Ren(x, y, d.top))
  }

  function RemoveAt<T>(s: seq<T>, k: nat): (r: seq<T>)
    requires k < |s|
    ensures |r| == |s| - 1 && forall i :: 0 <= i < |r| ==> r[i] == s[if i < k then i else i + 1]
  {
    s[..k] + s[k + 1..]
  }

  function RemoveCheck(d: Desc, g: Guid): Code {
    var s := FindSnap(d.snaps, g);
    if s == -1 || FindImage(d.images, g) == -1 || ChildCount(d.snaps, g) != 0 ||
      d.snaps[s].parent == NONE_UUID then Param else Ok
  }

  /** The entries of `g` are gone; if it was the top, its parent became the top first. */
  function Removed(d: Desc, g: Guid, renew: bool): Desc
    requires RemoveCheck(d, g) == Ok
  {
    var s, im := FindSnap(d.snaps, g), FindImage(d.images, g);
    var e := if renew && g == d.top then Renamed(d, ParentField(s), TOPDELTA_UUID) else d;
    Desc(RemoveAt(e.images, im), RemoveAt(e.snaps, s), e.top)
  }

  function MergeCheck(d: Desc, g: Guid): Code {
    var s := FindSnap(d.snaps, g);
    if s == -1 || FindImage(d.images, g) == -1 || ChildCount(d.snaps, d.snaps[s].parent) > 1 ||
      d.snaps[s].parent == NONE_UUID then Param
    else Ok
  }

  /** An entry after child `c`, known as `g`, was absorbed. */
  function AbsorbSnap(e: SnapEntry, c: SnapEntry, g: Guid): SnapEntry {
    if e.guid == c.parent then e.(guid := g, temporary := c.temporary) else e
  }

  /** The parent's entries carry the guid and flag of the absorbed child; the child's entries are gone. */
  function Absorbed(d: Desc, g: Guid): Desc
    requires MergeCheck(d, g) == Ok
  {
    var s, im := FindSnap(d.snaps, g), FindImage(d.images, g);
    var c := d.snaps[s];
    Desc(
      RemoveAt(seq(|d.images|,
        i requires 0 <= i < |d.images| => d.images[i].(guid := Ren(c.parent, g, d.images[i].guid))), im),
      RemoveAt(seq(|d.snaps|, i requires 0 <= i < |d.snaps| => AbsorbSnap(d.snaps[i], c, g)), s),
      d.top)
  }

  function DescMerged(d: Desc, g: Guid): Desc
    requires MergeCheck(d, g) == Ok
  {
    var parent := d.snaps[FindSnap(d.snaps, g)].parent;
    if g == TOPDELTA_UUID then Renamed(Absorbed(d, g), Text(parent), TOPDELTA_UUID) else Absorbed(d, g)
  }

  function Added(d: Desc, file: string, g: Guid, parent: Guid): Desc {
    Desc(d.images + [ImageEntry(g, file)], d.snaps + [SnapEntry(g, parent, false)], g)
  }

  /** Files from `g` down to the base, found by at most `steps` more lookups; `n` were found before. */
  function Chain(d: Desc, g: Guid, n: nat, steps: nat): Option<seq<string>>
    decreases steps
  {
    if steps == 0 then None
    else
      var s, im := FindSnap(d.snaps, g), FindImage(d.images, g);
      if s == -1 || im == -1 || n == |d.images| then None
      else if d.snaps[s].parent == NONE_UUID then Some([d.images[im].file])
      else Onto([d.images[im].file], Chain(d, d.snaps[s].parent, n + 1, steps - 1))
  }

  function Onto(a: seq<string>, o: Option<seq<string>>): Option<seq<string>> {
    if o.None? then None else Some(a + o.value)
  }

  lemma OntoOnto(a: seq<string>, b: seq<string>, o: Option<seq<string>>)
    ensures Onto([], o) == o && Onto(a, Onto(b, o)) == Onto(a + b, o)
  {
    if o.Some? { assert a + (b + o.value) == a + b + o.value && [] + o.value == o.value; }
  }

  function Reversed<T>(s: seq<T>): (r: seq<T>)
    ensures |r| == |s| && forall i :: 0 <= i < |s| ==> r[i] == s[|s| - 1 - i]
  {
    seq(|s|, i requires 0 <= i < |s| => s[|s| - 1 - i])
  }

  class DiskDescriptor {
    var images: seq<ImageEntry>
    var snapshots: seq<SnapEntry>
    var topGuid: Guid

    ghost function State(): Desc
      reads this
    {
      Desc(images, snapshots, topGuid)
    }

    ghost predicate ArgOk(arg: GuidArg)
      reads this
    {
      arg.ParentField? ==> arg.index < |snapshots|
    }

    /** What the argument reads as now. */
    function Deref(arg: GuidArg): Guid
      requires ArgOk(arg)
      reads this
    {
      if arg.Text? then arg.guid else snapshots[arg.index].parent
    }

    method FindSnapshotByGuid(guid: Guid) returns (r: int)
      ensures r == FindSnap(snapshots, guid)
    {
      var i := 0;
      while i < |snapshots|
        invariant 0 <= i <= |snapshots| && forall j :: 0 <= j < i ==> snapshots[j].guid != guid
      {
        if snapshots[i].guid == guid { return i; }
        i := i + 1;
      }
      return -1;
    }

    method FindImageIdxByGuid(guid: Guid) returns (r: int)
      ensures r == FindImage(images, guid)
    {
      var i := 0;
      while i < |images|
        invariant 0 <= i <= |images| && forall j :: 0 <= j < i ==> images[j].guid != guid
      {
        if images[i].guid == guid { return i; }
        i := i + 1;
      }
      return -1;
    }

    method GetChildCountByUuid(guid: Guid) returns (n: nat)
      ensures n == ChildCount(snapshots, guid)
    {
      n := 0;
      var i := 0;
      while i < |snapshots|
        invariant 0 <= i <= |snapshots| && n == ChildCount(snapshots[..i], guid)
      {
        assert snapshots[..i + 1][..i] == snapshots[..i];
        if snapshots[i].parent == guid { n := n + 1; }
        i := i + 1;
      }
      assert snapshots[..i] == snapshots;
    }

    /** The guid of the first child. */
    method GetChildByUuid(guid: Guid) returns (r: Option<Guid>)
      ensures r.None? <==> ChildCount(snapshots, guid) == 0
      ensures r.Some? ==> exists i ::
        0 <= i < |snapshots| && snapshots[i].guid == r.value && snapshots[i].parent == guid &&
        forall j :: 0 <= j < i ==> snapshots[j].parent != guid
    {
      var i := 0;
      while i < |snapshots|
        invariant 0 <= i <= |snapshots| && forall j :: 0 <= j < i ==> snapshots[j].parent != guid
      {
        if snapshots[i].parent == guid { return Some(snapshots[i].guid); }
        i := i + 1;
      }
      return None;
    }

    method ChangeGuid(arg: GuidArg, newGuid: Guid)
      requires ArgOk(arg)
      modifies this
      ensures State() == Renamed(old(State()), arg, newGuid)
    {
      ghost var was, now := State(), Renamed(State(), arg, newGuid);
      var i := 0;
      while i < |images|
        invariant 0 <= i <= |images| == |was.images| && snapshots == was.snaps && topGuid == was.top
        invariant forall j :: 0 <= j < |images| ==> images[j] == if j < i then now.images[j] else was.images[j]
      {
        if images[i].guid == Deref(arg) { images := images[i := images[i].(guid := newGuid)]; }
        i := i + 1;
      }
      i := 0;
      while i < |snapshots|
        invariant 0 <= i <= |snapshots| == |was.snaps| && images == now.images && topGuid == was.top
        invariant forall j :: 0 <= j < |snapshots| ==> snapshots[j] == if j < i then now.snaps[j] else was.snaps[j]
      {
        if snapshots[i].guid == Deref(arg) { snapshots := snapshots[i := snapshots[i].(guid := newGuid)]; }
        if snapshots[i].parent == Deref(arg) { snapshots := snapshots[i := snapshots[i].(parent := newGuid)]; }
        i := i + 1;
      }
      if topGuid == Deref(arg) { topGuid := newGuid; }
      assert snapshots == now.snaps;
    }

    method SetTemporary(guid: Guid)
      modifies this
      ensures images == old(images) && topGuid == old(topGuid) && |snapshots| == |old(snapshots)|
      ensures forall j :: 0 <= j < |snapshots| ==>
        snapshots[j] == if j == FindSnap(old(snapshots), guid) then old(snapshots)[j].(temporary := true)
          else old(snapshots)[j]
    {
      var i := FindSnapshotByGuid(guid);
      if i != -1 { snapshots := snapshots[i := snapshots[i].(temporary := true)]; }
    }

    method AddImage(file: string, guid: Guid, parent: Guid)
      modifies this
      ensures State() == Added(old(State()), file, guid, parent)
    {
      images := images + [ImageEntry(guid, file)];
      snapshots := snapshots + [SnapEntry(guid, parent, false)];
      topGuid := guid;
    }

    method RemoveImage(guid: Guid, renewTop: bool) returns (r: Code, fname: string)
      modifies this
      ensures r == RemoveCheck(old(State()), guid)
      ensures r != Ok ==> unchanged(this)
      ensures r == Ok ==>
        State() == Removed(old(State()), guid, renewTop) && fname == old(images)[FindImage(old(images), guid)].file
    {
      fname := "";
      var snapId := FindSnapshotByGuid(guid);
      if snapId == -1 { return Param, fname; }
      var imageId := FindImageIdxByGuid(guid);
      if imageId == -1 { return Param, fname; }
      var nrCh := GetChildCountByUuid(guid);
      if nrCh != 0 { return Param, fname; }
      if snapshots[snapId].parent == NONE_UUID { return Param, fname; }
      fname := images[imageId].file;
      if renewTop && guid == topGuid { ChangeGuid(ParentField(snapId), TOPDELTA_UUID); }
      snapshots := snapshots[..snapId] + snapshots[snapId + 1..];
      images := images[..imageId] + images[imageId + 1..];
      r := Ok;
    }

    method MergeImage(guid: Guid) returns (r: Code, fname: string)
      modifies this
      ensures r == MergeCheck(old(State()), guid)
      ensures r != Ok ==> unchanged(this)
      ensures r == Ok ==>
        State() == DescMerged(old(State()), guid) && fname == old(images)[FindImage(old(images), guid)].file
    {
      fname := "";
      var snapId := FindSnapshotByGuid(guid);
      if snapId == -1 { return Param, fname; }
      var imageId := FindImageIdxByGuid(guid);
      if imageId == -1 { return Param, fname; }
      var snapshot := snapshots[snapId];
      var nrCh := GetChildCountByUuid(snapshot.parent);
      if nrCh > 1 { return Param, fname; }
      if snapshot.parent == NONE_UUID { return Param, fname; }
      fname := images[imageId].file;
      Absorb(guid, snapId, imageId);
      if snapshot.guid == TOPDELTA_UUID { ChangeGuid(Text(snapshot.parent), TOPDELTA_UUID); }
      r := Ok;
    }

    method Absorb(guid: Guid, snapId: nat, imageId: nat)
      requires MergeCheck(State(), guid) == Ok && snapId == FindSnap(snapshots, guid)
      requires imageId == FindImage(images, guid)
      modifies this
      ensures State() == Absorbed(old(State()), guid)
    {
      var snapshot := snapshots[snapId];
      AbsorbSnaps(snapshot, guid);
      AbsorbImages(snapshot.parent, guid);
      snapshots := snapshots[..snapId] + snapshots[snapId + 1..];
      images := images[..imageId] + images[imageId + 1..];
    }

    method AbsorbSnaps(snapshot: SnapEntry, guid: Guid)
      modifies this`snapshots
      ensures snapshots == seq(|old(snapshots)|,
        i requires 0 <= i < |old(snapshots)| => AbsorbSnap(old(snapshots)[i], snapshot, guid))
    {
      ghost var was := snapshots;
      var i := 0;
      while i < |snapshots|
        invariant 0 <= i <= |snapshots| == |was|
        invariant forall j :: 0 <= j < i ==> snapshots[j] == AbsorbSnap(was[j], snapshot, guid)
        invariant forall j :: i <= j < |snapshots| ==> snapshots[j] == was[j]
      {
        if snapshots[i].guid == snapshot.parent {
          snapshots := snapshots[i := snapshots[i].(guid := guid, temporary := snapshot.temporary)];
        }
        i := i + 1;
      }
    }

    method AbsorbImages(parent: Guid, guid: Guid)
      modifies this`images
      ensures images == seq(|old(images)|, i requires 0 <= i < |old(images)| =>
        old(images)[i].(guid := Ren(parent, guid, old(images)[i].guid)))
    {
      ghost var was := images;
      var i := 0;
      while i < |images|
        invariant 0 <= i <= |images| == |was|
        invariant forall j :: 0 <= j < i ==> images[j] == was[j].(guid := Ren(parent, guid, was[j].guid))
        invariant forall j :: i <= j < |images| ==> images[j] == was[j]
      {
        if images[i].guid == parent { images := images[i := images[i].(guid := guid)]; }
        i := i + 1;
      }
    }

    /** The files of `guid` and all its ancestors: base first, or last if `reverse`. */
    method MakeImagesList(guid: Guid, reverse: bool) returns (r: Option<seq<string>>)
      ensures var c := if images == [] then None else Chain(State(), guid, 0, |snapshots|);
        r == if c.Some? && !reverse then Some(Reversed(c.value)) else c
    {
      if images == [] { return None; }
      var list := new string[|images| + 1];
      var n, g, done := 0, guid, false;
      ghost var d := State();
      OntoOnto([], [], Chain(d, g, 0, |d.snaps|));
      while n < |snapshots|
        invariant 0 <= n <= |snapshots| && n <= |images| && !done
        invariant Chain(d, guid, 0, |d.snaps|) == Onto(list[..n], Chain(d, g, n, |d.snaps| - n))
      {
        var snapId := FindSnapshotByGuid(g);
        if snapId == -1 { return None; }
        var im := FindImageIdxByGuid(g);
        if im == -1 { return None; }
        list[n] := images[im].file;
        if n == |images| { return None; }
        assert list[..n + 1] == list[..n] + [images[im].file];
        OntoOnto(list[..n], [images[im].file], Chain(d, snapshots[snapId].parent, n + 1, |d.snaps| - n - 1));
        g := snapshots[snapId].parent;
        if g == NONE_UUID {
          done := true;
          break;
        }
        n := n + 1;
      }
      if !done { return None; }
      n := n + 1;
      if !reverse { Reverse(list, n); }
      return Some(list[..n]);
    }
  }

  /** Reverses the first `n` entries in place. */
  method Reverse(list: array<string>, n: nat)
    requires n <= list.Length
    modifies list
    ensures list[..n] == Reversed(old(list[..n]))
  {
    var i := 0;
    while i < n / 2
      invariant 0 <= i <= n / 2
      invariant forall k :: 0 <= k < i ==> list[k] == old(list[n - 1 - k]) && list[n - 1 - k] == old(list[k])
      invariant forall k :: i <= k < n - i ==> list[k] == old(list[k])
    {
      var file := list[n - i - 1];
      list[n - i - 1] := list[i];
      list[i] := file;
      i := i + 1;
    }
    forall k | 0 <= k < n ensures list[..n][k] == Reversed(old(list[..n]))[k] {
      if k >= n / 2 && k < n - n / 2 { assert k == n - 1 - k; }
      if k >= n - n / 2 { assert list[n - 1 - (n - 1 - k)] == old(list[n - 1 - k]); }
    }
  }
}
