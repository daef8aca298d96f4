/** Checking an image: the scan over all index slots, and trimming the tail. Without the hard-force flag nothing
    but slots past the device is repaired. */
module Check {
  import opened Image
  import Restore

  /** All slots of the index. */
  function SlotCount(img: Img): int { img.hdr.L1() * img.hdr.Words() - MAP_OFFSET }

  /** As the scan computes it, in 32 bits: the slot's first sector lies past the end of the device. */
  predicate Excess(img: Img, v: nat) {
    (v * img.hdr.blocksize) % U32_LIMIT > img.hdr.SizeInSectors()
  }

  /** A slot that passes the checks on its own value: it is aligned and names a cluster inside the file. */
  predicate Sound(img: Img, v: nat)
    requires img.hdr.blocksize > 0
  {
    Slot(img, v) != 0 && !Excess(img, v) && Aligned(Slot(img, v), img.hdr.blocksize, img.hdr.version) &&
    Target(img, v) < |img.blocks|
  }

  /** A sound slot `u` before slot `n` names cluster `b`. */
  ghost predicate Uses(img: Img, n: int, b: nat)
    requires img.hdr.blocksize > 0
  {
    exists u: nat :: u < n && Sound(img, u) && Target(img, u) == b
  }

  /** A slot the scan reports as fatal: unaligned, past the end of the file, or, with the detailed check, naming an
      index cluster or one that an earlier slot names. */
  ghost predicate Wrong(img: Img, check: bool, v: nat)
    requires img.hdr.blocksize > 0
  {
    Slot(img, v) != 0 && !Excess(img, v) &&
    (!Sound(img, v) || (check && (Target(img, v) < img.hdr.L1() || Uses(img, v, Target(img, v)))))
  }

  ghost predicate SomeWrong(img: Img, check: bool, n: int)
    requires img.hdr.blocksize > 0
  {
    exists v: nat :: v < n && Wrong(img, check, v)
  }

  /** The image after the slots `.. n` were scanned: slots past the device are cleared unless the image is read-only. */
  ghost predicate ClearedUpTo(img0: Img, ro: bool, n: int, img: Img)
    requires img0.hdr.blocksize > 0
  {
    && img.hdr == img0.hdr && |img.blocks| == |img0.blocks| && WellSized(img)
    && (forall v: nat :: Slot(img, v) == if v < n && Excess(img0, v) && !ro then 0 else Slot(img0, v))
    && (forall b :: img0.hdr.L1() <= b < |img0.blocks| ==> img.blocks[b] == img0.blocks[b])
    && (ro ==> img == img0)
  }

  /** The image with index entry `v` set to zero. */
  function ClearSlot(img: Img, v: nat): Img
    requires img.hdr.Words() > 0
  {
    var b, w := SlotBlock(v, img.hdr.Words()), SlotWord(v, img.hdr.Words());
    if b < |img.blocks| && w < |img.blocks[b]| then
      img.(blocks := img.blocks[b := img.blocks[b][..w] + [0] + img.blocks[b][w + 1..]])
    else img
  }

  lemma ClearedSlots(img: Img, v: nat)
    requires WellSized(img) && SlotBlock(v, img.hdr.Words()) < img.hdr.L1() <= |img.blocks|
    ensures var c := ClearSlot(img, v); WellSized(c) && c.hdr == img.hdr && |c.blocks| == |img.blocks|
    ensures forall u: nat :: Slot(ClearSlot(img, v), u) == if u == v then 0 else Slot(img, u)
    ensures forall b :: img.hdr.L1() <= b < |img.blocks| ==> ClearSlot(img, v).blocks[b] == img.blocks[b]
  {
    var n := img.hdr.Words();
    SlotPosition(v, n);
    forall u: nat ensures Slot(ClearSlot(img, v), u) == if u == v then 0 else Slot(img, u) {
      SlotPosition(u, n);
      if SlotBlock(u, n) == SlotBlock(v, n) && SlotWord(u, n) == SlotWord(v, n) { SlotDistinct(u, v, n); }
    }
  }

  lemma ClearStep(img0: Img, ro: bool, n: nat, img: Img)
    requires WellSized(img0) && img0.hdr.L1() <= |img0.blocks| && SlotBlock(n, img0.hdr.Words()) < img0.hdr.L1()
    requires ClearedUpTo(img0, ro, n, img)
    ensures if Slot(img0, n) != 0 && Excess(img0, n) && !ro then ClearedUpTo(img0, ro, n + 1, ClearSlot(img, n))
      else ClearedUpTo(img0, ro, n + 1, img)
  {
    ClearedSlots(img, n);
  }

  lemma UsesStep(img: Img, n: nat, b: nat)
    requires img.hdr.blocksize > 0
    ensures Uses(img, n + 1, b) <==> Uses(img, n, b) || (Sound(img, n) && Target(img, n) == b)
  {
  }

  /** What the scan has to show: the image, the verdicts, the blocks in use, and the highest of them. */
  datatype Scan = Scan(img: Img, clean: bool, fatality: bool, used: seq<bool>, allocHead: nat)

  /** The results after the slots `.. n`, in terms of the image as it was. */
  ghost predicate ScannedTo(img0: Img, ro: bool, check: bool, n: nat, s: Scan)
    requires img0.hdr.blocksize > 0
  {
    && ClearedUpTo(img0, ro, n, s.img)
    && (s.fatality <==> SomeWrong(img0, check, n))
    && (s.clean <==> !s.fatality && !(ro && exists v: nat :: v < n && Slot(img0, v) != 0 && Excess(img0, v)))
    && UsedUpTo(img0, check, n, s)
  }

  /** The blocks in use, and the highest of them. */
  ghost predicate UsedUpTo(img0: Img, check: bool, n: nat, s: Scan)
    requires img0.hdr.blocksize > 0
  {
    |s.used| == |img0.blocks| && UsedBy((b: nat) => Uses(img0, n, b), img0.hdr.L1(), check, s.used, s.allocHead)
  }

  /** The bitmap has the index clusters and the clusters in use; the allocation head is the highest of them. */
  ghost predicate UsedBy(uses: nat -> bool, l1: nat, check: bool, used: seq<bool>, allocHead: nat) {
    && (check ==> forall b: nat :: b < |used| ==> used[b] == (b < l1 || uses(b)))
    && l1 <= allocHead + 1 <= |used|
    && (forall b: nat :: uses(b) ==> b <= allocHead)
    && (allocHead + 1 == l1 || uses(allocHead))
  }

  lemma UsedBySame(uses: nat -> bool, uses': nat -> bool, l1: nat, check: bool, used: seq<bool>, allocHead: nat)
    requires UsedBy(uses, l1, check, used, allocHead) && forall b: nat :: uses'(b) <==> uses(b)
    ensures UsedBy(uses', l1, check, used, allocHead)
  {
  }

  lemma UsedByMore(uses: nat -> bool, uses': nat -> bool, l1: nat, check: bool, used: seq<bool>, allocHead: nat, t: nat)
    requires UsedBy(uses, l1, check, used, allocHead) && t < |used| && forall b: nat :: uses'(b) <==> uses(b) || b == t
    ensures UsedBy(uses', l1, check, if check then used[t := true] else used, if t > allocHead then t else allocHead)
  {
  }

  /** `zero_index_fix` without the hard-force flag: only soft fixes are made, and none on a read-only image. */
  function Fixed(s: Scan, ro: bool, clu: nat, hardFix: bool, fatal: bool): Scan
    requires s.img.hdr.Words() > 0
  {
    if ro || hardFix then s.(clean := false, fatality := s.fatality || fatal) else s.(img := ClearSlot(s.img, clu))
  }

  /** What `check_one_slot` makes of entry `ioff` of slot `clu`. */
  function Checked(s: Scan, ro: bool, check: bool, clu: nat, ioff: U32): Scan
    requires s.img.hdr.blocksize > 0
  {
    var h := s.img.hdr;
    var iblk := BlockOf(ioff, h.blocksize, h.version);
    if (clu * h.blocksize) % U32_LIMIT > h.SizeInSectors() then Fixed(s, ro, clu, false, false)
    else if (h.version == V1 && IoffToSec(ioff, h.blocksize, V1) % h.blocksize != 0) ||
      iblk >= |s.used| then Fixed(s, ro, clu, true, true)
    else
      var s1 := if check && s.used[iblk] then Fixed(s, ro, clu, true, true) else s;
      s1.(used := if check then s.used[iblk := true] else s.used,
        allocHead := if iblk > s.allocHead then iblk else s.allocHead)
  }

  /** A slot that is not sound uses no block. */
  lemma UsedSame(img0: Img, check: bool, n: nat, s: Scan)
    requires img0.hdr.blocksize > 0 && UsedUpTo(img0, check, n, s) && !Sound(img0, n)
    ensures UsedUpTo(img0, check, n + 1, s)
  {
    var uses, uses' := (b: nat) => Uses(img0, n, b), (b: nat) => Uses(img0, n + 1, b);
    forall b: nat ensures uses'(b) <==> uses(b) { UsesStep(img0, n, b); }
    UsedBySame(uses, uses', img0.hdr.L1(), check, s.used, s.allocHead);
  }

  lemma UsedStep(img0: Img, check: bool, n: nat, s: Scan)
    requires img0.hdr.blocksize > 0 && UsedUpTo(img0, check, n, s) && Sound(img0, n)
    ensures var b := Target(img0, n);
      UsedUpTo(img0, check, n + 1, s.(used := if check then s.used[b := true] else s.used,
        allocHead := if b > s.allocHead then b else s.allocHead))
  {
    var uses, uses', t := (b: nat) => Uses(img0, n, b), (b: nat) => Uses(img0, n + 1, b), Target(img0, n);
    forall b: nat ensures uses'(b) <==> uses(b) || b == t { UsesStep(img0, n, b); }
    UsedByMore(uses, uses', img0.hdr.L1(), check, s.used, s.allocHead, t);
  }

  /** A slot of the index. */
  ghost predicate InIndex(img: Img, n: nat) {
    WellSized(img) && img.hdr.L1() <= |img.blocks| && SlotBlock(n, img.hdr.Words()) < img.hdr.L1()
  }

  lemma ExcessStep(img0: Img, ro: bool, check: bool, n: nat, s: Scan)
    requires InIndex(img0, n) && ScannedTo(img0, ro, check, n, s) && Slot(img0, n) != 0 && Excess(img0, n)
    ensures ScannedTo(img0, ro, check, n + 1, Fixed(s, ro, n, false, false))
  {
    ClearStep(img0, ro, n, s.img);
    assert !Wrong(img0, check, n);
    UsedSame(img0, check, n, s);
    UsedSame(img0, check, n, Fixed(s, ro, n, false, false));
  }

  lemma UnsoundStep(img0: Img, ro: bool, check: bool, n: nat, s: Scan)
    requires InIndex(img0, n) && ScannedTo(img0, ro, check, n, s) && Slot(img0, n) != 0 && !Excess(img0, n)
    requires !Sound(img0, n)
    ensures ScannedTo(img0, ro, check, n + 1, Fixed(s, ro, n, true, true))
  {
    ClearStep(img0, ro, n, s.img);
    assert Wrong(img0, check, n);
    UsedSame(img0, check, n, Fixed(s, ro, n, true, true));
  }

  lemma SkipStep(img0: Img, ro: bool, check: bool, n: nat, s: Scan)
    requires InIndex(img0, n) && ScannedTo(img0, ro, check, n, s) && Slot(img0, n) == 0
    ensures ScannedTo(img0, ro, check, n + 1, s)
  {
    ClearStep(img0, ro, n, s.img);
    assert !Wrong(img0, check, n);
    UsedSame(img0, check, n, s);
  }

  lemma SoundStep(img0: Img, ro: bool, check: bool, n: nat, s: Scan)
    requires InIndex(img0, n) && ScannedTo(img0, ro, check, n, s) && Sound(img0, n)
    ensures ScannedTo(img0, ro, check, n + 1, Checked(s, ro, check, n, Slot(img0, n)))
  {
    var b := Target(img0, n);
    ClearStep(img0, ro, n, s.img);
    UsedStep(img0, check, n, s);
    WrongExactly(img0, check, n, s);
  }

  /** A sound slot is wrong exactly if the bitmap has its cluster already. */
  lemma WrongExactly(img0: Img, check: bool, n: nat, s: Scan)
    requires img0.hdr.blocksize > 0 && UsedUpTo(img0, check, n, s) && Sound(img0, n)
    ensures Wrong(img0, check, n) <==> check && s.used[Target(img0, n)]
  {
  }

  lemma CheckedStep(img0: Img, ro: bool, check: bool, n: nat, s: Scan)
    requires InIndex(img0, n) && ScannedTo(img0, ro, check, n, s) && Slot(img0, n) != 0
    ensures ScannedTo(img0, ro, check, n + 1, Checked(s, ro, check, n, Slot(img0, n)))
  {
    if img0.hdr.version == V2 { MulDiv(Slot(img0, n), img0.hdr.blocksize); }
    if Excess(img0, n) { ExcessStep(img0, ro, check, n, s); }
    else if Sound(img0, n) { SoundStep(img0, ro, check, n, s); }
    else { UnsoundStep(img0, ro, check, n, s); }
  }

  /** `struct ploop_check_desc` and what it points to. */
  class CheckDesc {
    const ro: bool
    const check: bool
    const bdSize: nat
    const bmap: array<bool>
    var img: Img
    var clean: bool
    var fatality: bool
    var allocHead: nat

    constructor (i: Img, ro: bool, check: bool)
      requires WellSized(i) && 0 < i.hdr.L1() <= |i.blocks|
      ensures this.ro == ro && this.check == check && bdSize == i.hdr.SizeInSectors() && fresh(bmap)
      ensures State() == Scan(i, true, false, seq(|i.blocks|, b => b < i.hdr.L1()), i.hdr.L1() - 1)
    {
      this.ro, this.check, bdSize := ro, check, i.hdr.SizeInSectors();
      img, clean, fatality, allocHead := i, true, false, i.hdr.L1() - 1;
      var n := i.hdr.L1();
      bmap := new bool[|i.blocks|](b => b < n);
    }

    ghost function State(): Scan
      reads this, bmap
    {
      Scan(img, clean, fatality, bmap[..], allocHead)
    }

    method ZeroIndexFix(clu: nat, hardFix: bool, fatal: bool)
      requires img.hdr.Words() > 0
      modifies this
      ensures State() == Fixed(old(State()), ro, clu, hardFix, fatal)
    {
      if ro || hardFix {
        clean := false;
        if fatal { fatality := true; }
      } else {
        img := ClearSlot(img, clu);
      }
    }

    method CheckOneSlot(clu: nat, ioff: U32)
      requires img.hdr.blocksize > 0 && bdSize == img.hdr.SizeInSectors()
      modifies this, bmap
      ensures State() == Checked(old(State()), ro, check, clu, ioff)
    {
      var bs, version := img.hdr.blocksize, img.hdr.version;
      var isec := IoffToSec(ioff, bs, version);
      var iblk := isec / bs;
      if (clu * bs) % U32_LIMIT > bdSize {
        ZeroIndexFix(clu, false, false);
        return;
      }
      if version == V1 && isec % bs != 0 {
        ZeroIndexFix(clu, true, true);
        return;
      }
      if iblk >= bmap.Length {
        ZeroIndexFix(clu, true, true);
        return;
      }
      if check {
        if bmap[iblk] { ZeroIndexFix(clu, true, true); }
        bmap[iblk] := true;
      }
      if iblk > allocHead { allocHead := iblk; }
    }

    /** One index cluster, slots `from` and on. `buf` is the cluster as it was read before its slots were checked. */
    method CheckTable(i: nat, buf: Block, skip: nat, from: nat, ghost img0: Img, ghost inv: (nat, Scan) -> bool)
      requires WellSized(img0) && i < img0.hdr.L1() <= |img0.blocks| && |buf| == img0.hdr.Words() && skip <= |buf|
      requires i * img0.hdr.Words() + skip == from + MAP_OFFSET && bdSize == img0.hdr.SizeInSectors()
      requires forall j: nat :: skip <= j < |buf| ==> buf[j] == Slot(img0, from + (j - skip))
      requires inv(from, State())
      requires forall n, s {:trigger Advances(inv, img0, ro, check, n, s)} :: Advances(inv, img0, ro, check, n, s)
      modifies this, bmap
      ensures inv(from + (|buf| - skip), State())
    {
      var j := skip;
      while j < |buf|
        invariant skip <= j <= |buf| && inv(from + (j - skip), State())
      {
        var clu := from + (j - skip);
        SlotAt(i, j, img0.hdr.Words());
        assert Advances(inv, img0, ro, check, clu, State());
        if buf[j] != 0 { CheckOneSlot(clu, buf[j]); }
        j := j + 1;
      }
    }

    /** The scan over the whole index. */
    method ScanIndex(ghost img0: Img)
      requires WellSized(img0) && 0 < img0.hdr.L1() <= |img0.blocks| && bdSize == img0.hdr.SizeInSectors()
      requires State() == Scan(img0, true, false, seq(|img0.blocks|, b => b < img0.hdr.L1()), img0.hdr.L1() - 1)
      modifies this, bmap
      ensures ScannedTo(img0, ro, check, SlotCount(img0), State())
    {
      ghost var inv := ScanInvariant(img0, ro, check);
      NothingScanned(img0, ro, check, State());
      var slot := ScanTables(img0, inv);
      assert ScannedTo(img0, ro, check, slot, State());
    }

    method ScanTables(ghost img0: Img, ghost inv: (nat, Scan) -> bool) returns (slot: nat)
      requires WellSized(img0) && 0 < img0.hdr.L1() <= |img0.blocks| && bdSize == img0.hdr.SizeInSectors()
      requires img.hdr == img0.hdr && inv(0, State())
      requires forall n, s {:trigger Advances(inv, img0, ro, check, n, s)} :: Advances(inv, img0, ro, check, n, s)
      requires forall n, s {:trigger ReadsAhead(inv, img0, n, s)} :: ReadsAhead(inv, img0, n, s)
      modifies this, bmap
      ensures slot == SlotCount(img0) && inv(slot, State())
    {
      var l1, n, i := img.hdr.L1(), img.hdr.Words(), 0;
      slot := 0;
      while i < l1
        invariant 0 <= i <= l1 && slot == FirstSlot(i, n) && inv(slot, State())
      {
        var skip := if i == 0 then MAP_OFFSET else 0;
        SlotsOfTable(i, n, skip);
        assert ReadsAhead(inv, img0, slot, State());
        var buf := img.blocks[i];
        TableSlots(img0, slot, img, i, skip);
        CheckTable(i, buf, skip, slot, img0, inv);
        slot := slot + (n - skip);
        i := i + 1;
      }
    }
  }

  /** What checking entry `e` of slot `n` makes of the results; an empty entry is passed over. */
  function AfterSlot(s: Scan, ro: bool, check: bool, n: nat, e: U32): Scan
    requires s.img.hdr.blocksize > 0
  {
    if e == 0 then s else Checked(s, ro, check, n, e)
  }

  /** `inv` survives slot `n`. */
  ghost predicate Advances(inv: (nat, Scan) -> bool, img0: Img, ro: bool, check: bool, n: nat, s: Scan) {
    inv(n, s) && InIndex(img0, n) ==> s.img.hdr == img0.hdr && inv(n + 1, AfterSlot(s, ro, check, n, Slot(img0, n)))
  }

  /** The slots from `n` on are still as they were. */
  ghost predicate ReadsAhead(inv: (nat, Scan) -> bool, img0: Img, n: nat, s: Scan) {
    inv(n, s) ==> Unread(img0, n, s.img)
  }

  ghost predicate Unread(img0: Img, n: nat, img: Img) {
    && img.hdr == img0.hdr && |img.blocks| == |img0.blocks| && WellSized(img)
    && forall v: nat :: v >= n ==> Slot(img, v) == Slot(img0, v)
  }

  lemma ScanInvariant(img0: Img, ro: bool, check: bool) returns (inv: (nat, Scan) -> bool)
    requires WellSized(img0) && img0.hdr.L1() <= |img0.blocks|
    ensures forall n, s {:trigger Advances(inv, img0, ro, check, n, s)} :: Advances(inv, img0, ro, check, n, s)
    ensures forall n, s {:trigger ReadsAhead(inv, img0, n, s)} :: ReadsAhead(inv, img0, n, s)
    ensures forall n, s {:trigger ScannedTo(img0, ro, check, n, s)} :: inv(n, s) == ScannedTo(img0, ro, check, n, s)
  {
    inv := (n: nat, s: Scan) => ScannedTo(img0, ro, check, n, s);
    forall n: nat, s: Scan ensures Advances(inv, img0, ro, check, n, s) {
      if inv(n, s) && InIndex(img0, n) { ScannedStep(img0, ro, check, n, s); }
    }
    forall n: nat, s: Scan ensures ReadsAhead(inv, img0, n, s) {
      if inv(n, s) { ScannedUnread(img0, ro, check, n, s); }
    }
  }

  lemma ScannedStep(img0: Img, ro: bool, check: bool, n: nat, s: Scan)
    requires InIndex(img0, n) && ScannedTo(img0, ro, check, n, s)
    ensures s.img.hdr == img0.hdr && ScannedTo(img0, ro, check, n + 1, AfterSlot(s, ro, check, n, Slot(img0, n)))
  {
    if Slot(img0, n) == 0 { SkipStep(img0, ro, check, n, s); } else { CheckedStep(img0, ro, check, n, s); }
  }

  lemma ScannedUnread(img0: Img, ro: bool, check: bool, n: nat, s: Scan)
    requires WellSized(img0) && ScannedTo(img0, ro, check, n, s)
    ensures Unread(img0, n, s.img)
  {
  }

  /** The first slot of index cluster `i`. */
  function FirstSlot(i: nat, n: nat): int { if i == 0 then 0 else i * n - MAP_OFFSET }

  lemma SlotsOfTable(i: nat, n: nat, skip: nat)
    requires n >= MAP_OFFSET && skip == if i == 0 then MAP_OFFSET else 0
    ensures FirstSlot(i, n) >= 0 && i * n + skip == FirstSlot(i, n) + MAP_OFFSET
    ensures FirstSlot(i + 1, n) == FirstSlot(i, n) + (n - skip)
  {
    MulMono(1, i, n);
    assert (i + 1) * n == i * n + n;
  }

  lemma NothingScanned(img0: Img, ro: bool, check: bool, s: Scan)
    requires WellSized(img0) && 0 < img0.hdr.L1() <= |img0.blocks|
    requires s == Scan(img0, true, false, seq(|img0.blocks|, b => b < img0.hdr.L1()), img0.hdr.L1() - 1)
    ensures ScannedTo(img0, ro, check, 0, s)
  {
    assert UsedBy((b: nat) => Uses(img0, 0, b), img0.hdr.L1(), check, s.used, s.allocHead);
  }

  /** An index cluster read before its slots are checked has them as they were. */
  lemma TableSlots(img0: Img, slot: nat, img: Img, i: nat, skip: nat)
    requires WellSized(img0) && Unread(img0, slot, img) && i < img0.hdr.L1() <= |img0.blocks|
    requires skip <= img0.hdr.Words()
    requires i * img0.hdr.Words() + skip == slot + MAP_OFFSET
    ensures |img.blocks[i]| == img0.hdr.Words()
    ensures forall j: nat :: skip <= j < |img.blocks[i]| ==> img.blocks[i][j] == Slot(img0, slot + (j - skip))
  {
    forall j: nat | skip <= j < |img.blocks[i]| ensures img.blocks[i][j] == Slot(img0, slot + (j - skip)) {
      SlotAt(i, j, img0.hdr.Words());
      assert Slot(img, slot + (j - skip)) == img.blocks[i][j];
    }
  }

  // ---------- the whole check ----------

  /** Every slot of the index that is still set is aligned, names a cluster between the index and the end of the
      file, and no two name the same. */
  ghost predicate Surviving(img: Img) {
    && img.hdr.blocksize > 0
    && (forall v: nat :: v < SlotCount(img) && Slot(img, v) != 0 ==> Points(Slot(img, v), img))
    && (forall v: nat, v': nat :: v < v' < SlotCount(img) && Slot(img, v) != 0 && Slot(img, v') != 0 ==>
        Target(img, v) != Target(img, v'))
  }

  lemma InSlotCount(img: Img, v: nat)
    requires img.hdr.blocksize > 0
    ensures v < SlotCount(img) <==> SlotBlock(v, img.hdr.Words()) < img.hdr.L1()
  {
    var n := img.hdr.Words();
    SlotPosition(v, n);
    MulMono(SlotBlock(v, n) + 1, img.hdr.L1(), n);
    MulMono(img.hdr.L1(), SlotBlock(v, n), n);
  }

  /** A slot that is still set after a scan of a writable image that found nothing fatal. */
  lemma SlotSurvives(img0: Img, s: Scan, v: nat)
    requires WellSized(img0) && img0.hdr.L1() <= |img0.blocks| && 0 <= SlotCount(img0) && v < SlotCount(img0)
    requires ScannedTo(img0, false, true, SlotCount(img0), s) && !s.fatality && Slot(s.img, v) != 0
    ensures Slot(s.img, v) == Slot(img0, v) && Sound(img0, v) && !Wrong(img0, true, v)
    ensures img0.hdr.L1() <= Target(img0, v) <= s.allocHead < |img0.blocks|
  {
    assert !Wrong(img0, true, v);
    assert Uses(img0, SlotCount(img0), Target(img0, v));
    HeadBound(img0, true, SlotCount(img0), s, Target(img0, v));
  }

  lemma HeadBound(img0: Img, check: bool, n: nat, s: Scan, b: nat)
    requires img0.hdr.blocksize > 0 && UsedUpTo(img0, check, n, s) && Uses(img0, n, b)
    ensures b <= s.allocHead < |img0.blocks|
  {
    var uses := (b: nat) => Uses(img0, n, b);
    assert uses(b) && UsedBy(uses, img0.hdr.L1(), check, s.used, s.allocHead);
  }

  /** A scan of a writable image, with the detailed check, that found nothing fatal. */
  lemma ScanSurvives(img0: Img, s: Scan)
    requires WellSized(img0) && img0.hdr.L1() <= |img0.blocks| && SlotCount(img0) >= 0
    requires ScannedTo(img0, false, true, SlotCount(img0), s) && !s.fatality
    ensures Surviving(s.img)
    ensures forall v: nat :: v < SlotCount(img0) && Slot(s.img, v) != 0 ==> Target(s.img, v) <= s.allocHead
  {
    forall v: nat | v < SlotCount(img0) && Slot(s.img, v) != 0
      ensures Points(Slot(s.img, v), s.img) && Target(s.img, v) <= s.allocHead
    {
      SlotSurvives(img0, s, v);
    }
    forall v: nat, v': nat | v < v' < SlotCount(img0) && Slot(s.img, v) != 0 && Slot(s.img, v') != 0
      ensures Target(s.img, v) != Target(s.img, v')
    {
      SlotSurvives(img0, s, v);
      SlotSurvives(img0, s, v');
    }
  }

  /** Cutting the file after cluster `n`. */
  function Trimmed(img: Img, n: nat): Img {
    if n < |img.blocks| then img.(blocks := img.blocks[..n]) else img
  }

  /** A slot the scan clears is no cluster of the device. */
  lemma ExcessIsOutside(img: Img, v: nat)
    requires img.hdr.blocksize > 0 && Excess(img, v)
    ensures v >= img.hdr.L2()
  {
    var bs, size := img.hdr.blocksize, img.hdr.SizeInSectors();
    MulMono(v, size / bs, bs);
    assert size / bs * bs <= size;
  }

  /** Without wrapping in 32 bits, exactly the slots after slot `L2` are past the device: slot `L2` itself, the first
      one that is no cluster, is let through. */
  lemma ExcessExact(img: Img, v: nat)
    requires img.hdr.blocksize > 0 && v * img.hdr.blocksize < U32_LIMIT
    requires img.hdr.SizeInSectors() % img.hdr.blocksize == 0
    ensures Excess(img, v) <==> v > img.hdr.L2()
  {
    var bs, size := img.hdr.blocksize, img.hdr.SizeInSectors();
    assert size == size / bs * bs && (v * bs) % U32_LIMIT == v * bs;
    MulMono(v, size / bs, bs);
    MulMono(size / bs + 1, v, bs);
  }

  /** A device of one cluster: neither the slot after it is found to be past the device, nor one whose sector wraps. */
  lemma ExcessMissed() returns (img: Img, v: nat)
    ensures img.hdr.L2() == 1 && img.hdr.L1() == 9 && !Excess(img, 1) && v > 1 && !Excess(img, v)
    ensures SlotBlock(v, img.hdr.Words()) < img.hdr.L1()
  {
    img, v := Img(Header(V2, 2048, 2048, 0, 9 * 2048, true, 0), []), 0x20_0000;
  }

  /** Clearing slots past the device and trimming behind the allocation head changes no readable cluster. */
  lemma CheckReads(img0: Img, s: Scan, v: nat)
    requires WellSized(img0) && 0 < img0.hdr.L1() <= |img0.blocks| && SlotCount(img0) >= 0
    requires ScannedTo(img0, false, true, SlotCount(img0), s) && !s.fatality
    ensures Read(Trimmed(s.img, s.allocHead + 1), v) == Read(img0, v)
  {
    var c := Trimmed(s.img, s.allocHead + 1);
    InSlotCount(img0, v);
    if v < img0.hdr.L2() && v < SlotCount(img0) {
      if Excess(img0, v) { ExcessIsOutside(img0, v); }
      SlotPosition(v, img0.hdr.Words());
      assert Slot(c, v) == Slot(s.img, v) == Slot(img0, v);
      if Slot(s.img, v) != 0 { SlotSurvives(img0, s, v); }
    }
  }

  /** What the check comes to: not needed; in the middle of a conversion; fatal errors; the in-use mark is set and may
      not be dropped; errors were left; the header may not be written; or in order. */
  datatype Verdict = Skipped | Changing | Fatal | InUse | Unclean | ReadOnly | Fine

  /** The flags with bit 0, the mark of an empty image, as it should be. */
  function SetEmpty(flags: nat, empty: bool): (r: nat)
    ensures r / 2 == flags / 2 && (r % 2 == 1 <==> empty)
  {
    if empty then (if flags % 2 == 1 then flags else flags + 1) else (if flags % 2 == 1 then flags - 1 else flags)
  }

  /** Some slot past the device is set. */
  ghost predicate ExcessSet(img: Img)
    requires img.hdr.blocksize > 0
  {
    exists v: nat :: v < SlotCount(img) && Slot(img, v) != 0 && Excess(img, v)
  }

  /** What the check of an image comes to. */
  ghost function VerdictOf(img: Img, ro: bool, force: bool, dropInUse: bool, check: bool): Verdict
    requires img.hdr.blocksize > 0
  {
    var h := img.hdr;
    if !h.inUse && !force then Skipped
    else if h.inUse && Restore.Marked(h.flags) then Changing
    else if SomeWrong(img, check, SlotCount(img)) then Fatal
    else if h.inUse && !dropInUse then InUse
    else if ro && ExcessSet(img) then Unclean
    else if ro && (h.inUse || h.flags != SetEmpty(h.flags, |img.blocks| <= h.L1())) then ReadOnly
    else Fine
  }

  /** The first `n` clusters are the index and all that is used, and no fewer would do. */
  ghost predicate EndsAt(img: Img, n: nat)
    requires img.hdr.blocksize > 0
  {
    && img.hdr.L1() <= n <= |img.blocks| && (forall b: nat :: Uses(img, SlotCount(img), b) ==> b < n)
    && (n == img.hdr.L1() || Uses(img, SlotCount(img), n - 1))
  }

  /** The image after a check that repairs and finds nothing fatal, but for the header: slots past the device are
      cleared, the tail is cut off, and nothing else is changed. */
  ghost predicate Fixes(img0: Img, img: Img)
    requires img0.hdr.blocksize > 0
  {
    && WellSized(img) && EndsAt(img0, |img.blocks|) && img.hdr.SameLayout(img0.hdr)
    && (forall v: nat :: SlotBlock(v, img0.hdr.Words()) < img0.hdr.L1() ==>
          Slot(img, v) == if Excess(img0, v) then 0 else Slot(img0, v))
    && (forall b :: img0.hdr.L1() <= b < |img.blocks| ==> img.blocks[b] == img0.blocks[b])
  }

  /** The image the check leaves. */
  ghost predicate Leaves(img0: Img, ro: bool, r: Verdict, img: Img)
    requires img0.hdr.blocksize > 0
  {
    if ro || r == Skipped || r == Changing then img == img0
    else if r == Fatal then ClearedUpTo(img0, false, SlotCount(img0), img)
    else
      Fixes(img0, img) && img.hdr ==
        if r == InUse then img0.hdr
        else img0.hdr.(inUse := false, flags := SetEmpty(img0.hdr.flags, |img.blocks| <= img0.hdr.L1()))
  }

  lemma ScanEndsAt(img0: Img, s: Scan, check: bool)
    requires img0.hdr.blocksize > 0 && SlotCount(img0) >= 0 && UsedUpTo(img0, check, SlotCount(img0), s)
    ensures EndsAt(img0, s.allocHead + 1)
  {
    var uses := (b: nat) => Uses(img0, SlotCount(img0), b);
    assert UsedBy(uses, img0.hdr.L1(), check, s.used, s.allocHead);
    forall b: nat | Uses(img0, SlotCount(img0), b) ensures b < s.allocHead + 1 { assert uses(b); }
    assert s.allocHead + 1 == img0.hdr.L1() || uses(s.allocHead);
  }

  lemma TrimmedFixes(img0: Img, s: Scan, check: bool, hdr: Header)
    requires WellSized(img0) && 0 < img0.hdr.L1() <= |img0.blocks| && SlotCount(img0) >= 0 && hdr.SameLayout(img0.hdr)
    requires ScannedTo(img0, false, check, SlotCount(img0), s) && !s.fatality
    ensures Fixes(img0, Trimmed(s.img, s.allocHead + 1).(hdr := hdr))
  {
    ScanEndsAt(img0, s, check);
    var c := Trimmed(s.img, s.allocHead + 1);
    var c' := c.(hdr := hdr);
    assert forall v: nat :: Slot(c', v) == Slot(c, v);
    forall v: nat | SlotBlock(v, img0.hdr.Words()) < img0.hdr.L1()
      ensures Slot(c', v) == if Excess(img0, v) then 0 else Slot(img0, v)
    {
      SlotPosition(v, img0.hdr.Words());
      InSlotCount(img0, v);
      assert Slot(c, v) == Slot(s.img, v);
    }
  }

  /** Trimming behind the allocation head keeps the surviving slots in order. */
  lemma TrimmedSurvives(img0: Img, s: Scan)
    requires WellSized(img0) && 0 < img0.hdr.L1() <= |img0.blocks| && SlotCount(img0) >= 0
    requires ScannedTo(img0, false, true, SlotCount(img0), s) && !s.fatality
    ensures Surviving(Trimmed(s.img, s.allocHead + 1)) && WellSized(Trimmed(s.img, s.allocHead + 1))
  {
    var c := Trimmed(s.img, s.allocHead + 1);
    ScanSurvives(img0, s);
    forall v: nat | v < SlotCount(img0) ensures Slot(c, v) == Slot(s.img, v) { InSlotCount(img0, v); }
  }

  /** Everything the detailed check of a writable image promises when it finds nothing fatal: the surviving slots are in
      order and every cluster reads as before; only the header's mark and flags may differ. */
  ghost predicate Repaired(img0: Img, img: Img) {
    Surviving(img) && WellSized(img) && img.hdr.SameLayout(img0.hdr) && |img.blocks| <= |img0.blocks| &&
    forall v: nat :: Read(img, v) == Read(img0, v)
  }

  lemma ScanRepairs(img0: Img, s: Scan, hdr: Header)
    requires WellSized(img0) && 0 < img0.hdr.L1() <= |img0.blocks| && SlotCount(img0) >= 0 && hdr.SameLayout(img0.hdr)
    requires ScannedTo(img0, false, true, SlotCount(img0), s) && !s.fatality
    ensures Repaired(img0, Trimmed(s.img, s.allocHead + 1).(hdr := hdr))
  {
    var c := Trimmed(s.img, s.allocHead + 1);
    var c' := c.(hdr := hdr);
    TrimmedSurvives(img0, s);
    assert forall v: nat :: Slot(c', v) == Slot(c, v);
    forall v: nat ensures Read(c', v) == Read(img0, v) { CheckReads(img0, s, v); }
  }

  lemma IndexSlots(img: Img)
    requires WellSized(img) && 0 < img.hdr.L1()
    ensures SlotCount(img) >= 0
  {
    MulMono(1, img.hdr.L1(), img.hdr.Words());
  }

  /** `ploop_check` without the hard-force flag, on an image whose header was accepted. */
  method PloopCheck(img0: Img, ro: bool, force: bool, dropInUse: bool, check: bool) returns (r: Verdict, img: Img)
    requires WellSized(img0) && 0 < img0.hdr.L1() <= |img0.blocks|
    ensures r == VerdictOf(img0, ro, force, dropInUse, check) && Leaves(img0, ro, r, img)
    ensures r == Changing <==> img0.hdr.inUse && Restore.Marked(img0.hdr.flags)
    ensures check && !ro && r != Skipped && r != Changing && r != Fatal ==> Repaired(img0, img)
  {
    img := img0;
    if !img0.hdr.inUse && !force { return Skipped, img; }
    if img0.hdr.inUse && Restore.Marked(img0.hdr.flags) { return Changing, img; }
    r, img := ScanAndConclude(img0, ro, dropInUse, check);
  }

  method ScanAndConclude(img0: Img, ro: bool, dropInUse: bool, check: bool) returns (r: Verdict, img: Img)
    requires WellSized(img0) && 0 < img0.hdr.L1() <= |img0.blocks|
    requires !(img0.hdr.inUse && Restore.Marked(img0.hdr.flags))
    ensures r == VerdictOf(img0, ro, true, dropInUse, check) && Leaves(img0, ro, r, img)
    ensures check && !ro && r != Fatal ==> Repaired(img0, img)
  {
    var d := new CheckDesc(img0, ro, check);
    d.ScanIndex(img0);
    IndexSlots(img0);
    if ro { ReadOnlyKept(img0, SlotCount(img0), d.img); }
    img := d.img;
    if d.fatality { return Fatal, img; }
    r, img := Conclude(d, img0, dropInUse);
  }

  lemma ReadOnlyKept(img0: Img, n: nat, img: Img)
    requires WellSized(img0) && ClearedUpTo(img0, true, n, img)
    ensures img == img0
  {
  }

  /** Cuts the file behind the allocation head. Whatever mark and flags the header gets, the image is repaired. */
  method TrimTail(d: CheckDesc, img0: Img) returns (img: Img, allocHead: nat)
    requires WellSized(img0) && 0 < img0.hdr.L1() <= |img0.blocks| && SlotCount(img0) >= 0
    requires ScannedTo(img0, d.ro, d.check, SlotCount(img0), d.State()) && !d.fatality
    ensures img.hdr == img0.hdr && (d.ro ==> img == d.img) && allocHead == |img.blocks|
    ensures !d.ro ==> forall u, f :: Fixes(img0, img.(hdr := img0.hdr.(inUse := u, flags := f)))
    ensures d.check && !d.ro ==> forall u, f :: Repaired(img0, img.(hdr := img0.hdr.(inUse := u, flags := f)))
  {
    img := d.img;
    allocHead := d.allocHead + 1;
    if allocHead < |img.blocks| {
      if !d.ro { img := Trimmed(img, allocHead); } else { allocHead := |img.blocks|; }
    }
    if !d.ro {
      forall u, f ensures Fixes(img0, img.(hdr := img0.hdr.(inUse := u, flags := f))) {
        TrimmedFixes(img0, d.State(), d.check, img0.hdr.(inUse := u, flags := f));
      }
    }
    if !d.ro && d.check {
      forall u, f ensures Repaired(img0, img.(hdr := img0.hdr.(inUse := u, flags := f))) {
        ScanRepairs(img0, d.State(), img0.hdr.(inUse := u, flags := f));
      }
    }
  }

  /** Trimming and the header. */
  method Conclude(d: CheckDesc, img0: Img, dropInUse: bool) returns (r: Verdict, img: Img)
    requires WellSized(img0) && 0 < img0.hdr.L1() <= |img0.blocks| && SlotCount(img0) >= 0
    requires ScannedTo(img0, d.ro, d.check, SlotCount(img0), d.State()) && !d.fatality && (d.ro ==> d.img == img0)
    requires !(img0.hdr.inUse && Restore.Marked(img0.hdr.flags))
    ensures r == VerdictOf(img0, d.ro, true, dropInUse, d.check) && Leaves(img0, d.ro, r, img)
    ensures d.check && !d.ro ==> Repaired(img0, img)
  {
    var allocHead;
    img, allocHead := TrimTail(d, img0);
    var hdr := img.hdr;
    var flags := SetEmpty(hdr.flags, allocHead <= hdr.L1());
    assert img == img.(hdr := hdr.(inUse := hdr.inUse, flags := hdr.flags));
    if hdr.inUse && !dropInUse { return InUse, img; }
    if !d.clean { return Unclean, img; }
    if !hdr.inUse && hdr.flags == flags { return Fine, img; }
    if d.ro { return ReadOnly, img; }
    img := img.(hdr := hdr.(inUse := false, flags := flags));
    r := Fine;
  }

  /** With nothing set past the device, an image that passed is a valid image. */
  lemma PassedIsValid(img: Img)
    requires Surviving(img) && WellSized(img) && img.hdr.L1() <= |img.blocks|
    requires img.hdr.L2() <= SlotCount(img)
    requires forall v: nat :: img.hdr.L2() <= v < SlotCount(img) ==> Slot(img, v) == 0
    ensures Valid(img)
  {
    forall v: nat ensures v < SlotCount(img) <==> SlotBlock(v, img.hdr.Words()) < img.hdr.L1() { InSlotCount(img, v); }
  }
}
