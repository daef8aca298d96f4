/** A stack of deltas, topmost first: a cluster reads from the first delta that has it. */
module Stack {
  import opened Image

  function StackRead(stack: seq<Img>, v: nat): Lookup {
    if stack == [] then Hole
    else match Read(stack[0], v)
         case Data(b) => Data(b)
         case Broken => Broken
         case _ => StackRead(stack[1..], v)
  }

  ghost predicate ValidStack(stack: seq<Img>) {
    && (forall j :: 0 <= j < |stack| ==> Valid(stack[j]))
    && (forall j :: 0 < j < |stack| ==>
          stack[j].hdr.blocksize == stack[0].hdr.blocksize && stack[j].hdr.version == stack[0].hdr.version)
  }

  /** Devices only ever grow, and the top delta is the youngest: sizes do not increase downwards. */
  ghost predicate Monotonic(stack: seq<Img>) {
    forall j, k :: 0 <= j < k < |stack| ==>
      stack[k].hdr.L1() <= stack[j].hdr.L1() && stack[k].hdr.L2() <= stack[j].hdr.L2()
  }

  lemma StackAppend(stack: seq<Img>, bottom: Img, v: nat)
    ensures StackRead(stack + [bottom], v) ==
      if StackRead(stack, v) == Hole then StackRead([bottom], v) else StackRead(stack, v)
  {
    if stack != [] {
      assert (stack + [bottom])[1..] == stack[1..] + [bottom];
      StackAppend(stack[1..], bottom, v);
    } else {
      assert stack + [bottom] == [bottom];
    }
  }

  /** Index word `k` of index cluster `i`. */
  function Entry(img: Img, i: nat, k: nat): U32 {
    if i < |img.blocks| && k < |img.blocks[i]| then img.blocks[i][k] else 0
  }

  /** The search below the top: first level from `level` on with a non-zero entry, given up at the
      first delta whose index does not reach cluster `i`; -1 if there is none. */
  function LocateFrom(imgs: seq<Img>, level: nat, i: nat, k: nat): int
    decreases |imgs| - level
  {
    if level >= |imgs| || i >= imgs[level].hdr.L1() then -1
    else if Entry(imgs[level], i, k) != 0 then level
    else LocateFrom(imgs, level + 1, i, k)
  }

  /** Reading one delta of a valid stack, in terms of its entry. */
  lemma ReadEntry(img: Img, v: nat)
    requires Valid(img)
    ensures var n := img.hdr.Words(); var e := Entry(img, SlotBlock(v, n), SlotWord(v, n));
      if SlotBlock(v, n) < img.hdr.L1() && e != 0 then
        v < img.hdr.L2() && e == Slot(img, v) && Points(e, img) && Read(img, v) == Data(img.blocks[Target(img, v)])
      else Read(img, v) == Hole || Read(img, v) == Outside
  {
    SlotPosition(v, img.hdr.Words());
  }

  lemma BelowIndex(imgs: seq<Img>, level: nat, v: nat)
    requires ValidStack(imgs) && Monotonic(imgs) && level < |imgs|
    requires SlotBlock(v, imgs[0].hdr.Words()) >= imgs[level].hdr.L1()
    ensures StackRead(imgs[level..], v) == Hole
    decreases |imgs| - level
  {
    ReadEntry(imgs[level], v);
    assert imgs[level..][1..] == imgs[level + 1..];
    if level + 1 < |imgs| { BelowIndex(imgs, level + 1, v); }
  }

  /** With non-increasing sizes the search finds exactly the delta the stack reads from. */
  lemma {:induction false} LocateIsStackRead(imgs: seq<Img>, level: nat, v: nat)
    requires ValidStack(imgs) && Monotonic(imgs) && |imgs| > 0 && level <= |imgs|
    ensures var n := imgs[0].hdr.Words();
      var r := LocateFrom(imgs, level, SlotBlock(v, n), SlotWord(v, n));
      if r == -1 then StackRead(imgs[level..], v) == Hole
      else level <= r < |imgs| && v < imgs[r].hdr.L2() && Slot(imgs[r], v) != 0 && Points(Slot(imgs[r], v), imgs[r]) &&
           StackRead(imgs[level..], v) == Data(imgs[r].blocks[Target(imgs[r], v)])
    decreases |imgs| - level
  {
    var n := imgs[0].hdr.Words();
    if level < |imgs| {
      assert imgs[level..][0] == imgs[level] && imgs[level..][1..] == imgs[level + 1..];
      ReadEntry(imgs[level], v);
      if SlotBlock(v, n) >= imgs[level].hdr.L1() {
        BelowIndex(imgs, level, v);
      } else if Entry(imgs[level], SlotBlock(v, n), SlotWord(v, n)) == 0 {
        LocateIsStackRead(imgs, level + 1, v);
      }
    }
  }
}
