/** A delta file on a disk that loses power: durable contents, the writes issued since the last
    fsync, and every state a crash can leave. */
module Disk {
  import opened Image

  datatype Write =
    | WordsAt(block: nat, word: nat, words: Block)
    | HeaderAt(hdr: Header)
    | InUseAt(inUse: bool)
    | FlagsAt(flags: nat)
    | VersionAt(version: Version)

  /** Durable contents and pending writes after one step. */
  datatype Snap = Snap(dur: Img, log: seq<Write>)

  /** `w` lies inside the file or appends one whole cluster. */
  predicate Fitting(img: Img, w: Write) {
    match w
    case WordsAt(b, o, words) =>
      (b < |img.blocks| && o + |words| <= |img.blocks[b]|) ||
        (b == |img.blocks| && o == 0 && |words| == img.hdr.Words())
    case HeaderAt(h) => h.blocksize == img.hdr.blocksize
    case _ => true
  }

  function Patch(block: Block, o: nat, words: Block): (r: Block)
    requires o + |words| <= |block|
    ensures |r| == |block|
    ensures forall i :: 0 <= i < |r| ==> r[i] == if o <= i < o + |words| then words[i - o] else block[i]
  {
    block[..o] + words + block[o + |words|..]
  }

  function Apply(img: Img, w: Write): Img
    requires Fitting(img, w)
  {
    match w
    case WordsAt(b, o, words) =>
      if b < |img.blocks| then img.(blocks := img.blocks[b := Patch(img.blocks[b], o, words)])
      else img.(blocks := img.blocks + [words])
    case HeaderAt(h) => img.(hdr := h)
    case InUseAt(u) => img.(hdr := img.hdr.(inUse := u))
    case FlagsAt(f) => img.(hdr := img.hdr.(flags := f))
    case VersionAt(ver) => img.(hdr := img.hdr.(version := ver))
  }

  /** Write `w` puts the value `x` into word `o` of cluster `b`. */
  predicate Puts(w: Write, b: nat, o: nat, x: U32) {
    w.WordsAt? && w.block == b && w.word <= o < w.word + |w.words| && w.words[o - w.word] == x
  }

  /** The header a crash may leave: the 64-byte header writes and the writes of single fields
      are each atomic, and any subset of them survives. */
  ghost predicate HeaderPossible(dur: Header, log: seq<Write>, h: Header) {
    exists base: Header ::
      && (base == dur || HeaderAt(base) in log)
      && (h.version == base.version || VersionAt(h.version) in log)
      && (h.inUse == base.inUse || InUseAt(h.inUse) in log)
      && (h.flags == base.flags || FlagsAt(h.flags) in log)
      && h == base.(version := h.version, inUse := h.inUse, flags := h.flags)
  }

  /** `c` can be on the disk after a crash: every word is the durable one or one that some pending
      write put there, independently; clusters past the durable end of file hold anything. */
  ghost predicate Possible(s: Snap, c: Img) {
    && HeaderPossible(s.dur.hdr, s.log, c.hdr)
    && |s.dur.blocks| <= |c.blocks|
    && (forall b :: 0 <= b < |c.blocks| ==> |c.blocks[b]| == s.dur.hdr.Words())
    && (forall b, o :: 0 <= b < |s.dur.blocks| && 0 <= o < |c.blocks[b]| ==>
          (o < |s.dur.blocks[b]| && c.blocks[b][o] == s.dur.blocks[b][o]) ||
          exists k :: 0 <= k < |s.log| && Puts(s.log[k], b, o, c.blocks[b][o]))
  }

  /** The file as the program sees it, with ghost record of what a crash after each step may leave. */
  class File {
    var cur: Img
    ghost var dur: Img
    ghost var log: seq<Write>
    ghost var trace: seq<Snap>

    constructor (img: Img)
      ensures cur == dur == img && log == [] && trace == []
    {
      cur, dur, log, trace := img, img, [], [];
    }

    method ReadCluster(b: nat) returns (r: Block)
      requires b < |cur.blocks|
      ensures r == cur.blocks[b]
    {
      r := cur.blocks[b];
    }

    method Write(w: Write)
      requires Fitting(cur, w)
      modifies this
      ensures cur == Apply(old(cur), w) && dur == old(dur) && log == old(log) + [w]
      ensures trace == old(trace) + [Snap(dur, log)]
    {
      cur := Apply(cur, w);
      log := log + [w];
      trace := trace + [Snap(dur, log)];
    }

    method Fsync()
      modifies this
      ensures cur == dur == old(cur) && log == []
      ensures trace == old(trace) + [Snap(dur, log)]
    {
      dur := cur;
      log := [];
      trace := trace + [Snap(dur, log)];
    }
  }

  /** The write does not drop the in-use mark. */
  predicate KeepsMark(w: Write) { (w.HeaderAt? ==> w.hdr.inUse) && (w.InUseAt? ==> w.inUse) }

  /** The in-use mark is on the disk, and nothing that is pending drops it. */
  ghost predicate Guarded(s: Snap) { s.dur.hdr.inUse && forall k :: 0 <= k < |s.log| ==> KeepsMark(s.log[k]) }

  /** So every crash leaves it. */
  lemma GuardedCrash(s: Snap, c: Img)
    requires Guarded(s) && Possible(s, c)
    ensures c.hdr.inUse
  {
  }

  /** Without pending writes a crash loses nothing but may extend the file. */
  lemma SyncedCrash(img: Img, c: Img)
    requires WellSized(img) && Possible(Snap(img, []), c)
    ensures c.hdr == img.hdr && img.blocks <= c.blocks
  {
    forall b | 0 <= b < |img.blocks| ensures c.blocks[b] == img.blocks[b] {
      assert forall o :: 0 <= o < |c.blocks[b]| ==> c.blocks[b][o] == img.blocks[b][o];
    }
  }

  /** An untouched cluster keeps its durable contents. */
  lemma Untouched(s: Snap, c: Img, b: nat)
    requires WellSized(s.dur) && Possible(s, c) && b < |s.dur.blocks|
    requires forall k :: 0 <= k < |s.log| ==> !s.log[k].WordsAt? || s.log[k].block != b
    ensures c.blocks[b] == s.dur.blocks[b]
  {
    assert forall o :: 0 <= o < |c.blocks[b]| ==> c.blocks[b][o] == s.dur.blocks[b][o];
  }

  /** A word to which every pending write gives its durable value keeps it. */
  lemma WordKept(s: Snap, c: Img, b: nat, o: nat)
    requires WellSized(s.dur) && Possible(s, c) && b < |s.dur.blocks| && o < |s.dur.blocks[b]|
    requires forall k :: (0 <= k < |s.log| && s.log[k].WordsAt? && s.log[k].block == b &&
      s.log[k].word <= o < s.log[k].word + |s.log[k].words|) ==> s.log[k].words[o - s.log[k].word] == s.dur.blocks[b][o]
    ensures c.blocks[b][o] == s.dur.blocks[b][o]
  {
  }

  lemma PatchTail(block: Block, l2: Block, skip: nat)
    requires |block| == |l2| && skip <= |l2| && l2[..skip] == block[..skip]
    ensures Patch(block, skip, l2[skip..]) == l2
  {
    forall o | 0 <= o < |l2| ensures Patch(block, skip, l2[skip..])[o] == l2[o] {
      if o < skip { assert l2[..skip][o] == block[..skip][o]; }
    }
  }

  /** The in-use mark is on the disk, or nothing but it was written over `blocks`. */
  ghost predicate Watched(blocks: seq<Block>, s: Snap) {
    Guarded(s) || MarkOver(blocks, s)
  }

  ghost predicate MarkOver(blocks: seq<Block>, s: Snap) {
    s.dur.blocks == blocks && WellSized(s.dur) && forall k :: 0 <= k < |s.log| ==> !s.log[k].WordsAt?
  }

  /** An image left by a crash without the in-use mark has the clusters of `blocks` or those of `after`. */
  ghost predicate MarkTells(blocks: seq<Block>, after: seq<Block>, s: Snap) {
    forall c :: Possible(s, c) ==> c.hdr.inUse || blocks <= c.blocks || after <= c.blocks
  }

  lemma MarkOverTells(blocks: seq<Block>, s: Snap, c: Img)
    requires MarkOver(blocks, s) && Possible(s, c)
    ensures blocks <= c.blocks
  {
    forall b | 0 <= b < |blocks| ensures c.blocks[b] == blocks[b] { Untouched(s, c, b); }
  }

  lemma WatchedTells(blocks: seq<Block>, after: seq<Block>, s: Snap)
    requires Watched(blocks, s) || MarkOver(after, s)
    ensures MarkTells(blocks, after, s)
  {
    forall c | Possible(s, c) ensures c.hdr.inUse || blocks <= c.blocks || after <= c.blocks {
      if Guarded(s) {
        GuardedCrash(s, c);
      } else if MarkOver(blocks, s) {
        MarkOverTells(blocks, s, c);
      } else {
        MarkOverTells(after, s, c);
      }
    }
  }
}
