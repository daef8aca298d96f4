/** The in-memory handle of an open delta (`struct delta`): sizes, allocation head and a cache of one
    index cluster. */
module DeltaFile {
  import opened Image
  import opened Disk

  class Delta {
    const file: File
    const blocksize: nat
    const version: Version
    var l2: Block
    var l2Cache: int
    var l2Dirty: bool
    var allocHead: nat
    var l1Size: nat
    var l2Size: nat

    /** The handle agrees with the file. */
    ghost predicate Synced()
      reads this, file
    {
      && WellSized(file.cur)
      && blocksize == file.cur.hdr.blocksize && version == file.cur.hdr.version
      && l1Size == file.cur.hdr.L1() && l2Size == file.cur.hdr.L2()
      && allocHead == |file.cur.blocks|
      && -1 <= l2Cache < l1Size <= |file.cur.blocks| && 0 < l1Size
      && (l2Cache >= 0 ==> l2 == file.cur.blocks[l2Cache])
      && !l2Dirty
    }

    /** The handle agrees with the file except that the cached index cluster may be newer than the file. */
    ghost predicate Working()
      reads this, file
    {
      var f := file.cur;
      && WellSized(f) && blocksize == f.hdr.blocksize && version == f.hdr.version
      && l1Size == f.hdr.L1() && l2Size == f.hdr.L2() && allocHead == |f.blocks|
      && -1 <= l2Cache < l1Size <= |f.blocks| && (l2Dirty ==> l2Cache >= 0)
      && (l2Cache >= 0 ==>
            |l2| == blocksize * 128 && (l2Dirty || l2 == f.blocks[l2Cache]) &&
            (l2Cache == 0 ==> l2[..MAP_OFFSET] == f.blocks[0][..MAP_OFFSET]))
    }

    /** The file with the cached index cluster written back. */
    ghost function Effective(): Img
      reads this, file
    {
      if 0 <= l2Cache < |file.cur.blocks| then file.cur.(blocks := file.cur.blocks[l2Cache := l2]) else file.cur
    }

    constructor (f: File)
      requires WellSized(f.cur) && 0 < f.cur.hdr.L1() <= |f.cur.blocks|
      ensures file == f && Synced() && l2Cache == -1
    {
      file := f;
      blocksize := f.cur.hdr.blocksize;
      version := f.cur.hdr.version;
      l2 := [];
      l2Cache := -1;
      l2Dirty := false;
      allocHead := |f.cur.blocks|;
      l1Size := f.cur.hdr.L1();
      l2Size := f.cur.hdr.L2();
    }

    /** Mark the image in use (or not) and wait until the mark is durable. */
    method ChangeState(inUse: bool)
      requires Synced()
      modifies file
      ensures Synced() && file.cur == Apply(old(file.cur), InUseAt(inUse)) && file.dur == file.cur && file.log == []
      ensures file.trace == old(file.trace) + [Snap(old(file.dur), old(file.log) + [InUseAt(inUse)]),
        Snap(file.cur, [])]
    {
      file.Write(InUseAt(inUse));
      file.Fsync();
    }
  }
}
