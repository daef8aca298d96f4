/** The ploop1 on-disk layout: header, index table and data clusters of one delta,
    and the meaning of a delta as a partial map from virtual clusters to data. */
module Image {

  const MAP_OFFSET: nat := 16
  const SECTOR_SIZE: nat := 512
  const U32_LIMIT: nat := 0x1_0000_0000

  const CIF_EMPTY: nat := 1

  type U32 = x: nat | x < 0x1_0000_0000

  datatype Version = V1 | V2

  /** One cluster of the file, as 32-bit words. */
  type Block = seq<U32>

  /** The 64-byte header. The size field is a union: version 1 reads its low half only. */
  datatype Header = Header(
    version: Version, blocksize: nat, sizeLow: U32, sizeHigh: U32,
    firstBlock: U32, inUse: bool, flags: nat)
  {
    function SizeInSectors(): nat {
      match version
      case V1 => sizeLow
      case V2 => sizeLow + sizeHigh * U32_LIMIT
    }

    /** Number of 32-bit words in a cluster. */
    function Words(): nat { blocksize * 128 }

    /** Number of clusters the index occupies (`l1_size`). */
    function L1(): nat { if blocksize == 0 then 0 else firstBlock / blocksize }

    /** Number of virtual clusters (`l2_size`). */
    function L2(): nat { if blocksize == 0 then 0 else SizeInSectors() / blocksize }

    /** Equal in everything that gives the clusters their meaning. */
    predicate SameLayout(that: Header) {
      version == that.version && blocksize == that.blocksize && sizeLow == that.sizeLow &&
      sizeHigh == that.sizeHigh && firstBlock == that.firstBlock
    }
  }

  /** A delta file. `blocks[0][..16]` is the space the header occupies; it is never read as words. */
  datatype Img = Img(hdr: Header, blocks: seq<Block>)

  function SecToIoff(sec: nat, blocksize: nat, version: Version): U32
    requires blocksize > 0
  {
    match version
    case V1 => sec % U32_LIMIT
    case V2 => (sec / blocksize) % U32_LIMIT
  }

  function IoffToSec(ioff: U32, blocksize: nat, version: Version): nat {
    match version
    case V1 => ioff
    case V2 => ioff * blocksize
  }

  /** The index entry that names file cluster `block`. */
  function Enc(block: nat, blocksize: nat, version: Version): U32
    requires blocksize > 0
  {
    SecToIoff(block * blocksize, blocksize, version)
  }

  /** The file cluster an index entry names. */
  function BlockOf(ioff: U32, blocksize: nat, version: Version): nat
    requires blocksize > 0
  {
    IoffToSec(ioff, blocksize, version) / blocksize
  }

  predicate Aligned(ioff: U32, blocksize: nat, version: Version)
    requires blocksize > 0
  {
    IoffToSec(ioff, blocksize, version) % blocksize == 0
  }

  /** The entry for `block` does not overflow 32 bits. */
  predicate Fits(block: nat, blocksize: nat, version: Version) {
    match version
    case V1 => block * blocksize < U32_LIMIT
    case V2 => block < U32_LIMIT
  }

  lemma MulDiv(a: nat, b: nat)
    requires b > 0
    ensures (a * b) / b == a && (a * b) % b == 0
  {
    DivUnique(a * b, b, a, 0);
  }

  lemma MulMono(a: nat, b: nat, m: nat)
    ensures a <= b ==> a * m <= b * m
  {
  }

  lemma DivAtLeast(x: nat, n: nat, l: nat)
    requires n > 0 && l * n <= x
    ensures x / n >= l
  {
    var t := x / n;
    assert (t + 1) * n == t * n + n;
    MulMono(t + 1, l, n);
  }

  lemma DivLess(x: nat, n: nat, l: nat)
    requires n > 0 && x < l * n
    ensures x / n < l
  {
    MulMono(l, x / n, n);
  }

  lemma DivMono(a: nat, b: nat, n: nat)
    requires n > 0 && a <= b
    ensures a / n <= b / n
  {
    assert a / n * n <= a;
    DivAtLeast(b, n, a / n);
  }

  lemma DivUnique(x: nat, b: nat, q: nat, r: nat)
    requires b > 0 && r < b && x == q * b + r
    ensures x / b == q && x % b == r
  {
    assert (q + 1) * b == q * b + b;
    DivAtLeast(x, b, q);
    DivLess(x, b, q + 1);
  }

  lemma FitsMono(a: nat, b: nat, blocksize: nat, version: Version)
    requires a <= b && Fits(b, blocksize, version)
    ensures Fits(a, blocksize, version)
  {
    MulMono(a, b, blocksize);
  }

  /** Decoding inverts encoding as long as the entry fits in 32 bits. */
  lemma BlockOfEnc(block: nat, blocksize: nat, version: Version)
    requires blocksize > 0 && Fits(block, blocksize, version)
    ensures BlockOf(Enc(block, blocksize, version), blocksize, version) == block
    ensures Aligned(Enc(block, blocksize, version), blocksize, version)
    ensures Enc(block, blocksize, version) == 0 <==> block == 0
  {
    var sec := block * blocksize;
    MulDiv(block, blocksize);
    MulMono(1, block, blocksize);
    match version
    case V1 => assert SecToIoff(sec, blocksize, V1) == sec;
    case V2 => assert SecToIoff(sec, blocksize, V2) == block;
  }

  /** Encoding inverts decoding on aligned entries. */
  lemma EncBlockOf(ioff: U32, blocksize: nat, version: Version)
    requires blocksize > 0 && Aligned(ioff, blocksize, version)
    ensures Enc(BlockOf(ioff, blocksize, version), blocksize, version) == ioff
  {
    match version
    case V1 => assert ioff / blocksize * blocksize == ioff;
    case V2 => MulDiv(ioff, blocksize);
  }

  // ---------- position of a slot in the index ----------

  function SlotBlock(v: nat, n: nat): nat requires n > 0 { (v + MAP_OFFSET) / n }
  function SlotWord(v: nat, n: nat): nat requires n > 0 { (v + MAP_OFFSET) % n }

  lemma SlotPosition(v: nat, n: nat)
    requires n > 0
    ensures SlotWord(v, n) < n
    ensures SlotBlock(v, n) * n + SlotWord(v, n) == v + MAP_OFFSET
  {
  }

  lemma SlotDistinct(v: nat, v': nat, n: nat)
    requires n > 0 && SlotBlock(v, n) == SlotBlock(v', n) && SlotWord(v, n) == SlotWord(v', n)
    ensures v == v'
  {
    SlotPosition(v, n);
    SlotPosition(v', n);
  }

  /** Index words (block b, word w) past the header area are the slots of exactly one cluster. */
  lemma SlotAt(b: nat, w: nat, n: nat)
    requires n > 0 && w < n && b * n + w >= MAP_OFFSET
    ensures SlotBlock(b * n + w - MAP_OFFSET, n) == b && SlotWord(b * n + w - MAP_OFFSET, n) == w
  {
    DivUnique(b * n + w, n, b, w);
  }

  function Slot(img: Img, v: nat): U32
    requires img.hdr.Words() > 0
  {
    var n := img.hdr.Words();
    var b, w := SlotBlock(v, n), SlotWord(v, n);
    if b < |img.blocks| && w < |img.blocks[b]| then img.blocks[b][w] else 0
  }

  // ---------- meaning ----------

  datatype Lookup = Outside | Hole | Data(block: Block) | Broken

  /** What reading virtual cluster `v` of the delta alone gives. */
  function Read(img: Img, v: nat): Lookup {
    if img.hdr.blocksize == 0 || v >= img.hdr.L2() then Outside
    else
      var bs, ver := img.hdr.blocksize, img.hdr.version;
      var s := Slot(img, v);
      if SlotBlock(v, img.hdr.Words()) >= img.hdr.L1() then Broken
      else if s == 0 then Hole
      else if Aligned(s, bs, ver) && BlockOf(s, bs, ver) < |img.blocks| then Data(img.blocks[BlockOf(s, bs, ver)])
      else Broken
  }

  ghost predicate WellSized(img: Img) {
    img.hdr.blocksize > 0 && forall b :: 0 <= b < |img.blocks| ==> |img.blocks[b]| == img.hdr.Words()
  }

  /** A slot value that names a data cluster of the file. */
  predicate Points(s: U32, img: Img)
    requires img.hdr.blocksize > 0
  {
    Aligned(s, img.hdr.blocksize, img.hdr.version) &&
    img.hdr.L1() <= BlockOf(s, img.hdr.blocksize, img.hdr.version) < |img.blocks|
  }

  function Target(img: Img, v: nat): nat
    requires img.hdr.blocksize > 0
  {
    BlockOf(Slot(img, v), img.hdr.blocksize, img.hdr.version)
  }

  /** The shared image invariant. */
  ghost predicate Valid(img: Img) {
    && WellSized(img)
    && img.hdr.L1() <= |img.blocks|
    && (forall v: nat :: v < img.hdr.L2() ==> SlotBlock(v, img.hdr.Words()) < img.hdr.L1())
    && (forall v: nat :: v < img.hdr.L2() && Slot(img, v) != 0 ==> Points(Slot(img, v), img))
    && (forall v: nat, v': nat :: v < v' < img.hdr.L2() && Slot(img, v) != 0 ==> Slot(img, v) != Slot(img, v'))
    && (forall v: nat :: v >= img.hdr.L2() && SlotBlock(v, img.hdr.Words()) < img.hdr.L1() ==> Slot(img, v) == 0)
  }

  /** A file with the same index, at least as long, is as valid. */
  lemma SameIndexValid(d: Img, c: Img)
    requires Valid(d) && WellSized(c) && c.hdr.SameLayout(d.hdr) && |d.blocks| <= |c.blocks|
    requires forall b :: 0 <= b < d.hdr.L1() ==> c.blocks[b] == d.blocks[b]
    ensures Valid(c)
  {
    assert c.hdr.L1() == d.hdr.L1() && c.hdr.L2() == d.hdr.L2() && c.hdr.Words() == d.hdr.Words();
    forall v: nat | SlotBlock(v, d.hdr.Words()) < d.hdr.L1() ensures Slot(c, v) == Slot(d, v) { }
  }
}
