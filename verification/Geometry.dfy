/** Header generation: how large an index a device of a given size gets. */
module Geometry {
  import opened Image

  /** 32 KiB to 64 MiB, a power of two (the divisors of 2^23 are the powers of two up to it). */
  predicate ValidBlocksize(bs: nat) {
    64 <= bs <= 131072 && U32_LIMIT / SECTOR_SIZE % bs == 0
  }

  function CeilDiv(a: nat, b: nat): nat requires b > 0 { (a + b - 1) / b }

  /** Index bytes for `size` slots, rounded to sectors, in 32-bit arithmetic. */
  function GetHeaderSize(size: U32): U32 {
    var bytes := (64 + (size * 4) % U32_LIMIT) % U32_LIMIT;
    ((bytes + SECTOR_SIZE - 1) % U32_LIMIT) / SECTOR_SIZE * SECTOR_SIZE
  }

  function SizeToFill(size: U32, bs: nat): U32
    requires bs > 0
  {
    RoundedUp(GetHeaderSize(size), bs * SECTOR_SIZE)
  }

  function RoundedUp(bytes: U32, alignment: nat): U32
    requires alignment > 0
  {
    if bytes % alignment != 0 then (bytes + alignment - bytes % alignment) % U32_LIMIT else bytes
  }

  /** The header written for a device of `bdsize` sectors (flags and in-use mark are the caller's). */
  function GeneratePvdHeader(bdsize: nat, bs: nat, version: Version): Header
    requires bs > 0
  {
    var clusters := CeilDiv(bdsize, bs);
    var sectors := clusters * bs;
    Header(version, bs, sectors % U32_LIMIT,
           match version case V1 => 0 case V2 => sectors / U32_LIMIT % U32_LIMIT,
           SizeToFill(clusters % U32_LIMIT, bs) / SECTOR_SIZE, false, 0)
  }

  /** Index clusters a device of `clusters` virtual clusters really needs. */
  function NeededL1(clusters: nat, bs: nat): nat
    requires bs > 0
  {
    CeilDiv(clusters + MAP_OFFSET, bs * 128)
  }

  /** The size field of the header can hold the size. */
  predicate SizeFits(bdsize: nat, bs: nat, version: Version)
    requires bs > 0
  {
    match version
    case V1 => CeilDiv(bdsize, bs) * bs < U32_LIMIT
    case V2 => CeilDiv(bdsize, bs) * bs < U32_LIMIT * U32_LIMIT
  }

  lemma CeilBounds(a: nat, b: nat)
    requires b > 0
    ensures CeilDiv(a, b) * b >= a
    ensures a > 0 ==> (CeilDiv(a, b) - 1) * b < a
  {
    var q, r := (a + b - 1) / b, (a + b - 1) % b;
    assert a + b - 1 == q * b + r;
    assert (q - 1) * b == q * b - b;
  }

  lemma SizeRead(bdsize: nat, bs: nat, version: Version)
    requires bs > 0 && SizeFits(bdsize, bs, version)
    ensures GeneratePvdHeader(bdsize, bs, version).L2() == CeilDiv(bdsize, bs)
  {
    SplitSize(CeilDiv(bdsize, bs) * bs);
    MulDiv(CeilDiv(bdsize, bs), bs);
  }

  lemma SplitSize(sectors: nat)
    requires sectors < U32_LIMIT * U32_LIMIT
    ensures sectors % U32_LIMIT + sectors / U32_LIMIT % U32_LIMIT * U32_LIMIT == sectors
  {
  }

  lemma HeaderSizeExact(m: U32)
    requires 4 * m + 575 < U32_LIMIT
    ensures GetHeaderSize(m) == (64 + 4 * m + 511) / 512 * 512
  {
  }

  lemma RoundSector(bytes: nat, c: nat)
    requires bytes <= 512 * c
    ensures bytes <= (bytes + 511) / 512 * 512 <= 512 * c
  {
  }

  /** Rounding up to whole sectors and then to whole clusters is rounding up to clusters. */
  lemma RoundCluster(bytes: nat, q: nat, bs: nat)
    requires bs > 0 && q > 0 && (q - 1) * (bs * 512) < bytes <= q * (bs * 512)
    ensures var a, up := bs * 512, (bytes + 511) / 512 * 512;
      bytes <= up <= q * a && (if up % a != 0 then up + a - up % a else up) == q * a
    ensures q * (bs * 512) == 512 * (q * bs)
  {
    var a, up := bs * 512, (bytes + 511) / 512 * 512;
    assert q * a == 512 * (q * bs);
    RoundSector(bytes, q * bs);
    assert (q - 1) * a == q * a - a;
    if up < q * a {
      DivUnique(up, a, q - 1, up - (q - 1) * a);
    } else {
      MulDiv(q, a);
    }
  }

  lemma FillRounds(m: U32, q: nat, bs: nat)
    requires bs > 0 && q > 0 && (q - 1) * (bs * 512) < 64 + 4 * m <= q * (bs * 512) < U32_LIMIT
    ensures SizeToFill(m, bs) == q * (bs * 512)
  {
    RoundCluster(64 + 4 * m, q, bs);
    HeaderSizeExact(m);
    assert RoundedUp(GetHeaderSize(m), bs * 512) == q * (bs * 512);
  }

  lemma FillExact(m: U32, q: nat, bs: nat)
    requires bs > 0 && q > 0 && (q - 1) * (bs * 512) < 64 + 4 * m <= q * (bs * 512) < U32_LIMIT
    ensures SizeToFill(m, bs) == q * (bs * 512)
    ensures SizeToFill(m, bs) / SECTOR_SIZE / bs == q
  {
    FillRounds(m, q, bs);
    assert q * (bs * 512) == 512 * (q * bs);
    MulDiv(q, bs);
  }

  lemma NeededBounds(m: nat, bs: nat) returns (q: nat)
    requires bs > 0
    ensures q == NeededL1(m, bs) && q > 0
    ensures (q - 1) * (bs * 128) < m + MAP_OFFSET <= q * (bs * 128)
    ensures (q - 1) * (bs * 512) < 64 + 4 * m <= q * (bs * 512)
  {
    q := NeededL1(m, bs);
    CeilBounds(m + MAP_OFFSET, bs * 128);
    ScaleByFour(q, bs);
    if q > 0 { ScaleByFour(q - 1, bs); }
  }

  lemma ScaleByFour(q: nat, bs: nat)
    ensures q * (bs * 512) == 4 * (q * (bs * 128))
  {
  }

  /** The cluster size divides 2^32 bytes. */
  lemma ClustersInLimit(bs: nat) returns (k: nat)
    requires ValidBlocksize(bs)
    ensures k > 1 && k * bs == U32_LIMIT / SECTOR_SIZE
  {
    k := U32_LIMIT / SECTOR_SIZE / bs;
  }

  /** The index of a header has room for every slot of its device. */
  ghost predicate IndexCovers(h: Header)
    requires h.Words() > 0
  {
    forall v: nat :: v < h.L2() ==> SlotBlock(v, h.Words()) < h.L1()
  }

  lemma HeaderFields(bdsize: nat, bs: nat, version: Version)
    requires bs > 0 && SizeFits(bdsize, bs, version)
    ensures var h := GeneratePvdHeader(bdsize, bs, version);
      h.Words() == bs * 128 && h.L2() == CeilDiv(bdsize, bs) &&
      h.L1() == SizeToFill(CeilDiv(bdsize, bs) % U32_LIMIT, bs) / SECTOR_SIZE / bs
  {
    SizeRead(bdsize, bs, version);
  }

  lemma RoundedUpAligned(bytes: U32, a: nat, k: nat)
    requires a > 0 && k * a == U32_LIMIT
    ensures RoundedUp(bytes, a) % a == 0
  {
    if bytes % a != 0 {
      NextMultiple(bytes, a, k);
      WrapsAt(bytes + a - bytes % a);
    }
  }

  lemma WrapsAt(up: nat)
    requires up <= U32_LIMIT
    ensures up % U32_LIMIT == if up < U32_LIMIT then up else 0
  {
  }

  lemma NextMultiple(bytes: nat, a: nat, k: nat)
    requires a > 0 && bytes < k * a
    ensures (bytes + a - bytes % a) % a == 0 && bytes + a - bytes % a <= k * a && 0 % a == 0
  {
    var q := bytes / a;
    DivLess(bytes, a, k);
    assert bytes + a - bytes % a == (q + 1) * a;
    MulMono(q + 1, k, a);
    MulDiv(q + 1, a);
    MulDiv(0, a);
  }

  /** The index ends with a cluster, for every size. */
  lemma FirstBlockAligned(bdsize: nat, bs: nat, version: Version, h: Header)
    requires ValidBlocksize(bs) && h == GeneratePvdHeader(bdsize, bs, version)
    ensures h.firstBlock % bs == 0 && h.firstBlock == h.L1() * bs
  {
    var fill := SizeToFill(CeilDiv(bdsize, bs) % U32_LIMIT, bs);
    var k := ClustersInLimit(bs);
    assert k * (bs * SECTOR_SIZE) == SECTOR_SIZE * (k * bs);
    RoundedUpAligned(GetHeaderSize(CeilDiv(bdsize, bs) % U32_LIMIT), bs * SECTOR_SIZE, k);
    WholeClusters(fill, bs);
  }

  lemma WholeClusters(fill: nat, bs: nat)
    requires bs > 0 && fill % (bs * SECTOR_SIZE) == 0
    ensures fill / SECTOR_SIZE % bs == 0 && fill / SECTOR_SIZE == fill / SECTOR_SIZE / bs * bs
  {
    var q := fill / (bs * SECTOR_SIZE);
    assert q * (bs * SECTOR_SIZE) == SECTOR_SIZE * (q * bs);
    MulDiv(q, bs);
  }

  /** Every slot lies inside the index exactly when the index byte count, rounded to clusters,
      stays below 2^32; the index is then as short as it can be. */
  lemma IndexHoldsAllSlots(bdsize: nat, bs: nat, version: Version, h: Header)
    requires ValidBlocksize(bs) && SizeFits(bdsize, bs, version) && h == GeneratePvdHeader(bdsize, bs, version)
    ensures h.L2() == CeilDiv(bdsize, bs) && h.Words() == bs * 128 && h.SizeInSectors() == h.L2() * bs
    ensures h.version == version && (version == V1 ==> h.sizeHigh == 0)
    ensures h.firstBlock == h.L1() * bs
    ensures IndexCovers(h) <==> NeededL1(h.L2(), bs) * (bs * SECTOR_SIZE) < U32_LIMIT
    ensures IndexCovers(h) ==> h.L1() == NeededL1(h.L2(), bs) && (h.L1() - 1) * h.Words() < h.L2() + MAP_OFFSET
  {
    HeaderFields(bdsize, bs, version);
    FirstBlockAligned(bdsize, bs, version, h);
    SplitSize(CeilDiv(bdsize, bs) * bs);
    var k := ClustersInLimit(bs);
    IndexCases(CeilDiv(bdsize, bs), bs, k);
  }

  lemma IndexCases(m: nat, bs: nat, k: nat)
    requires bs >= 64 && k > 1 && k * bs == U32_LIMIT / SECTOR_SIZE
    ensures var l1 := SizeToFill(m % U32_LIMIT, bs) / SECTOR_SIZE / bs;
      (forall v: nat :: v < m ==> SlotBlock(v, bs * 128) < l1) <==> NeededL1(m, bs) * (bs * SECTOR_SIZE) < U32_LIMIT
    ensures var l1 := SizeToFill(m % U32_LIMIT, bs) / SECTOR_SIZE / bs;
      NeededL1(m, bs) * (bs * SECTOR_SIZE) < U32_LIMIT ==>
        l1 == NeededL1(m, bs) && (l1 - 1) * (bs * 128) < m + MAP_OFFSET
  {
    var q := NeededBounds(m, bs);
    if q * (bs * SECTOR_SIZE) < U32_LIMIT {
      assert m % U32_LIMIT == m;
      FillExact(m, q, bs);
      LongIndex(m, q, bs);
    } else {
      ShortIndex(m, q, SizeToFill(m % U32_LIMIT, bs) / SECTOR_SIZE, k, bs);
    }
  }

  lemma LongIndex(m: nat, q: nat, bs: nat)
    requires bs > 0 && q > 0 && m + MAP_OFFSET <= q * (bs * 128)
    ensures forall v: nat :: v < m ==> SlotBlock(v, bs * 128) < q
  {
    forall v: nat | v < m ensures SlotBlock(v, bs * 128) < q {
      DivLess(v + MAP_OFFSET, bs * 128, q);
    }
  }

  lemma ReachesLimit(q: nat, k: nat, bs: nat)
    requires bs > 0 && k * bs == U32_LIMIT / SECTOR_SIZE && q * (bs * 512) >= U32_LIMIT
    ensures q >= k
  {
    assert q * (bs * 512) == 512 * (q * bs);
    assert (q + 1) * bs == q * bs + bs;
    MulMono(q + 1, k, bs);
  }

  /** An index that must not reach 2^32 bytes misses the last slot of a device that needs it to. */
  lemma ShortIndex(m: nat, q: nat, firstBlock: U32, k: nat, bs: nat)
    requires bs >= 64 && k > 1 && k * bs == U32_LIMIT / SECTOR_SIZE && firstBlock < U32_LIMIT / SECTOR_SIZE
    requires q > 0 && (q - 1) * (bs * 128) < m + MAP_OFFSET && q * (bs * 512) >= U32_LIMIT
    ensures m > 0 && SlotBlock(m - 1, bs * 128) >= firstBlock / bs
  {
    ReachesLimit(q, k, bs);
    DivLess(firstBlock, bs, k);
    LastSlot(m, q, firstBlock / bs, bs * 128);
  }

  lemma LastSlot(m: nat, q: nat, l1: nat, n: nat)
    requires n >= 8192 && l1 < q && q > 1 && (q - 1) * n < m + MAP_OFFSET
    ensures m > 0 && SlotBlock(m - 1, n) >= l1
  {
    MulMono(l1, q - 1, n);
    MulMono(1, q - 1, n);
    DivAtLeast(m - 1 + MAP_OFFSET, n, l1);
  }
}
