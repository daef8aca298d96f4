/** Bitmaps: scans for the next set or clear bit that go a word at a time, and setting a block of bits. */
module Bitmap {

  const I32 := 0x8000_0000
  const U32: nat := 0x1_0000_0000

  /** A 64-bit word as its bits, least significant first. */
  type Word = w: seq<bool> | |w| == 64 witness seq(64, _ => false)

  function And(a: Word, b: Word): Word { seq(64, k requires 0 <= k < 64 => a[k] && b[k]) }
  function Or(a: Word, b: Word): Word { seq(64, k requires 0 <= k < 64 => a[k] || b[k]) }

  /** All bits from `n` on: every bit set, shifted left by `n`. */
  function AllFrom(n: nat): Word { seq(64, k => k >= n) }

  /** The lowest `n` bits: every bit set, shifted right by `64 - n`. */
  function AllBelow(n: nat): Word { seq(64, k => k < n) }

  predicate NoneSet(w: Word) { forall k :: 0 <= k < 64 ==> !w[k] }
  predicate AllSet(w: Word) { forall k :: 0 <= k < 64 ==> w[k] }

  /** The lowest bit with the given value, from bit `from` on; -1 if there is none. */
  function Lowest(w: Word, value: bool, from: nat): (r: int)
    requires from <= 64
    ensures r == -1 ==> forall k :: from <= k < 64 ==> w[k] != value
    ensures r != -1 ==> from <= r < 64 && w[r] == value && forall k :: from <= k < r ==> w[k] != value
    decreases 64 - from
  {
    if from == 64 then -1 else if w[from] == value then from else Lowest(w, value, from + 1)
  }

  /** Bit `i` of the bitmap. */
  function BitAt(bmap: seq<Word>, i: nat): bool
    requires i < 64 * |bmap|
  {
    bmap[i / 64][i % 64]
  }

  /** The bitmap as a sequence of bits. */
  function Bits(bmap: seq<Word>): seq<bool> {
    seq(64 * |bmap|, i requires 0 <= i < 64 * |bmap| => BitAt(bmap, i))
  }

  lemma WordBit(bmap: seq<Word>, w: nat, k: nat)
    requires w < |bmap| && k < 64
    ensures 64 * w + k < 64 * |bmap| && BitAt(bmap, 64 * w + k) == bmap[w][k]
  {
  }

  /** `r` is the next bit with the given value in `off .. size`, or there is none and `r` is -1. */
  ghost predicate IsNext(bits: seq<bool>, size: nat, off: nat, value: bool, r: int)
    requires size <= |bits|
  {
    if r == -1 then forall i :: off <= i < size ==> bits[i] != value
    else off <= r < size && bits[r] == value && forall i :: off <= i < r ==> bits[i] != value
  }

  /** No bit with the value in `lo .. hi`. */
  ghost predicate Skipped(bmap: seq<Word>, lo: nat, hi: nat, value: bool)
    requires hi <= 64 * |bmap|
  {
    forall i :: lo <= i < hi ==> BitAt(bmap, i) != value
  }

  /** `val` has bits `lo .. hi` of the word; its others read as the value not looked for. */
  predicate IsMasked(val: Word, w: Word, lo: nat, hi: nat, value: bool) {
    forall k :: 0 <= k < 64 ==> val[k] == if lo <= k < hi then w[k] else !value
  }

  lemma MaskSet(w: Word, lo: nat, hi: nat)
    requires lo <= hi <= 64
    ensures IsMasked(w, w, 0, 64, true) && IsMasked(And(w, AllFrom(lo)), w, lo, 64, true)
    ensures IsMasked(And(w, AllBelow(hi)), w, 0, hi, true)
    ensures IsMasked(And(And(w, AllFrom(lo)), AllBelow(hi)), w, lo, hi, true)
  {
  }

  lemma MaskClear(w: Word, lo: nat, hi: nat)
    requires lo <= hi <= 64
    ensures IsMasked(w, w, 0, 64, false) && IsMasked(Or(w, AllBelow(lo)), w, lo, 64, false)
    ensures IsMasked(Or(w, AllFrom(hi)), w, 0, hi, false)
    ensures IsMasked(Or(Or(w, AllBelow(lo)), AllFrom(hi)), w, lo, hi, false)
  {
  }

  /** What the search knows after the word at `pos`: the next bit, or that there is none up to `end`. */
  ghost predicate Scanned(bmap: seq<Word>, size: nat, off: nat, value: bool, end: nat, r: int)
    requires size <= 64 * |bmap| && end <= size
  {
    if r == -1 then Skipped(bmap, off, end, value) else IsNext(Bits(bmap), size, off, value, r)
  }

  /** Searches the masked word at `pos`. */
  method ScanWord(val: Word, pos: nat, value: bool, ghost bmap: seq<Word>, ghost size: nat, ghost off: nat,
        ghost lo: nat, ghost hi: nat)
    returns (r: int)
    requires size <= 64 * |bmap| && pos % 64 == 0 && pos / 64 < |bmap| && lo <= hi <= 64 && pos + hi <= size
    requires IsMasked(val, bmap[pos / 64], lo, hi, value)
    requires if off >= pos then off == pos + lo else lo == 0 && Skipped(bmap, off, pos, value)
    ensures Scanned(bmap, size, off, value, pos + hi, r)
  {
    if (if value then NoneSet(val) else AllSet(val)) { r := -1; } else { r := pos + Lowest(val, value, 0); }
    ghost var end := if r == -1 then pos + hi else r;
    forall i | off <= i < end ensures BitAt(bmap, i) != value {
      if i >= pos {
        WordBit(bmap, pos / 64, i - pos);
        assert val[i - pos] != value;
      }
    }
    if r != -1 { WordBit(bmap, pos / 64, r - pos); }
  }

  /** All words are through. */
  lemma NoMore(bmap: seq<Word>, size: nat, off: nat, value: bool, r: int)
    requires size <= 64 * |bmap| && Scanned(bmap, size, off, value, size, r)
    ensures IsNext(Bits(bmap), size, off, value, r)
  {
  }

  /** The word loop of `BitFindNextSet64` and its tail, from the word at `pos` on. */
  method SetFrom(bmap: array<Word>, size: nat, ghost off: nat, pos0: nat) returns (r: int)
    requires size <= 64 * bmap.Length && pos0 % 64 == 0 && pos0 <= size && off <= pos0
    requires Scanned(bmap[..], size, off, true, pos0, -1)
    ensures IsNext(Bits(bmap[..]), size, off, true, r)
  {
    var p, pos, left: nat := pos0 / 64, pos0, size - pos0;
    ghost var b := bmap[..];
    r := -1;
    while left >= 64
      invariant pos == 64 * p && pos + left == size && off <= pos && Scanned(b, size, off, true, pos, -1)
    {
      MaskSet(b[p], 0, 64);
      r := ScanWord(bmap[p], pos, true, b, size, off, 0, 64);
      if r != -1 { return; }
      p := p + 1;
      pos := pos + 64;
      left := left - 64;
    }
    if left != 0 {
      MaskSet(b[p], 0, left);
      r := ScanWord(And(bmap[p], AllBelow(left)), pos, true, b, size, off, 0, left);
    }
    NoMore(b, size, off, true, r);
  }

  /** `BitFindNextSet64`. */
  method BitFindNextSet64(bmap: array<Word>, size: nat, off: nat) returns (r: int)
    requires size <= 64 * bmap.Length
    ensures IsNext(Bits(bmap[..]), size, off, true, r)
  {
    if off >= size { return -1; }
    var p, pos := off / 64, off / 64 * 64;
    var left, o := size - pos, off % 64;
    ghost var b := bmap[..];
    if o != 0 {
      MaskSet(b[p], o, if left < 64 then left else 64);
      if left < 64 {
        r := ScanWord(And(And(bmap[p], AllFrom(o)), AllBelow(left)), pos, true, b, size, off, o, left);
        NoMore(b, size, off, true, r);
        return;
      }
      r := ScanWord(And(bmap[p], AllFrom(o)), pos, true, b, size, off, o, 64);
      if r != -1 { return; }
      pos := pos + 64;
    }
    r := SetFrom(bmap, size, off, pos);
  }

  /** The word loop of `BitFindNextClear64` and its tail, from the word at `pos` on. */
  method ClearFrom(bmap: array<Word>, size: nat, ghost off: nat, pos0: nat) returns (r: int)
    requires size <= 64 * bmap.Length && pos0 % 64 == 0 && pos0 <= size && off <= pos0
    requires Scanned(bmap[..], size, off, false, pos0, -1)
    ensures IsNext(Bits(bmap[..]), size, off, false, r)
  {
    var p, pos, left: nat := pos0 / 64, pos0, size - pos0;
    ghost var b := bmap[..];
    r := -1;
    while left >= 64
      invariant pos == 64 * p && pos + left == size && off <= pos && Scanned(b, size, off, false, pos, -1)
    {
      MaskClear(b[p], 0, 64);
      r := ScanWord(bmap[p], pos, false, b, size, off, 0, 64);
      if r != -1 { return; }
      p := p + 1;
      pos := pos + 64;
      left := left - 64;
    }
    if left != 0 {
      MaskClear(b[p], 0, left);
      r := ScanWord(Or(bmap[p], AllFrom(left)), pos, false, b, size, off, 0, left);
    }
    NoMore(b, size, off, false, r);
  }

  /** `BitFindNextClear64`. */
  method BitFindNextClear64(bmap: array<Word>, size: nat, off: nat) returns (r: int)
    requires size <= 64 * bmap.Length
    ensures IsNext(Bits(bmap[..]), size, off, false, r)
  {
    if off >= size { return -1; }
    var p, pos := off / 64, off / 64 * 64;
    var left, o := size - pos, off % 64;
    ghost var b := bmap[..];
    if o != 0 {
      MaskClear(b[p], o, if left < 64 then left else 64);
      if left < 64 {
        r := ScanWord(Or(Or(bmap[p], AllBelow(o)), AllFrom(left)), pos, false, b, size, off, o, left);
        NoMore(b, size, off, false, r);
        return;
      }
      r := ScanWord(Or(bmap[p], AllBelow(o)), pos, false, b, size, off, o, 64);
      if r != -1 { return; }
      pos := pos + 64;
    }
    r := ClearFrom(bmap, size, off, pos);
  }

  /** `x` as a signed 32-bit number. */
  function AsInt32(x: int): int {
    var low := x % U32;
    if low < I32 then low else low - U32
  }

  /** The first bit of a byte at or after bit `s`. */
  function ByteStart(s: nat): (r: nat)
    ensures r % 8 == 0 && s <= r < s + 8
  {
    (s + 7) / 8 * 8
  }

  /** Sets bits one by one up to `end`, but at most to the end of a byte. */
  method SetToByte(bmap: array<bool>, start: nat, end: nat) returns (s: nat)
    requires end <= bmap.Length || end <= start
    modifies bmap
    ensures s == if end <= start then start else if ByteStart(start) < end then ByteStart(start) else end
    ensures forall i :: 0 <= i < bmap.Length ==> bmap[i] == (old(bmap[i]) || start <= i < s)
  {
    s := start;
    while s < end && s % 8 != 0
      invariant start <= s && (s <= end || s == start) && s <= ByteStart(start)
      invariant forall i :: 0 <= i < bmap.Length ==> bmap[i] == (old(bmap[i]) || start <= i < s)
    {
      bmap[s] := true;
      s := s + 1;
    }
  }

  /** `BMAP_SET_BLOCK`, on 32-bit positions: sets bits `start ..` up to the end as it comes out in 32 bits; whole bytes
      are set at once. How many bits are left after the first byte is a signed number: 2^31 or more of them are not
      set at all. A block that ends before it starts sets nothing, unless the two are more than 2^31 apart. */
  method SetBlock(bmap: array<bool>, start: nat, size: nat)
    requires start < U32 && size < U32 && ((start + size) % U32 <= bmap.Length || (start + size) % U32 <= start)
    requires start - (start + size) % U32 <= I32
    modifies bmap
    ensures var end := (start + size) % U32; forall i :: 0 <= i < bmap.Length ==>
      bmap[i] == (old(bmap[i]) || (start <= i < end && (i < ByteStart(start) || end - ByteStart(start) < I32)))
  {
    var end := (start + size) % U32;
    var s := SetToByte(bmap, start, end);
    var len := AsInt32(end - s);
    if len <= 0 { return; }
    var bytes := len / 8;
    while bytes != 0
      invariant start <= s && bytes >= 0 && s + 8 * bytes <= end && end - s - 8 * bytes < 8
      invariant forall i :: 0 <= i < bmap.Length ==> bmap[i] == (old(bmap[i]) || start <= i < s)
    {
      SetByte(bmap, s);
      s := s + 8;
      bytes := bytes - 1;
    }
    while s < end
      invariant start <= s <= end
      invariant forall i :: 0 <= i < bmap.Length ==> bmap[i] == (old(bmap[i]) || start <= i < s)
    {
      bmap[s] := true;
      s := s + 1;
    }
  }

  /** So a block of 2^31 bits from bit 0 on is not set at all. */
  method SetNothing(bmap: array<bool>)
    requires bmap.Length == I32
    modifies bmap
    ensures forall i :: 0 <= i < bmap.Length ==> bmap[i] == old(bmap[i])
  {
    SetBlock(bmap, 0, I32);
  }

  /** Sets the byte of bits from `s` on. */
  method SetByte(bmap: array<bool>, s: nat)
    requires s + 8 <= bmap.Length
    modifies bmap
    ensures forall i :: 0 <= i < bmap.Length ==> bmap[i] == (old(bmap[i]) || s <= i < s + 8)
  {
    forall i | s <= i < s + 8 { bmap[i] := true; }
  }
}
