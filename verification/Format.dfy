/** What formatting writes for a block group, and what the first use of a lazily initialised group writes
    instead (src/format.rs, src/block_group/mod.rs).

    Both fill the block bitmap and the inode bitmap of the group; formatting also counts what is free
    for the group's descriptor and for the superblock. */
module Format {
  import opened Bitmap
  import opened Buddy

  /** The numbers that both read from the superblock.  A group has 8 * blkSize blocks. */
  datatype Volume = Volume(blkSize: nat, blocksCount: nat, firstDataBlock: nat, descBlocks: nat,
                           inodeBlocks: nat, inodesPerGroup: nat, groups: nat)
  {
    function PerGroup(): nat { 8 * blkSize }

    /** The last group is group groups - 1; every group before it is full. */
    ghost predicate Valid() {
      && blkSize > 0 && groups > 0 && firstDataBlock <= 1
      && PerGroup() * (groups - 1) < blocksCount - firstDataBlock <= PerGroup() * groups
      && inodesPerGroup <= PerGroup()
      && descBlocks + inodeBlocks + firstDataBlock + 4 <= PerGroup()
    }
  }

  // ---- the two bitmaps -----------------------------------------------------------------------------

  function Monus(a: nat, b: nat): nat { if a < b then 0 else a - b }

  /** `set_bitmap` on a range of positions. */
  method SetRange(a: array<Byte>, lo: nat, hi: nat)
    requires hi <= 8 * a.Length
    modifies a
    ensures a[..] == Ranged(old(a[..]), lo, hi)
  {
    hide FillBits;
    hide PutBit;
    var p := lo;
    ghost var b := a[..];
    while p < hi
      invariant lo <= p && (lo <= hi ==> p <= hi) && (hi <= lo ==> p == lo)
      invariant p <= hi ==> a[..] == Ranged(b, lo, p)
      invariant hi < p ==> a[..] == b
    {
      PutBitInPlace(a[..], p, true);
      RangedStep(b, lo, p);
      a[p / 8] := a[p / 8] | Mask(p % 8);
      p := p + 1;
    }
  }

  lemma {:induction false} RangedStep(b: seq<Byte>, lo: nat, p: nat)
    requires lo <= p < 8 * |b|
    ensures Ranged(b, lo, p + 1) == PutBit(Ranged(b, lo, p), p, true)
  {
    var count := p - lo;
    assert FillBits(b, lo, count + 1, true) == PutBit(FillBits(b, lo, count, true), lo + count, true);
  }

  function Ranged(b: seq<Byte>, lo: nat, hi: nat): (r: seq<Byte>)
    requires hi <= 8 * |b|
    ensures |r| == |b|
  {
    if lo < hi then FillBits(b, lo, hi - lo, true) else b
  }

  lemma {:induction false} RangedBit(b: seq<Byte>, lo: nat, hi: nat, p: nat)
    requires hi <= 8 * |b| && p < 8 * |b|
    ensures Bit(Ranged(b, lo, hi), p) <==> lo <= p < hi || Bit(b, p)
  {
    hide FillBits;
    hide Bit;
    if lo < hi {
      FillBitsFills(b, lo, hi - lo, true);
      assert Filled(b, FillBits(b, lo, hi - lo, true), lo, hi, true);
    }
  }

  function Zeroed(n: nat): (r: seq<Byte>)
    ensures |r| == n && forall i :: 0 <= i < n ==> r[i] == 0
  {
    seq(n, i requires 0 <= i < n => 0)
  }

  /** The block bitmap as `fill_bg` fills it: total is the number of blocks from this group on. */
  function EagerBlocks(vol: Volume, super: bool, total: nat): (r: seq<Byte>)
    requires vol.Valid()
    ensures |r| == vol.blkSize
  {
    var start := vol.firstDataBlock + vol.descBlocks + if super then 1 else 0;
    var b1 := if super then Ranged(Zeroed(vol.blkSize), 0, 1 + vol.firstDataBlock + vol.descBlocks)
              else Zeroed(vol.blkSize);
    var b2 := Ranged(b1, start + 1, start + 2 + vol.inodeBlocks + 1);
    Ranged(b2, Min(total, vol.PerGroup()), 8 * vol.blkSize)
  }

  /** The block bitmap as `verify` fills it at the first use of a group. */
  function LazyBlocks(vol: Volume, super: bool, bgid: nat): (r: seq<Byte>)
    requires vol.Valid() && Monus((bgid + 1) * vol.PerGroup(), vol.blocksCount) <= vol.PerGroup()
    ensures |r| == vol.blkSize
  {
    var base := vol.firstDataBlock + vol.descBlocks + 1 + if super then 1 else 0;
    var b1 := if super then Ranged(Zeroed(vol.blkSize), 0, 1 + vol.firstDataBlock + vol.descBlocks)
              else Zeroed(vol.blkSize);
    var b2 := Ranged(b1, base, base + 1 + vol.inodeBlocks + 1);
    var padBack := Monus((bgid + 1) * vol.PerGroup(), vol.blocksCount);
    Ranged(b2, vol.PerGroup() - padBack, 8 * vol.blkSize)
  }

  /** The part of `fill_bg` that fills a block bitmap, on a zeroed block. */
  method FillBlocks(a: array<Byte>, vol: Volume, super: bool, total: nat)
    requires vol.Valid() && a.Length == vol.blkSize && a[..] == Zeroed(vol.blkSize)
    modifies a
    ensures a[..] == EagerBlocks(vol, super, total)
  {
    hide Ranged;
    hide Zeroed;
    var start := vol.firstDataBlock + vol.descBlocks;
    if super {
      start := start + 1;
      SetRange(a, 0, 1 + vol.firstDataBlock + vol.descBlocks);
    }
    SetRange(a, start + 1, start + 2 + vol.inodeBlocks + 1);
    SetRange(a, Min(total, vol.PerGroup()), 8 * vol.blkSize);
  }

  /** The part of `verify` that fills a block bitmap, on a zeroed block. */
  method VerifyBlocks(a: array<Byte>, vol: Volume, super: bool, bgid: nat)
    requires vol.Valid() && a.Length == vol.blkSize && a[..] == Zeroed(vol.blkSize)
    requires Monus((bgid + 1) * vol.PerGroup(), vol.blocksCount) <= vol.PerGroup()
    modifies a
    ensures a[..] == LazyBlocks(vol, super, bgid)
  {
    hide Ranged;
    hide Zeroed;
    var base := vol.firstDataBlock + vol.descBlocks + 1;
    if super {
      base := base + 1;
      SetRange(a, 0, 1 + vol.firstDataBlock + vol.descBlocks);
    }
    SetRange(a, base, base + 1 + vol.inodeBlocks + 1);
    var padBack := Monus((bgid + 1) * vol.PerGroup(), vol.blocksCount);
    SetRange(a, vol.PerGroup() - padBack, 8 * vol.blkSize);
  }

  /** What is left of `total_blocks` when the loop of `fill_bg` comes to a group. */
  function TotalAt(vol: Volume, bgid: nat): nat { Monus(vol.blocksCount, bgid * vol.PerGroup()) }

  lemma {:induction false} GroupBounds(vol: Volume, bgid: nat)
    requires vol.Valid() && bgid < vol.groups
    ensures bgid * vol.PerGroup() < vol.blocksCount
    ensures (bgid + 1) * vol.PerGroup() == bgid * vol.PerGroup() + vol.PerGroup()
  {
    TimesMonotone(vol.PerGroup(), bgid, vol.groups - 1);
  }

  lemma {:induction false} TotalStep(vol: Volume, bgid: nat)
    requires vol.Valid() && bgid < vol.groups
    ensures TotalAt(vol, bgid + 1) == Monus(TotalAt(vol, bgid), vol.PerGroup())
  {
    GroupBounds(vol, bgid);
  }

  lemma {:induction false} TimesMonotone(d: nat, a: nat, b: nat)
    requires a <= b
    ensures a * d <= b * d && d * b == b * d
  {
    assert b * d == a * d + (b - a) * d;
  }

  /** Main result: the lazily built block bitmap is the one that formatting would have written. */
  lemma {:induction false} LazyEqualsEager(vol: Volume, super: bool, bgid: nat)
    requires vol.Valid() && bgid < vol.groups
    ensures Monus((bgid + 1) * vol.PerGroup(), vol.blocksCount) <= vol.PerGroup()
    ensures LazyBlocks(vol, super, bgid) == EagerBlocks(vol, super, TotalAt(vol, bgid))
  {
    GroupBounds(vol, bgid);
  }

  /** What a block bitmap says: the superblock and the descriptors, the two bitmaps and the inode
      table, and what lies behind the end of the volume. */
  predicate Used(vol: Volume, super: bool, pad: nat, p: nat) {
    var meta := vol.firstDataBlock + vol.descBlocks + 1 + if super then 1 else 0;
    || (super && p < 1 + vol.firstDataBlock + vol.descBlocks)
    || meta <= p < meta + 2 + vol.inodeBlocks
    || pad <= p
  }

  lemma {:induction false} EagerBit(vol: Volume, super: bool, total: nat, p: nat)
    requires vol.Valid() && p < 8 * vol.blkSize
    ensures Bit(EagerBlocks(vol, super, total), p) <==> Used(vol, super, Min(total, vol.PerGroup()), p)
  {
    hide Ranged;
    hide BitOf;
    var start := vol.firstDataBlock + vol.descBlocks + if super then 1 else 0;
    var b0 := Zeroed(vol.blkSize);
    var b1 := if super then Ranged(b0, 0, 1 + vol.firstDataBlock + vol.descBlocks) else b0;
    var b2 := Ranged(b1, start + 1, start + 2 + vol.inodeBlocks + 1);
    FullAndEmpty(p % 8);
    if super { RangedBit(b0, 0, 1 + vol.firstDataBlock + vol.descBlocks, p); }
    RangedBit(b1, start + 1, start + 2 + vol.inodeBlocks + 1, p);
    RangedBit(b2, Min(total, vol.PerGroup()), 8 * vol.blkSize, p);
  }

  /** Behind the end of the volume every bit is set, as building the free set from the bitmap needs. */
  lemma {:induction false} PadIsSet(vol: Volume, super: bool, total: nat)
    requires vol.Valid()
    ensures AllBits(EagerBlocks(vol, super, total), Min(total, vol.PerGroup()), 8 * vol.blkSize, true)
  {
    var b := EagerBlocks(vol, super, total);
    forall p | Min(total, vol.PerGroup()) <= p < 8 * |b|
      ensures Bit(b, p)
    {
      EagerBit(vol, super, total, p);
    }
  }

  // ---- free counts ---------------------------------------------------------------------------------

  /** `free_blocks`: what `fill_bg` writes into the descriptor. */
  function FreeBlocks(vol: Volume, super: bool, total: nat, last: bool): int {
    Min(total, vol.PerGroup()) - vol.inodeBlocks - (if last then 2 + vol.firstDataBlock else 2)
    - (if super then 1 + vol.descBlocks else 0)
  }

  /** The metadata of the group lies before the end of the volume. */
  ghost predicate LargeEnough(vol: Volume, super: bool, total: nat) {
    vol.firstDataBlock + vol.descBlocks + (if super then 1 else 0) + 3 + vol.inodeBlocks <= Min(total, vol.PerGroup())
  }

  lemma {:induction false} ZerosBelow(vol: Volume, super: bool, total: nat, n: nat)
    requires vol.Valid() && LargeEnough(vol, super, total) && n <= vol.PerGroup()
    ensures var head := if super then 1 + vol.firstDataBlock + vol.descBlocks else 0;
            var meta := vol.firstDataBlock + vol.descBlocks + 1 + if super then 1 else 0;
            var m := Min(n, Min(total, vol.PerGroup()));
            Zeros(EagerBlocks(vol, super, total), n) == m - Min(m, head) - Min(Monus(m, meta), 2 + vol.inodeBlocks)
    decreases n
  {
    hide EagerBlocks;
    if n > 0 {
      ZerosBelow(vol, super, total, n - 1);
      EagerBit(vol, super, total, n - 1);
    }
  }

  /** What a descriptor's free count has too many. */
  function Excess(vol: Volume, super: bool, last: bool): int {
    if vol.firstDataBlock == 0 then 0 else (if super then 1 else 0) - (if last then 1 else 0)
  }

  lemma {:induction false} FreeCountIs(vol: Volume, super: bool, total: nat, last: bool)
    requires vol.Valid() && LargeEnough(vol, super, total)
    ensures FreeBlocks(vol, super, total, last)
         == Zeros(EagerBlocks(vol, super, total), vol.PerGroup()) + Excess(vol, super, last)
  {
    ZerosBelow(vol, super, total, vol.PerGroup());
  }

  /** Main result: a descriptor's free count is the number of clear bits of the group's bitmap exactly
      when the first data block is 0, or the group holds a superblock exactly when it is the last. */
  lemma {:induction false} FreeCountIsZerosIff(vol: Volume, super: bool, total: nat, last: bool)
    requires vol.Valid() && LargeEnough(vol, super, total)
    ensures FreeBlocks(vol, super, total, last) == Zeros(EagerBlocks(vol, super, total), vol.PerGroup())
            <==> vol.firstDataBlock == 0 || super == last
  {
    FreeCountIs(vol, super, total, last);
  }

  /** It does differ: on a volume of two groups of 1024-byte blocks, the first group's superblock makes
      its descriptor count one block too many. */
  lemma {:induction false} FirstGroupCountsOneMore()
    ensures
      var vol := Volume(1024, 16385, 1, 1, 4, 32, 2);
      && vol.Valid() && LargeEnough(vol, true, 16385)
      && FreeBlocks(vol, true, 16385, false) == Zeros(EagerBlocks(vol, true, 16385), vol.PerGroup()) + 1
  {
    var vol := Volume(1024, 16385, 1, 1, 4, 32, 2);
    FreeCountIs(vol, true, 16385, false);
  }

  /** The clear bits of all groups from bgid on. */
  function ZerosFrom(vol: Volume, supers: seq<bool>, bgid: nat): nat
    requires vol.Valid() && |supers| == vol.groups && bgid <= vol.groups
    decreases vol.groups - bgid
  {
    if bgid == vol.groups then 0
    else Zeros(EagerBlocks(vol, supers[bgid], TotalAt(vol, bgid)), vol.PerGroup()) + ZerosFrom(vol, supers, bgid + 1)
  }

  /** How many of the groups from bgid on hold a superblock. */
  function SupersFrom(supers: seq<bool>, bgid: nat): nat
    requires bgid <= |supers|
    decreases |supers| - bgid
  {
    if bgid == |supers| then 0 else (if supers[bgid] then 1 else 0) + SupersFrom(supers, bgid + 1)
  }

  /** Main result: the loop of `fill_bg` leaves in each descriptor the number of clear bits of its own
      bitmap, and in the superblock that of all of them; only when the first data block is 1 there is
      one block more for each superblock, and one less for the last group. */
  method CountFree(vol: Volume, supers: seq<bool>) returns (sbFree: int, descFree: seq<int>)
    requires vol.Valid() && |supers| == vol.groups
    requires forall g :: 0 <= g < vol.groups ==> LargeEnough(vol, supers[g], TotalAt(vol, g))
    ensures sbFree == ZerosFrom(vol, supers, 0) + if vol.firstDataBlock == 0 then 0 else SupersFrom(supers, 0) - 1
    ensures |descFree| == vol.groups
    ensures forall g :: 0 <= g < vol.groups ==>
              descFree[g] == Zeros(EagerBlocks(vol, supers[g], TotalAt(vol, g)), vol.PerGroup())
                             + Excess(vol, supers[g], g == vol.groups - 1)
  {
    hide EagerBlocks;
    hide Zeros;
    hide FreeBlocks;
    hide LargeEnough;
    var total, bgid := vol.blocksCount, 0;
    assert TotalAt(vol, 0) == vol.blocksCount;
    sbFree, descFree := 0, [];
    while bgid < vol.groups
      invariant 0 <= bgid <= vol.groups == |supers| && total == TotalAt(vol, bgid)
      invariant sbFree + ZerosFrom(vol, supers, bgid)
             == ZerosFrom(vol, supers, 0)
                + if vol.firstDataBlock == 0 then 0
                  else SupersFrom(supers, 0) - SupersFrom(supers, bgid) - if bgid == vol.groups then 1 else 0
      invariant |descFree| == bgid
      invariant forall g :: 0 <= g < bgid ==>
                  descFree[g] == Zeros(EagerBlocks(vol, supers[g], TotalAt(vol, g)), vol.PerGroup())
                                 + Excess(vol, supers[g], g == vol.groups - 1)
    {
      FreeCountIs(vol, supers[bgid], total, bgid == vol.groups - 1);
      TotalStep(vol, bgid);
      var free := FreeBlocks(vol, supers[bgid], total, bgid == vol.groups - 1);
      total := Monus(total, vol.PerGroup());
      descFree := descFree + [free];
      sbFree := sbFree + free;
      bgid := bgid + 1;
    }
  }

  // ---- inode bitmaps -------------------------------------------------------------------------------

  /** The inode bitmap as `fill_bg` fills it; `verify` sets only what lies behind the last inode. */
  function EagerInodes(vol: Volume, bgid: nat): (r: seq<Byte>)
    requires vol.Valid() && vol.blkSize >= 2
    ensures |r| == vol.blkSize
  {
    var b := Zeroed(vol.blkSize);
    var b1 := if bgid == 0 then Ranged(Ranged(b, 0, 1), 2, 10) else b;
    Ranged(b1, vol.inodesPerGroup, 8 * vol.blkSize)
  }

  function LazyInodes(vol: Volume): (r: seq<Byte>)
    requires vol.Valid()
    ensures |r| == vol.blkSize
  {
    Ranged(Zeroed(vol.blkSize), vol.inodesPerGroup, 8 * vol.blkSize)
  }

  /** The inodes that formatting reserves in group 0 leave nine fewer free. */
  lemma {:induction false} InodeZeros(vol: Volume, bgid: nat, n: nat)
    requires vol.Valid() && vol.blkSize >= 2 && 10 <= vol.inodesPerGroup && n <= vol.PerGroup()
    ensures Zeros(EagerInodes(vol, bgid), n)
         == var m := Min(n, vol.inodesPerGroup); if bgid != 0 then m else m - Min(m, 1) - Min(Monus(m, 2), 8)
    decreases n
  {
    if n > 0 {
      InodeZeros(vol, bgid, n - 1);
      var b := Zeroed(vol.blkSize);
      var p := n - 1;
      FullAndEmpty(p % 8);
      RangedBit(b, 0, 1, p);
      RangedBit(Ranged(b, 0, 1), 2, 10, p);
      var b1 := if bgid == 0 then Ranged(Ranged(b, 0, 1), 2, 10) else b;
      RangedBit(b1, vol.inodesPerGroup, 8 * vol.blkSize, p);
    }
  }

  /** Main result: the free inode count of a descriptor is the number of clear bits of its inode
      bitmap, and a lazily built one is what formatting would have written. */
  lemma {:induction false} FreeInodesAreZeros(vol: Volume, bgid: nat)
    requires vol.Valid() && vol.blkSize >= 2 && 10 <= vol.inodesPerGroup
    ensures Zeros(EagerInodes(vol, bgid), vol.PerGroup()) == vol.inodesPerGroup - (if bgid == 0 then 9 else 0)
    ensures bgid != 0 ==> LazyInodes(vol) == EagerInodes(vol, bgid)
  {
    InodeZeros(vol, bgid, vol.PerGroup());
  }
}
