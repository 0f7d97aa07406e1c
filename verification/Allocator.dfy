/** The allocator's interface to transactions (src/block/allocator.rs, src/types.rs, src/block/mod.rs).

    It turns runs of logical blocks into events, each of them about the bitmap of one block group, and
    returns freed runs when they have been written.  Chunks of the free set lie in one group each;
    only an allocation at a hint may join chunks of two groups. */
module Allocator {
  import Bitmap
  import opened Buddy
  import opened Wrappers

  // ---- addressing --------------------------------------------------------------------------------

  /** The superblock fields that relate logical block numbers to block groups. */
  datatype Geometry = Geometry(blocksPerGroup: nat, firstDataBlock: nat, bgCount: nat)
  {
    ghost predicate Valid() {
      blocksPerGroup > 0
    }

    /** One past the last block of the last group. */
    function End(): nat {
      blocksPerGroup * bgCount + (if firstDataBlock == 0 then 0 else 1)
    }

    function IntoBgidIndex(lba: nat): (r: Option<(nat, nat)>)
      requires Valid()
    {
      var baddr := if firstDataBlock != 0 && lba != 0 then lba - 1 else lba;
      var bgid := baddr / blocksPerGroup;
      if bgid < bgCount then Some((bgid, baddr % blocksPerGroup)) else None
    }

    /** The place of a block in its group. */
    function Index(lba: nat): nat
      requires Valid()
    {
      (if firstDataBlock != 0 && lba != 0 then lba - 1 else lba) % blocksPerGroup
    }

    function FromBgidIndex(bgid: nat, index: nat): nat {
      if firstDataBlock == 0 then blocksPerGroup * bgid + index else blocksPerGroup * bgid + index + 1
    }
  }

  lemma {:induction false} MulBound(d: int, j: int)
    requires d > 0
    ensures j >= 1 ==> d * j >= d
    ensures j <= -1 ==> d * j <= -d
  {
  }

  lemma {:induction false} DivModUnique(d: nat, q: nat, r: nat)
    requires d > 0 && r < d
    ensures (d * q + r) / d == q && (d * q + r) % d == r
  {
    var k := (d * q + r) / d;
    assert d * (k - q) == r - (d * q + r) % d;
    MulBound(d, k - q);
  }

  lemma {:induction false} MulLess(d: nat, a: nat, b: nat)
    requires a < b
    ensures d * a + d <= d * b
    decreases b - a
  {
    assert d * b == d * (b - 1) + d;
    if a + 1 < b { MulLess(d, a, b - 1); }
  }

  /** A quotient below n is that of a number below d * n, and the other way round. */
  lemma {:induction false} QuotientBelow(d: nat, b: nat, n: nat)
    requires d > 0
    ensures b == d * (b / d) + b % d && b % d < d
    ensures b / d < n <==> b < d * n
  {
    if b / d < n {
      MulLess(d, b / d, n);
    } else if n < b / d {
      MulLess(d, n, b / d);
    }
  }

  /** Main result: addressing is a bijection between the blocks of the volume and the pairs of a group
      and an index below the group size.  Block 0 of a volume whose first data block is not 0 is
      outside it: it is addressed like block 1. */
  lemma {:induction false} AddressingRoundTrip(geo: Geometry, lba: nat, bgid: nat, index: nat)
    requires geo.Valid()
    ensures geo.IntoBgidIndex(lba).Some? ==>
              var (g, i) := geo.IntoBgidIndex(lba).value;
              && g < geo.bgCount && i < geo.blocksPerGroup
              && (geo.FromBgidIndex(g, i) == lba <==> (geo.firstDataBlock == 0 || lba > 0))
    ensures (geo.firstDataBlock == 0 || lba > 0) ==> (geo.IntoBgidIndex(lba).Some? <==> lba < geo.End())
    ensures bgid < geo.bgCount && index < geo.blocksPerGroup ==>
              geo.IntoBgidIndex(geo.FromBgidIndex(bgid, index)) == Some((bgid, index))
  {
    QuotientBelow(geo.blocksPerGroup, if geo.firstDataBlock != 0 && lba != 0 then lba - 1 else lba, geo.bgCount);
    if bgid < geo.bgCount && index < geo.blocksPerGroup { PairAddressed(geo, bgid, index); }
  }

  lemma {:induction false} PairAddressed(geo: Geometry, bgid: nat, index: nat)
    requires geo.Valid() && bgid < geo.bgCount && index < geo.blocksPerGroup
    ensures geo.IntoBgidIndex(geo.FromBgidIndex(bgid, index)) == Some((bgid, index))
  {
    DivModUnique(geo.blocksPerGroup, bgid, index);
  }

  // ---- events ------------------------------------------------------------------------------------

  datatype BgEvent =
    | BlockAllocationOnBg(ino: nat, bgid: nat, ofs: nat, count: nat)
    | BlockDeallocationOnBg(ino: nat, bgid: nat, ofs: nat, count: nat)
  {
    /** The event touches only bits of its own group's bitmap. */
    ghost predicate InGroup(geo: Geometry) {
      bgid < geo.bgCount && ofs + count <= geo.blocksPerGroup
    }

    ghost function Blocks(geo: Geometry): set<nat> {
      Run(geo.FromBgidIndex(bgid, ofs), count)
    }
  }

  /** The event list of an open transaction. */
  class Transaction {
    var events: seq<BgEvent>

    constructor ()
      ensures events == []
    {
      events := [];
    }

    method Push(e: BgEvent)
      modifies this
      ensures events == old(events) + [e]
    {
      events := events + [e];
    }
  }

  /** `events` frees the blocks of [lba, lba + size) for inode `ino`, each exactly once, cut at the
      group boundaries. */
  ghost predicate Frees(geo: Geometry, events: seq<BgEvent>, ino: nat, lba: nat, size: nat)
    decreases events
  {
    if events == [] then size == 0
    else
      var e := events[0];
      && e.BlockDeallocationOnBg? && e.ino == ino
      && e.InGroup(geo) && 0 < e.count <= size
      && geo.FromBgidIndex(e.bgid, e.ofs) == lba
      && (e.count < size ==> e.ofs + e.count == geo.blocksPerGroup)
      && Frees(geo, events[1..], ino, lba + e.count, size - e.count)
  }

  lemma {:induction false} FreesAppend(geo: Geometry, events: seq<BgEvent>, e: BgEvent, ino: nat, lba: nat, size: nat)
    requires Frees(geo, events, ino, lba, size)
    requires events != [] ==> events[|events| - 1].ofs + events[|events| - 1].count == geo.blocksPerGroup
    requires e.BlockDeallocationOnBg? && e.ino == ino && e.InGroup(geo) && e.count > 0
    requires geo.FromBgidIndex(e.bgid, e.ofs) == lba + size
    ensures Frees(geo, events + [e], ino, lba, size + e.count)
  {
    if events == [] {
      assert events + [e] == [e];
      assert [e][1..] == [];
    } else {
      if |events| == 1 { assert events[1..] == []; }
      FreesAppend(geo, events[1..], e, ino, lba + events[0].count, size - events[0].count);
      assert (events + [e])[1..] == events[1..] + [e];
      assert (events + [e])[0] == events[0];
    }
  }

  /** The blocks of all events together. */
  ghost function EventBlocks(geo: Geometry, events: seq<BgEvent>): set<nat> {
    if events == [] then {} else events[0].Blocks(geo) + EventBlocks(geo, events[1..])
  }

  /** A split deallocation frees exactly the run it was given, no block twice. */
  lemma {:induction false} FreesExactly(geo: Geometry, events: seq<BgEvent>, ino: nat, lba: nat, size: nat)
    requires Frees(geo, events, ino, lba, size)
    ensures EventBlocks(geo, events) == Run(lba, size)
    ensures events != [] ==> events[0].Blocks(geo) !! EventBlocks(geo, events[1..])
  {
    if events == [] {
      assert Run(lba, 0) == {};
    } else {
      var n := events[0].count;
      FreesExactly(geo, events[1..], ino, lba + n, size - n);
      RunSplit({}, lba, n, size - n);
    }
  }

  datatype FsError = FsFull

  predicate InVolume(geo: Geometry, b: nat) {
    (geo.firstDataBlock == 0 || b > 0) && b < geo.End()
  }

  // ---- chunks and groups ---------------------------------------------------------------------------

  /** A run of len blocks from p ends in the group it starts in. */
  ghost predicate FitsGroup(geo: Geometry, p: nat, len: nat)
    requires geo.Valid()
  {
    geo.Index(p) + len <= geo.blocksPerGroup
  }

  /** Every free chunk lies in one group. */
  ghost predicate Grouped(geo: Geometry, backref: Index)
    requires geo.Valid()
  {
    forall p :: p in backref ==> FitsGroup(geo, p, Pow2(backref[p]))
  }

  lemma {:induction false} PartFits(geo: Geometry, q: nat, whole: nat, p: nat, len: nat)
    requires geo.Valid() && FitsGroup(geo, q, whole)
    requires q <= p && p + len <= q + whole && len > 0
    ensures FitsGroup(geo, p, len)
  {
    var b := if geo.firstDataBlock != 0 && q != 0 then q - 1 else q;
    var c := if geo.firstDataBlock != 0 && p != 0 then p - 1 else p;
    ModShift(geo.blocksPerGroup, b, c - b);
  }

  lemma {:induction false} ModShift(d: nat, b: nat, k: nat)
    requires d > 0 && b % d + k < d
    ensures (b + k) % d == b % d + k
  {
    assert b == d * (b / d) + b % d;
    DivModUnique(d, b / d, b % d + k);
  }

  /** Cutting chunks keeps them in their groups. */
  lemma {:induction false} RefinedGrouped(geo: Geometry, after: Index, before: Index)
    requires geo.Valid() && Grouped(geo, before) && Refines(after, before)
    ensures Grouped(geo, after)
  {
    forall p | p in after
      ensures FitsGroup(geo, p, Pow2(after[p]))
    {
      assert PartOf(before, p, Pow2(after[p]));
      var q :| Contains(before, q, p, Pow2(after[p]));
      PartFits(geo, q, Pow2(before[q]), p, Pow2(after[p]));
    }
  }

  /** So does adding a run that lies in one group. */
  lemma {:induction false} AddedGrouped(geo: Geometry, after: Index, before: Index, start: nat, len: nat)
    requires geo.Valid() && Grouped(geo, before) && FitsGroup(geo, start, len) && AddedIn(after, before, start, len)
    ensures Grouped(geo, after)
  {
    forall p | p in after
      ensures FitsGroup(geo, p, Pow2(after[p]))
    {
      assert AddedChunk(after, before, start, len, p);
      if !(p in before && after[p] == before[p]) { PartFits(geo, start, len, p, Pow2(after[p])); }
    }
  }

  /** The chunks at the hint are enough to be taken, and what is taken of them passes the end of the
      group of the hint. */
  ghost predicate HintPassesEnd(geo: Geometry, backref: Index, size: nat, hope: nat)
    requires geo.Valid()
  {
    var chain := Chain(backref, hope, size);
    chain > size / 2 && geo.Index(hope) + Min(chain, size) > geo.blocksPerGroup
  }

  /** A run inside group bgid. */
  lemma {:induction false} PairFits(geo: Geometry, bgid: nat, ofs: nat, count: nat)
    requires geo.Valid() && bgid < geo.bgCount && ofs + count <= geo.blocksPerGroup
    ensures count > 0 ==> FitsGroup(geo, geo.FromBgidIndex(bgid, ofs), count)
    ensures forall b :: b in Run(geo.FromBgidIndex(bgid, ofs), count) ==> InVolume(geo, b)
  {
    if count > 0 { PairAddressed(geo, bgid, ofs); }
    MulLess(geo.blocksPerGroup, bgid, geo.bgCount);
  }

  // ---- the allocator -----------------------------------------------------------------------------

  class Allocator {
    const blkSize: nat
    const buddies: BlockGroupBuddy

    ghost predicate Valid()
      reads buddies
    {
      buddies.Valid()
    }

    /** The allocator holds blocks of this volume only, and no chunk crosses the end of a group. */
    ghost predicate Serves(geo: Geometry)
      requires geo.Valid()
      reads buddies
    {
      && Valid()
      && Grouped(geo, buddies.backref)
      && forall b :: b in buddies.Free() ==> InVolume(geo, b)
    }

    constructor (blkSize: nat)
      requires blkSize > 0
      ensures Valid() && fresh(buddies) && this.blkSize == blkSize && buddies.Free() == {}
      ensures buddies.maxOrder == TrailingOnes(blkSize - 1) + 2
      ensures (exists k :: blkSize == Pow2(k)) ==> Pow2(buddies.maxOrder) == 4 * blkSize
      ensures forall geo: Geometry :: geo.Valid() ==> Serves(geo)
    {
      this.blkSize := blkSize;
      buddies := new BlockGroupBuddy(TrailingOnes(blkSize - 1) + 2);
      new;
      if k :| blkSize == Pow2(k) { TrailingOnesOfPow2(k); }
      forall p | p in buddies.backref
        ensures p in buddies.Free()
      {
        assert InChunk(buddies.backref, p, p);
        FreeBlocksIff(buddies.backref, p);
      }
    }

    method Allocate(ino: nat, geo: Geometry, size: nat, hope: nat, tx: Transaction)
      returns (r: Result<(nat, nat), FsError>)
      requires size > 0 && blkSize > 0 && geo.Valid() && Serves(geo)
      modifies buddies, tx
      ensures Serves(geo)
      ensures r.Err? ==> old(buddies.Free()) == {} && buddies.Free() == {} && tx.events == old(tx.events)
      ensures r.Ok? ==>
        var (lba, count) := r.value;
        && geo.IntoBgidIndex(lba).Some?
        && Allocates(old(buddies.backref), Min(size, blkSize * 4), Some(hope), Some((lba, count)), buddies.Free())
        && var (bgid, ofs) := geo.IntoBgidIndex(lba).value;
           && tx.events == old(tx.events) + [BlockAllocationOnBg(ino, bgid, ofs, count)]
           && (BlockAllocationOnBg(ino, bgid, ofs, count).InGroup(geo)
               <==> !HintPassesEnd(geo, old(buddies.backref), Min(size, blkSize * 4), hope))
    {
      var want := Min(size, blkSize * 4);
      ghost var before := buddies.backref;
      assert forall b :: b in FreeBlocks(before) ==> InVolume(geo, b);
      var a := buddies.TryAllocateAt(want, Some(hope));
      AllocatedRun(before, buddies.maxOrder, want, Some(hope), a, buddies.Free());
      RefinedGrouped(geo, buddies.backref, before);
      if a.None? {
        return Err(FsFull);
      }
      var (lba, granted) := a.value;
      assert lba in Run(lba, granted);
      assert InVolume(geo, lba);
      AddressingRoundTrip(geo, lba, 0, 0);
      assert geo.IntoBgidIndex(lba).Some?;
      var (bgid, index) := geo.IntoBgidIndex(lba).value;
      EventCrossesGroupOnlyByHint(geo, before, buddies.maxOrder, want, hope, lba, granted, buddies.Free(), ino);
      tx.Push(BlockAllocationOnBg(ino, bgid, index, granted));
      return Ok((geo.FromBgidIndex(bgid, index), granted));
    }

    /** The first use of group bgid: its free blocks are read from its bitmap. */
    method AddGroup(bitmap: seq<Bitmap.Byte>, blocksCount: nat, bgid: nat, geo: Geometry)
      requires geo.Valid() && Serves(geo) && bgid < geo.bgCount
      requires blocksCount <= geo.blocksPerGroup && blocksCount <= 8 * |bitmap|
      requires Bitmap.AllBits(bitmap, blocksCount, 8 * |bitmap|, true)
      requires Bitmap.ClearBlocks(bitmap, geo.FromBgidIndex(bgid, 0), blocksCount) !! buddies.Free()
      modifies buddies
      ensures Serves(geo)
      ensures buddies.Free()
           == old(buddies.Free()) + Bitmap.ClearBlocks(bitmap, geo.FromBgidIndex(bgid, 0), blocksCount)
      ensures Extends(buddies.backref, old(buddies.backref))
      ensures Bitmap.LargestClear(buddies.backref, old(buddies.backref), buddies.maxOrder,
                                  Bitmap.ClearBlocks(bitmap, geo.FromBgidIndex(bgid, 0), blocksCount))
    {
      ghost var before, base := buddies.backref, geo.FromBgidIndex(bgid, 0);
      PairFits(geo, bgid, 0, blocksCount);
      Bitmap.BuildBuddy(bitmap, blocksCount, geo.FromBgidIndex(bgid, 0), buddies);
      if blocksCount > 0 { AddedGrouped(geo, buddies.backref, before, base, blocksCount); }
    }

    /** `apply_deallocation_on_core`: a postlude returns a run that was freed in group bgid. */
    method ApplyDeallocation(bgid: nat, ofs: nat, count: nat, geo: Geometry)
      requires geo.Valid() && Serves(geo) && bgid < geo.bgCount && ofs + count <= geo.blocksPerGroup
      requires Run(geo.FromBgidIndex(bgid, ofs), count) !! buddies.Free()
      modifies buddies
      ensures Serves(geo)
      ensures buddies.Free() == old(buddies.Free()) + Run(geo.FromBgidIndex(bgid, ofs), count)
      ensures Extends(buddies.backref, old(buddies.backref))
      ensures Largest(buddies.backref, old(buddies.backref), buddies.maxOrder, geo.FromBgidIndex(bgid, ofs) + count)
    {
      ghost var before := buddies.backref;
      PairFits(geo, bgid, ofs, count);
      if count > 0 {
        buddies.PushChunk(geo.FromBgidIndex(bgid, ofs), count);
        AddedGrouped(geo, buddies.backref, before, geo.FromBgidIndex(bgid, ofs), count);
      } else {
        assert Run(geo.FromBgidIndex(bgid, ofs), 0) == {};
        SameIsLargest(before, buddies.maxOrder, geo.FromBgidIndex(bgid, ofs) + count);
      }
    }

    /** Only records events; the free set is updated after the write, by a postlude. */
    method Deallocate(ino: nat, lba: nat, size: nat, geo: Geometry, tx: Transaction)
      requires geo.Valid() && (geo.firstDataBlock == 0 || lba > 0) && lba + size <= geo.End()
      modifies tx
      ensures old(tx.events) <= tx.events
      ensures Frees(geo, tx.events[|old(tx.events)|..], ino, lba, size)
    {
      hide EventBlocks;
      hide Grouped;
      hide FitsGroup;
      hide Run;
      var at: nat, rest: nat := lba, size;
      ghost var n := |tx.events|;
      while rest > 0
        invariant at + rest == lba + size && lba <= at
        invariant n <= |tx.events| && tx.events[..n] == old(tx.events)
        invariant Frees(geo, tx.events[n..], ino, lba, at - lba)
        invariant rest > 0 && |tx.events| > n ==>
                    var last := tx.events[|tx.events| - 1]; last.ofs + last.count == geo.blocksPerGroup
      {
        AddressingRoundTrip(geo, at, 0, 0);
        var (bgid, ofs) := geo.IntoBgidIndex(at).value;
        var count := Min(geo.blocksPerGroup - ofs, rest);
        var e := BlockDeallocationOnBg(ino, bgid, ofs, count);
        FreesAppend(geo, tx.events[n..], e, ino, lba, at - lba);
        assert (tx.events + [e])[n..] == tx.events[n..] + [e];
        tx.Push(e);
        rest := rest - count;
        at := at + count;
      }
    }
  }

  function TrailingOnes(n: nat): nat {
    if n % 2 == 1 then TrailingOnes(n / 2) + 1 else 0
  }

  lemma {:induction false} TrailingOnesAligned(n: nat)
    ensures Aligned(n + 1, TrailingOnes(n)) && !Aligned(n + 1, TrailingOnes(n) + 1)
  {
    if n % 2 == 1 {
      TrailingOnesAligned(n / 2);
      assert (n + 1) / 2 == n / 2 + 1;
    }
  }

  lemma {:induction false} TrailingOnesOfPow2(k: nat)
    ensures TrailingOnes(Pow2(k) - 1) == k
  {
    if k > 0 {
      TrailingOnesOfPow2(k - 1);
      assert (Pow2(k) - 1) / 2 == Pow2(k - 1) - 1;
    }
  }

  // ---- group boundaries ----------------------------------------------------------------------------

  lemma {:induction false} MultipleIsProduct(m: nat, k: nat)
    ensures Multiple(m, k) == Pow2(k) * m
  {
    if k > 0 {
      MultipleIsProduct(m, k - 1);
      assert Multiple(m, k) == 2 * (Pow2(k - 1) * m) == Pow2(k) * m;
    }
  }

  /** A chunk never crosses a group boundary when the group size is a multiple of the chunk. */
  lemma {:induction false} ChunkInGroup(bpg: nat, p: nat, order: nat)
    requires bpg > 0 && Aligned(p, order) && Aligned(bpg, order)
    ensures p % bpg + Pow2(order) <= bpg
  {
    AlignedIsMultiple(p, order);
    AlignedIsMultiple(bpg, order);
    var m: nat :| p == Multiple(m, order);
    var n: nat :| bpg == Multiple(n, order);
    MultipleIsProduct(m, order);
    MultipleIsProduct(n, order);
    MultipleInMultiple(Pow2(order), m, n);
  }

  lemma {:induction false} MultipleInMultiple(d: nat, m: nat, n: nat)
    requires d > 0 && d * n > 0
    ensures (d * m) % (d * n) + d <= d * n
  {
    var q, r := (d * m) / (d * n), (d * m) % (d * n);
    var j := m - n * q;
    assert (d * n) * q == d * (n * q);
    assert r == d * j;
    MulBound(d, n - j);
  }

  /** The event of an allocation stays in its group, unless the run was taken at the hint and
      reaches past the end of the hint's group; then it names bits that its bitmap does not have. */
  lemma {:induction false} EventCrossesGroupOnlyByHint(geo: Geometry, backref: Index, maxOrder: nat, size: nat,
      hope: nat, lba: nat, count: nat, free': set<nat>, ino: nat)
    requires geo.Valid() && Grouped(geo, backref)
    requires WellFormed(backref, maxOrder) && size > 0
    requires Allocates(backref, size, Some(hope), Some((lba, count)), free')
    requires InVolume(geo, lba)
    ensures geo.IntoBgidIndex(lba).Some?
    ensures var (bgid, ofs) := geo.IntoBgidIndex(lba).value;
            BlockAllocationOnBg(ino, bgid, ofs, count).InGroup(geo) <==> !HintPassesEnd(geo, backref, size, hope)
  {
    AddressingRoundTrip(geo, lba, 0, 0);
    if Chain(backref, hope, size) <= size / 2 {
      assert FitsGroup(geo, lba, Pow2(backref[lba]));
    }
  }

  /** It does happen: two free chunks on both sides of a boundary, and a hint at the first. */
  lemma {:induction false} HintCrossesGroup(ino: nat)
    ensures
      var geo := Geometry(4, 0, 2);
      var backref: Index := map[2 := 1, 4 := 1];
      && WellFormed(backref, 1) && Aligned(geo.blocksPerGroup, 1)
      && Allocates(backref, 4, Some(2), Some((2, 4)), FreeBlocks(backref) - Run(2, 4))
      && geo.IntoBgidIndex(2) == Some((0, 2))
      && !BlockAllocationOnBg(ino, 0, 2, 4).InGroup(geo)
  {
    var backref: Index := map[2 := 1, 4 := 1];
    assert Pow2(1) == 2 && Aligned(2, 1) && Aligned(4, 1);
    assert Chain(backref, 6, 0) == 0;
    assert Chain(backref, 4, 2) == 2;
    assert Chain(backref, 2, 4) == 4;
  }
}
