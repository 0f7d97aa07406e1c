/** The buddy allocator of free blocks (src/block/allocator.rs). */
module Buddy {
  import opened Wrappers

  // Free space is a collection of chunks, each 2^order blocks long.  The allocator keeps two
  // indexes over it: a set of chunk starts for each order (`buddies`), and a map from chunk
  // start to order (`backref`).  `Valid` says that the two agree, that chunks are aligned and that
  // they do not overlap; `Free` is the set of blocks they cover.

  // ---- powers of two -------------------------------------------------------------------------

  function Pow2(k: nat): (p: nat)
    ensures p > 0
  {
    if k == 0 then 1 else 2 * Pow2(k - 1)
  }

  lemma {:induction false} Pow2Monotone(a: nat, b: nat)
    requires a <= b
    ensures Pow2(a) <= Pow2(b)
    decreases b
  {
    if a < b {
      Pow2Monotone(a, b - 1);
    }
  }

  /** n is a multiple of 2^k, tested one bit at a time. */
  predicate Aligned(n: nat, k: nat) {
    k == 0 || (n % 2 == 0 && Aligned(n / 2, k - 1))
  }

  lemma {:induction false} AlignedIsMultiple(n: nat, k: nat)
    ensures Aligned(n, k) <==> exists m: nat :: n == Multiple(m, k)
  {
    if k == 0 {
      assert n == Multiple(n, 0);
    } else {
      AlignedIsMultiple(n / 2, k - 1);
      if Aligned(n, k) {
        var m: nat :| n / 2 == Multiple(m, k - 1);
        assert n == Multiple(m, k);
      }
      if m: nat :| n == Multiple(m, k) {
        MultipleIsAligned(m, k);
      }
    }
  }

  lemma {:induction false} MultipleIsAligned(m: nat, k: nat)
    ensures Aligned(Multiple(m, k), k)
  {
    if k > 0 {
      MultipleIsAligned(m, k - 1);
      var q := Multiple(m, k - 1);
      assert Multiple(m, k) == 2 * q && (2 * q) / 2 == q && (2 * q) % 2 == 0;
    }
  }

  ghost function Multiple(m: nat, k: nat): nat {
    if k == 0 then m else 2 * Multiple(m, k - 1)
  }

  /** Number of trailing zero bits of a 64-bit word; 64 for zero. */
  function TrailingZeros(n: nat): (k: nat)
  {
    if n == 0 then 64 else if n % 2 == 1 then 0 else TrailingZeros(n / 2) + 1
  }

  lemma {:induction false} AlignedToTrailingZeros(n: nat, k: nat)
    requires k <= TrailingZeros(n)
    ensures Aligned(n, k)
  {
    if n == 0 {
      if k > 0 { AlignedToTrailingZeros(0, k - 1); }
    } else if k > 0 {
      AlignedToTrailingZeros(n / 2, k - 1);
    }
  }

  /** Index of the highest set bit (`BITS - 1 - leading_zeros`). */
  function FloorLog2(n: nat): (k: nat)
    requires n > 0
    ensures Pow2(k) <= n < Pow2(k + 1)
  {
    if n == 1 then 0 else FloorLog2(n / 2) + 1
  }

  /** `BITS - leading_zeros`: the number of bits needed to write n. */
  function BitLength(n: nat): (k: nat)
    ensures n < Pow2(k)
    ensures k > 0 ==> Pow2(k - 1) <= n
  {
    if n == 0 then 0 else FloorLog2(n) + 1
  }

  // ---- runs and chunks -----------------------------------------------------------------------

  type Index = map<nat, nat>

  predicate InRun(start: nat, len: nat, b: nat) {
    start <= b < start + len
  }

  /** The blocks start, start + 1, ..., start + len - 1. */
  ghost function Run(start: nat, len: nat): set<nat> {
    set b | 0 <= b < start + len && InRun(start, len, b)
  }

  ghost predicate InChunk(backref: Index, s: nat, b: nat) {
    s in backref && s <= b < s + Pow2(backref[s])
  }

  ghost function FreeBlocks(backref: Index): set<nat> {
    set s, b | s in backref && b in Run(s, Pow2(backref[s])) :: b
  }

  lemma {:induction false} FreeBlocksIff(backref: Index, b: nat)
    ensures b in FreeBlocks(backref) <==> exists s :: InChunk(backref, s, b)
  {
    if b in FreeBlocks(backref) {
      var s :| s in backref && b in Run(s, Pow2(backref[s]));
      assert InChunk(backref, s, b);
    }
    if exists s :: InChunk(backref, s, b) {
      var s :| InChunk(backref, s, b);
      assert b in Run(s, Pow2(backref[s]));
    }
  }

  ghost predicate Apart(backref: Index, p: nat, q: nat)
    requires p in backref && q in backref
  {
    p + Pow2(backref[p]) <= q || q + Pow2(backref[q]) <= p
  }

  /** Chunks are no larger than the maximum order, aligned to their size, and pairwise disjoint. */
  ghost predicate WellFormed(backref: Index, maxOrder: nat) {
    && (forall p :: p in backref ==> backref[p] <= maxOrder && Aligned(p, backref[p]))
    && (forall p, q {:trigger Apart(backref, p, q)} :: p in backref && q in backref && p != q ==> Apart(backref, p, q))
  }

  ghost predicate BucketsAgree(buddies: seq<set<nat>>, backref: Index) {
    && (forall k, p :: 0 <= k < |buddies| && p in buddies[k] ==> p in backref && backref[p] == k)
    && (forall p :: p in backref ==> backref[p] < |buddies| && p in buddies[backref[p]])
  }

  /** Adding a chunk that is disjoint from the free set adds exactly its run. */
  lemma {:induction false} AddChunk(backref: Index, maxOrder: nat, start: nat, order: nat)
    requires WellFormed(backref, maxOrder)
    requires order <= maxOrder && Aligned(start, order)
    requires Run(start, Pow2(order)) !! FreeBlocks(backref)
    ensures start !in backref
    ensures WellFormed(backref[start := order], maxOrder)
    ensures FreeBlocks(backref[start := order]) == FreeBlocks(backref) + Run(start, Pow2(order))
  {
    var after := backref[start := order];
    assert start in Run(start, Pow2(order));
    if start in backref {
      assert InChunk(backref, start, start);
      FreeBlocksIff(backref, start);
    }
    forall q | q in backref
      ensures Apart(after, start, q)
    {
      if !Apart(after, start, q) {
        var b := if start <= q then q else start;
        assert b in Run(start, Pow2(order));
        assert InChunk(backref, q, b);
        FreeBlocksIff(backref, b);
      }
    }
    forall p, q | p in after && q in after && p != q
      ensures Apart(after, p, q)
    {
      if p != start && q != start {
        assert Apart(backref, p, q);
      }
    }
    forall b
      ensures b in FreeBlocks(after) <==> b in FreeBlocks(backref) + Run(start, Pow2(order))
    {
      FreeBlocksIff(after, b);
      FreeBlocksIff(backref, b);
      if exists s :: InChunk(after, s, b) {
        var s :| InChunk(after, s, b);
        if s != start { assert InChunk(backref, s, b); }
      }
      if exists s :: InChunk(backref, s, b) {
        var s :| InChunk(backref, s, b);
        assert InChunk(after, s, b);
      }
      if b in Run(start, Pow2(order)) { assert InChunk(after, start, b); }
    }
  }

  /** Removing a chunk removes exactly its run. */
  lemma {:induction false} RemoveChunk(backref: Index, maxOrder: nat, start: nat)
    requires WellFormed(backref, maxOrder)
    requires start in backref
    ensures WellFormed(backref - {start}, maxOrder)
    ensures Run(start, Pow2(backref[start])) <= FreeBlocks(backref)
    ensures FreeBlocks(backref - {start}) == FreeBlocks(backref) - Run(start, Pow2(backref[start]))
  {
    var after := backref - {start};
    forall p, q | p in after && q in after && p != q
      ensures Apart(after, p, q)
    {
      assert Apart(backref, p, q);
    }
    forall b
      ensures b in Run(start, Pow2(backref[start])) ==> b in FreeBlocks(backref)
      ensures b in FreeBlocks(after) <==> b in FreeBlocks(backref) && b !in Run(start, Pow2(backref[start]))
    {
      FreeBlocksIff(after, b);
      FreeBlocksIff(backref, b);
      if b in Run(start, Pow2(backref[start])) { assert InChunk(backref, start, b); }
      if exists s :: InChunk(after, s, b) {
        var s :| InChunk(after, s, b);
        assert InChunk(backref, s, b) && Apart(backref, s, start);
      }
      if exists s :: InChunk(backref, s, b) {
        var s :| InChunk(backref, s, b);
        if s != start { assert InChunk(after, s, b); }
      }
    }
  }

  // ---- the hint path -------------------------------------------------------------------------

  /** Total length of the consecutive free chunks that start at `at`, counting chunks until at
      least `want` blocks are covered or the next chunk is missing. */
  ghost function Chain(backref: Index, at: nat, want: int): (n: nat)
    decreases want
  {
    if want <= 0 || at !in backref then 0
    else Pow2(backref[at]) + Chain(backref, at + Pow2(backref[at]), want - Pow2(backref[at]))
  }

  /** The chain is made of whole chunks, so every block of it is free. */
  lemma {:induction false} ChainIsFree(backref: Index, at: nat, want: int)
    ensures Run(at, Chain(backref, at, want)) <= FreeBlocks(backref)
    decreases want
  {
    if want > 0 && at in backref {
      var len := Pow2(backref[at]);
      ChainIsFree(backref, at + len, want - len);
      forall b | b in Run(at, Chain(backref, at, want))
        ensures b in FreeBlocks(backref)
      {
        if b < at + len {
          assert InChunk(backref, at, b);
          FreeBlocksIff(backref, b);
        } else {
          assert b in Run(at + len, Chain(backref, at + len, want - len));
        }
      }
    }
  }

  /** Chunks before the chain do not influence its length. */
  lemma {:induction false} ChainFrame(before: Index, after: Index, at: nat, want: int)
    requires forall p :: p >= at ==> (p in before <==> p in after) && (p in before ==> before[p] == after[p])
    ensures Chain(before, at, want) == Chain(after, at, want)
    decreases want
  {
    if want > 0 && at in before {
      ChainFrame(before, after, at + Pow2(before[at]), want - Pow2(before[at]));
    }
  }

  /** The index without the chunks of the chain. */
  ghost function WithoutChain(backref: Index, at: nat, want: int): Index
    decreases want
  {
    if want <= 0 || at !in backref then backref
    else WithoutChain(backref - {at}, at + Pow2(backref[at]), want - Pow2(backref[at]))
  }

  lemma {:induction false} WithoutChainFrees(backref: Index, maxOrder: nat, at: nat, want: int)
    requires WellFormed(backref, maxOrder)
    ensures WellFormed(WithoutChain(backref, at, want), maxOrder)
    ensures FreeBlocks(WithoutChain(backref, at, want)) == FreeBlocks(backref) - Run(at, Chain(backref, at, want))
    decreases want
  {
    if want <= 0 || at !in backref {
      assert Run(at, 0) == {};
    } else {
      var len := Pow2(backref[at]);
      RemoveChunk(backref, maxOrder, at);
      WithoutChainFrees(backref - {at}, maxOrder, at + len, want - len);
      ChainFrame(backref, backref - {at}, at + len, want - len);
      RunSplit(FreeBlocks(backref), at, len, Chain(backref, at + len, want - len));
    }
  }

  /** Taking the first chunk of a chain leaves the rest of the chain in place. */
  lemma {:induction false} ChainAfterTake(backref: Index, at: nat, want: int)
    requires Chain(backref, at, want) > 0
    ensures want > 0 && at in backref
    ensures Chain(backref - {at}, at + Pow2(backref[at]), want - Pow2(backref[at]))
         == Chain(backref, at, want) - Pow2(backref[at])
    ensures WithoutChain(backref - {at}, at + Pow2(backref[at]), want - Pow2(backref[at]))
         == WithoutChain(backref, at, want)
  {
    ChainFrame(backref, backref - {at}, at + Pow2(backref[at]), want - Pow2(backref[at]));
  }

  lemma {:induction false} RunSplit(free: set<nat>, start: nat, a: nat, b: nat)
    ensures Run(start, a + b) == Run(start, a) + Run(start + a, b)
    ensures Run(start, a) !! Run(start + a, b)
    ensures free - Run(start, a) - Run(start + a, b) == free - Run(start, a + b)
    ensures Run(start, a + b) <= free ==> free - Run(start, a + b) + Run(start + a, b) == free - Run(start, a)
    ensures Run(start + a, b) !! free - Run(start, a + b)
  {
  }

  // ---- where chunks come from ----------------------------------------------------------------

  ghost predicate AddedChunk(after: Index, before: Index, start: nat, len: nat, p: nat)
    requires p in after
  {
    (p in before && after[p] == before[p]) || (start <= p && p + Pow2(after[p]) <= start + len)
  }

  /** Every new chunk lies in the run of len blocks from `start`. */
  ghost predicate AddedIn(after: Index, before: Index, start: nat, len: nat) {
    forall p :: p in after ==> AddedChunk(after, before, start, len, p)
  }

  ghost predicate Contains(before: Index, q: nat, p: nat, len: nat) {
    q in before && q <= p && p + len <= q + Pow2(before[q])
  }

  ghost predicate PartOf(before: Index, p: nat, len: nat) {
    exists q :: Contains(before, q, p, len)
  }

  /** Every chunk is a part of a chunk there was before. */
  ghost predicate Refines(after: Index, before: Index) {
    forall p :: p in after ==> PartOf(before, p, Pow2(after[p]))
  }

  lemma {:induction false} AddedOne(after: Index, before: Index, start: nat, len: nat, order: nat)
    requires AddedIn(after, before, start, len)
    ensures AddedIn(after[start + len := order], before, start, len + Pow2(order))
  {
    var longer := after[start + len := order];
    forall p | p in longer
      ensures AddedChunk(longer, before, start, len + Pow2(order), p)
    {
      if p != start + len { assert AddedChunk(after, before, start, len, p); }
    }
  }

  /** The chunks there were before are still there. */
  ghost predicate Extends(after: Index, before: Index) {
    forall p :: p in before ==> p in after && after[p] == before[p]
  }

  /** A chunk of order k at p cannot be twice as large: it has the largest order, or 64 if that is less, or
      p is not aligned to the double size, or that passes the end of the run. */
  ghost predicate AsLarge(maxOrder: nat, p: nat, k: nat, end: nat) {
    k >= Min(maxOrder, 64) || !Aligned(p, k + 1) || p + Pow2(k + 1) > end
  }

  ghost predicate LargestAt(after: Index, before: Index, maxOrder: nat, end: nat, p: nat)
    requires p in after
  {
    (p in before && after[p] == before[p]) || AsLarge(maxOrder, p, after[p], end)
  }

  /** Every new chunk is as large as it may be in a run that ends at `end`. */
  ghost predicate Largest(after: Index, before: Index, maxOrder: nat, end: nat) {
    forall p :: p in after ==> LargestAt(after, before, maxOrder, end, p)
  }

  lemma {:induction false} NotMoreAligned(n: nat)
    requires n > 0
    ensures !Aligned(n, TrailingZeros(n) + 1)
  {
    if n % 2 == 0 { NotMoreAligned(n / 2); }
  }

  lemma {:induction false} OrderIsLargest(maxOrder: nat, start: nat, size: nat)
    requires size > 0
    ensures AsLarge(maxOrder, start, Min(Min(TrailingZeros(start), FloorLog2(size)), maxOrder), start + size)
  {
    if start > 0 { NotMoreAligned(start); }
  }

  lemma {:induction false} SameIsLargest(backref: Index, maxOrder: nat, end: nat)
    ensures Extends(backref, backref) && Largest(backref, backref, maxOrder, end)
  {
    forall p | p in backref
      ensures LargestAt(backref, backref, maxOrder, end, p)
    {
    }
  }

  lemma {:induction false} LargestStep(after: Index, before: Index, maxOrder: nat, end: nat, start: nat, order: nat)
    requires Largest(after, before, maxOrder, end) && Extends(after, before) && start !in after
    requires AsLarge(maxOrder, start, order, end)
    ensures Largest(after[start := order], before, maxOrder, end) && Extends(after[start := order], before)
  {
    var more := after[start := order];
    forall p | p in more
      ensures LargestAt(more, before, maxOrder, end, p)
    {
      if p != start { assert LargestAt(after, before, maxOrder, end, p); }
    }
  }

  lemma {:induction false} LessAligned(n: nat, k: nat, j: nat)
    requires Aligned(n, k) && j <= k
    ensures Aligned(n, j)
  {
    if j > 0 { LessAligned(n / 2, k - 1, j - 1); }
  }

  /** Main result: an empty allocator that gets an aligned run of 2^k blocks, of an order that it has, holds
      it as one chunk, and grants a request for all of it. */
  lemma {:induction false} WholeRunIsGranted(backref: Index, maxOrder: nat, start: nat, k: nat,
      r: Option<(nat, nat)>, free': set<nat>)
    requires k <= Min(maxOrder, 64) && Aligned(start, k)
    requires WellFormed(backref, maxOrder) && FreeBlocks(backref) == Run(start, Pow2(k))
    requires AddedIn(backref, map[], start, Pow2(k)) && Largest(backref, map[], maxOrder, start + Pow2(k))
    requires Allocates(backref, Pow2(k), None, r, free')
    ensures backref == map[start := k]
    ensures r == Some((start, Pow2(k))) && free' == {}
  {
    assert start in Run(start, Pow2(k));
    FreeBlocksIff(backref, start);
    var p :| InChunk(backref, p, start);
    assert AddedChunk(backref, map[], start, Pow2(k), p);
    assert p == start && Pow2(backref[start]) <= Pow2(k);
    var j := backref[start];
    assert LargestAt(backref, map[], maxOrder, start + Pow2(k), start);
    if j > k { Pow2Monotone(k + 1, j); }
    if j < k {
      LessAligned(start, k, j + 1);
      Pow2Monotone(j + 1, k);
    }
    OnlyChunk(backref, maxOrder, start, k);
    assert Pow2(backref[start]) >= Pow2(k);
  }

  lemma {:induction false} OnlyChunk(backref: Index, maxOrder: nat, start: nat, k: nat)
    requires WellFormed(backref, maxOrder) && AddedIn(backref, map[], start, Pow2(k))
    requires start in backref && backref[start] == k
    ensures backref == map[start := k]
  {
    forall q | q in backref
      ensures q == start
    {
      assert AddedChunk(backref, map[], start, Pow2(k), q);
      assert q != start ==> Apart(backref, start, q);
    }
  }

  lemma {:induction false} NothingAdded(backref: Index, start: nat)
    ensures AddedIn(backref, backref, start, 0)
    ensures Run(start, 0) == {}
  {
  }

  lemma {:induction false} FewerRefine(after: Index, before: Index)
    requires forall p :: p in after ==> p in before && after[p] == before[p]
    ensures Refines(after, before)
  {
    forall p | p in after
      ensures PartOf(before, p, Pow2(after[p]))
    {
      assert Contains(before, p, p, Pow2(after[p]));
    }
  }

  /** Giving the rest of a chunk back. */
  lemma {:induction false} RestRefines(after: Index, before: Index, at: nat, size: nat)
    requires at in before && size <= Pow2(before[at])
    requires AddedIn(after, before - {at}, at + size, Pow2(before[at]) - size)
    ensures Refines(after, before)
  {
    forall p | p in after
      ensures PartOf(before, p, Pow2(after[p]))
    {
      assert AddedChunk(after, before - {at}, at + size, Pow2(before[at]) - size, p);
      assert Contains(before, p, p, Pow2(after[p])) || Contains(before, at, p, Pow2(after[p]));
    }
  }

  lemma {:induction false} WithoutChainRefines(backref: Index, at: nat, want: int)
    ensures forall p :: p in WithoutChain(backref, at, want) ==>
              p in backref && WithoutChain(backref, at, want)[p] == backref[p]
    decreases want
  {
    if want > 0 && at in backref {
      WithoutChainRefines(backref - {at}, at + Pow2(backref[at]), want - Pow2(backref[at]));
    }
  }

  // ---- the class -----------------------------------------------------------------------------

  /** How an allocation was satisfied when the hint did not apply: the chunk that was taken. */
  ghost predicate BestFit(backref: Index, size: nat, p: nat, len: nat)
  {
    p in backref &&
    var order := backref[p];
    && (forall q :: q in backref && backref[q] == order ==> p <= q)
    && if Pow2(order) >= size
       then len == size && (forall q :: q in backref && Pow2(backref[q]) >= size ==> order <= backref[q])
       else len == Pow2(order) && (forall q :: q in backref ==> backref[q] <= order)
  }

  /** What `TryAllocateAt` promises: the result, and the free set it leaves. */
  ghost predicate Allocates(backref: Index, size: nat, hope: Option<nat>,
                            r: Option<(nat, nat)>, free': set<nat>)
  {
    var free := FreeBlocks(backref);
    match r
    case None =>
      free == {} && free' == {}
    case Some((p, len)) =>
      if hope.Some? && Chain(backref, hope.value, size) > size / 2 then
        var chain := Chain(backref, hope.value, size);
        && p == hope.value
        && len == (if chain < size then chain else size)
        && free' == free - Run(p, chain)
      else
        && BestFit(backref, size, p, len)
        && free' == free - Run(p, len)
  }

  /** The chunks that an allocation leaves: all that were not taken, and of a chunk that was cut the rest, in
      chunks as large as they may be. */
  ghost predicate LeavesChunks(after: Index, before: Index, maxOrder: nat, size: nat, hope: Option<nat>,
                               r: Option<(nat, nat)>)
  {
    match r
    case None => after == before
    case Some((p, len)) =>
      if hope.Some? && Chain(before, hope.value, size) > size / 2 then after == WithoutChain(before, hope.value, size)
      else CutOut(after, before, maxOrder, p)
  }

  ghost predicate CutOut(after: Index, before: Index, maxOrder: nat, p: nat) {
    p in before && Extends(after, before - {p}) && Largest(after, before - {p}, maxOrder, p + Pow2(before[p]))
  }

  /** The blocks that a hinted allocation takes out of the free set without returning them: the
      part of the last chunk of the chain that lies beyond the requested size. */
  ghost function Surplus(backref: Index, size: nat, hope: Option<nat>): set<nat>
  {
    if hope.Some? && Chain(backref, hope.value, size) > size
    then Run(hope.value + size, Chain(backref, hope.value, size) - size)
    else {}
  }

  /** What a caller of the allocator may rely on.  The run returned is not empty, no longer than
      asked for, was free and is not free any more; nothing else leaves the free set except the
      surplus; and the allocator gives up only when nothing at all is free. */
  lemma {:induction false} AllocatedRun(backref: Index, maxOrder: nat, size: nat, hope: Option<nat>,
                     r: Option<(nat, nat)>, free': set<nat>)
    requires WellFormed(backref, maxOrder) && size > 0
    requires Allocates(backref, size, hope, r, free')
    ensures r.None? <==> FreeBlocks(backref) == {}
    ensures r.Some? ==>
      var (p, len) := r.value;
      && 0 < len <= size
      && Run(p, len) <= FreeBlocks(backref)
      && Surplus(backref, size, hope) <= FreeBlocks(backref)
      && Run(p, len) !! Surplus(backref, size, hope)
      && free' == FreeBlocks(backref) - Run(p, len) - Surplus(backref, size, hope)
      && (free' == FreeBlocks(backref) - Run(p, len)
          <==> !(hope.Some? && Chain(backref, hope.value, size) > size))
  {
    if r.Some? {
      var (p, len) := r.value;
      var free := FreeBlocks(backref);
      if hope.Some? && Chain(backref, hope.value, size) > size {
        assert p + size in Surplus(backref, size, hope);
      }
      if hope.Some? && Chain(backref, hope.value, size) > size / 2 {
        var chain := Chain(backref, hope.value, size);
        ChainIsFree(backref, p, size);
        if chain > size { RunSplit(free, p, size, chain - size); }
      } else {
        RemoveChunk(backref, maxOrder, p);
        RunSplit(free, p, len, Pow2(backref[p]) - len);
      }
      assert p in Run(p, len);
    }
  }

  /** The surplus is really lost: with one free chunk of four blocks, asking for three of them by
      hint returns blocks 0..2 and leaves block 3 neither returned nor free. */
  lemma {:induction false} HintLosesSurplus()
    ensures
      var backref: Index := map[0 := 2];
      && WellFormed(backref, 2)
      && FreeBlocks(backref) == Run(0, 4)
      && Allocates(backref, 3, Some(0), Some((0, 3)), {})
      && Surplus(backref, 3, Some(0)) == {3}
  {
    var backref: Index := map[0 := 2];
    assert Pow2(2) == 4 by { assert Pow2(1) == 2; }
    AlignedToTrailingZeros(0, 2);
    RemoveChunk(backref, 2, 0);
    assert backref - {0} == map[];
    assert FreeBlocks(map[]) == {};
    assert Chain(backref, 4, -1) == 0;
    assert Chain(backref, 0, 3) == 4;
    assert Run(3, 1) == {3};
  }

  class BlockGroupBuddy {
    const maxOrder: nat
    var buddies: seq<set<nat>>
    var backref: Index

    ghost predicate Valid()
      reads this
    {
      && |buddies| == maxOrder + 1
      && BucketsAgree(buddies, backref)
      && WellFormed(backref, maxOrder)
    }

    ghost function Free(): set<nat>
      reads this
    {
      FreeBlocks(backref)
    }

    constructor (maxOrder: nat)
      ensures Valid() && this.maxOrder == maxOrder && Free() == {}
    {
      this.maxOrder := maxOrder;
      buddies := seq(maxOrder + 1, _ => {});
      backref := map[];
    }

    method Insert(start: nat, order: nat)
      requires Valid() && order <= maxOrder
      requires Aligned(start, order)
      requires Run(start, Pow2(order)) !! Free()
      modifies this
      ensures Valid()
      ensures start !in old(backref) && backref == old(backref)[start := order]
      ensures Free() == old(Free()) + Run(start, Pow2(order))
    {
      AddChunk(backref, maxOrder, start, order);
      buddies := buddies[order := buddies[order] + {start}];
      backref := backref[start := order];
    }

    /** Cuts a run into aligned power-of-two chunks. */
    method PushChunk(start: nat, size: nat)
      requires Valid()
      requires Run(start, size) !! Free()
      modifies this
      ensures Valid()
      ensures Free() == old(Free()) + Run(start, size)
      ensures AddedIn(backref, old(backref), start, size)
      ensures Extends(backref, old(backref)) && Largest(backref, old(backref), maxOrder, start + size)
    {
      hide Run;
      hide WellFormed;
      hide BucketsAgree;
      hide FreeBlocks;
      hide AddedIn;
      hide TrailingZeros;
      hide Aligned;
      hide Extends;
      hide Largest;
      hide AsLarge;
      var start: nat, size: nat := start, size;
      ghost var start0, size0 := start, size;
      NothingAdded(backref, start0);
      SameIsLargest(backref, maxOrder, start0 + size0);
      while size > 0
        invariant Valid()
        invariant size >= 0 && start0 <= start && start + size == start0 + size0
        invariant Free() == old(Free()) + Run(start0, start - start0)
        invariant Run(start, size) !! Free()
        invariant AddedIn(backref, old(backref), start0, start - start0)
        invariant Extends(backref, old(backref)) && Largest(backref, old(backref), maxOrder, start0 + size0)
      {
        var tz := TrailingZeros(start);
        var order := Min(Min(tz, FloorLog2(size)), maxOrder);
        AlignedToTrailingZeros(start, order);
        Pow2Monotone(order, FloorLog2(size));
        RunSplit(Free(), start, Pow2(order), size - Pow2(order));
        RunSplit(Free(), start0, start - start0, Pow2(order));
        AddedOne(backref, old(backref), start0, start - start0, order);
        OrderIsLargest(maxOrder, start, size);
        ghost var before := backref;
        Insert(start, order);
        LargestStep(before, old(backref), maxOrder, start0 + size0, start, order);
        start, size := start + Pow2(order), size - Pow2(order);
      }
    }

    /** Takes a chunk out of both indexes. */
    method Take(start: nat) returns (order: nat)
      requires Valid() && start in backref
      modifies this
      ensures Valid()
      ensures order == old(backref)[start] && order <= maxOrder
      ensures backref == old(backref) - {start}
    {
      RemoveChunk(backref, maxOrder, start);
      order := backref[start];
      buddies := buddies[order := buddies[order] - {start}];
      backref := backref - {start};
    }

    method TryAllocateAt(size: nat, hope: Option<nat>) returns (r: Option<(nat, nat)>)
      requires Valid() && size > 0
      modifies this
      ensures Valid()
      ensures Allocates(old(backref), size, hope, r, Free())
      ensures Refines(backref, old(backref)) && LeavesChunks(backref, old(backref), maxOrder, size, hope, r)
    {
      if hope.Some? {
        var chain := 0;
        while chain < size
          invariant Chain(backref, hope.value, size) == chain + Chain(backref, hope.value + chain, size - chain)
        {
          if hope.value + chain in backref {
            chain := chain + Pow2(backref[hope.value + chain]);
          } else {
            break;
          }
        }
        assert chain == Chain(backref, hope.value, size);
        if chain > size / 2 {
          var granted := Min(chain, size);
          WithoutChainFrees(backref, maxOrder, hope.value, size);
          WithoutChainRefines(backref, hope.value, size);
          TakeChain(hope.value, size, chain);
          FewerRefine(backref, old(backref));
          return Some((hope.value, granted));
        }
      }
      r := TakeBestFit(size);
    }

    /** The removal loop of the hint path.  Its last branch would hand the surplus of a chunk back
        while `backref` is still locked; it is dead, because `chain` counts whole chunks. */
    method TakeChain(hope: nat, size: nat, chain: nat)
      requires Valid() && size > 0
      requires chain == Chain(backref, hope, size)
      modifies this
      ensures Valid()
      ensures backref == WithoutChain(old(backref), hope, size)
    {
      hide Run;
      hide FreeBlocks;
      hide WellFormed;
      hide BucketsAgree;
      var granted := Min(chain, size);
      var p: nat := 0;
      ghost var at: nat, want: int := hope, size;
      while p < granted
        invariant Valid()
        invariant p <= chain && at == hope + p && want == size - p
        invariant Chain(backref, at, want) == chain - p
        invariant WithoutChain(backref, at, want) == WithoutChain(old(backref), hope, size)
      {
        ChainAfterTake(backref, at, want);
        var order := Take(hope + p);
        at, want := at + Pow2(order), want - Pow2(order);
        if p + Pow2(order) <= chain {
          p := p + Pow2(order);
        } else {
          assert false;
        }
      }
    }

    /** The search without a hint: the smallest order that fits, else the largest one there is. */
    method TakeBestFit(size: nat) returns (r: Option<(nat, nat)>)
      requires Valid() && size > 0
      modifies this
      ensures Valid()
      ensures r.None? ==> old(Free()) == {} && Free() == {}
      ensures r.Some? ==> BestFit(old(backref), size, r.value.0, r.value.1)
      ensures r.Some? ==> Free() == old(Free()) - Run(r.value.0, r.value.1)
      ensures Refines(backref, old(backref))
      ensures if r.None? then backref == old(backref) else CutOut(backref, old(backref), maxOrder, r.value.0)
    {
      var minFitOrder := BitLength(size - 1);
      FitIff(backref, size, minFitOrder);
      var order := minFitOrder;
      while order <= maxOrder
        invariant minFitOrder <= order
        invariant forall q :: q in backref ==> !(minFitOrder <= backref[q] < order)
      {
        if buddies[order] != {} {
          var p := Least(buddies[order]);
          TakePart(p, size);
          return Some((p, size));
        }
        order := order + 1;
      }

      order := Min(minFitOrder, maxOrder + 1);
      while order > 0
        invariant order <= maxOrder + 1 && order <= minFitOrder
        invariant forall q :: q in backref ==> backref[q] < order
      {
        order := order - 1;
        if buddies[order] != {} {
          var p := Least(buddies[order]);
          RemoveChunk(backref, maxOrder, p);
          var _ := Take(p);
          FewerRefine(backref, old(backref));
          SameIsLargest(backref, maxOrder, p + Pow2(order));
          return Some((p, Pow2(order)));
        }
      }
      assert backref == map[];
      FewerRefine(backref, old(backref));
      return None;
    }

    /** Takes the chunk at `p` and gives all but its first `size` blocks back. */
    method TakePart(p: nat, size: nat)
      requires Valid() && p in backref && size <= Pow2(backref[p])
      modifies this
      ensures Valid()
      ensures Free() == old(Free()) - Run(p, size)
      ensures Refines(backref, old(backref)) && CutOut(backref, old(backref), maxOrder, p)
    {
      hide Run;
      hide Largest;
      hide Extends;
      hide FreeBlocks;
      hide WellFormed;
      hide BucketsAgree;
      hide AddedIn;
      hide Refines;
      RemoveChunk(backref, maxOrder, p);
      RunSplit(Free(), p, size, Pow2(backref[p]) - size);
      var order := Take(p);
      PushChunk(p + size, Pow2(order) - size);
      RestRefines(backref, old(backref), p, size);
    }
  }

  function Min(a: nat, b: nat): nat {
    if a < b then a else b
  }

  /** A chunk holds `size` blocks exactly when its order is at least the bit length of size - 1. */
  lemma {:induction false} FitIff(backref: Index, size: nat, minFitOrder: nat)
    requires size > 0 && minFitOrder == BitLength(size - 1)
    ensures forall q :: q in backref ==> (Pow2(backref[q]) >= size <==> backref[q] >= minFitOrder)
  {
    forall q | q in backref
      ensures Pow2(backref[q]) >= size <==> backref[q] >= minFitOrder
    {
      if backref[q] >= minFitOrder {
        Pow2Monotone(minFitOrder, backref[q]);
      } else {
        Pow2Monotone(backref[q], minFitOrder - 1);
      }
    }
  }

  /** The first element of an ordered set. */
  method Least(s: set<nat>) returns (m: nat)
    requires s != {}
    ensures m in s && forall x :: x in s ==> m <= x
  {
    m :| m in s;
    var rest := s - {m};
    while rest != {}
      invariant m in s && rest <= s
      invariant forall x :: x in s ==> x in rest || m <= x
      decreases rest
    {
      var x :| x in rest;
      rest := rest - {x};
      if x < m { m := x; }
    }
  }
}
