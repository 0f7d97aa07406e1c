/** What a successful write-back leaves in the counters, told from the events themselves: the counters move
    with the bits of the bitmaps (src/transaction/event.rs). */
module BatchEffect {
  import opened Wrappers
  import opened InodeTable
  import opened Writeback
  import Bitmap

  // ---- counting events -----------------------------------------------------------------------------

  predicate IsBlock(e: Event) { e.BlockAllocationOnBg? || e.BlockDeallocationOnBg? }

  predicate IsInode(e: Event) { e.InodeAllocationOnBg? || e.InodeDeallocationOnBg? }

  predicate InGroup(e: Event, g: GroupId) { (IsBlock(e) || IsInode(e)) && e.bgid == g }

  predicate NamesBitmap(e: Event, lba: Lba) { (IsBlock(e) || IsInode(e)) && e.bitmapLba == lba }

  /** The blocks that the events free in group g, less those that they allocate there. */
  function BlocksFreed(events: seq<Event>, g: GroupId): int {
    if events == [] then 0
    else
      var e := events[|events| - 1];
      BlocksFreed(events[..|events| - 1], g) +
      if !InGroup(e, g) then 0
      else if e.BlockDeallocationOnBg? then e.count else if e.BlockAllocationOnBg? then 0 - e.count else 0
  }

  /** The inodes that the events free in group g, less those that they allocate there. */
  function InodesFreed(events: seq<Event>, g: GroupId): int {
    if events == [] then 0
    else
      var e := events[|events| - 1];
      InodesFreed(events[..|events| - 1], g) +
      if !InGroup(e, g) then 0
      else if e.InodeDeallocationOnBg? then 1 else if e.InodeAllocationOnBg? then -1 else 0
  }

  /** The directories among the allocated inodes of group g, less those among the freed ones. */
  function DirsMade(events: seq<Event>, g: GroupId): int {
    if events == [] then 0
    else
      var e := events[|events| - 1];
      DirsMade(events[..|events| - 1], g) +
      if !InGroup(e, g) || !IsInode(e) || !e.isDirectory then 0 else if e.InodeAllocationOnBg? then 1 else -1
  }

  /** No counter of group g changes. */
  predicate Balanced(events: seq<Event>, g: GroupId) {
    BlocksFreed(events, g) == 0 && InodesFreed(events, g) == 0 && DirsMade(events, g) == 0
  }

  ghost predicate AllocatesInode(events: seq<Event>, g: GroupId, ofs: nat) {
    exists e :: e in events && e.InodeAllocationOnBg? && e.bgid == g && e.ofs == ofs
  }

  /** m is the largest index of an inode that the events allocate in group g. */
  ghost predicate IsMaxAlloc(events: seq<Event>, g: GroupId, m: Option<nat>) {
    && (m.Some? ==> AllocatesInode(events, g, m.value))
    && (forall e :: e in events && e.InodeAllocationOnBg? && e.bgid == g ==> m.Some? && e.ofs <= m.value)
  }

  lemma {:induction false} AllocStep(init: seq<Event>, e: Event, g: GroupId, m: Option<nat>)
    requires IsMaxAlloc(init, g, m)
    ensures var here := if e.InodeAllocationOnBg? && e.bgid == g then Some(e.ofs) else None;
            IsMaxAlloc(init + [e], g, MaxAlloc(m, here))
  {
    var here := if e.InodeAllocationOnBg? && e.bgid == g then Some(e.ofs) else None;
    var n := MaxAlloc(m, here);
    assert e in init + [e];
    if n.Some? {
      if n == here {
        assert e.ofs == n.value;
      } else {
        var d :| d in init && d.InodeAllocationOnBg? && d.bgid == g && d.ofs == m.value;
        assert d in init + [e];
      }
    }
  }

  /** The gathered delta of a group is what counting gives. */
  lemma {:induction false} TotalIsCounted(p: Params, events: seq<Event>, g: GroupId)
    ensures Total(p, events, g).None? ==> Balanced(events, g) && IsMaxAlloc(events, g, None)
    ensures Total(p, events, g).Some? ==>
              var d := Total(p, events, g).value;
              && d.freeBlocks == BlocksFreed(events, g) && d.freeInodes == InodesFreed(events, g)
              && d.usedDirs == DirsMade(events, g) && IsMaxAlloc(events, g, d.maxAlloc)
  {
    if events != [] {
      var init, e := events[..|events| - 1], events[|events| - 1];
      assert events == init + [e];
      TotalIsCounted(p, init, g);
      var was := Total(p, init, g);
      AllocStep(init, e, g, if was.Some? then was.value.maxAlloc else None);
    }
  }

  // ---- the groups ----------------------------------------------------------------------------------

  /** Main result: after a successful batch each counter of a group is what it was, changed by what the
      events count. */
  lemma {:induction false} CountersAreCounted(p: Params, disk: Disk, events: seq<Event>, g: GroupId)
    requires BatchOk(p, disk, events) && g in disk.groups
    ensures var was, now := disk.groups[g], Batch(p, disk, events).groups[g];
            && now.freeBlocks == was.freeBlocks + BlocksFreed(events, g)
            && now.freeInodes == was.freeInodes + InodesFreed(events, g)
            && now.usedDirs == was.usedDirs + DirsMade(events, g)
  {
    CompressedIsTotal(p, events, g);
    TotalIsCounted(p, events, g);
    assert g in Compressed(p, events).bgDeltas ==>
      SubmitGroup(p, disk.groups, g, Compressed(p, events).bgDeltas[g]).Some?;
  }

  /** Main result: a batch that changes a counter of a group leaves as many unused inodes at its end as
      there were, or as are behind the last one that it allocates, if they are fewer; one that changes no
      counter of the group leaves them as they were. */
  lemma {:induction false} UnusedIsLeast(p: Params, disk: Disk, events: seq<Event>, g: GroupId, m: Option<nat>)
    requires BatchOk(p, disk, events) && g in disk.groups && IsMaxAlloc(events, g, m)
    ensures var was, now := disk.groups[g].itableUnused, Batch(p, disk, events).groups[g].itableUnused;
            now == if Balanced(events, g) || m.None? || p.InodesInGroup(g) - 1 - m.value >= was then was
                   else p.InodesInGroup(g) - 1 - m.value
  {
    CompressedIsTotal(p, events, g);
    TotalIsCounted(p, events, g);
    assert g in Compressed(p, events).bgDeltas ==>
      SubmitGroup(p, disk.groups, g, Compressed(p, events).bgDeltas[g]).Some?;
    if Total(p, events, g).Some? { MaxIsUnique(events, g, m, Total(p, events, g).value.maxAlloc); }
    else { MaxIsUnique(events, g, m, None); }
  }

  lemma {:induction false} MaxIsUnique(events: seq<Event>, g: GroupId, m: Option<nat>, n: Option<nat>)
    requires IsMaxAlloc(events, g, m) && IsMaxAlloc(events, g, n)
    ensures m == n
  {
    if m.Some? { assert AllocatesInode(events, g, m.value); }
    if n.Some? { assert AllocatesInode(events, g, n.value); }
  }

  // ---- the bitmaps ---------------------------------------------------------------------------------

  /** The bits that an event edits. */
  predicate Edits(e: Event, lba: Lba, q: nat) {
    && NamesBitmap(e, lba)
    && if IsBlock(e) then e.ofs <= q < e.ofs + e.count else q == e.ofs
  }

  predicate Allocating(e: Event) { e.BlockAllocationOnBg? || e.InodeAllocationOnBg? }

  /** The number of bits that an event edits. */
  function EditCount(e: Event): nat
    requires IsBlock(e) || IsInode(e)
  {
    if IsBlock(e) then e.count else 1
  }

  function ClearBits(bitmaps: map<Lba, seq<bv8>>, lba: Lba): nat
    requires lba in bitmaps
  {
    Bitmap.Zeros(bitmaps[lba], 8 * |bitmaps[lba]|)
  }

  lemma {:induction false} EditedBits(bitmaps: map<Lba, seq<bv8>>, e: Event, lba: Lba)
    requires lba in bitmaps && EditBitmap(bitmaps, e).Some?
    ensures var r := EditBitmap(bitmaps, e).value;
            && lba in r && |r[lba]| == |bitmaps[lba]|
            && ClearBits(r, lba) == ClearBits(bitmaps, lba)
                 + (if !NamesBitmap(e, lba) then 0 else if Allocating(e) then 0 - EditCount(e) else EditCount(e))
            && forall q :: 0 <= q < 8 * |r[lba]| ==>
                 Bitmap.Bit(r[lba], q) == if Edits(e, lba, q) then Allocating(e) else Bitmap.Bit(bitmaps[lba], q)
  {
    hide Bitmap.Bit;
    if NamesBitmap(e, lba) {
      var n, v, b := EditCount(e), Allocating(e), bitmaps[lba];
      assert Edit(bitmaps, lba, e.ofs, n, v) == EditBitmap(bitmaps, e);
      Bitmap.FillBitsFills(b, e.ofs, n, v);
      Bitmap.ZerosOfFilled(b, Bitmap.FillBits(b, e.ofs, n, v), e.ofs, e.ofs + n, v, 8 * |b|);
    }
  }

  /** Main result: after a successful batch a bit is set when the last event about it allocates, clear when
      that frees, and as before when no event is about it.  Place k is behind that last event. */
  lemma {:induction false} LastEditDecides(bitmaps: map<Lba, seq<bv8>>, events: seq<Event>, lba: Lba, q: nat, k: nat)
    requires EditBitmaps(bitmaps, events).Some? && lba in bitmaps && q < 8 * |bitmaps[lba]|
    requires k <= |events| && forall i :: k <= i < |events| ==> !Edits(events[i], lba, q)
    requires k > 0 ==> Edits(events[k - 1], lba, q)
    ensures var r := EditBitmaps(bitmaps, events).value;
            && lba in r && |r[lba]| == |bitmaps[lba]|
            && Bitmap.Bit(r[lba], q) == if k > 0 then Allocating(events[k - 1]) else Bitmap.Bit(bitmaps[lba], q)
  {
    hide Bitmap.Bit;
    if events != [] {
      var init, e := events[..|events| - 1], events[|events| - 1];
      assert events == init + [e];
      var mid := EditBitmaps(bitmaps, init).value;
      BitmapsKept(bitmaps, init, lba);
      EditedBits(mid, e, lba);
      if k < |events| { LastEditDecides(bitmaps, init, lba, q, k); }
    }
  }

  lemma {:induction false} BitmapsKept(bitmaps: map<Lba, seq<bv8>>, events: seq<Event>, lba: Lba)
    requires EditBitmaps(bitmaps, events).Some? && lba in bitmaps
    ensures var r := EditBitmaps(bitmaps, events).value; lba in r && |r[lba]| == |bitmaps[lba]|
  {
    if events != [] {
      BitmapsKept(bitmaps, events[..|events| - 1], lba);
      EditedBits(EditBitmaps(bitmaps, events[..|events| - 1]).value, events[|events| - 1], lba);
    }
  }

  /** The edit of one more event succeeds exactly when its bits exist and are all in the other state. */
  lemma {:induction false} NextEditSucceedsIff(bitmaps: map<Lba, seq<bv8>>, init: seq<Event>, e: Event)
    requires EditBitmaps(bitmaps, init).Some?
    ensures var now := EditBitmaps(bitmaps, init).value;
            EditBitmaps(bitmaps, init + [e]).Some? <==>
              (IsBlock(e) || IsInode(e) ==>
                 && e.bitmapLba in now && e.ofs + EditCount(e) <= 8 * |now[e.bitmapLba]|
                 && forall q :: 0 <= q < 8 * |now[e.bitmapLba]| && Edits(e, e.bitmapLba, q) ==>
                      Bitmap.Bit(now[e.bitmapLba], q) == !Allocating(e))
  {
    hide Bitmap.Bit;
    assert (init + [e])[..|init|] == init;
    var now := EditBitmaps(bitmaps, init).value;
    if IsBlock(e) || IsInode(e) {
      assert EditBitmap(now, e) == Edit(now, e.bitmapLba, e.ofs, EditCount(e), Allocating(e));
      if e.bitmapLba in now && e.ofs + EditCount(e) <= 8 * |now[e.bitmapLba]| {
        assert forall q :: 0 <= q < 8 * |now[e.bitmapLba]| ==>
          (Edits(e, e.bitmapLba, q) <==> e.ofs <= q < e.ofs + EditCount(e));
      }
    }
  }

  /** Of all events, the block events of group g and no others name this bitmap. */
  ghost predicate BlockBitmap(events: seq<Event>, g: GroupId, lba: Lba) {
    forall e :: e in events ==> (NamesBitmap(e, lba) <==> IsBlock(e) && e.bgid == g)
  }

  /** Of all events, the inode events of group g and no others name this bitmap. */
  ghost predicate InodeMap(events: seq<Event>, g: GroupId, lba: Lba) {
    forall e :: e in events ==> (NamesBitmap(e, lba) <==> IsInode(e) && e.bgid == g)
  }

  lemma {:induction false} ClearBitsAreCounted(bitmaps: map<Lba, seq<bv8>>, events: seq<Event>, g: GroupId, lba: Lba)
    requires EditBitmaps(bitmaps, events).Some? && lba in bitmaps
    ensures lba in EditBitmaps(bitmaps, events).value
    ensures BlockBitmap(events, g, lba) ==>
              ClearBits(EditBitmaps(bitmaps, events).value, lba) == ClearBits(bitmaps, lba) + BlocksFreed(events, g)
    ensures InodeMap(events, g, lba) ==>
              ClearBits(EditBitmaps(bitmaps, events).value, lba) == ClearBits(bitmaps, lba) + InodesFreed(events, g)
  {
    hide ClearBits;
    if events != [] {
      var init, e := events[..|events| - 1], events[|events| - 1];
      assert events == init + [e] && e in events;
      assert forall d :: d in init ==> d in events;
      BitmapsKept(bitmaps, init, lba);
      ClearBitsAreCounted(bitmaps, init, g, lba);
      EditedBits(EditBitmaps(bitmaps, init).value, e, lba);
    }
  }

  /** Main result: the free block count of a group and the clear bits of its bitmap move together. */
  lemma {:induction false} BlocksFollowBits(p: Params, disk: Disk, events: seq<Event>, g: GroupId, lba: Lba)
    requires BatchOk(p, disk, events) && g in disk.groups && lba in disk.bitmaps && BlockBitmap(events, g, lba)
    ensures var r := Batch(p, disk, events);
            && g in r.groups && lba in r.bitmaps
            && r.groups[g].freeBlocks - ClearBits(r.bitmaps, lba)
               == disk.groups[g].freeBlocks - ClearBits(disk.bitmaps, lba)
  {
    CountersAreCounted(p, disk, events, g);
    ClearBitsAreCounted(disk.bitmaps, events, g, lba);
  }

  /** Main result: so do the free inode count and the clear bits of the inode bitmap. */
  lemma {:induction false} InodesFollowBits(p: Params, disk: Disk, events: seq<Event>, g: GroupId, lba: Lba)
    requires BatchOk(p, disk, events) && g in disk.groups && lba in disk.bitmaps && InodeMap(events, g, lba)
    ensures var r := Batch(p, disk, events);
            && g in r.groups && lba in r.bitmaps
            && r.groups[g].freeInodes - ClearBits(r.bitmaps, lba)
               == disk.groups[g].freeInodes - ClearBits(disk.bitmaps, lba)
  {
    CountersAreCounted(p, disk, events, g);
    ClearBitsAreCounted(disk.bitmaps, events, g, lba);
  }

  // ---- the superblock ------------------------------------------------------------------------------

  /** The free blocks of all groups below n. */
  function FreeBelow(groups: map<GroupId, Bg>, n: nat): nat {
    if n == 0 then 0 else FreeBelow(groups, n - 1) + if n - 1 in groups then groups[n - 1].freeBlocks else 0
  }

  function FreedBelow(events: seq<Event>, n: nat): int {
    if n == 0 then 0 else FreedBelow(events, n - 1) + BlocksFreed(events, n - 1)
  }

  /** The superblock's counters by counting: freed blocks less allocated ones, and the two kinds of inode
      events. */
  function AllFreed(events: seq<Event>): int {
    if events == [] then 0
    else
      var e := events[|events| - 1];
      AllFreed(events[..|events| - 1]) +
      if e.BlockDeallocationOnBg? then e.count else if e.BlockAllocationOnBg? then 0 - e.count else 0
  }

  function InodesCounted(events: seq<Event>): int {
    var freed: int, taken: int := multiset(events)[FreeInodesCountIncOnSb], multiset(events)[FreeInodesCountDecOnSb];
    freed - taken
  }

  lemma {:induction false} SbIsCounted(p: Params, events: seq<Event>)
    ensures var d := Compressed(p, events).sbDelta;
            if d.None? then AllFreed(events) == 0 && InodesCounted(events) == 0
            else d.value.freeBlocks == AllFreed(events) && d.value.freeInodes == InodesCounted(events)
  {
    if events != [] {
      var init, e := events[..|events| - 1], events[|events| - 1];
      assert events == init + [e];
      SbIsCounted(p, init);
      CompressedStep(p, init, e);
      assert InodesCounted(events) == InodesCounted(init)
        + if e == FreeInodesCountIncOnSb then 1 else if e == FreeInodesCountDecOnSb then -1 else 0;
    }
  }

  lemma {:induction false} FreedBelowStep(init: seq<Event>, e: Event, n: nat)
    ensures FreedBelow(init + [e], n) == FreedBelow(init, n) +
              if !IsBlock(e) || e.bgid >= n then 0 else if e.BlockDeallocationOnBg? then e.count else 0 - e.count
  {
    if n > 0 {
      FreedBelowStep(init, e, n - 1);
      assert (init + [e])[..|init|] == init;
    }
  }

  lemma {:induction false} NoneFreed(n: nat)
    ensures FreedBelow([], n) == 0
  {
    if n > 0 { NoneFreed(n - 1); }
  }

  lemma {:induction false} AllBelow(events: seq<Event>, n: nat)
    requires forall e :: e in events && IsBlock(e) ==> e.bgid < n
    ensures FreedBelow(events, n) == AllFreed(events)
  {
    if events == [] {
      NoneFreed(n);
    } else {
      var init, e := events[..|events| - 1], events[|events| - 1];
      assert events == init + [e] && e in events;
      assert forall d :: d in init ==> d in events;
      AllBelow(init, n);
      FreedBelowStep(init, e, n);
    }
  }

  lemma {:induction false} GroupsMove(p: Params, disk: Disk, events: seq<Event>, n: nat)
    requires BatchOk(p, disk, events)
    ensures FreeBelow(Batch(p, disk, events).groups, n) == FreeBelow(disk.groups, n) + FreedBelow(events, n)
  {
    hide BatchOk;
    hide Batch;
    if n > 0 {
      var g := n - 1;
      GroupsMove(p, disk, events, g);
      SameGroups(p, disk, events, g);
      if g in disk.groups { CountersAreCounted(p, disk, events, g); }
    }
  }

  lemma {:induction false} SameGroups(p: Params, disk: Disk, events: seq<Event>, g: GroupId)
    requires BatchOk(p, disk, events)
    ensures g in Batch(p, disk, events).groups <==> g in disk.groups
    ensures g !in disk.groups ==> Balanced(events, g)
  {
    CompressedIsTotal(p, events, g);
    TotalIsCounted(p, events, g);
    assert g in Compressed(p, events).bgDeltas ==>
      SubmitGroup(p, disk.groups, g, Compressed(p, events).bgDeltas[g]).Some?;
  }

  /** Main result: the superblock's free blocks change by the sum of the groups' changes, and its free inodes
      by one for each event about them.  All groups are below n. */
  lemma {:induction false} SuperblockFollowsGroups(p: Params, disk: Disk, events: seq<Event>, n: nat)
    requires BatchOk(p, disk, events)
    requires forall e :: e in events && IsBlock(e) ==> e.bgid < n
    ensures var r := Batch(p, disk, events);
            && r.sb.freeBlocks - disk.sb.freeBlocks == FreeBelow(r.groups, n) - FreeBelow(disk.groups, n)
            && r.sb.freeInodes - disk.sb.freeInodes == InodesCounted(events)
  {
    SbIsCounted(p, events);
    GroupsMove(p, disk, events, n);
    AllBelow(events, n);
  }

  // ---- what is asked of the inode table, and what is returned later --------------------------------

  /** A block event changes the inode's count of device blocks, by -1 for a deallocation whatever its
      length; an allocated inode is initialised; other operations are asked for as they come. */
  function AskedOps(p: Params, events: seq<Event>): seq<InodeOp> {
    if events == [] then []
    else
      var e := events[|events| - 1];
      AskedOps(p, events[..|events| - 1]) +
      if e.InodeOperation? then [e.op]
      else if e.BlockAllocationOnBg? then [SetBlock(e.ino, e.count)]
      else if e.BlockDeallocationOnBg? then [SetBlock(e.ino, -1)]
      else if e.InodeAllocationOnBg? then [Init(p.inodesPerGroup * e.bgid + e.ofs + 1)]
      else []
  }

  /** What was freed, in order. */
  function Returned(events: seq<Event>): seq<Postlude> {
    if events == [] then []
    else
      var e := events[|events| - 1];
      Returned(events[..|events| - 1]) +
      if e.BlockDeallocationOnBg? then [BlockDeallocation(e.bgid, e.ofs, e.count)]
      else if e.InodeDeallocationOnBg? then [InodeDeallocation(e.ino)]
      else []
  }

  lemma {:induction false} GatheredInOrder(p: Params, events: seq<Event>)
    ensures Compressed(p, events).inodeOps == AskedOps(p, events)
    ensures Compressed(p, events).postludes == Returned(events)
  {
    if events != [] {
      var init, e := events[..|events| - 1], events[|events| - 1];
      assert events == init + [e];
      GatheredInOrder(p, init);
      CompressedStep(p, init, e);
    }
  }

  // ---- when a batch succeeds -----------------------------------------------------------------------

  /** The counters of group g stay within 16 bits, or 32 on a wide volume, and no inode is allocated past
      the end of the group. */
  ghost predicate GroupFits(p: Params, disk: Disk, events: seq<Event>, g: GroupId) {
    && g in disk.groups
    && var was, limit := disk.groups[g], if p.wide then 0x1_0000_0000 else 0x1_0000;
       && 0 <= was.freeBlocks + BlocksFreed(events, g) < limit
       && 0 <= was.freeInodes + InodesFreed(events, g) < limit
       && 0 <= was.usedDirs + DirsMade(events, g) < limit
       && forall e :: e in events && e.InodeAllocationOnBg? && e.bgid == g ==>
            was.itableUnused <= p.InodesInGroup(g) && e.ofs < p.InodesInGroup(g)
  }

  ghost predicate SuperblockFits(p: Params, disk: Disk, events: seq<Event>) {
    && 0 <= disk.sb.freeInodes + InodesCounted(events) < 0x1_0000_0000
    && 0 <= disk.sb.freeBlocks + AllFreed(events) < if p.wide then 0x8000_0000_0000_0000 else 0x1_0000_0000
  }

  /** Main result: a batch succeeds exactly when each event finds its bits in the other state, the inode
      operations succeed, and the counters fit; a group whose counters do not change is not looked at. */
  lemma {:induction false} BatchSucceedsIff(p: Params, disk: Disk, events: seq<Event>)
    requires Sized(p, disk)
    ensures BatchOk(p, disk, events) <==>
              && EditBitmaps(disk.bitmaps, events).Some?
              && (forall g :: GroupGoes(p, disk, events, g))
              && ApplyOps(p.fmt, disk.inodes, AskedOps(p, events)).Some?
              && SuperblockFits(p, disk, events)
  {
    hide GroupGoes;
    hide CanSubmit;
    hide ApplySbDelta;
    hide SuperblockFits;
    hide AskedOps;
    hide Compressed;
    hide EditBitmaps;
    hide Sized;
    GatheredInOrder(p, events);
    CanSubmitIff(p, disk, events);
    SuperblockIff(p, disk, events);
  }

  /** A group whose counters do not change is not looked at; another one must fit. */
  ghost predicate GroupGoes(p: Params, disk: Disk, events: seq<Event>, g: GroupId) {
    !Balanced(events, g) ==> GroupFits(p, disk, events, g)
  }

  lemma {:induction false} SuperblockIff(p: Params, disk: Disk, events: seq<Event>)
    requires Sized(p, disk)
    ensures ApplySbDelta(p, disk.sb, Compressed(p, events).sbDelta).Some? <==> SuperblockFits(p, disk, events)
  {
    hide Compressed;
    hide AllFreed;
    SbIsCounted(p, events);
  }

  lemma {:induction false} CanSubmitIff(p: Params, disk: Disk, events: seq<Event>)
    ensures CanSubmit(p, disk.groups, Compressed(p, events).bgDeltas) <==>
              forall g :: GroupGoes(p, disk, events, g)
  {
    hide GroupFits;
    hide Balanced;
    hide SubmitGroup;
    hide Compressed;
    var deltas := Compressed(p, events).bgDeltas;
    forall g
      ensures (g in deltas ==> SubmitGroup(p, disk.groups, g, deltas[g]).Some?) <==> GroupGoes(p, disk, events, g)
    {
      SubmitsIff(p, disk, events, g);
    }
    if forall g :: GroupGoes(p, disk, events, g) {
      forall g | g in deltas
        ensures SubmitGroup(p, disk.groups, g, deltas[g]).Some?
      {
        assert GroupGoes(p, disk, events, g);
      }
    }
  }

  lemma {:induction false} SubmitsIff(p: Params, disk: Disk, events: seq<Event>, g: GroupId)
    ensures var deltas := Compressed(p, events).bgDeltas;
            (g in deltas ==> SubmitGroup(p, disk.groups, g, deltas[g]).Some?) <==> GroupGoes(p, disk, events, g)
  {
    hide Compressed;
    hide Total;
    hide BlocksFreed;
    hide InodesFreed;
    hide DirsMade;
    CompressedIsTotal(p, events, g);
    TotalIsCounted(p, events, g);
    if Total(p, events, g).Some? {
      var m := Total(p, events, g).value.maxAlloc;
      if m.Some? { assert AllocatesInode(events, g, m.value); }
    }
  }
}
