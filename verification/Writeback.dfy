/** Writing a transaction back: its events are compressed into one delta per block group, one superblock
    delta and a list of inode operations, and these are flushed (src/transaction/event.rs). */
module Writeback {
  import opened Wrappers
  import opened InodeTable
  import Bitmap

  // The main result compares this with writing the events back one at a time.

  type GroupId = nat
  type Lba = nat

  datatype Event =
    | BlockAllocationOnBg(ino: Ino, bgid: GroupId, bitmapLba: Lba, ofs: nat, count: nat)
    | BlockDeallocationOnBg(ino: Ino, bgid: GroupId, bitmapLba: Lba, ofs: nat, count: nat)
    | InodeAllocationOnBg(bgid: GroupId, bitmapLba: Lba, ofs: nat, isDirectory: bool)
    | InodeDeallocationOnBg(ino: Ino, bgid: GroupId, bitmapLba: Lba, ofs: nat, isDirectory: bool)
    | InodeOperation(op: InodeOp)
    | FreeInodesCountDecOnSb
    | FreeInodesCountIncOnSb

  datatype Postlude =
    | BlockDeallocation(bgid: GroupId, ofs: nat, count: nat)
    | InodeDeallocation(ino: Ino)

  datatype BgDelta = BgDelta(freeBlocks: int, freeInodes: int, usedDirs: int, maxAlloc: Option<nat>)

  datatype SbDelta = SbDelta(freeInodes: int, freeBlocks: int)

  /** What compression produces, besides the bitmaps it edits on the way. */
  datatype Group = Group(bgDeltas: map<GroupId, BgDelta>, sbDelta: Option<SbDelta>, inodeOps: seq<InodeOp>,
                         postludes: seq<Postlude>)

  const EMPTY := Group(map[], None, [], [])

  // ---- the device --------------------------------------------------------------------------------

  datatype Bg = Bg(freeBlocks: nat, freeInodes: nat, usedDirs: nat, itableUnused: nat)

  datatype Sb = Sb(freeInodes: nat, freeBlocks: nat)

  datatype Disk = Disk(bitmaps: map<Lba, seq<bv8>>, groups: map<GroupId, Bg>, sb: Sb, inodes: InodeState)

  /** Parameters of the volume.  wide: descriptors and superblock have their 64-bit halves. */
  datatype Params = Params(fmt: Format, inodesPerGroup: nat, inodesCount: nat, groupsCount: nat, wide: bool)
  {
    function InodesInGroup(g: GroupId): int {
      if g + 1 == groupsCount then inodesCount - inodesPerGroup * (groupsCount - 1) else inodesPerGroup
    }

    /** Group counters are 16 bits wide, 32 with the high halves. */
    function BgLimit(): nat { if wide then 0x1_0000_0000 else 0x1_0000 }

    /** The free block counter of the superblock is handled as a signed 64-bit number. */
    function SbLimit(): nat { if wide then 0x8000_0000_0000_0000 else 0x1_0000_0000 }

    function InoFromBgidIndex(g: GroupId, ofs: nat): Ino {
      g * inodesPerGroup + ofs + 1
    }
  }

  // ---- compression -------------------------------------------------------------------------------

  function Sign(b: bool): int { if b then 1 else 0 }

  /** What one event contributes: a delta to at most one group, a delta to the superblock, inode
      operations and postludes. */
  datatype Share = Share(bg: Option<(GroupId, BgDelta)>, sb: Option<SbDelta>, ops: seq<InodeOp>,
                         postludes: seq<Postlude>)
  {
    predicate Touches(g: GroupId) { bg.Some? && bg.value.0 == g }

    /** The groups touched, as a list. */
    function Groups(): seq<GroupId> { if bg.Some? then [bg.value.0] else [] }
  }

  function ShareOf(p: Params, e: Event): (sh: Share)
    ensures sh.bg.Some? && sh.bg.value.1.maxAlloc.Some? ==> !Cancels(sh.bg.value.1)
  {
    match e
    case BlockAllocationOnBg(ino, g, _, _, count) =>
      Share(Some((g, BgDelta(0 - count, 0, 0, None))), Some(SbDelta(0, 0 - count)), [SetBlock(ino, count)], [])
    case BlockDeallocationOnBg(ino, g, _, ofs, count) =>
      Share(Some((g, BgDelta(count, 0, 0, None))), Some(SbDelta(0, count)), [SetBlock(ino, -1)],
            [BlockDeallocation(g, ofs, count)])
    case InodeAllocationOnBg(g, _, ofs, dir) =>
      Share(Some((g, BgDelta(0, -1, Sign(dir), Some(ofs)))), None, [Init(p.InoFromBgidIndex(g, ofs))], [])
    case InodeDeallocationOnBg(ino, g, _, _, dir) =>
      Share(Some((g, BgDelta(0, 1, 0 - Sign(dir), None))), None, [], [InodeDeallocation(ino)])
    case InodeOperation(op) => Share(None, None, [op], [])
    case FreeInodesCountDecOnSb => Share(None, Some(SbDelta(-1, 0)), [], [])
    case FreeInodesCountIncOnSb => Share(None, Some(SbDelta(1, 0)), [], [])
  }

  function MaxAlloc(m: Option<nat>, n: Option<nat>): Option<nat> {
    if m.None? || (n.Some? && n.value > m.value) then n else m
  }

  /** Adds a delta to one that may not be there yet. */
  function Plus(d: Option<BgDelta>, e: BgDelta): BgDelta {
    if d.None? then e
    else BgDelta(d.value.freeBlocks + e.freeBlocks, d.value.freeInodes + e.freeInodes,
                 d.value.usedDirs + e.usedDirs, MaxAlloc(d.value.maxAlloc, e.maxAlloc))
  }

  function PlusSb(d: Option<SbDelta>, e: Option<SbDelta>): Option<SbDelta> {
    if e.None? then d else if d.None? then e
    else Some(SbDelta(d.value.freeInodes + e.value.freeInodes, d.value.freeBlocks + e.value.freeBlocks))
  }

  function DeltaOf(deltas: map<GroupId, BgDelta>, g: GroupId): Option<BgDelta> {
    if g in deltas then Some(deltas[g]) else None
  }

  function PlusBg(deltas: map<GroupId, BgDelta>, bg: Option<(GroupId, BgDelta)>): map<GroupId, BgDelta> {
    if bg.None? then deltas
    else deltas[bg.value.0 := Plus(DeltaOf(deltas, bg.value.0), bg.value.1)]
  }

  /** Adds one event to a write-back group. */
  function Add(p: Params, wb: Group, e: Event): Group {
    var sh := ShareOf(p, e);
    Group(PlusBg(wb.bgDeltas, sh.bg), PlusSb(wb.sbDelta, sh.sb), wb.inodeOps + sh.ops, wb.postludes + sh.postludes)
  }

  function Compressed(p: Params, events: seq<Event>): Group {
    if events == [] then EMPTY else Add(p, Compressed(p, events[..|events| - 1]), events[|events| - 1])
  }

  /** The bitmap edit of one event; None where the source panics: no such bits, or a bit that does
      not change. */
  function EditBitmap(bitmaps: map<Lba, seq<bv8>>, e: Event): Option<map<Lba, seq<bv8>>> {
    match e
    case BlockAllocationOnBg(_, _, lba, ofs, count) => Edit(bitmaps, lba, ofs, count, true)
    case BlockDeallocationOnBg(_, _, lba, ofs, count) => Edit(bitmaps, lba, ofs, count, false)
    case InodeAllocationOnBg(_, lba, ofs, _) => Edit(bitmaps, lba, ofs, 1, true)
    case InodeDeallocationOnBg(_, _, lba, ofs, _) => Edit(bitmaps, lba, ofs, 1, false)
    case _ => Some(bitmaps)
  }

  function Edit(bitmaps: map<Lba, seq<bv8>>, lba: Lba, ofs: nat, count: nat, value: bool): Option<map<Lba, seq<bv8>>> {
    if lba in bitmaps && ofs + count <= 8 * |bitmaps[lba]|
       && (forall q | ofs <= q < ofs + count :: Bitmap.Bit(bitmaps[lba], q) == !value)
    then Some(bitmaps[lba := Bitmap.FillBits(bitmaps[lba], ofs, count, value)])
    else None
  }

  function EditBitmaps(bitmaps: map<Lba, seq<bv8>>, events: seq<Event>): Option<map<Lba, seq<bv8>>> {
    if events == [] then Some(bitmaps)
    else
      var r := EditBitmaps(bitmaps, events[..|events| - 1]);
      if r.Some? then EditBitmap(r.value, events[|events| - 1]) else None
  }

  // ---- flushing ----------------------------------------------------------------------------------

  predicate Fits(v: int, limit: nat) { 0 <= v < limit }

  predicate Cancels(d: BgDelta) {
    d.freeBlocks == 0 && d.freeInodes == 0 && d.usedDirs == 0
  }

  /** `itable_unused` after inodes up to index `maxAlloc` of a group of n were allocated. */
  function LowerUnused(n: int, unused: nat, maxAlloc: Option<nat>): int {
    if maxAlloc.Some? && maxAlloc.value >= n - unused then n - maxAlloc.value - 1 else unused
  }

  /** The lowered count is computed without unsigned underflow. */
  predicate UnusedOk(n: int, unused: nat, maxAlloc: Option<nat>) {
    maxAlloc.Some? ==> unused <= n && maxAlloc.value < n
  }

  /** Applies a delta to a group descriptor; None where the source panics. */
  function ApplyBgDelta(p: Params, g: GroupId, bg: Bg, d: BgDelta): Option<Bg> {
    var n := p.InodesInGroup(g);
    if Cancels(d) then Some(bg)
    else if !UnusedOk(n, bg.itableUnused, d.maxAlloc) then None
    else if !Fits(bg.freeBlocks + d.freeBlocks, p.BgLimit()) || !Fits(bg.freeInodes + d.freeInodes, p.BgLimit())
            || !Fits(bg.usedDirs + d.usedDirs, p.BgLimit()) then None
    else Some(Bg(bg.freeBlocks + d.freeBlocks, bg.freeInodes + d.freeInodes, bg.usedDirs + d.usedDirs,
                 LowerUnused(n, bg.itableUnused, d.maxAlloc)))
  }

  function ApplySbDelta(p: Params, sb: Sb, d: Option<SbDelta>): Option<Sb> {
    if d.None? then Some(sb)
    else if !Fits(sb.freeInodes + d.value.freeInodes, 0x1_0000_0000)
            || !Fits(sb.freeBlocks + d.value.freeBlocks, p.SbLimit()) then None
    else Some(Sb(sb.freeInodes + d.value.freeInodes, sb.freeBlocks + d.value.freeBlocks))
  }

  /** Submits one group's delta. */
  function SubmitGroup(p: Params, groups: map<GroupId, Bg>, g: GroupId, d: BgDelta): Option<map<GroupId, Bg>> {
    if Cancels(d) then Some(groups)
    else if g !in groups then None
    else
      var r := ApplyBgDelta(p, g, groups[g], d);
      if r.Some? then Some(groups[g := r.value]) else None
  }

  /** Submits the groups in the given order. */
  function SubmitGroups(p: Params, groups: map<GroupId, Bg>, deltas: map<GroupId, BgDelta>,
      order: seq<GroupId>): Option<map<GroupId, Bg>>
    requires forall g :: g in order ==> g in deltas
  {
    if order == [] then Some(groups)
    else
      var r := SubmitGroup(p, groups, order[0], deltas[order[0]]);
      if r.Some? then SubmitGroups(p, r.value, deltas, order[1..]) else None
  }

  /** An order in which the hash map of deltas may be traversed. */
  ghost predicate IsOrder(deltas: map<GroupId, BgDelta>, order: seq<GroupId>) {
    && (forall g :: g in order <==> g in deltas)
    && (forall i, j :: 0 <= i < j < |order| ==> order[i] != order[j])
  }

  /** The effect of submitting all groups, without an order. */
  ghost predicate CanSubmit(p: Params, groups: map<GroupId, Bg>, deltas: map<GroupId, BgDelta>) {
    forall g :: g in deltas ==> SubmitGroup(p, groups, g, deltas[g]).Some?
  }

  ghost function Submitted(p: Params, groups: map<GroupId, Bg>, deltas: map<GroupId, BgDelta>): map<GroupId, Bg>
    requires CanSubmit(p, groups, deltas)
  {
    map g | g in groups ::
      if g in deltas then ApplyBgDelta(p, g, groups[g], deltas[g]).value else groups[g]
  }

  /** The traversal order of the deltas does not matter. */
  lemma {:induction false} OrderDoesNotMatter(p: Params, groups: map<GroupId, Bg>, deltas: map<GroupId, BgDelta>,
      order: seq<GroupId>)
    requires IsOrder(deltas, order)
    ensures SubmitGroups(p, groups, deltas, order).Some? <==> CanSubmit(p, groups, deltas)
    ensures CanSubmit(p, groups, deltas) ==>
              SubmitGroups(p, groups, deltas, order) == Some(Submitted(p, groups, deltas))
    decreases |order|
  {
    hide SubmitGroup;
    if order == [] {
      if CanSubmit(p, groups, deltas) { assert Submitted(p, groups, deltas) == groups; }
    } else {
      var g := order[0];
      assert g in order;
      var r := SubmitGroup(p, groups, g, deltas[g]);
      if r.Some? {
        var rest := deltas - {g};
        OrderOfRest(deltas, order);
        OrderDoesNotMatter(p, r.value, rest, order[1..]);
        SameDeltas(p, r.value, deltas, rest, order[1..]);
        SubmitFirst(p, groups, deltas, g);
      }
    }
  }

  lemma {:induction false} OrderOfRest(deltas: map<GroupId, BgDelta>, order: seq<GroupId>)
    requires IsOrder(deltas, order) && order != []
    ensures IsOrder(deltas - {order[0]}, order[1..])
  {
    forall h
      ensures h in order[1..] <==> h in deltas - {order[0]}
    {
      if h in deltas - {order[0]} { assert h in order; }
    }
  }

  lemma {:induction false} SubmitFirst(p: Params, groups: map<GroupId, Bg>, deltas: map<GroupId, BgDelta>, g: GroupId)
    requires g in deltas && SubmitGroup(p, groups, g, deltas[g]).Some?
    ensures var after := SubmitGroup(p, groups, g, deltas[g]).value;
            && (CanSubmit(p, after, deltas - {g}) <==> CanSubmit(p, groups, deltas))
            && (CanSubmit(p, groups, deltas) ==> Submitted(p, after, deltas - {g}) == Submitted(p, groups, deltas))
  {
    var after, rest := SubmitGroup(p, groups, g, deltas[g]).value, deltas - {g};
    forall h | h in rest
      ensures SubmitGroup(p, after, h, rest[h]).Some? <==> SubmitGroup(p, groups, h, deltas[h]).Some?
    {
    }
    if CanSubmit(p, groups, deltas) {
      assert Submitted(p, after, rest) == Submitted(p, groups, deltas);
    }
  }

  lemma {:induction false} SameDeltas(p: Params, groups: map<GroupId, Bg>, d: map<GroupId, BgDelta>,
      e: map<GroupId, BgDelta>, order: seq<GroupId>)
    requires forall g :: g in order ==> g in d && g in e && d[g] == e[g]
    ensures SubmitGroups(p, groups, d, order) == SubmitGroups(p, groups, e, order)
    decreases |order|
  {
    if order != [] {
      assert order[0] in order;
      var r := SubmitGroup(p, groups, order[0], d[order[0]]);
      if r.Some? { SameDeltas(p, r.value, d, e, order[1..]); }
    }
  }

  /** Compress, then flush with the given order of the groups. */
  function Process(p: Params, disk: Disk, events: seq<Event>, order: seq<GroupId>): Option<Disk>
    requires forall g :: g in order ==> g in Compressed(p, events).bgDeltas
  {
    var wb := Compressed(p, events);
    var bitmaps := EditBitmaps(disk.bitmaps, events);
    var groups := SubmitGroups(p, disk.groups, wb.bgDeltas, order);
    var inodes := ApplyOps(p.fmt, disk.inodes, wb.inodeOps);
    var sb := ApplySbDelta(p, disk.sb, wb.sbDelta);
    if bitmaps.Some? && groups.Some? && inodes.Some? && sb.Some?
    then Some(Disk(bitmaps.value, groups.value, sb.value, inodes.value))
    else None
  }

  // ---- totals ------------------------------------------------------------------------------------

  /** All deltas of group g together, if there are any. */
  function Total(p: Params, events: seq<Event>, g: GroupId): Option<BgDelta> {
    if events == [] then None
    else
      var init, sh := Total(p, events[..|events| - 1], g), ShareOf(p, events[|events| - 1]);
      if sh.Touches(g) then Some(Plus(init, sh.bg.value.1)) else init
  }

  lemma {:induction false} TotalStep(p: Params, init: seq<Event>, e: Event, g: GroupId)
    ensures Total(p, init + [e], g)
         == if ShareOf(p, e).Touches(g) then Some(Plus(Total(p, init, g), ShareOf(p, e).bg.value.1))
            else Total(p, init, g)
  {
    assert (init + [e])[..|init|] == init;
  }

  lemma {:induction false} CompressedStep(p: Params, init: seq<Event>, e: Event)
    ensures Compressed(p, init + [e]) == Add(p, Compressed(p, init), e)
  {
    assert (init + [e])[..|init|] == init;
  }

  /** Compression gathers exactly the totals. */
  lemma {:induction false} CompressedIsTotal(p: Params, events: seq<Event>, g: GroupId)
    ensures DeltaOf(Compressed(p, events).bgDeltas, g) == Total(p, events, g)
  {
    if events != [] {
      CompressedIsTotal(p, events[..|events| - 1], g);
    }
  }

  lemma {:induction false} SingleEvent(p: Params, e: Event)
    ensures Compressed(p, [e]) == Add(p, EMPTY, e)
    ensures forall g :: g in ShareOf(p, e).Groups() ==> g in Compressed(p, [e]).bgDeltas
  {
    assert [] + [e] == [e];
    CompressedStep(p, [], e);
  }

  /** The reference: every event is written back before the next is looked at. */
  function Replay(p: Params, disk: Disk, events: seq<Event>): Option<Disk> {
    if events == [] then Some(disk)
    else
      var r := Replay(p, disk, events[..|events| - 1]);
      var e := events[|events| - 1];
      if r.None? then None
      else
        SingleEvent(p, e);
        Process(p, r.value, [e], ShareOf(p, e).Groups())
  }

  /** Counters are within the width of their fields. */
  ghost predicate Sized(p: Params, disk: Disk) {
    && (forall g :: g in disk.groups ==> SizedBg(p, disk.groups[g]))
    && SizedSb(p, disk.sb)
  }

  predicate SizedBg(p: Params, bg: Bg) {
    Fits(bg.freeBlocks, p.BgLimit()) && Fits(bg.freeInodes, p.BgLimit()) && Fits(bg.usedDirs, p.BgLimit())
  }

  predicate SizedSb(p: Params, sb: Sb) {
    Fits(sb.freeInodes, 0x1_0000_0000) && Fits(sb.freeBlocks, p.SbLimit())
  }

  /** bg is the descriptor `was` after deltas that sum to d were applied one at a time. */
  ghost predicate BgSum(p: Params, g: GroupId, was: Bg, d: Option<BgDelta>, bg: Bg) {
    && SizedBg(p, bg)
    && if d.None? then bg == was
       else
         && bg.freeBlocks == was.freeBlocks + d.value.freeBlocks
         && bg.freeInodes == was.freeInodes + d.value.freeInodes
         && bg.usedDirs == was.usedDirs + d.value.usedDirs
         && UnusedOk(p.InodesInGroup(g), was.itableUnused, d.value.maxAlloc)
         && bg.itableUnused == LowerUnused(p.InodesInGroup(g), was.itableUnused, d.value.maxAlloc)
  }

  lemma {:induction false} BgSumStep(p: Params, g: GroupId, was: Bg, d: Option<BgDelta>, bg: Bg, e: BgDelta)
    requires BgSum(p, g, was, d, bg)
    requires e.maxAlloc.Some? ==> !Cancels(e)
    requires ApplyBgDelta(p, g, bg, e).Some?
    ensures BgSum(p, g, was, Some(Plus(d, e)), ApplyBgDelta(p, g, bg, e).value)
  {
  }

  predicate NoChange(d: Option<BgDelta>) {
    d.Some? ==> Cancels(d.value)
  }

  /** Group g after events were replayed on it; a group that does not exist is not changed. */
  ghost predicate GroupSum(p: Params, was: map<GroupId, Bg>, d: Option<BgDelta>, groups: map<GroupId, Bg>, g: GroupId) {
    if g in was then g in groups && BgSum(p, g, was[g], d, groups[g])
    else g !in groups && NoChange(d)
  }

  ghost predicate GroupsSum(p: Params, was: map<GroupId, Bg>, events: seq<Event>, groups: map<GroupId, Bg>) {
    forall g :: GroupSum(p, was, Total(p, events, g), groups, g)
  }

  ghost predicate SbSum(p: Params, was: Sb, d: Option<SbDelta>, sb: Sb) {
    && SizedSb(p, sb)
    && if d.None? then sb == was
       else sb.freeInodes == was.freeInodes + d.value.freeInodes && sb.freeBlocks == was.freeBlocks + d.value.freeBlocks
  }

  /** A write-back that succeeds, component by component. */
  lemma {:induction false} ProcessParts(p: Params, disk: Disk, events: seq<Event>, order: seq<GroupId>, r: Disk)
    requires forall g :: g in order ==> g in Compressed(p, events).bgDeltas
    requires Process(p, disk, events, order) == Some(r)
    ensures EditBitmaps(disk.bitmaps, events) == Some(r.bitmaps)
    ensures SubmitGroups(p, disk.groups, Compressed(p, events).bgDeltas, order) == Some(r.groups)
    ensures ApplyOps(p.fmt, disk.inodes, Compressed(p, events).inodeOps) == Some(r.inodes)
    ensures ApplySbDelta(p, disk.sb, Compressed(p, events).sbDelta) == Some(r.sb)
  {
  }

  lemma {:induction false} BitmapsStep(was: map<Lba, seq<bv8>>, init: seq<Event>, e: Event, mid: map<Lba, seq<bv8>>,
      after: map<Lba, seq<bv8>>)
    requires EditBitmaps(was, init) == Some(mid) && EditBitmaps(mid, [e]) == Some(after)
    ensures EditBitmaps(was, init + [e]) == Some(after)
  {
    var events := init + [e];
    assert events[..|events| - 1] == init && [e][..0] == [];
  }

  lemma {:induction false} OpsStep(fmt: Format, was: InodeState, ops: seq<InodeOp>, mid: InodeState,
      more: seq<InodeOp>, after: InodeState)
    requires ApplyOps(fmt, was, ops) == Some(mid)
    requires ApplyOps(fmt, mid, more) == Some(after)
    ensures ApplyOps(fmt, was, ops + more) == Some(after)
  {
    if more == [] {
      assert ops + more == ops;
    } else {
      var init := more[..|more| - 1];
      OpsStep(fmt, was, ops, mid, init, ApplyOps(fmt, mid, init).value);
      assert (ops + more)[..|ops + more| - 1] == ops + init;
    }
  }

  lemma {:induction false} SbStep(p: Params, was: Sb, d: Option<SbDelta>, mid: Sb, e: Option<SbDelta>, after: Sb)
    requires SbSum(p, was, d, mid) && ApplySbDelta(p, mid, e) == Some(after)
    ensures SbSum(p, was, PlusSb(d, e), after)
  {
  }

  lemma {:induction false} GroupsStep(p: Params, was: map<GroupId, Bg>, init: seq<Event>, e: Event,
      mid: map<GroupId, Bg>, after: map<GroupId, Bg>)
    requires forall g :: g in ShareOf(p, e).Groups() ==> g in PlusBg(map[], ShareOf(p, e).bg)
    requires SubmitGroups(p, mid, PlusBg(map[], ShareOf(p, e).bg), ShareOf(p, e).Groups()) == Some(after)
    requires GroupsSum(p, was, init, mid)
    ensures GroupsSum(p, was, init + [e], after)
  {
    var sh := ShareOf(p, e);
    if sh.bg.Some? { SubmitOne(p, mid, sh.bg.value.0, sh.bg.value.1); }
    forall g
      ensures GroupSum(p, was, Total(p, init + [e], g), after, g)
    {
      assert GroupSum(p, was, Total(p, init, g), mid, g);
      TotalStep(p, init, e, g);
      if sh.Touches(g) { GroupStep(p, was, Total(p, init, g), sh.bg.value.1, mid, after, g); }
    }
  }

  lemma {:induction false} SubmitOne(p: Params, mid: map<GroupId, Bg>, g: GroupId, d: BgDelta)
    ensures SubmitGroups(p, mid, map[g := d], [g]) == SubmitGroup(p, mid, g, d)
  {
    var r := SubmitGroup(p, mid, g, d);
    assert [g][1..] == [];
    if r.Some? { assert SubmitGroups(p, r.value, map[g := d], []) == r; }
  }

  lemma {:induction false} GroupStep(p: Params, was: map<GroupId, Bg>, d: Option<BgDelta>, e: BgDelta,
      mid: map<GroupId, Bg>, after: map<GroupId, Bg>, g: GroupId)
    requires e.maxAlloc.Some? ==> !Cancels(e)
    requires SubmitGroup(p, mid, g, e) == Some(after)
    requires GroupSum(p, was, d, mid, g)
    ensures GroupSum(p, was, Some(Plus(d, e)), after, g)
  {
    if g in was { BgSumStep(p, g, was[g], d, mid[g], e); }
  }

  /** What a successful replay does, component by component. */
  ghost predicate Sums(p: Params, disk: Disk, events: seq<Event>, r: Disk) {
    && EditBitmaps(disk.bitmaps, events) == Some(r.bitmaps)
    && ApplyOps(p.fmt, disk.inodes, Compressed(p, events).inodeOps) == Some(r.inodes)
    && SbSum(p, disk.sb, Compressed(p, events).sbDelta, r.sb)
    && GroupsSum(p, disk.groups, events, r.groups)
  }

  lemma {:induction false} ReplaySums(p: Params, disk: Disk, events: seq<Event>)
    requires Sized(p, disk) && Replay(p, disk, events).Some?
    ensures Sums(p, disk, events, Replay(p, disk, events).value)
  {
    if events == [] {
      NoEvents(p, disk);
    } else {
      var init, e := events[..|events| - 1], events[|events| - 1];
      assert events == init + [e];
      ReplayStep(p, disk, init, e);
      ReplaySums(p, disk, init);
      SumsStep(p, disk, init, e, Replay(p, disk, init).value, Replay(p, disk, events).value);
    }
  }

  lemma {:induction false} ReplayStep(p: Params, disk: Disk, init: seq<Event>, e: Event)
    requires Replay(p, disk, init + [e]).Some?
    ensures Replay(p, disk, init).Some?
    ensures forall g :: g in ShareOf(p, e).Groups() ==> g in Compressed(p, [e]).bgDeltas
    ensures Process(p, Replay(p, disk, init).value, [e], ShareOf(p, e).Groups()) == Replay(p, disk, init + [e])
  {
    assert (init + [e])[..|init|] == init;
    SingleEvent(p, e);
  }

  lemma {:induction false} NoEvents(p: Params, disk: Disk)
    requires Sized(p, disk)
    ensures Sums(p, disk, [], disk)
  {
    assert ApplyOps(p.fmt, disk.inodes, []) == Some(disk.inodes);
  }

  lemma {:induction false} SumsStep(p: Params, disk: Disk, init: seq<Event>, e: Event, mid: Disk, r: Disk)
    requires forall g :: g in ShareOf(p, e).Groups() ==> g in Compressed(p, [e]).bgDeltas
    requires Process(p, mid, [e], ShareOf(p, e).Groups()) == Some(r)
    requires Sums(p, disk, init, mid)
    ensures Sums(p, disk, init + [e], r)
  {
    ProcessParts(p, mid, [e], ShareOf(p, e).Groups(), r);
    SingleEvent(p, e);
    CompressedStep(p, init, e);
    BitmapsStep(disk.bitmaps, init, e, mid.bitmaps, r.bitmaps);
    OpsStep(p.fmt, disk.inodes, Compressed(p, init).inodeOps, mid.inodes, ShareOf(p, e).ops, r.inodes);
    SbStep(p, disk.sb, Compressed(p, init).sbDelta, mid.sb, ShareOf(p, e).sb, r.sb);
    GroupsStep(p, disk.groups, init, e, mid.groups, r.groups);
  }

  // ---- the main result -----------------------------------------------------------------------------

  /** Equal but for `itable_unused`. */
  predicate SameCounters(a: Bg, b: Bg) {
    a.freeBlocks == b.freeBlocks && a.freeInodes == b.freeInodes && a.usedDirs == b.usedDirs
  }

  lemma {:induction false} BatchSubmits(p: Params, was: map<GroupId, Bg>, events: seq<Event>, mid: map<GroupId, Bg>)
    requires GroupsSum(p, was, events, mid)
    ensures mid.Keys == was.Keys
    ensures CanSubmit(p, was, Compressed(p, events).bgDeltas)
    ensures forall g :: g in was ==>
              SameButUnused(was[g], Total(p, events, g), mid[g], Submitted(p, was, Compressed(p, events).bgDeltas)[g])
  {
    var deltas := Compressed(p, events).bgDeltas;
    forall g
      ensures g in was <==> g in mid
      ensures g in deltas ==> SubmitGroup(p, was, g, deltas[g]).Some?
    {
      CompressedIsTotal(p, events, g);
      assert GroupSum(p, was, Total(p, events, g), mid, g);
    }
    forall g | g in was
      ensures SameButUnused(was[g], Total(p, events, g), mid[g], Submitted(p, was, deltas)[g])
    {
      CompressedIsTotal(p, events, g);
      assert GroupSum(p, was, Total(p, events, g), mid, g);
    }
  }

  /** A group written in one go, against the same group written event by event. */
  predicate SameButUnused(was: Bg, d: Option<BgDelta>, replayed: Bg, batch: Bg) {
    && SameCounters(batch, replayed)
    && batch.itableUnused == if NoChange(d) then was.itableUnused else replayed.itableUnused
  }

  /** The batch writes nothing to a group whose deltas cancel, although an inode was allocated behind
      those in use, so that the count of unused ones had to be lowered. */
  predicate MissesUnused(p: Params, g: GroupId, was: Bg, d: Option<BgDelta>) {
    && d.Some? && Cancels(d.value) && d.value.maxAlloc.Some?
    && d.value.maxAlloc.value >= p.InodesInGroup(g) - was.itableUnused
  }

  /** The batch b and the replay r agree, but for `itable_unused` where the batch misses it. */
  ghost predicate Agree(p: Params, disk: Disk, events: seq<Event>, b: Disk, r: Disk) {
    && b.bitmaps == r.bitmaps && b.inodes == r.inodes && b.sb == r.sb
    && b.groups.Keys == r.groups.Keys == disk.groups.Keys
    && forall g :: g in disk.groups ==> AgreeIn(p, disk, events, b, r, g)
  }

  ghost predicate AgreeIn(p: Params, disk: Disk, events: seq<Event>, b: Disk, r: Disk, g: GroupId)
    requires g in disk.groups && g in b.groups && g in r.groups
  {
    && SameCounters(b.groups[g], r.groups[g])
    && (b.groups[g].itableUnused == r.groups[g].itableUnused <==>
          !MissesUnused(p, g, disk.groups[g], Total(p, events, g)))
  }

  /** A batch succeeds. */
  ghost predicate BatchOk(p: Params, disk: Disk, events: seq<Event>) {
    var wb := Compressed(p, events);
    && EditBitmaps(disk.bitmaps, events).Some?
    && CanSubmit(p, disk.groups, wb.bgDeltas)
    && ApplyOps(p.fmt, disk.inodes, wb.inodeOps).Some?
    && ApplySbDelta(p, disk.sb, wb.sbDelta).Some?
  }

  /** What a batch leaves behind, without an order of the groups. */
  ghost function Batch(p: Params, disk: Disk, events: seq<Event>): Disk
    requires BatchOk(p, disk, events)
  {
    var wb := Compressed(p, events);
    Disk(EditBitmaps(disk.bitmaps, events).value, Submitted(p, disk.groups, wb.bgDeltas),
         ApplySbDelta(p, disk.sb, wb.sbDelta).value, ApplyOps(p.fmt, disk.inodes, wb.inodeOps).value)
  }

  lemma {:induction false} ProcessIsBatch(p: Params, disk: Disk, events: seq<Event>, order: seq<GroupId>)
    requires IsOrder(Compressed(p, events).bgDeltas, order)
    ensures Process(p, disk, events, order).Some? <==> BatchOk(p, disk, events)
    ensures BatchOk(p, disk, events) ==> Process(p, disk, events, order) == Some(Batch(p, disk, events))
  {
    OrderDoesNotMatter(p, disk.groups, Compressed(p, events).bgDeltas, order);
  }

  lemma {:induction false} BatchAgrees(p: Params, disk: Disk, events: seq<Event>)
    requires Sized(p, disk) && Replay(p, disk, events).Some?
    ensures BatchOk(p, disk, events)
    ensures Agree(p, disk, events, Batch(p, disk, events), Replay(p, disk, events).value)
  {
    hide MissesUnused;
    hide BgSum;
    hide SameButUnused;
    hide ApplyBgDelta;
    ReplaySums(p, disk, events);
    var r := Replay(p, disk, events).value;
    BatchSubmits(p, disk.groups, events, r.groups);
    forall g | g in disk.groups
      ensures AgreeIn(p, disk, events, Batch(p, disk, events), r, g)
    {
      assert GroupSum(p, disk.groups, Total(p, events, g), r.groups, g);
      GroupAgrees(p, g, disk.groups[g], Total(p, events, g), r.groups[g], Batch(p, disk, events).groups[g]);
    }
  }

  lemma {:induction false} GroupAgrees(p: Params, g: GroupId, was: Bg, d: Option<BgDelta>, replayed: Bg, batch: Bg)
    requires BgSum(p, g, was, d, replayed) && SameButUnused(was, d, replayed, batch)
    ensures SameCounters(batch, replayed)
    ensures batch.itableUnused == replayed.itableUnused <==> !MissesUnused(p, g, was, d)
  {
  }

  /** Main result: whenever writing the events back one at a time succeeds, so does compressing and
      flushing them, in whatever order the groups come, and both leave the same bitmaps, inode
      table, superblock and group counters.  Only `itable_unused` may differ: it does in a group
      exactly when the group's deltas cancel and one of them allocated an inode whose index is not
      below the number of inodes in use at the start. */
  lemma {:induction false} BatchEqualsReplay(p: Params, disk: Disk, events: seq<Event>, order: seq<GroupId>)
    requires Sized(p, disk) && Replay(p, disk, events).Some?
    requires IsOrder(Compressed(p, events).bgDeltas, order)
    ensures Process(p, disk, events, order).Some?
    ensures Agree(p, disk, events, Process(p, disk, events, order).value, Replay(p, disk, events).value)
  {
    BatchAgrees(p, disk, events);
    ProcessIsBatch(p, disk, events, order);
  }

  /** It does differ.  A group of eight inodes has its first one in use and seven never used.  When its
      second inode is allocated and the first one freed, the replay leaves six, the batch still seven. */
  lemma {:induction false} CancellingDeltasKeepUnused(blank: InodeRec)
    ensures
      var p := Params(Format(1024, blank), 8, 8, 1, false);
      var disk := Disk(map[3 := [1]], map[0 := Bg(0, 7, 0, 7)], Sb(7, 0), InodeState(map[2 := blank], 0, map[]));
      var events := [InodeAllocationOnBg(0, 3, 1, false), InodeDeallocationOnBg(1, 0, 3, 0, false)];
      && Sized(p, disk)
      && BatchOk(p, disk, events) && Replay(p, disk, events).Some?
      && Batch(p, disk, events).groups[0].itableUnused == 7
      && 0 in Replay(p, disk, events).value.groups
      && Replay(p, disk, events).value.groups[0].itableUnused == 6
  {
    var p := Params(Format(1024, blank), 8, 8, 1, false);
    var disk := Disk(map[3 := [1]], map[0 := Bg(0, 7, 0, 7)], Sb(7, 0), InodeState(map[2 := blank], 0, map[]));
    SecondBitIsFree(disk.bitmaps);
    CancellingCase(p, disk, 0, 3, 1, 1, 0, false);
  }

  /** An inode is allocated behind those in use, and another one of the group freed. */
  lemma {:induction false} CancellingCase(p: Params, disk: Disk, g: GroupId, lba: Lba, ofs: nat, ino: Ino,
      free: nat, dir: bool)
    requires Sized(p, disk) && g in disk.groups
    requires Edit(disk.bitmaps, lba, ofs, 1, true).Some?
    requires Edit(Edit(disk.bitmaps, lba, ofs, 1, true).value, lba, free, 1, false).Some?
    requires p.InoFromBgidIndex(g, ofs) in disk.inodes.inodes
    requires disk.groups[g].freeInodes > 0 && disk.groups[g].usedDirs + 1 < p.BgLimit()
    requires p.InodesInGroup(g) - disk.groups[g].itableUnused <= ofs < p.InodesInGroup(g)
    requires disk.groups[g].itableUnused <= p.InodesInGroup(g)
    ensures
      var events := [InodeAllocationOnBg(g, lba, ofs, dir), InodeDeallocationOnBg(ino, g, lba, free, dir)];
      && BatchOk(p, disk, events) && Replay(p, disk, events).Some?
      && Batch(p, disk, events).groups[g].itableUnused == disk.groups[g].itableUnused
      && g in Replay(p, disk, events).value.groups
      && Replay(p, disk, events).value.groups[g].itableUnused == p.InodesInGroup(g) - ofs - 1
  {
    var alloc, dealloc := InodeAllocationOnBg(g, lba, ofs, dir), InodeDeallocationOnBg(ino, g, lba, free, dir);
    CancellingReplays(p, disk, alloc, dealloc);
    CancellingTotal(p, alloc, dealloc);
    CancelledGroup(p, disk, [alloc, dealloc], g);
  }

  lemma {:induction false} CancellingTotal(p: Params, alloc: Event, dealloc: Event)
    requires alloc.InodeAllocationOnBg? && dealloc.InodeDeallocationOnBg? && alloc.bgid == dealloc.bgid
    requires alloc.isDirectory == dealloc.isDirectory
    ensures var d := Total(p, [alloc, dealloc], alloc.bgid);
            d.Some? && Cancels(d.value) && d.value.maxAlloc == Some(alloc.ofs)
  {
    hide Total;
    hide ShareOf;
    assert [alloc] == [] + [alloc] && [alloc, dealloc] == [alloc] + [dealloc];
    NoTotal(p, alloc.bgid);
    TotalStep(p, [], alloc, alloc.bgid);
    TotalStep(p, [alloc], dealloc, alloc.bgid);
    SharesCancel(p, alloc, dealloc);
  }

  lemma {:induction false} NoTotal(p: Params, g: GroupId)
    ensures Total(p, [], g) == None
  {
  }

  lemma {:induction false} SharesCancel(p: Params, alloc: Event, dealloc: Event)
    requires alloc.InodeAllocationOnBg? && dealloc.InodeDeallocationOnBg? && alloc.bgid == dealloc.bgid
    requires alloc.isDirectory == dealloc.isDirectory
    ensures ShareOf(p, alloc).Touches(alloc.bgid) && ShareOf(p, dealloc).Touches(alloc.bgid)
    ensures var d := Plus(Some(Plus(None, ShareOf(p, alloc).bg.value.1)), ShareOf(p, dealloc).bg.value.1);
            Cancels(d) && d.maxAlloc == Some(alloc.ofs)
  {
  }

  /** What a batch and the replay leave in a group whose deltas cancel. */
  lemma {:induction false} CancelledGroup(p: Params, disk: Disk, events: seq<Event>, g: GroupId)
    requires Sized(p, disk) && Replay(p, disk, events).Some? && g in disk.groups
    requires Total(p, events, g).Some? && Cancels(Total(p, events, g).value)
    ensures BatchOk(p, disk, events)
    ensures Batch(p, disk, events).groups[g] == disk.groups[g]
    ensures g in Replay(p, disk, events).value.groups
    ensures Replay(p, disk, events).value.groups[g].itableUnused
         == LowerUnused(p.InodesInGroup(g), disk.groups[g].itableUnused, Total(p, events, g).value.maxAlloc)
  {
    BatchAgrees(p, disk, events);
    CompressedIsTotal(p, events, g);
    ReplaySums(p, disk, events);
    assert GroupSum(p, disk.groups, Total(p, events, g), Replay(p, disk, events).value.groups, g);
  }

  lemma {:induction false} CancellingReplays(p: Params, disk: Disk, alloc: Event, dealloc: Event)
    requires alloc.InodeAllocationOnBg? && dealloc.InodeDeallocationOnBg? && alloc.bgid == dealloc.bgid
    requires alloc.isDirectory == dealloc.isDirectory && alloc.bgid in disk.groups && Sized(p, disk)
    requires EditBitmap(disk.bitmaps, alloc).Some?
    requires EditBitmap(EditBitmap(disk.bitmaps, alloc).value, dealloc).Some?
    requires p.InoFromBgidIndex(alloc.bgid, alloc.ofs) in disk.inodes.inodes
    requires disk.groups[alloc.bgid].freeInodes > 0 && disk.groups[alloc.bgid].usedDirs + 1 < p.BgLimit()
    requires UnusedOk(p.InodesInGroup(alloc.bgid), disk.groups[alloc.bgid].itableUnused, Some(alloc.ofs))
    ensures Replay(p, disk, [alloc, dealloc]).Some?
  {
    hide EditBitmap;
    OneOp(p.fmt, disk.inodes, Init(p.InoFromBgidIndex(alloc.bgid, alloc.ofs)));
    SingleReplays(p, disk, alloc);
    var mid := Process(p, disk, [alloc], ShareOf(p, alloc).Groups()).value;
    assert [alloc][..0] == [] && [alloc, dealloc][..1] == [alloc];
    assert Replay(p, disk, [alloc]) == Some(mid);
    assert ApplyOps(p.fmt, mid.inodes, []).Some?;
    SingleReplays(p, mid, dealloc);
  }

  lemma {:induction false} OneOp(fmt: Format, st: InodeState, op: InodeOp)
    ensures ApplyOps(fmt, st, [op]) == ApplyOp(fmt, st, op)
  {
    assert [op][..0] == [] && ApplyOps(fmt, st, []) == Some(st);
  }

  lemma {:induction false} SecondBitIsFree(bitmaps: map<Lba, seq<bv8>>)
    requires 3 in bitmaps && bitmaps[3] == [1]
    ensures Edit(bitmaps, 3, 1, 1, true).Some?
    ensures Edit(Edit(bitmaps, 3, 1, 1, true).value, 3, 0, 1, false).Some?
  {
    assert Bitmap.BitOf(1, 0) && !Bitmap.BitOf(1, 1);
    assert Bitmap.Bit(bitmaps[3], 0) && !Bitmap.Bit(bitmaps[3], 1);
    Bitmap.FillBitsFills(bitmaps[3], 1, 1, true);
    assert Bitmap.Bit(Bitmap.FillBits(bitmaps[3], 1, 1, true), 0);
  }

  /** Writing back a single event. */
  lemma {:induction false} SingleReplays(p: Params, disk: Disk, e: Event)
    requires EditBitmap(disk.bitmaps, e).Some?
    requires ApplyOps(p.fmt, disk.inodes, ShareOf(p, e).ops).Some?
    requires ApplySbDelta(p, disk.sb, ShareOf(p, e).sb).Some?
    requires var bg := ShareOf(p, e).bg; bg.Some? ==> SubmitGroup(p, disk.groups, bg.value.0, bg.value.1).Some?
    ensures forall g :: g in ShareOf(p, e).Groups() ==> g in Compressed(p, [e]).bgDeltas
    ensures var bg, r := ShareOf(p, e).bg, Process(p, disk, [e], ShareOf(p, e).Groups());
            && r.Some?
            && r.value.bitmaps == EditBitmap(disk.bitmaps, e).value
            && r.value.inodes == ApplyOps(p.fmt, disk.inodes, ShareOf(p, e).ops).value
            && (bg.Some? ==> Some(r.value.groups) == SubmitGroup(p, disk.groups, bg.value.0, bg.value.1))
  {
    hide EditBitmap;
    hide ShareOf;
    hide SubmitGroup;
    hide ApplySbDelta;
    hide InodeTable.ApplyOps;
    SingleEvent(p, e);
    assert [e][..0] == [] && EditBitmaps(disk.bitmaps, []) == Some(disk.bitmaps);
    assert EditBitmaps(disk.bitmaps, [e]) == EditBitmap(disk.bitmaps, e);
    assert Compressed(p, [e]).inodeOps == ShareOf(p, e).ops;
    if ShareOf(p, e).bg.Some? {
      var (g, d) := ShareOf(p, e).bg.value;
      assert PlusBg(map[], ShareOf(p, e).bg) == map[g := d];
      SubmitOne(p, disk.groups, g, d);
    } else {
      assert SubmitGroups(p, disk.groups, Compressed(p, [e]).bgDeltas, []) == Some(disk.groups);
    }
  }

  // ---- when the replay succeeds --------------------------------------------------------------------

  /** No group's descriptor would underflow when its count of unused inodes is lowered. */
  ghost predicate UnusedFits(p: Params, disk: Disk, events: seq<Event>) {
    forall g :: g in disk.groups ==> UnusedFitsIn(p, disk, events, g)
  }

  ghost predicate UnusedFitsIn(p: Params, disk: Disk, events: seq<Event>, g: GroupId)
    requires g in disk.groups
  {
    Total(p, events, g).Some? ==>
      UnusedOk(p.InodesInGroup(g), disk.groups[g].itableUnused, Total(p, events, g).value.maxAlloc)
  }

  /** Main result: the replay succeeds exactly when the batch of every prefix of the events does and
      no lowered count underflows. */
  lemma {:induction false} ReplaySucceedsIff(p: Params, disk: Disk, events: seq<Event>)
    requires Sized(p, disk)
    ensures Replay(p, disk, events).Some? <==>
              (forall k :: 0 <= k <= |events| ==> BatchOk(p, disk, events[..k])) && UnusedFits(p, disk, events)
  {
    if Replay(p, disk, events).Some? {
      forall k | 0 <= k <= |events|
        ensures BatchOk(p, disk, events[..k])
      {
        PrefixReplays(p, disk, events, k);
        BatchAgrees(p, disk, events[..k]);
      }
      ReplaySums(p, disk, events);
      forall g | g in disk.groups
        ensures UnusedFitsIn(p, disk, events, g)
      {
        assert GroupSum(p, disk.groups, Total(p, events, g), Replay(p, disk, events).value.groups, g);
      }
    }
    if (forall k :: 0 <= k <= |events| ==> BatchOk(p, disk, events[..k])) && UnusedFits(p, disk, events) {
      BatchesReplay(p, disk, events);
    }
  }

  lemma {:induction false} PrefixReplays(p: Params, disk: Disk, events: seq<Event>, k: nat)
    requires k <= |events| && Replay(p, disk, events).Some?
    ensures Replay(p, disk, events[..k]).Some?
    decreases |events|
  {
    if k == |events| {
      assert events[..k] == events;
    } else {
      assert events[..|events| - 1][..k] == events[..k];
      PrefixReplays(p, disk, events[..|events| - 1], k);
    }
  }

  lemma {:induction false} BatchesReplay(p: Params, disk: Disk, events: seq<Event>)
    requires Sized(p, disk) && UnusedFits(p, disk, events)
    requires forall k :: 0 <= k <= |events| ==> BatchOk(p, disk, events[..k])
    ensures Replay(p, disk, events).Some?
    decreases |events|
  {
    hide BatchOk;
    hide UnusedFits;
    hide Process;
    hide Sums;
    hide Sized;
    if events != [] {
      var init, e := events[..|events| - 1], events[|events| - 1];
      assert events == init + [e] && events[..|events|] == events;
      forall k | 0 <= k <= |init|
        ensures BatchOk(p, disk, init[..k])
      {
        assert init[..k] == events[..k];
      }
      UnusedFitsInit(p, disk, init, e);
      BatchesReplay(p, disk, init);
      ReplaySums(p, disk, init);
      OneMoreReplays(p, disk, init, e, Replay(p, disk, init).value);
      SingleEvent(p, e);
    }
  }

  lemma {:induction false} UnusedFitsInit(p: Params, disk: Disk, init: seq<Event>, e: Event)
    requires UnusedFits(p, disk, init + [e])
    ensures UnusedFits(p, disk, init)
  {
    hide Total;
    forall g | g in disk.groups
      ensures UnusedFitsIn(p, disk, init, g)
    {
      assert UnusedFitsIn(p, disk, init + [e], g);
      TotalStep(p, init, e, g);
    }
  }

  lemma {:induction false} OneMoreReplays(p: Params, disk: Disk, init: seq<Event>, e: Event, mid: Disk)
    requires Sized(p, disk) && Sums(p, disk, init, mid)
    requires BatchOk(p, disk, init + [e]) && UnusedFits(p, disk, init + [e])
    requires forall g :: g in ShareOf(p, e).Groups() ==> g in Compressed(p, [e]).bgDeltas
    ensures Process(p, mid, [e], ShareOf(p, e).Groups()).Some?
  {
    hide ApplyBgDelta;
    hide SubmitGroup;
    hide ApplyOp;
    hide EditBitmap;
    hide InodeTable.ApplyOps;
    hide UnusedFits;
    SingleEvent(p, e);
    CompressedStep(p, init, e);
    assert (init + [e])[..|init|] == init && [e][..0] == [];
    assert EditBitmaps(mid.bitmaps, [e]).Some?;
    assert Compressed(p, [e]).inodeOps == ShareOf(p, e).ops;
    assert ApplySbDelta(p, mid.sb, Compressed(p, [e]).sbDelta).Some?;
    OpsSplit(p.fmt, disk.inodes, Compressed(p, init).inodeOps, ShareOf(p, e).ops);
    assert ApplyOps(p.fmt, mid.inodes, Compressed(p, [e]).inodeOps).Some?;
    if ShareOf(p, e).bg.Some? {
      OneMoreGroup(p, disk, init, e, mid.groups);
    } else {
      assert SubmitGroups(p, mid.groups, Compressed(p, [e]).bgDeltas, []) == Some(mid.groups);
    }
    assert SubmitGroups(p, mid.groups, Compressed(p, [e]).bgDeltas, ShareOf(p, e).Groups()).Some?;
  }

  lemma {:induction false} OneMoreGroup(p: Params, disk: Disk, init: seq<Event>, e: Event, mid: map<GroupId, Bg>)
    requires Sized(p, disk) && GroupsSum(p, disk.groups, init, mid) && ShareOf(p, e).bg.Some?
    requires BatchOk(p, disk, init + [e]) && UnusedFits(p, disk, init + [e])
    ensures SubmitGroups(p, mid, PlusBg(map[], ShareOf(p, e).bg), ShareOf(p, e).Groups()).Some?
  {
    var (g, d) := ShareOf(p, e).bg.value;
    assert PlusBg(map[], ShareOf(p, e).bg) == map[g := d];
    SubmitOne(p, mid, g, d);
    assert GroupSum(p, disk.groups, Total(p, init, g), mid, g);
    TotalStep(p, init, e, g);
    CompressedIsTotal(p, init + [e], g);
    assert SubmitGroup(p, disk.groups, g, Plus(Total(p, init, g), d)).Some?;
    if g in disk.groups {
      assert UnusedFitsIn(p, disk, init + [e], g);
      OneMoreDelta(p, g, disk.groups[g], Total(p, init, g), mid[g], d);
    }
  }

  lemma {:induction false} OneMoreDelta(p: Params, g: GroupId, was: Bg, d: Option<BgDelta>, bg: Bg, e: BgDelta)
    requires BgSum(p, g, was, d, bg) && SizedBg(p, was)
    requires ApplyBgDelta(p, g, was, Plus(d, e)).Some?
    requires UnusedOk(p.InodesInGroup(g), was.itableUnused, Plus(d, e).maxAlloc)
    ensures ApplyBgDelta(p, g, bg, e).Some?
  {
  }

  lemma {:induction false} OpsSplit(fmt: Format, was: InodeState, ops: seq<InodeOp>, more: seq<InodeOp>)
    requires ApplyOps(fmt, was, ops + more).Some?
    ensures ApplyOps(fmt, was, ops).Some? && ApplyOps(fmt, ApplyOps(fmt, was, ops).value, more).Some?
    ensures ApplyOps(fmt, ApplyOps(fmt, was, ops).value, more) == ApplyOps(fmt, was, ops + more)
    decreases |more|
  {
    if more == [] {
      assert ops + more == ops;
    } else {
      assert (ops + more)[..|ops + more| - 1] == ops + more[..|more| - 1];
      OpsSplit(fmt, was, ops, more[..|more| - 1]);
    }
  }

  // ---- the write-back group --------------------------------------------------------------------------

  /** The cached blocks that a write-back edits. */
  class Device {
    var bitmaps: map<Lba, seq<bv8>>
    var groups: map<GroupId, Bg>
    var sb: Sb
    var inodes: InodeState

    constructor (disk: Disk)
      ensures Contents() == disk
    {
      bitmaps, groups, sb, inodes := disk.bitmaps, disk.groups, disk.sb, disk.inodes;
    }

    function Contents(): Disk
      reads this
    {
      Disk(bitmaps, groups, sb, inodes)
    }
  }

  class WritebackGroup {
    var bgDeltas: map<GroupId, BgDelta>
    var sbDelta: Option<SbDelta>
    var inodeOps: seq<InodeOp>
    var postludes: seq<Postlude>

    function Contents(): Group
      reads this
    {
      Group(bgDeltas, sbDelta, inodeOps, postludes)
    }

    constructor ()
      ensures Contents() == EMPTY
    {
      bgDeltas, sbDelta, inodeOps, postludes := map[], None, [], [];
    }

    method Record(p: Params, e: Event)
      modifies this
      ensures Contents() == Add(p, old(Contents()), e)
    {
      match e
      case BlockAllocationOnBg(ino, bgid, _, _, count) =>
        AddBgDelta(bgid, BgDelta(0 - count, 0, 0, None));
        AddSbDelta(SbDelta(0, 0 - count));
        inodeOps := inodeOps + [SetBlock(ino, count)];
      case BlockDeallocationOnBg(ino, bgid, _, ofs, count) =>
        AddBgDelta(bgid, BgDelta(count, 0, 0, None));
        AddSbDelta(SbDelta(0, count));
        inodeOps := inodeOps + [SetBlock(ino, -1)];
        postludes := postludes + [BlockDeallocation(bgid, ofs, count)];
      case InodeAllocationOnBg(bgid, _, ofs, isDirectory) =>
        AddBgDelta(bgid, BgDelta(0, -1, Sign(isDirectory), Some(ofs)));
        inodeOps := inodeOps + [Init(p.InoFromBgidIndex(bgid, ofs))];
      case InodeDeallocationOnBg(ino, bgid, _, _, isDirectory) =>
        AddBgDelta(bgid, BgDelta(0, 1, 0 - Sign(isDirectory), None));
        postludes := postludes + [InodeDeallocation(ino)];
      case InodeOperation(op) =>
        inodeOps := inodeOps + [op];
      case FreeInodesCountDecOnSb =>
        AddSbDelta(SbDelta(-1, 0));
      case FreeInodesCountIncOnSb =>
        AddSbDelta(SbDelta(1, 0));
    }

    /** `bg_delta(bgid)` creates the group's delta when it is first used. */
    method AddBgDelta(bgid: GroupId, d: BgDelta)
      modifies this`bgDeltas
      ensures bgDeltas == PlusBg(old(bgDeltas), Some((bgid, d)))
    {
      bgDeltas := bgDeltas[bgid := if bgid in bgDeltas then Plus(Some(bgDeltas[bgid]), d) else d];
    }

    method AddSbDelta(d: SbDelta)
      modifies this`sbDelta
      ensures sbDelta == PlusSb(old(sbDelta), Some(d))
    {
      sbDelta := PlusSb(sbDelta, Some(d));
    }

    /** Gathers the deltas and edits the bitmaps; not ok where the source panics. */
    method Compress(p: Params, events: seq<Event>, dev: Device) returns (ok: bool)
      requires Contents() == EMPTY
      modifies this, dev`bitmaps
      ensures ok <==> EditBitmaps(old(dev.bitmaps), events).Some?
      ensures ok ==> dev.bitmaps == EditBitmaps(old(dev.bitmaps), events).value
      ensures ok ==> Contents() == Compressed(p, events)
    {
      var i := 0;
      while i < |events|
        invariant i <= |events|
        invariant EditBitmaps(old(dev.bitmaps), events[..i]) == Some(dev.bitmaps)
        invariant Contents() == Compressed(p, events[..i])
      {
        assert events[..i + 1][..i] == events[..i];
        var r := EditBitmap(dev.bitmaps, events[i]);
        if r.None? {
          PrefixFails(old(dev.bitmaps), events, i + 1);
          return false;
        }
        dev.bitmaps := r.value;
        Record(p, events[i]);
        i := i + 1;
      }
      assert events[..|events|] == events;
      return true;
    }

    /** Submits the group deltas, in the order in which the hash map yields them, then the inode
        operations, then the superblock delta. */
    method Flush(p: Params, dev: Device) returns (ok: bool)
      modifies dev`groups, dev`inodes, dev`sb
      ensures ok <==> CanSubmit(p, old(dev.groups), bgDeltas)
                      && ApplyOps(p.fmt, old(dev.inodes), inodeOps).Some?
                      && ApplySbDelta(p, old(dev.sb), sbDelta).Some?
      ensures ok ==> dev.groups == Submitted(p, old(dev.groups), bgDeltas)
                     && dev.inodes == ApplyOps(p.fmt, old(dev.inodes), inodeOps).value
                     && dev.sb == ApplySbDelta(p, old(dev.sb), sbDelta).value
    {
      var rest := bgDeltas.Keys;
      while rest != {}
        invariant rest <= bgDeltas.Keys
        invariant dev.inodes == old(dev.inodes) && dev.sb == old(dev.sb)
        invariant dev.groups.Keys == old(dev.groups).Keys
        invariant forall g :: g in bgDeltas.Keys - rest ==> SubmitGroup(p, old(dev.groups), g, bgDeltas[g]).Some?
        invariant forall g :: g in old(dev.groups) ==>
                    if g in bgDeltas.Keys - rest
                    then ApplyBgDelta(p, g, old(dev.groups)[g], bgDeltas[g]) == Some(dev.groups[g])
                    else dev.groups[g] == old(dev.groups)[g]
        decreases rest
      {
        var g :| g in rest;
        var r := SubmitGroup(p, dev.groups, g, bgDeltas[g]);
        if r.None? { return false; }
        dev.groups := r.value;
        rest := rest - {g};
      }

      assert dev.groups == Submitted(p, old(dev.groups), bgDeltas);

      var i := 0;
      assert inodeOps[..0] == [] && ApplyOps(p.fmt, dev.inodes, []) == Some(dev.inodes);
      while i < |inodeOps|
        invariant i <= |inodeOps|
        invariant dev.groups == Submitted(p, old(dev.groups), bgDeltas) && dev.sb == old(dev.sb)
        invariant ApplyOps(p.fmt, old(dev.inodes), inodeOps[..i]) == Some(dev.inodes)
      {
        assert inodeOps[..i + 1][..i] == inodeOps[..i];
        var r := ApplyOp(p.fmt, dev.inodes, inodeOps[i]);
        if r.None? {
          OpsPrefixFails(p.fmt, old(dev.inodes), inodeOps, i + 1);
          return false;
        }
        dev.inodes := r.value;
        i := i + 1;
      }
      assert inodeOps[..|inodeOps|] == inodeOps;

      var r := ApplySbDelta(p, dev.sb, sbDelta);
      if r.None? { return false; }
      dev.sb := r.value;
      return true;
    }
  }

  lemma {:induction false} PrefixFails(was: map<Lba, seq<bv8>>, events: seq<Event>, i: nat)
    requires i <= |events| && EditBitmaps(was, events[..i]).None?
    ensures EditBitmaps(was, events).None?
    decreases |events|
  {
    if i == |events| {
      assert events[..i] == events;
    } else {
      assert events[..|events| - 1][..i] == events[..i];
      PrefixFails(was, events[..|events| - 1], i);
    }
  }

  lemma {:induction false} OpsPrefixFails(fmt: Format, was: InodeState, ops: seq<InodeOp>, i: nat)
    requires i <= |ops| && ApplyOps(fmt, was, ops[..i]).None?
    ensures ApplyOps(fmt, was, ops).None?
    decreases |ops|
  {
    if i == |ops| {
      assert ops[..i] == ops;
    } else {
      assert ops[..|ops| - 1][..i] == ops[..i];
      OpsPrefixFails(fmt, was, ops[..|ops| - 1], i);
    }
  }

  /** `apply_on_disk`: compress, then flush.  It succeeds exactly when the batch does and leaves what the
      batch leaves; and where writing the events back one at a time succeeds, the two agree. */
  method ApplyOnDisk(p: Params, events: seq<Event>, dev: Device) returns (ok: bool)
    modifies dev
    ensures ok <==> BatchOk(p, old(dev.Contents()), events)
    ensures ok ==> dev.Contents() == Batch(p, old(dev.Contents()), events)
    ensures Sized(p, old(dev.Contents())) && Replay(p, old(dev.Contents()), events).Some? ==>
              ok && Agree(p, old(dev.Contents()), events, dev.Contents(), Replay(p, old(dev.Contents()), events).value)
  {
    ghost var disk := dev.Contents();
    if Sized(p, disk) && Replay(p, disk, events).Some? {
      BatchAgrees(p, disk, events);
    }
    var wb := new WritebackGroup();
    ok := wb.Compress(p, events, dev);
    if ok {
      ok := wb.Flush(p, dev);
    }
  }
}
