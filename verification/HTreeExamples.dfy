/** Directory blocks that `split_data` does not manage (src/directory/htree/node.rs).

    One directory has a full block of 1024 bytes whose entries do not fit in two blocks when they are
    split at half of their unrounded sizes.  In another one a block has no room for a name, though its
    entries do not use half of it, so that there is no place to split it. */
module HTreeExamples {
  import opened ByteRw
  import opened DirectorySlots
  import opened HTree
  import opened HTreeDirectory
  import opened HTreeSplit

  /** A hash by the first byte of the name. */
  function ByFirst(n: Name): nat { if n == [] then 0 else 2 * (n[0] as nat) }

  /** A name of len bytes c. */
  function NameOf(c: U8, len: nat): (n: Name)
    ensures |n| == len && forall i :: 0 <= i < len ==> n[i] == c
  {
    seq(len, _ => c)
  }

  // ---- a directory of one block with four entries ------------------------------------------------

  lemma {:induction false} FourLive(a: Slot, b: Slot, c: Slot, d: Slot)
    requires IsLive(a) && IsLive(b) && IsLive(c) && IsLive(d)
    ensures Live([a, b, c, d]) == [EntryOf(a), EntryOf(b), EntryOf(c), EntryOf(d)]
    ensures Total([a, b, c, d]) == a.len + b.len + c.len + d.len
  {
    assert [a, b, c, d] == [a] + ([b] + ([c] + [d]));
    LiveAppend([a], [b] + ([c] + [d]));
    LiveAppend([b], [c] + [d]);
    LiveAppend([c], [d]);
    TotalAppend([a], [b] + ([c] + [d]));
    TotalAppend([b], [c] + [d]);
    TotalAppend([c], [d]);
    LiveOne(a);
    LiveOne(b);
    LiveOne(c);
    LiveOne(d);
    TotalOne(a);
    TotalOne(b);
    TotalOne(c);
    TotalOne(d);
  }

  function Names(a: Entry, b: Entry, c: Entry, d: Entry): map<Name, Entry> {
    map[a.name := a, b.name := b, c.name := c, d.name := d]
  }

  ghost function TreeOf(a: Slot, b: Slot, c: Slot, d: Slot): Tree {
    Tree([DxEntry(0, 1)], map[1 := [a, b, c, d]], Names(EntryOf(a), EntryOf(b), EntryOf(c), EntryOf(d)))
  }

  /** A slot with an entry whose name begins with byte i. */
  ghost predicate Begins(s: Slot, i: U8) {
    IsLive(s) && SlotOk(s) && EntryGood(EntryOf(s)) && s.name[0] == i && i != 46
  }

  /** Four such slots fill a block, and the directory of this block has their names. */
  lemma {:induction false} FourTree(a: Slot, b: Slot, c: Slot, d: Slot, blkSize: nat)
    requires Begins(a, 1) && Begins(b, 3) && Begins(c, 4) && Begins(d, 5)
    requires a.len + b.len + c.len + d.len == blkSize
    ensures SlotsAt(TreeOf(a, b, c, d), 0) == [a, b, c, d]
    ensures TreeOk(TreeOf(a, b, c, d), ByFirst, blkSize)
  {
    var t, slots := TreeOf(a, b, c, d), [a, b, c, d];
    var live := [EntryOf(a), EntryOf(b), EntryOf(c), EntryOf(d)];
    FourLive(a, b, c, d);
    assert SlotsAt(t, 0) == slots;
    forall e | e in live
      ensures EntryAt(t, 0, e, ByFirst)
    {
    }
    forall n | n in t.names
      ensures NameOk(t, n, ByFirst)
    {
    }
    assert BlockOk(t, 0, ByFirst, blkSize);
  }

  // ---- gathering -----------------------------------------------------------------------------------

  lemma {:induction false} PutLast(g: seq<Entry>, e: Entry, h: Hasher)
    requires forall x :: x in g ==> h(x.name) < h(e.name)
    ensures Put(g, e, h) == g + [e]
    decreases |g|
  {
    if g != [] {
      assert g[0] in g;
      PutLast(g[1..], e, h);
    }
  }

  lemma {:induction false} GatherInOrder(es: seq<Entry>, h: Hasher)
    requires Sorted(es, h)
    ensures Gather(es, h) == es
    decreases |es|
  {
    if es != [] {
      var init, e := es[..|es| - 1], es[|es| - 1];
      GatherInOrder(init, h);
      PutLast(init, e, h);
    }
  }

  // ---- the two blocks ------------------------------------------------------------------------------

  /** Four short names in slots of 256 bytes, and a name of 255 bytes: no slot has room for it, but
      together they do not use half of the block. */
  lemma {:induction false} FragmentedBlock(a: Slot, b: Slot, c: Slot, d: Slot, e: Entry)
    requires Begins(a, 1) && Begins(b, 3) && Begins(c, 4) && Begins(d, 5)
    requires a.len == 256 && b.len == 256 && c.len == 256 && d.len == 256
    requires |a.name| == 1 && |b.name| == 1 && |c.name| == 1 && |d.name| == 1
    requires e.name == NameOf(6, 255)
    ensures !HasRoom([a, b, c, d], |e.name|)
    ensures Used(Gather(Live([a, b, c, d]) + [e], ByFirst)) <= 1024 / 2
  {
    FourLive(a, b, c, d);
    var es := [EntryOf(a), EntryOf(b), EntryOf(c), EntryOf(d), e];
    assert Live([a, b, c, d]) + [e] == es;
    GatherInOrder(es, ByFirst);
    UsedOfFive(EntryOf(a), EntryOf(b), EntryOf(c), EntryOf(d), e);
  }

  lemma {:induction false} UsedOfFive(a: Entry, b: Entry, c: Entry, d: Entry, e: Entry)
    ensures Used([a, b, c, d, e]) == |a.name| + |b.name| + |c.name| + |d.name| + |e.name| + 40
  {
    assert [a, b, c, d, e] == [a] + ([b] + ([c] + ([d] + [e])));
    UsedAppend([a], [b] + ([c] + ([d] + [e])));
    UsedAppend([b], [c] + ([d] + [e]));
    UsedAppend([c], [d] + [e]);
    UsedAppend([d], [e]);
    UsedOne(a);
    UsedOne(b);
    UsedOne(c);
    UsedOne(d);
    UsedOne(e);
  }

  lemma {:induction false} UsedOne(e: Entry)
    ensures Used([e]) == |e.name| + 8
  {
    assert [e][1..] == [];
  }

  /** A new name that begins with byte i, other than those of the entries. */
  ghost predicate Fresh(e: Entry, i: U8) {
    EntryGood(e) && e.name[0] == i && i != 46 && i !in {1, 3, 4, 5}
  }

  lemma {:induction false} FreshName(a: Slot, b: Slot, c: Slot, d: Slot, e: Entry, i: U8)
    requires Begins(a, 1) && Begins(b, 3) && Begins(c, 4) && Begins(d, 5) && Fresh(e, i)
    ensures e.name !in TreeOf(a, b, c, d).names && !IsDot(e.name)
    ensures HashOk(ByFirst) && In(TreeOf(a, b, c, d).index, 0, ByFirst(e.name))
  {
  }

  lemma {:induction false} FragmentedTree(a: Slot, b: Slot, c: Slot, d: Slot, e: Entry)
    requires Begins(a, 1) && Begins(b, 3) && Begins(c, 4) && Begins(d, 5) && Fresh(e, 6)
    requires a.len == 256 && b.len == 256 && c.len == 256 && d.len == 256
    requires |a.name| == 1 && |b.name| == 1 && |c.name| == 1 && |d.name| == 1
    requires e.name == NameOf(6, 255)
    ensures var t := TreeOf(a, b, c, d);
            && TreeOk(t, ByFirst, 1024) && HashOk(ByFirst) && e.name !in t.names
            && In(t.index, 0, ByFirst(e.name)) && NeedsSplit(t, 0, e, 2)
            && Used(Gather(Live(SlotsAt(t, 0)) + [e], ByFirst)) <= 1024 / 2
  {
    hide Live;
    hide Gather;
    hide Used;
    hide HasRoom;
    hide TreeOk;
    FourTree(a, b, c, d, 1024);
    FragmentedBlock(a, b, c, d, e);
    FreshName(a, b, c, d, e, 6);
  }

  /** The source then stops with a panic: a directory of blocks of 1024 bytes, and a name that has no
      room in its block, whose block has no split point. */
  lemma {:induction false} NoSplitPointExists()
    ensures exists t, e ::
              && TreeOk(t, ByFirst, 1024) && HashOk(ByFirst) && EntryGood(e) && e.name !in t.names
              && In(t.index, 0, ByFirst(e.name)) && NeedsSplit(t, 0, e, 2)
              && Used(Gather(Live(SlotsAt(t, 0)) + [e], ByFirst)) <= 1024 / 2
  {
    FragmentedTree(Slot(11, 256, 1, [1]), Slot(12, 256, 1, [3]), Slot(13, 256, 1, [4]), Slot(14, 256, 1, [5]),
                   Entry(15, 1, NameOf(6, 255)));
  }

  /** Four long names that fill a block of 1024 bytes, and a fifth one between the first two: the
      hashes differ, but the second half does not fit. */
  lemma {:induction false} FullBlock(a: Slot, b: Slot, c: Slot, d: Slot, e: Entry)
    requires Begins(a, 1) && Begins(b, 3) && Begins(c, 4) && Begins(d, 5)
    requires a.name == NameOf(1, 242) && b.name == NameOf(3, 255)
    requires c.name == NameOf(4, 255) && d.name == NameOf(5, 236)
    requires a.len == 252 && b.len == 264 && c.len == 264 && d.len == 244
    requires e.name == NameOf(2, 255)
    ensures !HasRoom([a, b, c, d], |e.name|)
    ensures var es := Live([a, b, c, d]) + [e];
            && DistinctHashes(es, ByFirst)
            && IsSplitPoint(Gather(es, ByFirst), 1024, 1)
            && Sum(Gather(es, ByFirst)[1..]) > 1024
  {
    FourLive(a, b, c, d);
    var live := [EntryOf(a), EntryOf(b), EntryOf(c), EntryOf(d)];
    var g := [EntryOf(a), e, EntryOf(b), EntryOf(c), EntryOf(d)];
    GatherInOrder(live, ByFirst);
    PutSecond(EntryOf(a), live[1..], e);
    assert (live + [e])[..4] == live;
    assert Gather(live + [e], ByFirst) == g;
    SmallBlockOverflows(g);
  }

  lemma {:induction false} PutSecond(a: Entry, rest: seq<Entry>, e: Entry)
    requires rest != [] && ByFirst(a.name) < ByFirst(e.name) < ByFirst(rest[0].name)
    ensures Put([a] + rest, e, ByFirst) == [a] + ([e] + rest)
  {
    assert ([a] + rest)[1..] == rest;
  }

  lemma {:induction false} FullTree(a: Slot, b: Slot, c: Slot, d: Slot, e: Entry)
    requires Begins(a, 1) && Begins(b, 3) && Begins(c, 4) && Begins(d, 5) && Fresh(e, 2)
    requires a.name == NameOf(1, 242) && b.name == NameOf(3, 255)
    requires c.name == NameOf(4, 255) && d.name == NameOf(5, 236)
    requires a.len == 252 && b.len == 264 && c.len == 264 && d.len == 244
    requires e.name == NameOf(2, 255)
    ensures var t := TreeOf(a, b, c, d);
            && TreeOk(t, ByFirst, 1024) && HashOk(ByFirst) && e.name !in t.names
            && In(t.index, 0, ByFirst(e.name)) && NeedsSplit(t, 0, e, 2)
            && DistinctHashes(Live(SlotsAt(t, 0)) + [e], ByFirst)
            && IsSplitPoint(Gather(Live(SlotsAt(t, 0)) + [e], ByFirst), 1024, 1)
            && forall ftype :: !SplitSafe(t, ByFirst, 1024, 0, e, 1, ftype)
  {
    hide Live;
    hide Gather;
    hide Used;
    hide HasRoom;
    hide TreeOk;
    hide Sum;
    hide DistinctHashes;
    FourTree(a, b, c, d, 1024);
    FullBlock(a, b, c, d, e);
    FreshName(a, b, c, d, e, 2);
  }

  /** A directory of blocks of 1024 bytes whose split loses a name although all hashes differ. */
  lemma {:induction false} SmallBlockLosesAName()
    ensures exists t, e ::
              && TreeOk(t, ByFirst, 1024) && HashOk(ByFirst) && EntryGood(e) && e.name !in t.names
              && In(t.index, 0, ByFirst(e.name)) && NeedsSplit(t, 0, e, 2)
              && DistinctHashes(Live(SlotsAt(t, 0)) + [e], ByFirst)
              && IsSplitPoint(Gather(Live(SlotsAt(t, 0)) + [e], ByFirst), 1024, 1)
              && forall ftype :: !SplitSafe(t, ByFirst, 1024, 0, e, 1, ftype)
  {
    FullTree(Slot(11, 252, 1, NameOf(1, 242)), Slot(12, 264, 1, NameOf(3, 255)), Slot(13, 264, 1, NameOf(4, 255)),
             Slot(14, 244, 1, NameOf(5, 236)), Entry(15, 1, NameOf(2, 255)));
  }
}
