/** The hashed directory as an object whose methods change it in place
    (src/directory/htree/node.rs, src/directory/htree/cursor.rs, src/directory/htree/mod.rs). */
module HTreeDirectory {
  import opened Wrappers
  import opened ByteRw
  import opened DirectorySlots
  import opened HTreeSplit
  import opened HTree

  /** What `insert` comes to.  IndexFull and NoSplitPoint are the two places where it stops with a
      panic: an index with no free entry, and a full block whose entries use half a block or less. */
  datatype Outcome = Inserted | IndexFull | NoSplitPoint

  class Directory {
    const blkSize: nat
    const rEntries: nat
    const h: Hasher
    /** The dx entries of the root block up to its limit; only the block of the first one is used. */
    const entries: array<DxEntry>
    var count: nat
    var dot: nat
    var dotdot: nat
    var blocks: map<nat, seq<Slot>>
    ghost var names: map<Name, Entry>

    ghost function T(): Tree
      reads this, entries
      requires count <= entries.Length
    {
      Tree(entries[..count], blocks, names)
    }

    ghost predicate Valid()
      reads this, entries
    {
      && (blkSize == 1024 || blkSize == 2048 || blkSize == 4096)
      && entries.Length == rEntries + 1 && 1 <= count <= rEntries
      && HashOk(h) && TreeOk(T(), h, blkSize)
    }

    /** `init`: one block, cleared; the name length and the file type of its slot may be left over. */
    constructor (blkSize: nat, rEntries: nat, h: Hasher, ftype: U8, name: Name)
      requires blkSize == 1024 || blkSize == 2048 || blkSize == 4096
      requires rEntries > 0 && HashOk(h) && |name| < 256
      ensures Valid() && names == map[] && fresh(entries) && dot == 0 && dotdot == 0
      ensures this.blkSize == blkSize && this.rEntries == rEntries && this.h == h && count == 1
    {
      this.blkSize, this.rEntries, this.h := blkSize, rEntries, h;
      entries := new DxEntry[rEntries + 1](_ => DxEntry(0, 1));
      count, dot, dotdot := 1, 0, 0;
      blocks := map[1 := Cleared(blkSize, ftype, name)];
      names := map[];
      new;
      InitOk(T(), h, blkSize, ftype, name);
    }

    /** `entries`: the first entry has hash 0. */
    function EntryAtIndex(i: nat): Option<DxEntry>
      reads this, entries
      requires count <= entries.Length
    {
      if i >= count then None else if i == 0 then Some(DxEntry(0, entries[0].block)) else Some(entries[i])
    }

    /** Main result: the binary search of `from_hash` finds the entry whose interval has the hash. */
    method FromHash(hash: nat) returns (k: nat)
      requires Valid() && hash < HASHES
      ensures In(entries[..count], k, hash)
    {
      ghost var index := entries[..count];
      var l: int, r: int := 1, count as int - 1;
      while l <= r
        invariant 1 <= l <= r + 2 && r < count && l <= count
        invariant r + 1 >= l - 1 && r >= 0
        invariant HashAt(index, l - 1) <= hash < HashAt(index, r + 1)
        decreases r - l + 1
      {
        var m := l + (r - l) / 2;
        assert HashAt(index, m) == index[m].hash;
        if EntryAtIndex(m).value.hash > hash {
          r := m - 1;
        } else {
          l := m + 1;
        }
      }
      k := l - 1;
    }

    /** Main result: `insert_at` shifts the entries behind it by one place and puts the new one in. */
    method InsertAt(at: nat, e: DxEntry) returns (ok: bool)
      requires 0 < at <= count <= entries.Length && (at < count ==> count < entries.Length)
      modifies entries, this`count
      ensures ok <==> at < entries.Length
      ensures ok ==> count == old(count) + 1 <= entries.Length
      ensures ok ==> entries[..count] == old(entries[..at]) + [e] + old(entries[at..count])
      ensures !ok ==> count == old(count) && entries[..] == old(entries[..])
    {
      if at >= entries.Length {
        return false;
      }
      var i := count;
      while i > at
        invariant at <= i <= count < entries.Length && count == old(count)
        invariant forall j :: 0 <= j < i ==> entries[j] == old(entries[j])
        invariant forall j :: i < j <= count ==> entries[j] == old(entries[j - 1])
      {
        i := i - 1;
        entries[i + 1] := entries[i];
      }
      entries[at] := e;
      count := count + 1;
      ShiftedIn(old(entries[..]), entries[..], old(count), at, e);
      return true;
    }

    /** The slots of the root block that `find_then` looks at for "." and "..". */
    function RootSlots(): seq<Slot>
      reads this
      requires blkSize >= 12
    {
      [Slot(dot, 12, 2, DOT), Slot(dotdot, blkSize - 12, 2, DOTDOT)]
    }

    /** Main result: `find_then` finds exactly the names of the map, and "." and ".." when they have
        been entered. */
    method Find(n: Name) returns (r: Option<Entry>)
      requires Valid()
      ensures !IsDot(n) ==> r == Lookup(names, n)
      ensures n == DOT ==> r == if dot != 0 then Some(Entry(dot, 2, n)) else None
      ensures n == DOTDOT ==> r == if dotdot != 0 then Some(Entry(dotdot, 2, n)) else None
    {
      hide TreeOk;
      FindInRoot(dot, dotdot, blkSize, n);
      if IsDot(n) {
        r := DirectorySlots.Find(RootSlots(), n);
        if r.Some? {
          return r;
        }
      }
      var k := FromHash(h(n));
      BlockOfHash(T(), h, blkSize, k, n);
      var cursor := new Cursor(this, k, h(n));
      var en := cursor.Next();
      while en.Some?
        invariant cursor.dir == this && fresh(cursor) && cursor.Valid() && cursor.k == k
        invariant cursor.Yields(en)
        invariant en.None? ==> DirectorySlots.Find(SlotsAt(T(), k), n) == None
        decreases en.Some?
      {
        r := DirectorySlots.Find(blocks[en.value.block], n);
        if r.Some? {
          return r;
        }
        en := cursor.Next();
      }
      return None;
    }

    /** Main result: `find_mut_then` with `destroy` removes exactly the named entry.  Removing "." or
        ".." is not part of this model. */
    method Remove(n: Name) returns (r: Option<nat>)
      requires Valid() && !IsDot(n)
      modifies this`blocks, this`names
      ensures Valid() && names == old(names) - {n}
      ensures r == match Lookup(old(names), n) case None => None case Some(e) => Some(e.inode)
    {
      var k := FromHash(h(n));
      BlockOfHash(T(), h, blkSize, k, n);
      var cursor := new Cursor(this, k, h(n));
      var en := cursor.Next();
      while en.Some?
        invariant cursor.dir == this && fresh(cursor) && cursor.Valid() && cursor.k == k && Valid()
        invariant cursor.Yields(en)
        invariant blocks == old(blocks) && names == old(names)
        invariant en.None? ==> n !in names
        decreases en.Some?
      {
        var block := en.value.block;
        var found := DirectorySlots.Find(blocks[block], n);
        if found.Some? {
          RemoveKeepsTree(T(), h, blkSize, k, n);
          blocks := blocks[block := DirectorySlots.Remove(blocks[block], n)];
          names := names - {n};
          return Some(found.value.inode);
        }
        en := cursor.Next();
      }
      assert names == old(names) - {n};
      return None;
    }

    /** The gathering loop of `split_data`. */
    method GatherEntries(live: seq<Entry>, e: Entry) returns (g: seq<Entry>)
      ensures g == Gather(live + [e], h)
    {
      g := [];
      var i := 0;
      while i < |live|
        invariant 0 <= i <= |live| && g == Gather(live[..i], h)
      {
        g := Put(g, live[i], h);
        i := i + 1;
        assert live[..i][..i - 1] == live[..i - 1];
      }
      assert live[..i] == live && (live + [e])[..|live|] == live;
      g := Put(g, e, h);
    }

    /** The search for the split point in `split_data`: the hash of the new block and the position.
        Only a repeated hash would make it take the hash after it. */
    method FindSplit(g: seq<Entry>) returns (r: Option<(int, nat)>)
      requires Sorted(g, h) && HashOk(h)
      ensures r.None? ==> Used(g) <= blkSize / 2
      ensures r.Some? ==> IsSplitPoint(g, blkSize, r.value.1)
      ensures r.Some? ==> r.value.0 == h(g[r.value.1].name)
    {
      var used, phash: int, i := 0, U32_MAX, 0;
      assert g[..0] == [];
      while i < |g|
        invariant 0 <= i <= |g| && used == Used(g[..i]) <= blkSize / 2
        invariant phash == if i == 0 then U32_MAX else h(g[i - 1].name)
      {
        UsedStep(g, i);
        used := used + |g[i].name| + 8;
        var hash: int := h(g[i].name);
        if used > blkSize / 2 {
          return Some((if phash == hash then hash + 1 else hash, i));
        }
        phash := hash;
        i := i + 1;
      }
      assert g[..i] == g;
      return None;
    }

    /** The loops that put one half into a cleared block. */
    method RefillBlock(cleared: seq<Slot>, es: seq<Entry>) returns (slots: seq<Slot>)
      requires SlotsOk(cleared) && forall e :: e in es ==> EntryOk(e)
      ensures slots == Refill(cleared, es)
    {
      slots := cleared;
      var i := 0;
      while i < |es|
        invariant 0 <= i <= |es| && SlotsOk(slots)
        invariant Refill(cleared, es) == Refill(slots, es[i..])
      {
        assert es[i..][1..] == es[i + 1..] && es[i] in es;
        RefillStep(slots, es[i..]);
        if HasRoom(slots, |es[i].name|) {
          slots := DirectorySlots.Insert(slots, es[i]);
        }
        i := i + 1;
      }
    }

    /** Main result: `split_data` puts the entries of a full block and the new one into two blocks.
        The directory keeps its invariant, and it stands for the old map with the new name exactly
        when the split is safe.  `block` is the newly allocated block, and ftype and name are what
        is left over in it. */
    method SplitData(at: nat, e: Entry, block: nat, ftype: U8, name: Name) returns (r: Outcome, ghost p: nat)
      requires Valid() && count < rEntries && 0 < at <= count && In(entries[..count], at - 1, h(e.name))
      requires EntryGood(e) && !IsDot(e.name) && e.name !in names
      requires block !in blocks && FillOk(blkSize, name)
      modifies this`blocks, this`names, this`count, entries
      ensures Valid() && !r.IndexFull?
      ensures r.NoSplitPoint? ==> T() == old(T())
      ensures r.NoSplitPoint? <==> Used(Gather(Live(SlotsAt(old(T()), at - 1)) + [e], h)) <= blkSize / 2
      ensures r.Inserted? ==> IsSplitPoint(Gather(Live(SlotsAt(old(T()), at - 1)) + [e], h), blkSize, p)
      ensures r.Inserted? ==>
                (names == old(names)[e.name := e] <==> SplitSafe(old(T()), h, blkSize, at - 1, e, p, ftype))
    {
      hide TreeOk;
      hide Live;
      hide Refill;
      hide SplitSafe;
      hide NamesAfter;
      hide Gather;
      hide Used;
      hide Sorted;
      hide HashOk;
      hide In;
      hide EntryGood;
      hide FillOk;
      hide SlotsOk;
      hide IsSplitPoint;
      hide Cleared;
      ghost var t, k := T(), at - 1;
      BlockOfHash(t, h, blkSize, k, e.name);
      var dxBlock := entries[at - 1].block;
      var slots := blocks[dxBlock];
      var g := GatherEntries(Live(slots), e);
      GatherSorted(Live(slots) + [e], h);
      var split := FindSplit(g);
      SplitPointIff(g, blkSize);
      if split.None? {
        return NoSplitPoint, 0;
      }
      var pos := split.value.1;
      p := pos;
      ReadyToSplit(t, h, blkSize, k, e, g, p);
      ReadyToRefill(t, h, blkSize, k, e, g, p, ftype, name);
      IndexAfter(entries[..], count, at, DxEntry(split.value.0, block));
      var ok := InsertAt(at, DxEntry(split.value.0, block));
      var left := RefillBlock(Cleared(blkSize, slots[0].ftype, slots[0].name), g[..pos]);
      var right := RefillBlock(Cleared(blkSize, ftype, name), g[pos..]);
      blocks := blocks[dxBlock := left][block := right];
      ghost var x := Halves(g, p, block, left, right);
      SplitDone(t, h, blkSize, k, e, x, ftype, name);
      names := NamesAfter(t, h, k, e, x);
      assert T() == SplitTree(t, h, k, e, x);
      return Inserted, p;
    }

    /** Main result: `insert`.  The three outcomes are decided by the number of index entries, the
        room in the one block of the name's hash, and the split point.  An insertion without a split
        adds exactly the name; one with a split does so exactly when the split is safe. */
    method Insert(e: Entry, block: nat, ftype: U8, name: Name) returns (r: Outcome, ghost k: nat, ghost p: nat)
      requires Valid() && EntryGood(e) && e.name !in names
      requires block !in blocks && FillOk(blkSize, name)
      modifies this, entries
      ensures Valid()
      ensures IsDot(e.name) ==> r.Inserted? && T() == old(T())
      ensures dot == if e.name == DOT then e.inode else old(dot)
      ensures dotdot == if e.name == DOTDOT then e.inode else old(dotdot)
      ensures !IsDot(e.name) ==> In(old(T()).index, k, h(e.name))
      ensures !IsDot(e.name) ==> (r.IndexFull? <==> old(count) == rEntries)
      ensures !r.Inserted? ==> T() == old(T())
      ensures !IsDot(e.name) && old(count) < rEntries && HasRoom(SlotsAt(old(T()), k), |e.name|) ==>
                r.Inserted? && names == old(names)[e.name := e]
      ensures NeedsSplit(old(T()), k, e, rEntries) && !r.Inserted? ==>
                Used(Gather(Live(SlotsAt(old(T()), k)) + [e], h)) <= blkSize / 2
      ensures NeedsSplit(old(T()), k, e, rEntries) && r.Inserted? ==>
                (names == old(names)[e.name := e] <==> SplitSafe(old(T()), h, blkSize, k, e, p, ftype))
      ensures NeedsSplit(old(T()), k, e, rEntries) && r.Inserted? && blkSize != 1024 ==>
                (names == old(names)[e.name := e] <==>
                   DistinctHashes(Live(SlotsAt(old(T()), k)) + [e], h) && ftype != 0xDE)
    {
      hide TreeOk;
      hide Live;
      hide SplitSafe;
      hide Gather;
      k, p := 0, 0;
      if e.name == DOT {
        dot := e.inode;
        return Inserted, k, p;
      } else if e.name == DOTDOT {
        dotdot := e.inode;
        return Inserted, k, p;
      }
      var at := FromHash(h(e.name));
      k := at;
      ghost var t := T();
      BlockOfHash(t, h, blkSize, k, e.name);
      var cursor := new Cursor(this, at, h(e.name));
      if count == rEntries {
        return IndexFull, k, p;
      }
      var en := cursor.Next();
      while en.Some?
        invariant cursor.dir == this && fresh(cursor) && cursor.Valid() && cursor.k == k && Valid()
        invariant cursor.Yields(en) && T() == t && dot == old(dot) && dotdot == old(dotdot)
        invariant en.None? ==> !HasRoom(SlotsAt(t, k), |e.name|)
        decreases en.Some?
      {
        var b := en.value.block;
        if HasRoom(blocks[b], |e.name|) {
          InsertKeepsTree(t, h, blkSize, k, e);
          blocks := blocks[b := DirectorySlots.Insert(blocks[b], e)];
          names := names[e.name := e];
          return Inserted, k, p;
        }
        en := cursor.Next();
      }
      r, p := SplitData(cursor.pos, e, block, ftype, name);
      if r.Inserted? && blkSize != 1024 {
        SafeIffDistinct(t, h, blkSize, k, e, p, ftype);
      }
    }
  }

  /** The cases in which `insert` comes to `split_data`. */
  ghost predicate NeedsSplit(t: Tree, k: nat, e: Entry, rEntries: nat) {
    !IsDot(e.name) && |t.index| < rEntries && !HasRoom(SlotsAt(t, k), |e.name|)
  }

  /** The cursor of `from_hash`.  k is the entry it starts at. */
  class Cursor {
    const dir: Directory
    const hash: nat
    var pos: nat
    var checkHash: bool
    ghost const k: nat

    ghost predicate Valid()
      reads this, dir, dir.entries
    {
      && dir.Valid() && k < dir.count && hash % 2 == 0
      && pos == if checkHash then k + 1 else k
    }

    /** After the entry at k comes nothing more. */
    ghost predicate Yields(en: Option<DxEntry>)
      reads this, dir, dir.entries
      requires dir.Valid()
    {
      checkHash && (en.Some? ==> k < dir.count && en.value.block == dir.entries[k].block)
    }

    constructor (dir: Directory, k: nat, hash: nat)
      requires dir.Valid() && k < dir.count && hash % 2 == 0
      ensures this.dir == dir && this.k == k && this.hash == hash && Valid() && !checkHash
    {
      this.dir, this.hash, this.k := dir, hash, k;
      pos, checkHash := k, false;
    }

    /** Main result: `next` yields the entry of the hash and no other.  The next entry would have to
        have the hash plus one, and that is odd while every hash of the index is even. */
    method Next() returns (r: Option<DxEntry>)
      requires Valid()
      modifies this
      ensures Valid() && Yields(r)
      ensures r.Some? <==> !old(checkHash)
    {
      r := dir.EntryAtIndex(pos);
      if r.Some? {
        if checkHash && hash + 1 != r.value.hash {
          return None;
        }
        checkHash := true;
        pos := pos + 1;
      }
    }
  }

  // ---- what the methods use --------------------------------------------------------------------------

  lemma {:induction false} InitOk(t: Tree, h: Hasher, blkSize: nat, ftype: U8, name: Name)
    requires blkSize == 1024 || blkSize == 2048 || blkSize == 4096
    requires |name| < 256
    requires t == Tree([DxEntry(0, 1)], map[1 := Cleared(blkSize, ftype, name)], map[])
    ensures TreeOk(t, h, blkSize)
  {
    var slots := Cleared(blkSize, ftype, name);
    LiveOne(slots[0]);
    TotalOne(slots[0]);
    assert SlotsAt(t, 0) == slots && SlotsGood(slots, blkSize);
    assert BlockOk(t, 0, h, blkSize);
  }

  lemma {:induction false} ShiftedIn(was: seq<DxEntry>, now: seq<DxEntry>, count: nat, at: nat, e: DxEntry)
    requires at <= count < |was| == |now| && now[at] == e
    requires forall j :: 0 <= j < at ==> now[j] == was[j]
    requires forall j :: at < j <= count ==> now[j] == was[j - 1]
    ensures now[..count + 1] == was[..at] + [e] + was[at..count]
  {
  }

  lemma {:induction false} IndexAfter(entries: seq<DxEntry>, count: nat, at: nat, e: DxEntry)
    requires 0 < at <= count <= |entries|
    ensures entries[..at] + [e] + entries[at..count] == WithEntry(entries[..count], at - 1, e.hash, e.block)
  {
  }

  /** The block of a name's hash exists, and what is found there is what the map says. */
  lemma {:induction false} BlockOfHash(t: Tree, h: Hasher, blkSize: nat, k: nat, n: Name)
    requires TreeOk(t, h, blkSize) && In(t.index, k, h(n))
    ensures k < |t.index| && t.index[k].block in t.blocks && SlotsAt(t, k) == t.blocks[t.index[k].block]
    ensures DirectorySlots.Find(SlotsAt(t, k), n) == Lookup(t.names, n)
    ensures SlotsGood(SlotsAt(t, k), blkSize)
    ensures IsDot(n) ==> n !in t.names
  {
    FindIsLookup(t, h, blkSize, k, n);
    assert BlockOk(t, k, h, blkSize);
    if n in t.names {
      assert NameOk(t, n, h);
      assert EntryAt(t, k, t.names[n], h);
    }
  }

  lemma {:induction false} FindInRoot(dot: nat, dotdot: nat, blkSize: nat, n: Name)
    requires blkSize >= 12
    ensures var slots := [Slot(dot, 12, 2, DOT), Slot(dotdot, blkSize - 12, 2, DOTDOT)];
            DirectorySlots.Find(slots, n)
            == if n == DOT && dot != 0 then Some(Entry(dot, 2, n))
               else if n == DOTDOT && dotdot != 0 then Some(Entry(dotdot, 2, n)) else None
  {
    var slots := [Slot(dot, 12, 2, DOT), Slot(dotdot, blkSize - 12, 2, DOTDOT)];
    var i := IndexOf(slots, n);
    assert slots[0].name == DOT && slots[1].name == DOTDOT && DOT[0] == 46 && |DOT| == 1 && |DOTDOT| == 2;
  }

  /** The split point is not the first entry, and every gathered entry can be written. */
  lemma {:induction false} ReadyToSplit(t: Tree, h: Hasher, blkSize: nat, k: nat, e: Entry, g: seq<Entry>, p: nat)
    requires TreeOk(t, h, blkSize) && blkSize >= 1024 && k < |t.index| && EntryGood(e)
    requires g == Gather(Live(SlotsAt(t, k)) + [e], h) && IsSplitPoint(g, blkSize, p)
    ensures 0 < p < |g| && forall x :: x in g ==> EntryGood(x)
    ensures SlotsAt(t, k) != [] && SlotsAt(t, k)[0].ftype != CHECKSUM
  {
    GatherSorted(Live(SlotsAt(t, k)) + [e], h);
    assert BlockOk(t, k, h, blkSize);
    forall x | x in g
      ensures EntryGood(x)
    {
      if x in Live(SlotsAt(t, k)) { assert EntryAt(t, k, x, h); }
    }
    UsedStep(g, 0);
    assert g[..0] == [] && g[0] in g;
    NotUnfilled(SlotsAt(t, k), h, blkSize, e, g);
  }

  /** A block with two entries to split has been filled before. */
  lemma {:induction false} NotUnfilled(slots: seq<Slot>, h: Hasher, blkSize: nat, e: Entry, g: seq<Entry>)
    requires SlotsGood(slots, blkSize) && blkSize > 0 && |g| > 1 && Sorted(g, h)
    requires forall x :: x in g ==> x in Live(slots) + [e]
    ensures slots != [] && slots[0].ftype != CHECKSUM
  {
    assert g[0] in g && g[1] in g;
    if |slots| == 1 && !IsLive(slots[0]) {
      assert slots == [slots[0]];
      LiveOne(slots[0]);
    } else if slots != [] {
      assert slots[0] in slots;
    }
  }

  lemma {:induction false} ReadyToRefill(t: Tree, h: Hasher, blkSize: nat, k: nat, e: Entry, g: seq<Entry>, p: nat,
    ftype: U8, name: Name)
    requires TreeOk(t, h, blkSize) && k < |t.index| && FillOk(blkSize, name) && SlotsAt(t, k) != []
    requires p < |g| && forall x :: x in g ==> EntryGood(x)
    ensures SlotsOk(Cleared(blkSize, SlotsAt(t, k)[0].ftype, SlotsAt(t, k)[0].name))
    ensures SlotsOk(Cleared(blkSize, ftype, name))
    ensures (forall y :: y in g[..p] ==> EntryOk(y)) && (forall y :: y in g[p..] ==> EntryOk(y))
  {
    assert BlockOk(t, k, h, blkSize);
    assert SlotsAt(t, k)[0] in SlotsAt(t, k);
    assert SlotsAt(t, k)[0].len <= Total(SlotsAt(t, k));
    forall y | y in g[..p] || y in g[p..]
      ensures EntryOk(y)
    {
      assert y in g;
    }
  }

  lemma {:induction false} SplitDone(t: Tree, h: Hasher, blkSize: nat, k: nat, e: Entry, x: Halves, ftype: U8,
      name: Name)
    requires HashOk(h) && TreeOk(t, h, blkSize) && FillOk(blkSize, name)
    requires k < |t.index| && In(t.index, k, h(e.name)) && EntryGood(e) && !IsDot(e.name) && e.name !in t.names
    requires x.all == Gather(Live(SlotsAt(t, k)) + [e], h) && x.block !in t.blocks
    requires 0 < x.p < |x.all| && forall y :: y in x.all ==> EntryGood(y)
    requires SlotsAt(t, k) != [] && SlotsAt(t, k)[0].ftype != CHECKSUM
    requires SlotsOk(Cleared(blkSize, SlotsAt(t, k)[0].ftype, SlotsAt(t, k)[0].name))
    requires SlotsOk(Cleared(blkSize, ftype, name))
    requires (forall y :: y in x.all[..x.p] ==> EntryOk(y)) && (forall y :: y in x.all[x.p..] ==> EntryOk(y))
    requires x.left == Refill(Cleared(blkSize, SlotsAt(t, k)[0].ftype, SlotsAt(t, k)[0].name), x.all[..x.p])
    requires x.right == Refill(Cleared(blkSize, ftype, name), x.all[x.p..])
    ensures TreeOk(SplitTree(t, h, k, e, x), h, blkSize)
    ensures SplitTree(t, h, k, e, x).names == t.names[e.name := e] <==> SplitSafe(t, h, blkSize, k, e, x.p, ftype)
  {
    assert BlockOk(t, k, h, blkSize);
    assert SlotsAt(t, k)[0] in SlotsAt(t, k);
    GatherSorted(Live(SlotsAt(t, k)) + [e], h);
    DistinctSlice(x.all, h, 0, x.p);
    DistinctSlice(x.all, h, x.p, |x.all|);
    HalfDone(blkSize, SlotsAt(t, k)[0].ftype, SlotsAt(t, k)[0].name, x.all[..x.p]);
    HalfDone(blkSize, ftype, name, x.all[x.p..]);
    SplitKeepsTree(t, h, blkSize, k, e, x);
    SplitLosesNothingIff(t, h, blkSize, k, e, x, ftype);
  }

  lemma {:induction false} DistinctSlice(g: seq<Entry>, h: Hasher, i: nat, j: nat)
    requires Sorted(g, h) && i <= j <= |g| && forall y :: y in g ==> EntryGood(y)
    ensures Distinct(g[i..j]) && forall y :: y in g[i..j] ==> EntryGood(y)
  {
    forall a, b | 0 <= a < b < j - i
      ensures g[i..j][a].name != g[i..j][b].name
    {
      assert h(g[i + a].name) < h(g[i + b].name);
    }
  }

  lemma {:induction false} HalfDone(blkSize: nat, ftype: U8, name: Name, es: seq<Entry>)
    requires FillOk(blkSize, name) && Distinct(es) && forall e :: e in es ==> EntryGood(e)
    ensures SlotsOk(Cleared(blkSize, ftype, name)) && forall e :: e in es ==> EntryOk(e)
    ensures HalfOk(Refill(Cleared(blkSize, ftype, name), es), es, blkSize)
    ensures AllIn(es, Live(Refill(Cleared(blkSize, ftype, name), es)))
            <==> Sum(es) <= blkSize && (ftype != CHECKSUM || es == [])
  {
    hide Refill;
    hide Live;
    hide Sum;
    hide HasRoom;
    hide DirectorySlots.Insert;
    var slots := Cleared(blkSize, ftype, name);
    RefillKeepsAllIff(blkSize, ftype, name, es);
    LiveOne(slots[0]);
    TotalOne(slots[0]);
    assert [] + es == es;
    RefillOk(slots, [], es);
    forall e | e in Live(Refill(slots, es))
      ensures e in es
    {
      RefillSubset(slots, es, e);
    }
  }

  /** Refilling keeps the length of the block, the distinct names, and the file types. */
  lemma {:induction false} RefillOk(slots: seq<Slot>, done: seq<Entry>, es: seq<Entry>)
    requires SlotsOk(slots) && (forall e :: e in es ==> EntryGood(e)) && (forall e :: e in es ==> EntryOk(e))
    requires Distinct(done + es)
    requires Distinct(Live(slots)) && (forall e :: e in Live(slots) ==> e in done)
    requires TypesGood(slots)
    ensures var r := Refill(slots, es); Total(r) == Total(slots) && Distinct(Live(r)) && TypesGood(r)
    decreases |es|
  {
    hide TypesGood;
    hide Live;
    hide DirectorySlots.Insert;
    hide HasRoom;
    hide Total;
    if es != [] {
      var e := es[0];
      assert es == [e] + es[1..] && EntryGood(e) && EntryOk(e);
      assert (done + [e]) + es[1..] == done + es;
      RefillStep(slots, es);
      if HasRoom(slots, |e.name|) {
        InsertKeeps(slots, e);
        NewName(done, e, es[1..]);
        InsertDistinct(slots, e);
        InsertTypes(slots, e);
        RefillOk(DirectorySlots.Insert(slots, e), done + [e], es[1..]);
      } else {
        RefillOk(slots, done + [e], es[1..]);
      }
    }
  }

  lemma {:induction false} NewName(done: seq<Entry>, e: Entry, rest: seq<Entry>)
    requires Distinct((done + [e]) + rest)
    ensures forall x :: x in done ==> x.name != e.name
  {
    var all := (done + [e]) + rest;
    assert all[|done|] == e;
    forall x | x in done
      ensures x.name != e.name
    {
      var i :| 0 <= i < |done| && done[i] == x;
      assert all[i] == x;
    }
  }

  /** Main result: with blocks of 2048 and 4096 bytes a split is safe exactly when no two entries of
      the block, with the new one, have the same hash, and the new block can be filled. */
  lemma {:induction false} SafeIffDistinct(t: Tree, h: Hasher, blkSize: nat, k: nat, e: Entry, p: nat,
      ftype: U8)
    requires TreeOk(t, h, blkSize) && k < |t.index| && EntryGood(e)
    requires blkSize == 2048 || blkSize == 4096
    requires IsSplitPoint(Gather(Live(SlotsAt(t, k)) + [e], h), blkSize, p)
    ensures SplitSafe(t, h, blkSize, k, e, p, ftype)
            <==> DistinctHashes(Live(SlotsAt(t, k)) + [e], h) && ftype != 0xDE
  {
    var slots := SlotsAt(t, k);
    var g := Gather(Live(slots) + [e], h);
    assert BlockOk(t, k, h, blkSize);
    ReadyToSplit(t, h, blkSize, k, e, g, p);
    GatherSorted(Live(slots) + [e], h);
    SumAppend(Live(slots), [e]);
    SumOne(e);
    SumOfLive(slots);
    BothHalvesFit(g, blkSize, p);
  }

  lemma {:induction false} SumOfLive(slots: seq<Slot>)
    requires SlotsOk(slots)
    ensures Sum(Live(slots)) <= Total(slots)
    decreases |slots|
  {
    if slots != [] {
      assert slots[0] in slots && slots == [slots[0]] + slots[1..];
      SumOfLive(slots[1..]);
      SumAppend(LiveOf(slots[0]), Live(slots[1..]));
      if IsLive(slots[0]) { SumOne(EntryOf(slots[0])); }
    }
  }
}
