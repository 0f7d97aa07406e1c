/** The single-level hashed directory: a root block of hash entries over directory blocks
    (src/directory/htree/node.rs, src/directory/htree/cursor.rs). */
module HTree {
  import opened Wrappers
  import opened ByteRw
  import opened DirectorySlots
  import opened HTreeSplit

  // A directory block is here the list of its slots; module DirectoryBlock ties that list to the bytes.

  datatype DxEntry = DxEntry(hash: nat, block: nat)

  const DOT: Name := [46]
  const DOTDOT: Name := [46, 46]

  predicate IsDot(n: Name) { n == DOT || n == DOTDOT }

  // ---- the index -------------------------------------------------------------------------------

  /** Where the interval of entry k starts: `entries` gives hash 0 for the first one. */
  function HashAt(index: seq<DxEntry>, k: nat): nat {
    if k == 0 then 0 else if k < |index| then index[k].hash else HASHES
  }

  /** The hash belongs to the block of entry k. */
  predicate In(index: seq<DxEntry>, k: int, hash: nat) {
    0 <= k < |index| && HashAt(index, k) <= hash < HashAt(index, k + 1)
  }

  ghost predicate Increasing(index: seq<DxEntry>) {
    forall i: nat, j: nat {:trigger HashAt(index, i), HashAt(index, j)} ::
      i < j <= |index| ==> HashAt(index, i) < HashAt(index, j)
  }

  ghost predicate IndexOk(index: seq<DxEntry>) {
    && |index| > 0 && Increasing(index)
    && (forall i :: 1 <= i < |index| ==> index[i].hash % 2 == 0)
    && (forall i, j :: 0 <= i < j < |index| ==> index[i].block != index[j].block)
  }

  /** A hash belongs to one block only. */
  lemma {:induction false} OneBlock(index: seq<DxEntry>, i: nat, j: nat, hash: nat)
    requires IndexOk(index) && In(index, i, hash) && In(index, j, hash)
    ensures i == j
  {
  }

  // ---- the directory as a value ------------------------------------------------------------------

  /** The index, the blocks it points to, and the map from names to entries that they stand for. */
  datatype Tree = Tree(index: seq<DxEntry>, blocks: map<nat, seq<Slot>>, names: map<Name, Entry>)

  ghost predicate SlotsGood(slots: seq<Slot>, blkSize: nat) {
    SlotsOk(slots) && Total(slots) == blkSize && TypesGood(slots)
  }

  /** Only in a block that was cleared and never filled can the file type of a checksum entry be left
      over.  Such a block has no room. */
  ghost predicate TypesGood(slots: seq<Slot>) {
    || (forall s :: s in slots ==> s.ftype != CHECKSUM)
    || (|slots| == 1 && !IsLive(slots[0]) && slots[0].ftype == CHECKSUM)
  }

  function SlotsAt(t: Tree, k: int): seq<Slot> {
    if 0 <= k < |t.index| && t.index[k].block in t.blocks then t.blocks[t.index[k].block] else []
  }

  /** A live entry of block k: it is in the map, and its hash lies in the interval of the block. */
  ghost predicate EntryAt(t: Tree, k: int, e: Entry, h: Hasher) {
    && EntryGood(e) && !IsDot(e.name)
    && In(t.index, k, h(e.name))
    && e.name in t.names && t.names[e.name] == e
  }

  ghost predicate BlockOk(t: Tree, k: int, h: Hasher, blkSize: nat) {
    && 0 <= k < |t.index| && t.index[k].block in t.blocks
    && SlotsGood(SlotsAt(t, k), blkSize)
    && Distinct(Live(SlotsAt(t, k)))
    && forall e :: e in Live(SlotsAt(t, k)) ==> EntryAt(t, k, e, h)
  }

  /** A name of the map is live in the block of its hash. */
  ghost predicate NameOk(t: Tree, n: Name, h: Hasher) {
    && n in t.names && t.names[n].name == n
    && forall k :: In(t.index, k, h(n)) ==> t.names[n] in Live(SlotsAt(t, k))
  }

  ghost predicate TreeOk(t: Tree, h: Hasher, blkSize: nat) {
    && IndexOk(t.index)
    && (forall k :: 0 <= k < |t.index| ==> BlockOk(t, k, h, blkSize))
    && (forall n :: n in t.names ==> NameOk(t, n, h))
  }

  // ---- find --------------------------------------------------------------------------------------

  function Lookup(names: map<Name, Entry>, n: Name): Option<Entry> {
    if n in names then Some(names[n]) else None
  }

  /** Main result: searching the one block of a name's hash finds exactly what the map says. */
  lemma {:induction false} FindIsLookup(t: Tree, h: Hasher, blkSize: nat, k: int, n: Name)
    requires TreeOk(t, h, blkSize) && In(t.index, k, h(n))
    ensures Find(SlotsAt(t, k), n) == Lookup(t.names, n)
  {
    assert BlockOk(t, k, h, blkSize);
    FindIff(SlotsAt(t, k), n);
    if n in t.names { assert NameOk(t, n, h); }
  }

  // ---- one block changes -------------------------------------------------------------------------

  /** The tree after block k has got other slots and the map other entries. */
  function WithBlock(t: Tree, k: nat, slots: seq<Slot>, names: map<Name, Entry>): Tree
    requires k < |t.index|
  {
    Tree(t.index, t.blocks[t.index[k].block := slots], names)
  }

  lemma {:induction false} WithBlockSlots(t: Tree, k: nat, slots: seq<Slot>, names: map<Name, Entry>, j: int)
    requires IndexOk(t.index) && k < |t.index| && t.index[k].block in t.blocks
    ensures SlotsAt(WithBlock(t, k, slots, names), j) == if j == k then slots else SlotsAt(t, j)
  {
  }

  /** Two maps agree on every name whose hash is outside the interval of block k. */
  ghost predicate AgreeOutside(t: Tree, k: int, names: map<Name, Entry>, h: Hasher) {
    forall n :: !In(t.index, k, h(n)) ==> Lookup(t.names, n) == Lookup(names, n)
  }

  /** It is enough to look at the block that changes. */
  lemma {:induction false} BlockChange(t: Tree, h: Hasher, blkSize: nat, k: nat, slots: seq<Slot>,
      names: map<Name, Entry>)
    requires TreeOk(t, h, blkSize) && k < |t.index|
    requires AgreeOutside(t, k, names, h)
    requires BlockOk(WithBlock(t, k, slots, names), k, h, blkSize)
    requires forall n :: n in names && In(t.index, k, h(n)) ==> names[n].name == n && names[n] in Live(slots)
    ensures TreeOk(WithBlock(t, k, slots, names), h, blkSize)
  {
    var t' := WithBlock(t, k, slots, names);
    assert BlockOk(t, k, h, blkSize);
    forall j | 0 <= j < |t'.index|
      ensures BlockOk(t', j, h, blkSize)
    {
      if j != k { OtherBlock(t, h, blkSize, k, slots, names, j); }
    }
    forall n | n in names
      ensures NameOk(t', n, h)
    {
      OtherName(t, h, blkSize, k, slots, names, n);
    }
  }

  lemma {:induction false} OtherBlock(t: Tree, h: Hasher, blkSize: nat, k: nat, slots: seq<Slot>,
      names: map<Name, Entry>, j: nat)
    requires TreeOk(t, h, blkSize) && k < |t.index| && j < |t.index| && j != k
    requires AgreeOutside(t, k, names, h)
    ensures BlockOk(WithBlock(t, k, slots, names), j, h, blkSize)
  {
    assert BlockOk(t, k, h, blkSize) && BlockOk(t, j, h, blkSize);
    WithBlockSlots(t, k, slots, names, j);
    var t' := WithBlock(t, k, slots, names);
    forall e | e in Live(SlotsAt(t, j))
      ensures EntryAt(t', j, e, h)
    {
      assert EntryAt(t, j, e, h);
      if In(t.index, k, h(e.name)) { OneBlock(t.index, j, k, h(e.name)); }
      assert Lookup(t.names, e.name) == Lookup(names, e.name);
    }
  }

  lemma {:induction false} OtherName(t: Tree, h: Hasher, blkSize: nat, k: nat, slots: seq<Slot>,
      names: map<Name, Entry>, n: Name)
    requires TreeOk(t, h, blkSize) && k < |t.index| && n in names
    requires AgreeOutside(t, k, names, h)
    requires forall m :: m in names && In(t.index, k, h(m)) ==> names[m].name == m && names[m] in Live(slots)
    ensures NameOk(WithBlock(t, k, slots, names), n, h)
  {
    var t' := WithBlock(t, k, slots, names);
    assert BlockOk(t, k, h, blkSize);
    if !In(t.index, k, h(n)) {
      assert Lookup(t.names, n) == Lookup(names, n);
      assert NameOk(t, n, h);
    }
    forall j | In(t'.index, j, h(n))
      ensures names[n] in Live(SlotsAt(t', j))
    {
      WithBlockSlots(t, k, slots, names, j);
      if In(t.index, k, h(n)) { OneBlock(t.index, j, k, h(n)); }
    }
  }

  /** Main result: inserting a new name into the block of its hash keeps the tree and adds the name. */
  lemma {:induction false} InsertKeepsTree(t: Tree, h: Hasher, blkSize: nat, k: nat, e: Entry)
    requires TreeOk(t, h, blkSize) && In(t.index, k, h(e.name)) && EntryGood(e) && !IsDot(e.name)
    requires e.name !in t.names && HasRoom(SlotsAt(t, k), |e.name|)
    ensures SlotsOk(SlotsAt(t, k))
    ensures TreeOk(WithBlock(t, k, Insert(SlotsAt(t, k), e), t.names[e.name := e]), h, blkSize)
  {
    var slots, names := SlotsAt(t, k), t.names[e.name := e];
    var t' := WithBlock(t, k, Insert(slots, e), names);
    assert BlockOk(t, k, h, blkSize);
    InsertKeeps(slots, e);
    InsertDistinct(slots, e);
    InsertTypes(slots, e);
    WithBlockSlots(t, k, Insert(slots, e), names, k);
    forall x | x in Live(Insert(slots, e))
      ensures EntryAt(t', k, x, h)
    {
      if x != e { assert EntryAt(t, k, x, h); }
    }
    forall n | n in names && In(t.index, k, h(n))
      ensures names[n].name == n && names[n] in Live(Insert(slots, e))
    {
      if n != e.name { assert NameOk(t, n, h); }
    }
    BlockChange(t, h, blkSize, k, Insert(slots, e), names);
  }

  lemma {:induction false} InsertDistinct(slots: seq<Slot>, e: Entry)
    requires SlotsOk(slots) && HasRoom(slots, |e.name|) && EntryOk(e) && Distinct(Live(slots))
    requires forall x :: x in Live(slots) ==> x.name != e.name
    ensures Distinct(Live(Insert(slots, e)))
  {
    var k := InsertAddsOne(slots, e);
    DistinctInsert(Live(slots), k, e);
  }

  lemma {:induction false} DistinctInsert(live: seq<Entry>, k: nat, e: Entry)
    requires Distinct(live) && k <= |live| && forall x :: x in live ==> x.name != e.name
    ensures Distinct(live[..k] + [e] + live[k..])
  {
    var r := live[..k] + [e] + live[k..];
    forall i, j | 0 <= i < j < |r|
      ensures r[i].name != r[j].name
    {
      assert i < k ==> r[i] == live[i];
      assert i > k ==> r[i] == live[i - 1];
      assert j < k ==> r[j] == live[j];
      assert j > k ==> r[j] == live[j - 1];
      if i == k {
        assert live[j - 1] in live;
      } else if j == k {
        assert live[i] in live;
      }
    }
  }

  lemma {:induction false} InsertTypes(slots: seq<Slot>, e: Entry)
    requires SlotsOk(slots) && HasRoom(slots, |e.name|) && e.ftype != CHECKSUM && TypesGood(slots)
    ensures TypesGood(Insert(slots, e))
  {
    var i := FirstRoom(slots, |e.name|);
    assert slots[i] in slots;
    forall s | s in Insert(slots, e)
      ensures s.ftype != CHECKSUM
    {
      if s in Filled(slots[i], e) {
      } else {
        assert s in slots[..i] || s in slots[i + 1..];
      }
    }
  }

  /** Main result: removing a name from the block of its hash keeps the tree and drops the name. */
  lemma {:induction false} RemoveKeepsTree(t: Tree, h: Hasher, blkSize: nat, k: nat, n: Name)
    requires TreeOk(t, h, blkSize) && In(t.index, k, h(n)) && n in t.names && blkSize <= U16_MAX
    ensures TreeOk(WithBlock(t, k, Remove(SlotsAt(t, k), n), t.names - {n}), h, blkSize)
  {
    var slots, names := SlotsAt(t, k), t.names - {n};
    var after := Remove(slots, n);
    var t' := WithBlock(t, k, after, names);
    assert BlockOk(t, k, h, blkSize) && NameOk(t, n, h);
    RemoveOne(slots, n, t.names[n]);
    RemoveTypes(slots, n);
    WithBlockSlots(t, k, after, names, k);
    forall x | x in Live(after)
      ensures EntryAt(t', k, x, h)
    {
      assert EntryAt(t, k, x, h);
    }
    forall m | m in names && In(t.index, k, h(m))
      ensures names[m].name == m && names[m] in Live(after)
    {
      assert NameOk(t, m, h);
    }
    BlockChange(t, h, blkSize, k, after, names);
  }

  lemma {:induction false} RemoveOne(slots: seq<Slot>, n: Name, e: Entry)
    requires SlotsOk(slots) && Distinct(Live(slots)) && e in Live(slots) && e.name == n && Total(slots) <= U16_MAX
    ensures SlotsOk(Remove(slots, n)) && Total(Remove(slots, n)) == Total(slots)
    ensures Distinct(Live(Remove(slots, n)))
    ensures forall x :: x in Live(Remove(slots, n)) <==> x in Live(slots) && x.name != n
  {
    FindIff(slots, n);
    var i := IndexOf(slots, n);
    DestroyRemovesOne(slots, i);
    DistinctRemove(Live(slots[..i]), EntryOf(slots[i]), Live(slots[i + 1..]));
  }

  lemma {:induction false} DistinctRemove(a: seq<Entry>, e: Entry, b: seq<Entry>)
    requires Distinct(a + [e] + b)
    ensures Distinct(a + b)
    ensures forall x :: x in a + b <==> x in a + [e] + b && x.name != e.name
  {
    var all := a + [e] + b;
    assert all[|a|] == e;
    forall i | 0 <= i < |a + b|
      ensures (a + b)[i] == all[if i < |a| then i else i + 1] && (a + b)[i].name != e.name
    {
    }
    forall x | x in all && x.name != e.name
      ensures x in a + b
    {
      assert x in a || x in b;
    }
  }

  lemma {:induction false} RemoveTypes(slots: seq<Slot>, n: Name)
    requires TypesGood(slots)
    ensures TypesGood(Remove(slots, n))
  {
    var i := IndexOf(slots, n);
    if i < |slots| {
      forall s | s in Destroyed(slots, i)
        ensures s.ftype != CHECKSUM
      {
        assert slots[0] in slots;
        if i > 0 { assert slots[i - 1] in slots; }
      }
    }
  }

  // ---- a block is split --------------------------------------------------------------------------

  /** What a split makes of block k: the entries of both halves, in the order of their hashes, where
      the second half starts, its block number, and the refilled halves. */
  datatype Halves = Halves(all: seq<Entry>, p: nat, block: nat, left: seq<Slot>, right: seq<Slot>)

  ghost predicate HalvesOk(t: Tree, h: Hasher, blkSize: nat, k: nat, e: Entry, x: Halves) {
    && TreeOk(t, h, blkSize) && k < |t.index| && In(t.index, k, h(e.name))
    && EntryGood(e) && !IsDot(e.name) && e.name !in t.names
    && x.all == Gather(Live(SlotsAt(t, k)) + [e], h)
    && 0 < x.p < |x.all| && x.block !in t.blocks
    && HalfOk(x.left, x.all[..x.p], blkSize) && HalfOk(x.right, x.all[x.p..], blkSize)
  }

  /** A refilled half holds some of its entries, each once. */
  ghost predicate HalfOk(slots: seq<Slot>, es: seq<Entry>, blkSize: nat) {
    SlotsGood(slots, blkSize) && Distinct(Live(slots)) && forall e :: e in Live(slots) ==> e in es
  }

  /** `insert_at` behind entry k. */
  function WithEntry(index: seq<DxEntry>, k: nat, hash: nat, block: nat): seq<DxEntry>
    requires k < |index|
  {
    index[..k + 1] + [DxEntry(hash, block)] + index[k + 1..]
  }

  ghost predicate Survives(t: Tree, k: nat, x: Halves, e: Entry, h: Hasher) {
    In(t.index, k, h(e.name)) ==> e in Live(x.left) || e in Live(x.right)
  }

  /** The names that are left after a split. */
  ghost function NamesAfter(t: Tree, h: Hasher, k: nat, e: Entry, x: Halves): map<Name, Entry> {
    var names := t.names[e.name := e];
    map n | n in names && Survives(t, k, x, names[n], h) :: names[n]
  }

  ghost function SplitTree(t: Tree, h: Hasher, k: nat, e: Entry, x: Halves): Tree
    requires k < |t.index| && x.p < |x.all|
  {
    Tree(WithEntry(t.index, k, h(x.all[x.p].name), x.block),
         t.blocks[t.index[k].block := x.left][x.block := x.right], NamesAfter(t, h, k, e, x))
  }

  lemma {:induction false} WithEntryAt(index: seq<DxEntry>, k: nat, hash: nat, block: nat, j: nat)
    requires k < |index|
    ensures HashAt(WithEntry(index, k, hash, block), j)
         == if j <= k then HashAt(index, j) else if j == k + 1 then hash else HashAt(index, j - 1)
  {
  }

  lemma {:induction false} WithEntryOk(index: seq<DxEntry>, k: nat, hash: nat, block: nat)
    requires IndexOk(index) && k < |index| && hash % 2 == 0
    requires HashAt(index, k) < hash < HashAt(index, k + 1)
    requires forall j :: 0 <= j < |index| ==> index[j].block != block
    ensures IndexOk(WithEntry(index, k, hash, block))
  {
    var r := WithEntry(index, k, hash, block);
    forall i: nat, j: nat | i < j <= |r|
      ensures HashAt(r, i) < HashAt(r, j)
    {
      WithEntryAt(index, k, hash, block, i);
      WithEntryAt(index, k, hash, block, j);
    }
    forall i | 1 <= i < |r|
      ensures r[i].hash % 2 == 0
    {
      assert i > k + 1 ==> r[i] == index[i - 1];
    }
    forall i, j | 0 <= i < j < |r|
      ensures r[i].block != r[j].block
    {
      assert i > k + 1 ==> r[i] == index[i - 1];
      assert j > k + 1 ==> r[j] == index[j - 1];
    }
  }

  /** The gathered entries are those of the block and the new one. */
  lemma {:induction false} GatheredIn(t: Tree, h: Hasher, blkSize: nat, k: nat, e: Entry, x: Halves, i: nat)
    requires HashOk(h) && HalvesOk(t, h, blkSize, k, e, x) && i < |x.all|
    ensures Sorted(x.all, h) && EntryGood(x.all[i]) && !IsDot(x.all[i].name)
    ensures In(t.index, k, h(x.all[i].name))
    ensures x.all[i] == e || (x.all[i].name in t.names && t.names[x.all[i].name] == x.all[i])
  {
    var es := Live(SlotsAt(t, k)) + [e];
    GatherSorted(es, h);
    assert x.all[i] in x.all && x.all[i] in es;
    assert BlockOk(t, k, h, blkSize);
    if x.all[i] in Live(SlotsAt(t, k)) { assert EntryAt(t, k, x.all[i], h); }
  }

  lemma {:induction false} SplitIndexOk(t: Tree, h: Hasher, blkSize: nat, k: nat, e: Entry, x: Halves)
    requires HashOk(h) && HalvesOk(t, h, blkSize, k, e, x)
    ensures IndexOk(SplitTree(t, h, k, e, x).index)
    ensures HashAt(t.index, k) < h(x.all[x.p].name) < HashAt(t.index, k + 1)
  {
    GatheredIn(t, h, blkSize, k, e, x, x.p);
    GatheredIn(t, h, blkSize, k, e, x, 0);
    assert h(x.all[0].name) < h(x.all[x.p].name);
    forall j | 0 <= j < |t.index|
      ensures t.index[j].block != x.block
    {
      assert BlockOk(t, j, h, blkSize);
    }
    WithEntryOk(t.index, k, h(x.all[x.p].name), x.block);
  }

  /** The block of the split tree that an old block has become. */
  lemma {:induction false} SplitSlots(t: Tree, h: Hasher, blkSize: nat, k: nat, e: Entry, x: Halves, j: nat)
    requires HashOk(h) && HalvesOk(t, h, blkSize, k, e, x) && j <= |t.index|
    ensures var t' := SplitTree(t, h, k, e, x);
            && |t'.index| == |t.index| + 1 && t'.index[j].block in t'.blocks
            && SlotsAt(t', j) == if j < k then SlotsAt(t, j) else if j == k then x.left
                                 else if j == k + 1 then x.right else SlotsAt(t, j - 1)
  {
    hide Live;
    hide Gather;
    hide NamesAfter;
    hide SlotsGood;
    hide HalfOk;
    hide Increasing;
    var t' := SplitTree(t, h, k, e, x);
    var i := if j <= k then j else j - 1;
    assert BlockOk(t, k, h, blkSize) && BlockOk(t, i, h, blkSize);
    assert j <= k ==> t'.index[j] == t.index[j];
    assert j > k + 1 ==> t'.index[j] == t.index[j - 1];
  }

  /** The interval of a block of the split tree. */
  lemma {:induction false} SplitIn(t: Tree, h: Hasher, blkSize: nat, k: nat, e: Entry, x: Halves, j: nat, hash: nat)
    requires HashOk(h) && HalvesOk(t, h, blkSize, k, e, x) && j <= |t.index|
    ensures var mid := h(x.all[x.p].name);
            In(SplitTree(t, h, k, e, x).index, j, hash)
            <==> if j < k then In(t.index, j, hash)
                 else if j == k then In(t.index, k, hash) && hash < mid
                 else if j == k + 1 then In(t.index, k, hash) && hash >= mid
                 else In(t.index, j - 1, hash)
  {
    SplitIndexOk(t, h, blkSize, k, e, x);
    WithEntryAt(t.index, k, h(x.all[x.p].name), x.block, j);
    WithEntryAt(t.index, k, h(x.all[x.p].name), x.block, j + 1);
  }

  lemma {:induction false} SplitHalfOk(t: Tree, h: Hasher, blkSize: nat, k: nat, e: Entry, x: Halves, right: bool)
    requires HashOk(h) && HalvesOk(t, h, blkSize, k, e, x)
    ensures BlockOk(SplitTree(t, h, k, e, x), if right then k + 1 else k, h, blkSize)
  {
    hide Live;
    hide Gather;
    var t' := SplitTree(t, h, k, e, x);
    var j := if right then k + 1 else k;
    var half := if right then x.right else x.left;
    SplitSlots(t, h, blkSize, k, e, x, j);
    forall y | y in Live(half)
      ensures EntryAt(t', j, y, h)
    {
      SplitEntryOk(t, h, blkSize, k, e, x, right, y);
    }
  }

  lemma {:induction false} SplitEntryOk(t: Tree, h: Hasher, blkSize: nat, k: nat, e: Entry, x: Halves, right: bool,
      y: Entry)
    requires HashOk(h) && HalvesOk(t, h, blkSize, k, e, x)
    requires y in Live(if right then x.right else x.left)
    ensures EntryAt(SplitTree(t, h, k, e, x), if right then k + 1 else k, y, h)
  {
    hide Live;
    hide Gather;
    var es := if right then x.all[x.p..] else x.all[..x.p];
    var i :| 0 <= i < |es| && es[i] == y;
    var a := if right then x.p + i else i;
    GatheredIn(t, h, blkSize, k, e, x, a);
    assert x.all[a] == y;
    SplitIn(t, h, blkSize, k, e, x, if right then k + 1 else k, h(y.name));
    assert Survives(t, k, x, y, h);
  }

  lemma {:induction false} SplitOtherOk(t: Tree, h: Hasher, blkSize: nat, k: nat, e: Entry, x: Halves, j: nat)
    requires HashOk(h) && HalvesOk(t, h, blkSize, k, e, x) && j <= |t.index| && j != k && j != k + 1
    ensures BlockOk(SplitTree(t, h, k, e, x), j, h, blkSize)
  {
    var t' := SplitTree(t, h, k, e, x);
    var i := if j < k then j else j - 1;
    assert BlockOk(t, i, h, blkSize);
    SplitSlots(t, h, blkSize, k, e, x, j);
    forall y | y in Live(SlotsAt(t, i))
      ensures EntryAt(t', j, y, h)
    {
      assert EntryAt(t, i, y, h);
      SplitIn(t, h, blkSize, k, e, x, j, h(y.name));
      if In(t.index, k, h(y.name)) { OneBlock(t.index, i, k, h(y.name)); }
      assert Survives(t, k, x, y, h);
    }
  }

  lemma {:induction false} SplitNameOk(t: Tree, h: Hasher, blkSize: nat, k: nat, e: Entry, x: Halves, n: Name)
    requires HashOk(h) && HalvesOk(t, h, blkSize, k, e, x) && n in NamesAfter(t, h, k, e, x)
    ensures NameOk(SplitTree(t, h, k, e, x), n, h)
  {
    var t' := SplitTree(t, h, k, e, x);
    var y := t'.names[n];
    if n != e.name { assert NameOk(t, n, h); }
    forall j | In(t'.index, j, h(n))
      ensures y in Live(SlotsAt(t', j))
    {
      SplitSlots(t, h, blkSize, k, e, x, j);
      SplitIn(t, h, blkSize, k, e, x, j, h(n));
      if In(t.index, k, h(n)) {
        SurvivorSide(t, h, blkSize, k, e, x, y);
        if j != k && j != k + 1 { OneBlock(t.index, if j < k then j else j - 1, k, h(n)); }
      }
    }
  }

  /** An entry that survives is in the half of its hash. */
  lemma {:induction false} SurvivorSide(t: Tree, h: Hasher, blkSize: nat, k: nat, e: Entry, x: Halves, y: Entry)
    requires HashOk(h) && HalvesOk(t, h, blkSize, k, e, x)
    requires Survives(t, k, x, y, h) && In(t.index, k, h(y.name))
    ensures if h(y.name) < h(x.all[x.p].name) then y in Live(x.left) else y in Live(x.right)
  {
    GatheredIn(t, h, blkSize, k, e, x, x.p);
    if y in Live(x.left) {
      var i :| 0 <= i < x.p && x.all[..x.p][i] == y;
      assert x.all[i] == y;
    } else {
      var i :| 0 <= i < |x.all| - x.p && x.all[x.p..][i] == y;
      assert x.all[x.p + i] == y;
    }
  }

  /** Main result: a split keeps the tree, with the names that are left. */
  lemma {:induction false} SplitKeepsTree(t: Tree, h: Hasher, blkSize: nat, k: nat, e: Entry, x: Halves)
    requires HashOk(h) && HalvesOk(t, h, blkSize, k, e, x)
    ensures TreeOk(SplitTree(t, h, k, e, x), h, blkSize)
  {
    hide BlockOk;
    hide NameOk;
    hide IndexOk;
    hide HashAt;
    hide Live;
    hide HalfOk;
    hide Gather;
    hide NamesAfter;
    var t' := SplitTree(t, h, k, e, x);
    SplitIndexOk(t, h, blkSize, k, e, x);
    forall j | 0 <= j < |t'.index|
      ensures BlockOk(t', j, h, blkSize)
    {
      if j == k || j == k + 1 {
        SplitHalfOk(t, h, blkSize, k, e, x, j == k + 1);
      } else {
        SplitOtherOk(t, h, blkSize, k, e, x, j);
      }
    }
    forall n | n in t'.names
      ensures NameOk(t', n, h)
    {
      SplitNameOk(t, h, blkSize, k, e, x, n);
    }
  }

  /** The condition under which a split loses nothing: no two entries with one hash, halves that fit
      with their sizes rounded, and no file type of a checksum entry left over in the new block. */
  ghost predicate SplitSafe(t: Tree, h: Hasher, blkSize: nat, k: nat, e: Entry, p: nat, ftype: U8) {
    var es := Live(SlotsAt(t, k)) + [e];
    && DistinctHashes(es, h) && ftype != CHECKSUM
    && p <= |Gather(es, h)| && Sum(Gather(es, h)[..p]) <= blkSize && Sum(Gather(es, h)[p..]) <= blkSize
  }

  /** Main result: the split tree stands for the old map with the new name exactly when the split is
      safe. */
  lemma {:induction false} SplitLosesNothingIff(t: Tree, h: Hasher, blkSize: nat, k: nat, e: Entry, x: Halves,
      ftype: U8)
    requires HashOk(h) && HalvesOk(t, h, blkSize, k, e, x)
    requires AllIn(x.all[..x.p], Live(x.left)) <==> Sum(x.all[..x.p]) <= blkSize
    requires AllIn(x.all[x.p..], Live(x.right)) <==> Sum(x.all[x.p..]) <= blkSize && ftype != CHECKSUM
    ensures SplitTree(t, h, k, e, x).names == t.names[e.name := e] <==> SplitSafe(t, h, blkSize, k, e, x.p, ftype)
  {
    hide Gather;
    hide Live;
    hide Sum;
    hide DistinctHashes;
    hide NamesAfter;
    hide TreeOk;
    var es := Live(SlotsAt(t, k)) + [e];
    BlockNames(t, h, blkSize, k, e);
    GatherKeepsAllIff(es, h);
    if AllIn(es, x.all) && AllIn(x.all[..x.p], Live(x.left)) && AllIn(x.all[x.p..], Live(x.right)) {
      SafeSurvives(t, h, blkSize, k, e, x);
    }
    if NamesAfter(t, h, k, e, x) == t.names[e.name := e] {
      SurvivedAll(t, h, blkSize, k, e, x);
    }
  }

  lemma {:induction false} SafeSurvives(t: Tree, h: Hasher, blkSize: nat, k: nat, e: Entry, x: Halves)
    requires HashOk(h) && HalvesOk(t, h, blkSize, k, e, x)
    requires AllIn(Live(SlotsAt(t, k)) + [e], x.all)
    requires AllIn(x.all[..x.p], Live(x.left)) && AllIn(x.all[x.p..], Live(x.right))
    ensures NamesAfter(t, h, k, e, x) == t.names[e.name := e]
  {
    hide Gather;
    hide Live;
    var names := t.names[e.name := e];
    forall n | n in names
      ensures Survives(t, k, x, names[n], h)
    {
      if In(t.index, k, h(names[n].name)) {
        InBlock(t, h, blkSize, k, e, n);
        InHalf(x, names[n]);
      }
    }
  }

  lemma {:induction false} SurvivedAll(t: Tree, h: Hasher, blkSize: nat, k: nat, e: Entry, x: Halves)
    requires HashOk(h) && HalvesOk(t, h, blkSize, k, e, x)
    requires NamesAfter(t, h, k, e, x) == t.names[e.name := e]
    ensures AllIn(Live(SlotsAt(t, k)) + [e], x.all)
    ensures AllIn(x.all[..x.p], Live(x.left)) && AllIn(x.all[x.p..], Live(x.right))
  {
    hide Gather;
    hide Live;
    var es := Live(SlotsAt(t, k)) + [e];
    BlockNames(t, h, blkSize, k, e);
    forall y | y in es
      ensures y in x.all && (y in Live(x.left) || y in Live(x.right))
    {
      assert y.name in NamesAfter(t, h, k, e, x) && Survives(t, k, x, y, h);
      HalvesIn(x, y, blkSize);
    }
    BothSides(t, h, blkSize, k, e, x);
  }

  lemma {:induction false} HalvesIn(x: Halves, y: Entry, blkSize: nat)
    requires x.p <= |x.all| && HalfOk(x.left, x.all[..x.p], blkSize) && HalfOk(x.right, x.all[x.p..], blkSize)
    requires y in Live(x.left) || y in Live(x.right)
    ensures y in x.all
  {
    assert x.all == x.all[..x.p] + x.all[x.p..];
  }

  /** The entries to split: distinct names, each in the map with the new name, all of this block. */
  lemma {:induction false} BlockNames(t: Tree, h: Hasher, blkSize: nat, k: nat, e: Entry)
    requires TreeOk(t, h, blkSize) && k < |t.index| && In(t.index, k, h(e.name)) && e.name !in t.names
    ensures var es, names := Live(SlotsAt(t, k)) + [e], t.names[e.name := e];
            && Distinct(es)
            && forall y :: y in es ==> In(t.index, k, h(y.name)) && y.name in names && names[y.name] == y
  {
    assert BlockOk(t, k, h, blkSize);
    var live := Live(SlotsAt(t, k));
    forall y | y in live
      ensures EntryAt(t, k, y, h)
    {
    }
    forall i, j | 0 <= i < j < |live + [e]|
      ensures (live + [e])[i].name != (live + [e])[j].name
    {
      assert live[i] in live;
    }
  }

  lemma {:induction false} InBlock(t: Tree, h: Hasher, blkSize: nat, k: nat, e: Entry, n: Name)
    requires TreeOk(t, h, blkSize) && k < |t.index| && n in t.names[e.name := e]
    requires In(t.index, k, h(t.names[e.name := e][n].name))
    ensures t.names[e.name := e][n] in Live(SlotsAt(t, k)) + [e]
  {
    if n != e.name { assert NameOk(t, n, h); }
  }

  lemma {:induction false} InHalf(x: Halves, y: Entry)
    requires x.p <= |x.all| && y in x.all
    requires AllIn(x.all[..x.p], Live(x.left)) && AllIn(x.all[x.p..], Live(x.right))
    ensures y in Live(x.left) || y in Live(x.right)
  {
    assert x.all == x.all[..x.p] + x.all[x.p..];
  }

  /** If everything survives, every gathered entry is in its own half. */
  lemma {:induction false} BothSides(t: Tree, h: Hasher, blkSize: nat, k: nat, e: Entry, x: Halves)
    requires HashOk(h) && HalvesOk(t, h, blkSize, k, e, x)
    requires forall y :: y in Live(SlotsAt(t, k)) + [e] ==> y in Live(x.left) || y in Live(x.right)
    ensures AllIn(x.all[..x.p], Live(x.left)) && AllIn(x.all[x.p..], Live(x.right))
  {
    forall i | 0 <= i < |x.all|
      ensures if i < x.p then x.all[i] in Live(x.left) else x.all[i] in Live(x.right)
    {
      GatheredIn(t, h, blkSize, k, e, x, i);
      GatherSorted(Live(SlotsAt(t, k)) + [e], h);
      assert x.all[i] in x.all;
      SurvivorSide(t, h, blkSize, k, e, x, x.all[i]);
    }
  }
}
