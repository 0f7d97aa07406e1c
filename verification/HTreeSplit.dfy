/** Splitting a full block of a hashed directory: gathering the entries by hash, the split point, and
    refilling two blocks (src/directory/htree/node.rs, `split_data`).  The blocks are lists of slots
    here, as in module DirectorySlots. */
module HTreeSplit {
  import opened ByteRw
  import opened DirectorySlots

  const HASHES: nat := 0x1_0000_0000

  type Hasher = Name -> nat

  /** What is known of the name hash: it is an even 32-bit number other than 0xFFFFFFFE. */
  ghost predicate HashOk(h: Hasher) {
    forall n: Name {:trigger h(n)} :: h(n) % 2 == 0 && h(n) < HASHES - 2
  }

  /** An entry of a directory: a name of 1 to 255 bytes, an inode number, and a file type that
      `from_file_type` gives. */
  predicate EntryGood(e: Entry) {
    EntryOk(e) && |e.name| > 0 && e.ftype <= 7
  }

  // ---- gathering -------------------------------------------------------------------------------

  /** `BTreeMap::insert` with the hash as the key, on the entries in the order of their keys. */
  function Put(g: seq<Entry>, e: Entry, h: Hasher): seq<Entry>
    decreases |g|
  {
    if g == [] then [e]
    else if h(e.name) < h(g[0].name) then [e] + g
    else if h(e.name) == h(g[0].name) then [e] + g[1..]
    else [g[0]] + Put(g[1..], e, h)
  }

  function Gather(es: seq<Entry>, h: Hasher): seq<Entry>
    decreases |es|
  {
    if es == [] then [] else Put(Gather(es[..|es| - 1], h), es[|es| - 1], h)
  }

  ghost predicate Sorted(g: seq<Entry>, h: Hasher) {
    forall i, j :: 0 <= i < j < |g| ==> h(g[i].name) < h(g[j].name)
  }

  lemma {:induction false} PutHas(g: seq<Entry>, e: Entry, h: Hasher, x: Entry)
    requires Sorted(g, h)
    ensures x in Put(g, e, h) <==> x == e || (x in g && h(x.name) != h(e.name))
    decreases |g|
  {
    if g != [] {
      assert g == [g[0]] + g[1..];
      if h(e.name) > h(g[0].name) {
        PutHas(g[1..], e, h, x);
      } else if x in g[1..] {
        var i :| 0 <= i < |g[1..]| && g[1..][i] == x;
        assert h(g[0].name) < h(g[i + 1].name);
      }
    }
  }

  lemma {:induction false} PutSorted(g: seq<Entry>, e: Entry, h: Hasher)
    requires Sorted(g, h)
    ensures Sorted(Put(g, e, h), h)
    decreases |g|
  {
    if g != [] && h(e.name) > h(g[0].name) {
      PutSorted(g[1..], e, h);
      forall x | x in Put(g[1..], e, h)
        ensures h(g[0].name) < h(x.name)
      {
        PutHas(g[1..], e, h, x);
      }
    }
  }

  /** The room that entries need in a block. */
  function Sum(es: seq<Entry>): nat
    decreases |es|
  {
    if es == [] then 0 else Need(|es[0].name|) + Sum(es[1..])
  }

  lemma {:induction false} SumAppend(x: seq<Entry>, y: seq<Entry>)
    ensures Sum(x + y) == Sum(x) + Sum(y)
    decreases |x|
  {
    if x == [] {
      assert x + y == y;
    } else {
      SumAppend(x[1..], y);
      assert (x + y)[1..] == x[1..] + y;
    }
  }

  lemma {:induction false} SumOne(e: Entry)
    ensures Sum([e]) == Need(|e.name|)
  {
    assert [e][1..] == [];
  }

  lemma {:induction false} PutSum(g: seq<Entry>, e: Entry, h: Hasher)
    ensures Sum(Put(g, e, h)) <= Sum(g) + Need(|e.name|)
    decreases |g|
  {
    SumOne(e);
    if g != [] {
      if h(e.name) < h(g[0].name) {
        SumAppend([e], g);
      } else if h(e.name) == h(g[0].name) {
        SumAppend([e], g[1..]);
      } else {
        PutSum(g[1..], e, h);
        SumOne(g[0]);
        SumAppend([g[0]], Put(g[1..], e, h));
      }
    }
  }

  ghost predicate DistinctHashes(es: seq<Entry>, h: Hasher) {
    forall i, j :: 0 <= i < j < |es| ==> h(es[i].name) != h(es[j].name)
  }

  /** The gathered entries are entries of the block, in strictly increasing order of their hashes. */
  lemma {:induction false} GatherSorted(es: seq<Entry>, h: Hasher)
    ensures Sorted(Gather(es, h), h) && Sum(Gather(es, h)) <= Sum(es)
    ensures forall x :: x in Gather(es, h) ==> x in es
    decreases |es|
  {
    if es != [] {
      var first, e := es[..|es| - 1], es[|es| - 1];
      GatherSorted(first, h);
      PutSorted(Gather(first, h), e, h);
      PutSum(Gather(first, h), e, h);
      assert es == first + [e];
      SumAppend(first, [e]);
      SumOne(e);
      forall x | x in Gather(es, h)
        ensures x in es
      {
        PutHas(Gather(first, h), e, h, x);
      }
    }
  }

  /** Main result: gathering by hash loses no entry exactly when all hashes are distinct. */
  lemma {:induction false} GatherKeepsAllIff(es: seq<Entry>, h: Hasher)
    requires Distinct(es)
    ensures AllIn(es, Gather(es, h)) <==> DistinctHashes(es, h)
  {
    if DistinctHashes(es, h) {
      forall x | x in es
        ensures x in Gather(es, h)
      {
        GatherKeeps(es, h, x);
      }
    } else {
      GatherSorted(es, h);
      var i, j :| 0 <= i < j < |es| && h(es[i].name) == h(es[j].name);
      if es[i] in Gather(es, h) && es[j] in Gather(es, h) {
        SameHashSameEntry(Gather(es, h), h, es[i], es[j]);
      }
      assert es[i] in es && es[j] in es;
    }
  }

  lemma {:induction false} SameHashSameEntry(g: seq<Entry>, h: Hasher, x: Entry, y: Entry)
    requires Sorted(g, h) && x in g && y in g && h(x.name) == h(y.name)
    ensures x == y
  {
    var i :| 0 <= i < |g| && g[i] == x;
    var j :| 0 <= j < |g| && g[j] == y;
  }

  lemma {:induction false} GatherKeeps(es: seq<Entry>, h: Hasher, x: Entry)
    requires DistinctHashes(es, h) && x in es
    ensures x in Gather(es, h)
    decreases |es|
  {
    var first, e := es[..|es| - 1], es[|es| - 1];
    GatherSorted(first, h);
    PutHas(Gather(first, h), e, h, x);
    if x != e {
      var i :| 0 <= i < |es| && es[i] == x;
      assert first[i] == x;
      GatherKeeps(first, h, x);
    }
  }

  /** Two names with one hash: the one gathered first is lost. */
  lemma {:induction false} CollisionLosesAName(h: Hasher, x: Entry, y: Entry)
    requires h(x.name) == h(y.name) && x.name != y.name
    ensures Gather([x, y], h) == [y]
  {
    assert [x, y][..1] == [x] && [x][..0] == [];
    assert Gather([x], h) == [x];
    assert [x][1..] == [];
  }

  // ---- the split point -------------------------------------------------------------------------

  /** What `split_data` adds up: name and header, not rounded. */
  function Used(es: seq<Entry>): nat
    decreases |es|
  {
    if es == [] then 0 else |es[0].name| + 8 + Used(es[1..])
  }

  lemma {:induction false} UsedAppend(x: seq<Entry>, y: seq<Entry>)
    ensures Used(x + y) == Used(x) + Used(y)
    decreases |x|
  {
    if x == [] {
      assert x + y == y;
    } else {
      UsedAppend(x[1..], y);
      assert (x + y)[1..] == x[1..] + y;
    }
  }

  lemma {:induction false} UsedStep(g: seq<Entry>, i: nat)
    requires i < |g|
    ensures Used(g[..i + 1]) == Used(g[..i]) + |g[i].name| + 8
  {
    assert g[..i + 1] == g[..i] + [g[i]];
    UsedAppend(g[..i], [g[i]]);
    assert [g[i]][1..] == [];
  }

  /** The first entry that takes the sum over half a block. */
  ghost predicate IsSplitPoint(g: seq<Entry>, blkSize: nat, p: nat) {
    p < |g| && Used(g[..p]) <= blkSize / 2 < Used(g[..p + 1])
  }

  lemma {:induction false} UsedGrows(g: seq<Entry>, i: nat, j: nat)
    requires i <= j <= |g|
    ensures Used(g[..i]) <= Used(g[..j])
  {
    assert g[..j] == g[..i] + g[i..j];
    UsedAppend(g[..i], g[i..j]);
  }

  /** The rounded sizes exceed the sizes by at most a third. */
  lemma {:induction false} SumAndUsed(es: seq<Entry>)
    requires forall e :: e in es ==> |e.name| > 0
    ensures Used(es) <= Sum(es) && 3 * Sum(es) <= 4 * Used(es)
    decreases |es|
  {
    if es != [] {
      assert es == [es[0]] + es[1..];
      SumAndUsed(es[1..]);
    }
  }

  /** Main result: in blocks of 2048 and 4096 bytes both halves fit.  `full` is what the entries of
      the full block and the new entry need together. */
  lemma {:induction false} BothHalvesFit(g: seq<Entry>, blkSize: nat, p: nat)
    requires blkSize == 2048 || blkSize == 4096
    requires IsSplitPoint(g, blkSize, p) && forall e :: e in g ==> EntryGood(e)
    requires Sum(g) <= blkSize + Need(255)
    ensures Sum(g[..p]) <= blkSize && Sum(g[p..]) <= blkSize
  {
    assert g == g[..p] + g[p..];
    SumAppend(g[..p], g[p..]);
    forall e | e in g[..p]
      ensures |e.name| > 0
    {
      assert e in g;
    }
    SumAndUsed(g[..p]);
    UsedStep(g, p);
    assert g[p] in g;
  }

  /** A block of 1024 bytes: four entries fill it, a fifth is added, and the second half is too big. */
  lemma {:induction false} SmallBlockOverflows(g: seq<Entry>)
    requires |g| == 5 && |g[0].name| == 242 && |g[1].name| == 255 && |g[2].name| == 255
    requires |g[3].name| == 255 && |g[4].name| == 236
    ensures Sum([g[0], g[2], g[3], g[4]]) == 1024
    ensures IsSplitPoint(g, 1024, 1) && Sum(g[1..]) > 1024
  {
    FourSum(g[1], g[2], g[3], g[4]);
    FourSum(g[0], g[2], g[3], g[4]);
    assert g[1..] == [g[1], g[2], g[3], g[4]];
    UsedStep(g, 0);
    UsedStep(g, 1);
  }

  lemma {:induction false} FourSum(a: Entry, b: Entry, c: Entry, d: Entry)
    ensures Sum([a, b, c, d]) == Need(|a.name|) + Need(|b.name|) + Need(|c.name|) + Need(|d.name|)
  {
    assert [a, b, c, d] == [a] + [b] + [c] + [d];
    SumAppend([a] + [b] + [c], [d]);
    SumAppend([a] + [b], [c]);
    SumAppend([a], [b]);
    SumOne(a);
    SumOne(b);
    SumOne(c);
    SumOne(d);
  }

  /** No split point: all the entries together do not use more than half a block. */
  lemma {:induction false} SplitPointIff(g: seq<Entry>, blkSize: nat)
    ensures (exists p :: IsSplitPoint(g, blkSize, p)) <==> Used(g) > blkSize / 2
  {
    assert g[..|g|] == g;
    if Used(g) > blkSize / 2 {
      var p := FirstOver(g, blkSize, |g|);
    } else if p: nat :| IsSplitPoint(g, blkSize, p) {
      UsedGrows(g, p + 1, |g|);
    }
  }

  lemma {:induction false} FirstOver(g: seq<Entry>, blkSize: nat, n: nat) returns (p: nat)
    requires n <= |g| && Used(g[..n]) > blkSize / 2
    ensures IsSplitPoint(g, blkSize, p)
    decreases n
  {
    assert g[..0] == [];
    if Used(g[..n - 1]) > blkSize / 2 {
      p := FirstOver(g, blkSize, n - 1);
    } else {
      p := n - 1;
    }
  }

  // ---- refilling a cleared block ---------------------------------------------------------------

  /** A block after `clear`: one dead slot, whose name and file type may be left over. */
  function Cleared(blkSize: nat, ftype: U8, name: Name): seq<Slot> {
    [Slot(0, blkSize, ftype, name)]
  }

  /** `insert_entry` for each entry in turn, with its result ignored. */
  function Refill(slots: seq<Slot>, es: seq<Entry>): (r: seq<Slot>)
    requires SlotsOk(slots) && forall e :: e in es ==> EntryOk(e)
    ensures SlotsOk(r)
    decreases |es|
  {
    if es == [] then slots
    else if HasRoom(slots, |es[0].name|) then
      InsertKeeps(slots, es[0]);
      Refill(Insert(slots, es[0]), es[1..])
    else Refill(slots, es[1..])
  }

  /** Entries one after the other, each with just the room it needs. */
  function Tight(es: seq<Entry>): (r: seq<Slot>)
    ensures |r| == |es|
    ensures forall i :: 0 <= i < |es| ==> r[i] == Slot(es[i].inode, Need(|es[i].name|), es[i].ftype, es[i].name)
    decreases |es|
  {
    if es == [] then []
    else [Slot(es[0].inode, Need(|es[0].name|), es[0].ftype, es[0].name)] + Tight(es[1..])
  }

  /** The slots of a refilled block: the last entry has all the room that is left. */
  function Packed(blkSize: nat, ftype: U8, name: Name, es: seq<Entry>): seq<Slot>
    requires Sum(es) <= blkSize
  {
    if es == [] then Cleared(blkSize, ftype, name)
    else
      var first, e := es[..|es| - 1], es[|es| - 1];
      SumSplit(es);
      Tight(first) + [Slot(e.inode, blkSize - Sum(first), e.ftype, e.name)]
  }

  lemma {:induction false} SumSplit(es: seq<Entry>)
    requires es != []
    ensures Sum(es) == Sum(es[..|es| - 1]) + Need(|es[|es| - 1].name|)
  {
    assert es == es[..|es| - 1] + [es[|es| - 1]];
    SumAppend(es[..|es| - 1], [es[|es| - 1]]);
    SumOne(es[|es| - 1]);
  }

  lemma {:induction false} TightLive(es: seq<Entry>)
    requires forall e :: e in es ==> EntryOk(e)
    ensures Live(Tight(es)) == es && SlotsOk(Tight(es))
    decreases |es|
  {
    if es != [] {
      assert es == [es[0]] + es[1..];
      TightLive(es[1..]);
      var t := Slot(es[0].inode, Need(|es[0].name|), es[0].ftype, es[0].name);
      assert es[0] in es;
      LiveAppend([t], Tight(es[1..]));
      LiveOne(t);
    }
    TightOk(es);
  }

  lemma {:induction false} TightOk(es: seq<Entry>)
    requires forall e :: e in es ==> EntryOk(e)
    ensures SlotsOk(Tight(es))
  {
    forall s | s in Tight(es)
      ensures SlotOk(s)
    {
      var i :| 0 <= i < |es| && Tight(es)[i] == s;
      assert es[i] in es;
    }
  }

  /** A block size, and a name that may be left over in a block. */
  predicate FillOk(blkSize: nat, name: Name) {
    blkSize <= U16_MAX && blkSize % 4 == 0 && |name| < 256 && 8 + |name| <= blkSize
  }

  lemma {:induction false} SumIsMultiple(es: seq<Entry>)
    ensures Sum(es) % 4 == 0
    decreases |es|
  {
    if es != [] { SumIsMultiple(es[1..]); }
  }

  lemma {:induction false} PackedLive(blkSize: nat, ftype: U8, name: Name, es: seq<Entry>)
    requires FillOk(blkSize, name) && ftype != CHECKSUM && Sum(es) <= blkSize && forall e :: e in es ==> EntryOk(e)
    ensures Live(Packed(blkSize, ftype, name, es)) == es && SlotsOk(Packed(blkSize, ftype, name, es))
  {
    hide Live;
    hide Tight;
    hide Sum;
    if es == [] {
      LiveOne(Slot(0, blkSize, ftype, name));
    } else {
      var first, e := es[..|es| - 1], es[|es| - 1];
      SumSplit(es);
      SumIsMultiple(first);
      assert e in es;
      TightAnd(first, Slot(e.inode, blkSize - Sum(first), e.ftype, e.name));
      assert es == first + [e];
    }
  }

  lemma {:induction false} TightAnd(first: seq<Entry>, s: Slot)
    requires (forall e :: e in first ==> EntryOk(e)) && SlotOk(s) && IsLive(s)
    ensures Live(Tight(first) + [s]) == first + [EntryOf(s)] && SlotsOk(Tight(first) + [s])
  {
    TightLive(first);
    LiveAppend(Tight(first), [s]);
    LiveOne(s);
  }

  /** In a packed block only the last slot can have room, and it has exactly when the sum fits. */
  lemma {:induction false} PackedRoom(blkSize: nat, ftype: U8, name: Name, es: seq<Entry>, n: nat)
    requires FillOk(blkSize, name) && ftype != CHECKSUM && Sum(es) <= blkSize && forall e :: e in es ==> EntryOk(e)
    ensures HasRoom(Packed(blkSize, ftype, name, es), n) <==> Sum(es) + Need(n) <= blkSize
    ensures var slots := Packed(blkSize, ftype, name, es); HasRoom(slots, n) ==> FirstRoom(slots, n) == |slots| - 1
  {
    var slots := Packed(blkSize, ftype, name, es);
    var last := |slots| - 1;
    if es != [] {
      SumSplit(es);
      assert es[|es| - 1] in es;
      forall i | 0 <= i < last
        ensures !Room(slots[i], n)
      {
        assert es[..|es| - 1][i] in es;
      }
    }
    assert HasRoom(slots, n) ==> FirstRoom(slots, n) == last;
    assert Room(slots[last], n) <==> Sum(es) + Need(n) <= blkSize;
  }

  lemma {:induction false} PackedInsert(blkSize: nat, ftype: U8, name: Name, es: seq<Entry>, e: Entry)
    requires FillOk(blkSize, name) && ftype != CHECKSUM && EntryOk(e) && forall x :: x in es ==> EntryOk(x)
    requires Sum(es) + Need(|e.name|) <= blkSize
    ensures Sum(es + [e]) == Sum(es) + Need(|e.name|)
    ensures SlotsOk(Packed(blkSize, ftype, name, es)) && HasRoom(Packed(blkSize, ftype, name, es), |e.name|)
    ensures Insert(Packed(blkSize, ftype, name, es), e) == Packed(blkSize, ftype, name, es + [e])
  {
    SumAppend(es, [e]);
    SumOne(e);
    PackedLive(blkSize, ftype, name, es);
    PackedRoom(blkSize, ftype, name, es, |e.name|);
    if es == [] {
      PackedFirst(blkSize, ftype, name, e);
    } else {
      SumSplit(es);
      PackedNext(blkSize, ftype, name, es, e);
    }
  }

  lemma {:induction false} PackedFirst(blkSize: nat, ftype: U8, name: Name, e: Entry)
    requires FillOk(blkSize, name) && ftype != CHECKSUM && EntryOk(e) && Need(|e.name|) <= blkSize
    requires SlotsOk(Cleared(blkSize, ftype, name)) && Sum([] + [e]) <= blkSize
    requires HasRoom(Cleared(blkSize, ftype, name), |e.name|) && FirstRoom(Cleared(blkSize, ftype, name), |e.name|) == 0
    ensures Insert(Cleared(blkSize, ftype, name), e) == Packed(blkSize, ftype, name, [] + [e])
  {
    var slots := Cleared(blkSize, ftype, name);
    assert [] + [e] == [e] && [e][..0] == [] && slots[1..] == [];
    assert Insert(slots, e) == Filled(slots[0], e);
  }

  lemma {:induction false} TightLast(es: seq<Entry>)
    requires es != []
    ensures var x := es[|es| - 1];
            Tight(es) == Tight(es[..|es| - 1]) + [Slot(x.inode, Need(|x.name|), x.ftype, x.name)]
  {
  }

  lemma {:induction false} PackedNext(blkSize: nat, ftype: U8, name: Name, es: seq<Entry>, e: Entry)
    requires es != [] && Sum(es) + Need(|e.name|) <= blkSize && Sum(es + [e]) <= blkSize
    requires var slots := Packed(blkSize, ftype, name, es);
             SlotsOk(slots) && HasRoom(slots, |e.name|) && FirstRoom(slots, |e.name|) == |slots| - 1
    requires forall x :: x in es ==> EntryOk(x)
    ensures Insert(Packed(blkSize, ftype, name, es), e) == Packed(blkSize, ftype, name, es + [e])
  {
    hide Sum;
    hide Tight;
    hide Filled;
    hide FirstRoom;
    hide HasRoom;
    hide Insert;
    hide Packed;
    var first, x := es[..|es| - 1], es[|es| - 1];
    SumSplit(es);
    TightLast(es);
    PackedIs(blkSize, ftype, name, first, x);
    PackedIs(blkSize, ftype, name, es, e);
    assert es == first + [x] && x in es;
    var s := Slot(x.inode, blkSize - Sum(first), x.ftype, x.name);
    InsertAtLast(Tight(first), s, e);
    LastFilled(s, e, x, Slot(e.inode, blkSize - Sum(es), e.ftype, e.name));
  }

  lemma {:induction false} PackedIs(blkSize: nat, ftype: U8, name: Name, first: seq<Entry>, e: Entry)
    ensures Sum(first) <= Sum(first + [e])
    ensures Sum(first + [e]) <= blkSize ==>
              Packed(blkSize, ftype, name, first + [e])
              == Tight(first) + [Slot(e.inode, blkSize - Sum(first), e.ftype, e.name)]
  {
    hide Tight;
    SumAppend(first, [e]);
    assert (first + [e])[..|first|] == first && (first + [e])[|first|] == e;
  }

  lemma {:induction false} LastFilled(s: Slot, e: Entry, x: Entry, rest: Slot)
    requires SlotOk(s) && IsLive(s) && s.name == x.name && Room(s, |e.name|)
    requires rest == Slot(e.inode, s.len - Need(|x.name|), e.ftype, e.name)
    ensures Filled(s, e) == [s.(len := Need(|x.name|))] + [rest]
  {
  }

  lemma {:induction false} InsertAtLast(first: seq<Slot>, s: Slot, e: Entry)
    requires SlotsOk(first + [s]) && HasRoom(first + [s], |e.name|) && FirstRoom(first + [s], |e.name|) == |first|
    ensures SlotOk(s) && Room(s, |e.name|) && Insert(first + [s], e) == first + Filled(s, e)
  {
    assert s in first + [s] && (first + [s])[|first|] == s;
    assert (first + [s])[..|first|] == first && (first + [s])[|first| + 1..] == [];
  }

  lemma {:induction false} RefillSubset(slots: seq<Slot>, es: seq<Entry>, x: Entry)
    requires SlotsOk(slots) && (forall e :: e in es ==> EntryOk(e)) && x in Live(Refill(slots, es))
    ensures x in Live(slots) || x in es
    decreases |es|
  {
    if es != [] {
      if HasRoom(slots, |es[0].name|) {
        InsertKeeps(slots, es[0]);
        RefillSubset(Insert(slots, es[0]), es[1..], x);
      } else {
        RefillSubset(slots, es[1..], x);
      }
    }
  }

  lemma {:induction false} RefillStep(slots: seq<Slot>, es: seq<Entry>)
    requires es != [] && SlotsOk(slots) && forall e :: e in es ==> EntryOk(e)
    ensures HasRoom(slots, |es[0].name|) ==>
              SlotsOk(Insert(slots, es[0])) && Refill(slots, es) == Refill(Insert(slots, es[0]), es[1..])
    ensures !HasRoom(slots, |es[0].name|) ==> Refill(slots, es) == Refill(slots, es[1..])
  {
    if HasRoom(slots, |es[0].name|) { InsertKeeps(slots, es[0]); }
  }

  lemma {:induction false} RefillNone(slots: seq<Slot>)
    requires SlotsOk(slots)
    ensures Refill(slots, []) == slots && Sum([]) == 0
  {
  }

  ghost predicate AllIn(es: seq<Entry>, live: seq<Entry>) { forall e :: e in es ==> e in live }

  lemma {:induction false} SumStep(es: seq<Entry>)
    requires es != []
    ensures Sum(es) == Need(|es[0].name|) + Sum(es[1..])
  {
  }

  /** The entries `done` are packed already; the rest all find room exactly when the sum fits. */
  lemma {:induction false} RefillPacked(blkSize: nat, ftype: U8, name: Name, done: seq<Entry>, rest: seq<Entry>)
    requires FillOk(blkSize, name) && ftype != CHECKSUM && Sum(done) <= blkSize
    requires (forall e :: e in done ==> EntryOk(e)) && (forall e :: e in rest ==> EntryOk(e))
    requires Distinct(done + rest)
    ensures SlotsOk(Packed(blkSize, ftype, name, done))
    ensures var live := Live(Refill(Packed(blkSize, ftype, name, done), rest));
            if Sum(done) + Sum(rest) <= blkSize then live == done + rest else !AllIn(rest, live)
    decreases |rest|, 1
  {
    hide Packed;
    hide Live;
    hide Sum;
    hide Refill;
    hide Insert;
    hide HasRoom;
    hide Distinct;
    PackedLive(blkSize, ftype, name, done);
    if rest == [] {
      RefillNone(Packed(blkSize, ftype, name, done));
      assert done + rest == done;
    } else {
      RefillStep(Packed(blkSize, ftype, name, done), rest);
      SumStep(rest);
      PackedRoom(blkSize, ftype, name, done, |rest[0].name|);
      if HasRoom(Packed(blkSize, ftype, name, done), |rest[0].name|) {
        RefillFits(blkSize, ftype, name, done, rest);
      } else {
        assert rest == [rest[0]] + rest[1..];
        NotRefilled(Packed(blkSize, ftype, name, done), done, rest[0], rest[1..]);
        assert rest[0] in rest;
      }
    }
  }

  lemma {:induction false} RefillFits(blkSize: nat, ftype: U8, name: Name, done: seq<Entry>, rest: seq<Entry>)
    requires FillOk(blkSize, name) && ftype != CHECKSUM && rest != [] && Sum(done) + Need(|rest[0].name|) <= blkSize
    requires (forall e :: e in done ==> EntryOk(e)) && (forall e :: e in rest ==> EntryOk(e))
    requires Distinct(done + rest) && Sum(rest) == Need(|rest[0].name|) + Sum(rest[1..])
    requires var slots := Packed(blkSize, ftype, name, done);
             && SlotsOk(slots) && HasRoom(slots, |rest[0].name|) && SlotsOk(Insert(slots, rest[0]))
             && Refill(slots, rest) == Refill(Insert(slots, rest[0]), rest[1..])
    ensures var live := Live(Refill(Packed(blkSize, ftype, name, done), rest));
            if Sum(done) + Sum(rest) <= blkSize then live == done + rest else !AllIn(rest, live)
    decreases |rest|, 0
  {
    hide Packed;
    hide Live;
    hide Refill;
    hide Insert;
    hide HasRoom;
    hide Sum;
    var e, more := rest[0], rest[1..];
    PackedInsert(blkSize, ftype, name, done, e);
    assert rest == [e] + more;
    assert (done + [e]) + more == done + rest;
    RefillPacked(blkSize, ftype, name, done + [e], more);
    assert forall x :: x in more ==> x in rest;
  }

  lemma {:induction false} NotRefilled(slots: seq<Slot>, done: seq<Entry>, e: Entry, rest: seq<Entry>)
    requires SlotsOk(slots) && Live(slots) == done && Distinct(done + ([e] + rest))
    requires forall x :: x in rest ==> EntryOk(x)
    ensures e !in Live(Refill(slots, rest))
  {
    var all := done + ([e] + rest);
    assert all[|done|] == e;
    forall i | 0 <= i < |done|
      ensures done[i] != e
    {
      assert all[i] == done[i];
    }
    forall i | 0 <= i < |rest|
      ensures rest[i] != e
    {
      assert all[|done| + 1 + i] == rest[i];
    }
    if e in Live(Refill(slots, rest)) {
      RefillSubset(slots, rest, e);
    }
  }

  /** A cleared block in which the file type of a checksum entry is left over takes no entry. */
  lemma {:induction false} StaysCleared(blkSize: nat, name: Name, es: seq<Entry>)
    requires SlotsOk(Cleared(blkSize, CHECKSUM, name)) && forall e :: e in es ==> EntryOk(e)
    ensures Refill(Cleared(blkSize, CHECKSUM, name), es) == Cleared(blkSize, CHECKSUM, name)
    decreases |es|
  {
    if es != [] {
      RefillStep(Cleared(blkSize, CHECKSUM, name), es);
      StaysCleared(blkSize, name, es[1..]);
    }
  }

  /** Main result: refilling a cleared block keeps every entry exactly when their rounded sizes fit and
      no file type of a checksum entry is left over. */
  lemma {:induction false} RefillKeepsAllIff(blkSize: nat, ftype: U8, name: Name, es: seq<Entry>)
    requires FillOk(blkSize, name) && (forall e :: e in es ==> EntryOk(e)) && Distinct(es)
    ensures SlotsOk(Cleared(blkSize, ftype, name))
    ensures AllIn(es, Live(Refill(Cleared(blkSize, ftype, name), es)))
            <==> Sum(es) <= blkSize && (ftype != CHECKSUM || es == [])
  {
    if ftype == CHECKSUM {
      StaysCleared(blkSize, name, es);
      LiveOne(Slot(0, blkSize, ftype, name));
      if es != [] { assert es[0] in es; }
    } else {
      assert [] + es == es;
      RefillPacked(blkSize, ftype, name, [], es);
    }
  }
}
