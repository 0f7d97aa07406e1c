/** What a directory block holds (src/directory/block.rs, src/directory/entry.rs).

    A block is tiled by slots.  A slot with an inode number is an entry, with room behind its name;
    the others are free room.  This module says when bytes are such a list of slots, and what
    insertion, search and removal make of the list. */
module DirectorySlots {
  import opened Wrappers
  import opened ByteRw

  type Name = seq<U8>

  /** The `file_type` of the pseudo entry that holds the block's checksum. */
  const CHECKSUM: U8 := 0xDE

  /** One slot: an entry when the inode number is not 0, and otherwise free room. */
  datatype Slot = Slot(inode: nat, len: nat, ftype: U8, name: Name)

  /** What a live slot says. */
  datatype Entry = Entry(inode: nat, ftype: U8, name: Name)

  function EntryOf(s: Slot): Entry { Entry(s.inode, s.ftype, s.name) }

  /** `(11 + n) & !3`: the header of eight bytes and the name, rounded up to a multiple of 4. */
  function Need(n: nat): (r: nat)
    ensures r % 4 == 0 && 8 + n <= r < 12 + n
  {
    (11 + n) / 4 * 4
  }

  predicate SlotOk(s: Slot) {
    s.inode <= U32_MAX && s.len <= U16_MAX && s.len % 4 == 0 && |s.name| < 256 && 8 + |s.name| <= s.len
  }

  // ---- slots and bytes -------------------------------------------------------------------------

  /** The bytes at pos are slot s. */
  ghost predicate SlotAt(b: seq<U8>, pos: nat, s: Slot) {
    && SlotOk(s) && pos + s.len <= |b|
    && U32(b, pos) == s.inode
    && U16(b, pos + 4) == s.len
    && b[pos + 6] == |s.name|
    && b[pos + 7] == s.ftype
    && b[pos + 8..pos + 8 + |s.name|] == s.name
  }

  /** The slots lie one after the other and tile [lo, hi) exactly. */
  ghost predicate Lays(b: seq<U8>, lo: nat, hi: nat, slots: seq<Slot>)
    decreases |slots|
  {
    if slots == [] then lo == hi
    else SlotAt(b, lo, slots[0]) && lo + slots[0].len <= hi && Lays(b, lo + slots[0].len, hi, slots[1..])
  }

  /** The bytes determine the slots. */
  lemma {:induction false} LaysUnique(b: seq<U8>, lo: nat, hi: nat, x: seq<Slot>, y: seq<Slot>)
    requires Lays(b, lo, hi, x) && Lays(b, lo, hi, y)
    ensures x == y
    decreases |x|
  {
    if x != [] && y != [] {
      assert x[0].name == y[0].name;
      LaysUnique(b, lo + x[0].len, hi, x[1..], y[1..]);
      assert x == [x[0]] + x[1..] && y == [y[0]] + y[1..];
    } else if x != [] {
      LaysBound(b, lo, hi, x);
    } else if y != [] {
      LaysBound(b, lo, hi, y);
    }
  }

  lemma {:induction false} LaysBound(b: seq<U8>, lo: nat, hi: nat, slots: seq<Slot>)
    requires Lays(b, lo, hi, slots)
    ensures lo + 8 * |slots| <= hi
    ensures slots != [] ==> hi <= |b|
    decreases |slots|
  {
    if slots != [] {
      LaysBound(b, lo + slots[0].len, hi, slots[1..]);
    }
  }

  lemma {:induction false} LaysAppend(b: seq<U8>, lo: nat, mid: nat, hi: nat, x: seq<Slot>, y: seq<Slot>)
    requires Lays(b, lo, mid, x) && Lays(b, mid, hi, y)
    ensures Lays(b, lo, hi, x + y)
    decreases |x|
  {
    hide SlotAt;
    if x == [] {
      assert x + y == y;
    } else {
      LaysAppend(b, lo + x[0].len, mid, hi, x[1..], y);
      LaysBound(b, mid, hi, y);
      LaysBound(b, lo + x[0].len, mid, x[1..]);
      assert (x + y)[1..] == x[1..] + y;
    }
  }

  lemma {:induction false} LaysOne(b: seq<U8>, pos: nat, s: Slot)
    requires SlotAt(b, pos, s)
    ensures Lays(b, pos, pos + s.len, [s])
  {
    assert [s][1..] == [];
    assert Lays(b, pos + s.len, pos + s.len, []);
  }

  /** Bytes outside [lo, hi) do not matter to the slots inside. */
  lemma {:induction false} LaysFrame(a: seq<U8>, b: seq<U8>, lo: nat, hi: nat, slots: seq<Slot>)
    requires Lays(a, lo, hi, slots) && |a| == |b|
    requires forall k :: lo <= k < hi && k < |a| ==> a[k] == b[k]
    ensures Lays(b, lo, hi, slots)
    decreases |slots|
  {
    if slots != [] {
      LaysBound(a, lo, hi, slots);
      var s := slots[0];
      assert b[lo + 8..lo + 8 + |s.name|] == a[lo + 8..lo + 8 + |s.name|];
      assert SlotAt(b, lo, s);
      LaysFrame(a, b, lo + s.len, hi, slots[1..]);
    }
  }

  /** Replacing the bytes in [lo, hi) by other slots. */
  lemma {:induction false} LaysReplace(a: seq<U8>, b: seq<U8>, lo: nat, hi: nat, pre: seq<Slot>, mid: seq<Slot>,
      post: seq<Slot>)
    requires Lays(a, 0, lo, pre) && lo <= hi <= |a| && Lays(a, hi, |a|, post)
    requires SameOutside(a, b, lo, hi) && Lays(b, lo, hi, mid)
    ensures Lays(b, 0, |b|, pre + mid + post)
  {
    LaysFrame(a, b, 0, lo, pre);
    LaysFrame(a, b, hi, |a|, post);
    LaysThree(b, lo, hi, pre, mid, post);
  }

  lemma {:induction false} LaysThree(b: seq<U8>, p: nat, q: nat, x: seq<Slot>, y: seq<Slot>, z: seq<Slot>)
    requires Lays(b, 0, p, x) && Lays(b, p, q, y) && Lays(b, q, |b|, z)
    ensures Lays(b, 0, |b|, x + y + z)
  {
    LaysAppend(b, 0, p, q, x, y);
    LaysAppend(b, 0, q, |b|, x + y, z);
  }

  // ---- live entries ----------------------------------------------------------------------------

  predicate IsLive(s: Slot) { s.inode != 0 }

  /** The entries of the live slots, in order. */
  function Live(slots: seq<Slot>): seq<Entry>
    decreases |slots|
  {
    if slots == [] then []
    else LiveOf(slots[0]) + Live(slots[1..])
  }

  function LiveOf(s: Slot): seq<Entry> { if IsLive(s) then [EntryOf(s)] else [] }

  lemma {:induction false} Assoc(a: seq<Entry>, b: seq<Entry>, c: seq<Entry>)
    ensures a + b + c == a + (b + c)
  {
  }

  lemma {:induction false} LiveAppend(x: seq<Slot>, y: seq<Slot>)
    ensures Live(x + y) == Live(x) + Live(y)
    decreases |x|
  {
    if x == [] {
      assert x + y == y;
    } else {
      LiveAppend(x[1..], y);
      assert (x + y)[1..] == x[1..] + y;
      Assoc(LiveOf(x[0]), Live(x[1..]), Live(y));
    }
  }

  lemma {:induction false} LiveOne(s: Slot)
    ensures Live([s]) == LiveOf(s)
  {
    assert [s][1..] == [];
  }

  function Total(slots: seq<Slot>): nat
    decreases |slots|
  {
    if slots == [] then 0 else slots[0].len + Total(slots[1..])
  }

  lemma {:induction false} LaysTotal(b: seq<U8>, lo: nat, hi: nat, slots: seq<Slot>)
    requires Lays(b, lo, hi, slots)
    ensures lo + Total(slots) == hi && forall s :: s in slots ==> SlotOk(s)
    decreases |slots|
  {
    if slots != [] {
      LaysTotal(b, lo + slots[0].len, hi, slots[1..]);
      assert slots == [slots[0]] + slots[1..];
    }
  }

  lemma {:induction false} TotalAppend(x: seq<Slot>, y: seq<Slot>)
    ensures Total(x + y) == Total(x) + Total(y)
    decreases |x|
  {
    if x == [] {
      assert x + y == y;
    } else {
      TotalAppend(x[1..], y);
      assert (x + y)[1..] == x[1..] + y;
    }
  }

  // ---- insertion -------------------------------------------------------------------------------

  /** There is room for a name of n bytes: in a dead slot that does not hold the checksum, or behind
      the entry of a live slot. */
  predicate Room(s: Slot, n: nat) {
    if IsLive(s) then s.len >= Need(n) + Need(|s.name|)
    else s.ftype != CHECKSUM && s.len >= Need(n)
  }

  /** What a slot with room becomes. */
  function Filled(s: Slot, e: Entry): (r: seq<Slot>)
    requires SlotOk(s) && Room(s, |e.name|)
    ensures Total(r) == s.len
  {
    if IsLive(s) then
      var used := Need(|s.name|);
      var r := [s.(len := used), Slot(e.inode, s.len - used, e.ftype, e.name)];
      assert Total(r[1..]) == s.len - used by { assert r[1..][1..] == []; }
      r
    else
      assert [Slot(e.inode, s.len, e.ftype, e.name)][1..] == [];
      [Slot(e.inode, s.len, e.ftype, e.name)]
  }

  /** The first slot with room, or the number of slots. */
  function FirstRoom(slots: seq<Slot>, n: nat): (i: nat)
    ensures i <= |slots|
    ensures i < |slots| ==> Room(slots[i], n)
    ensures forall j :: 0 <= j < i ==> !Room(slots[j], n)
    decreases |slots|
  {
    if slots == [] || Room(slots[0], n) then 0 else 1 + FirstRoom(slots[1..], n)
  }

  predicate HasRoom(slots: seq<Slot>, n: nat) { FirstRoom(slots, n) < |slots| }

  ghost predicate SlotsOk(slots: seq<Slot>) { forall s :: s in slots ==> SlotOk(s) }

  function Insert(slots: seq<Slot>, e: Entry): seq<Slot>
    requires SlotsOk(slots) && HasRoom(slots, |e.name|)
  {
    var i := FirstRoom(slots, |e.name|);
    slots[..i] + Filled(slots[i], e) + slots[i + 1..]
  }

  predicate EntryOk(e: Entry) { 0 < e.inode <= U32_MAX && |e.name| < 256 }

  /** Main result: insertion adds exactly one live entry and leaves every other one as it was. */
  lemma {:induction false} InsertAddsOne(slots: seq<Slot>, e: Entry) returns (k: nat)
    requires SlotsOk(slots) && HasRoom(slots, |e.name|) && EntryOk(e)
    ensures k <= |Live(slots)|
    ensures Live(Insert(slots, e)) == Live(slots)[..k] + [e] + Live(slots)[k..]
    ensures SlotsOk(Insert(slots, e)) && Total(Insert(slots, e)) == Total(slots)
  {
    hide Live;
    hide Total;
    var i := FirstRoom(slots, |e.name|);
    var s, pre, post := slots[i], slots[..i], slots[i + 1..];
    assert s in slots;
    FilledLive(s, e);
    TotalOne(s);
    Swap(slots, pre, [s], Filled(s, e), post, Insert(slots, e));
    k := |Live(pre)| + |Live([s])|;
  }

  /** The same without naming where the entry goes. */
  lemma {:induction false} InsertKeeps(slots: seq<Slot>, e: Entry)
    requires SlotsOk(slots) && HasRoom(slots, |e.name|) && EntryOk(e)
    ensures SlotsOk(Insert(slots, e)) && Total(Insert(slots, e)) == Total(slots)
    ensures forall x :: x in Live(Insert(slots, e)) <==> x == e || x in Live(slots)
  {
    var k := InsertAddsOne(slots, e);
    var live := Live(slots);
    assert live == live[..k] + live[k..];
  }

  lemma {:induction false} TotalOne(s: Slot)
    ensures Total([s]) == s.len
  {
    assert [s][1..] == [];
  }

  /** Replacing the slots y by the slots y2 of the same total length. */
  lemma {:induction false} Swap(slots: seq<Slot>, x: seq<Slot>, y: seq<Slot>, y2: seq<Slot>, z: seq<Slot>,
      after: seq<Slot>)
    requires slots == x + y + z && after == x + y2 + z
    requires SlotsOk(slots) && SlotsOk(y2) && Total(y2) == Total(y)
    ensures Live(slots) == Live(x) + Live(y) + Live(z)
    ensures Live(after) == Live(x) + Live(y2) + Live(z)
    ensures Total(after) == Total(slots) && SlotsOk(after)
  {
    AroundLive(x, y, z);
    AroundLive(x, y2, z);
  }

  lemma {:induction false} AroundLive(x: seq<Slot>, y: seq<Slot>, z: seq<Slot>)
    ensures Live(x + y + z) == Live(x) + Live(y) + Live(z)
    ensures Total(x + y + z) == Total(x) + Total(y) + Total(z)
  {
    LiveAppend(x + y, z);
    LiveAppend(x, y);
    TotalAppend(x + y, z);
    TotalAppend(x, y);
  }

  lemma {:induction false} FilledLive(s: Slot, e: Entry)
    requires SlotOk(s) && Room(s, |e.name|) && EntryOk(e)
    ensures Live(Filled(s, e)) == Live([s]) + [e] && SlotsOk(Filled(s, e))
  {
    LiveOne(s);
    var r := Filled(s, e);
    if IsLive(s) {
      LiveOne(r[1]);
      assert r[1..] == [r[1]];
    } else {
      LiveOne(r[0]);
    }
  }

  /** Insertion succeeds exactly when some slot has room. */
  lemma {:induction false} HasRoomIff(slots: seq<Slot>, n: nat)
    ensures HasRoom(slots, n) <==> exists s :: s in slots && Room(s, n)
  {
    var i := FirstRoom(slots, n);
    if i < |slots| { assert slots[i] in slots; }
  }

  // ---- search and removal ----------------------------------------------------------------------

  predicate Matches(s: Slot, name: Name) { IsLive(s) && s.name == name }

  /** The first live slot with this name, or the number of slots. */
  function IndexOf(slots: seq<Slot>, name: Name): (i: nat)
    ensures i <= |slots|
    ensures i < |slots| ==> Matches(slots[i], name)
    ensures forall j :: 0 <= j < i ==> !Matches(slots[j], name)
    decreases |slots|
  {
    if slots == [] || Matches(slots[0], name) then 0 else 1 + IndexOf(slots[1..], name)
  }

  function Find(slots: seq<Slot>, name: Name): Option<Entry> {
    var i := IndexOf(slots, name);
    if i < |slots| then Some(EntryOf(slots[i])) else None
  }

  /** `destroy` at slot i: the slot is absorbed by the one before it; the first one stays as room. */
  function Destroyed(slots: seq<Slot>, i: nat): seq<Slot>
    requires i < |slots|
  {
    if i == 0 then [slots[0].(inode := 0)] + slots[1..]
    else slots[..i - 1] + [slots[i - 1].(len := slots[i - 1].len + slots[i].len)] + slots[i + 1..]
  }

  function Remove(slots: seq<Slot>, name: Name): seq<Slot> {
    var i := IndexOf(slots, name);
    if i < |slots| then Destroyed(slots, i) else slots
  }

  /** Main result: `destroy` removes exactly one live entry and leaves the others as they were. */
  lemma {:induction false} DestroyRemovesOne(slots: seq<Slot>, i: nat)
    requires SlotsOk(slots) && i < |slots| && IsLive(slots[i]) && Total(slots) <= U16_MAX
    ensures Live(slots) == Live(slots[..i]) + [EntryOf(slots[i])] + Live(slots[i + 1..])
    ensures Live(Destroyed(slots, i)) == Live(slots[..i]) + Live(slots[i + 1..])
    ensures SlotsOk(Destroyed(slots, i)) && Total(Destroyed(slots, i)) == Total(slots)
  {
    var pre, s, post := slots[..i], slots[i], slots[i + 1..];
    LiveOne(s);
    TotalOne(s);
    if i == 0 {
      var dead := s.(inode := 0);
      LiveOne(dead);
      TotalOne(dead);
      DeadOk(slots);
      Swap(slots, [], [s], [dead], post, Destroyed(slots, i));
    } else {
      Merged(slots, i);
    }
  }

  /** Only the first slot may be dead, so that free room lies behind entries, where it can be used. */
  ghost predicate NoGaps(slots: seq<Slot>) { forall i :: 0 < i < |slots| ==> IsLive(slots[i]) }

  /** Main result: a block without gaps has none after an insertion, which takes a dead slot as a whole, and
      after a removal, which joins the slot to the one before it. */
  lemma {:induction false} StaysWithoutGaps(slots: seq<Slot>, e: Entry, i: nat)
    requires SlotsOk(slots) && NoGaps(slots) && EntryOk(e)
    ensures HasRoom(slots, |e.name|) ==>
              NoGaps(Insert(slots, e))
              && |Insert(slots, e)| == |slots| + if IsLive(slots[FirstRoom(slots, |e.name|)]) then 1 else 0
    ensures i < |slots| ==>
              NoGaps(Destroyed(slots, i)) && |Destroyed(slots, i)| == |slots| - if i == 0 then 0 else 1
  {
    var r := FirstRoom(slots, |e.name|);
    if r < |slots| {
      assert slots[r] in slots;
      var f := Filled(slots[r], e);
      assert forall j :: 0 < j < |f| ==> IsLive(f[j]);
      assert IsLive(f[0]);
    }
  }

  lemma {:induction false} DeadOk(slots: seq<Slot>)
    requires SlotsOk(slots) && slots != []
    ensures SlotsOk([slots[0].(inode := 0)])
    ensures Live([]) == []
  {
    assert slots[0] in slots;
  }

  lemma {:induction false} Merged(slots: seq<Slot>, i: nat)
    requires SlotsOk(slots) && 0 < i < |slots| && IsLive(slots[i]) && Total(slots) <= U16_MAX
    ensures Live(slots) == Live(slots[..i]) + [EntryOf(slots[i])] + Live(slots[i + 1..])
    ensures Live(Destroyed(slots, i)) == Live(slots[..i]) + Live(slots[i + 1..])
    ensures SlotsOk(Destroyed(slots, i)) && Total(Destroyed(slots, i)) == Total(slots)
  {
    hide Live;
    hide Total;
    var first, p, s, post := slots[..i - 1], slots[i - 1], slots[i], slots[i + 1..];
    var m := p.(len := p.len + s.len);
    PairAndMerged(p, s);
    assert slots == first + [p, s] + post;
    assert p in slots && s in slots;
    TwoOfTotal(slots, first, p, s, post);
    Swap(slots, first, [p, s], [m], post, Destroyed(slots, i));
    LiveAppend(first, [p]);
    assert slots[..i] == first + [p];
    Assoc(Live(first), Live([p]), Live([s]));
  }

  lemma {:induction false} TwoOfTotal(slots: seq<Slot>, x: seq<Slot>, p: Slot, s: Slot, z: seq<Slot>)
    requires slots == x + [p, s] + z
    ensures p.len + s.len <= Total(slots)
  {
    AroundLive(x, [p, s], z);
    PairAndMerged(p, s);
  }

  lemma {:induction false} PairAndMerged(p: Slot, s: Slot)
    ensures Live([p, s]) == Live([p]) + Live([s]) && Total([p, s]) == p.len + s.len
    ensures Live([p.(len := p.len + s.len)]) == Live([p]) && Total([p.(len := p.len + s.len)]) == p.len + s.len
    ensures Live([s]) == LiveOf(s)
  {
    assert [p, s] == [p] + [s];
    LiveAppend([p], [s]);
    TotalAppend([p], [s]);
    TotalOne(p);
    TotalOne(s);
    TotalOne(p.(len := p.len + s.len));
    LiveOne(p);
    LiveOne(s);
    LiveOne(p.(len := p.len + s.len));
  }

  /** Names are pairwise distinct. */
  ghost predicate Distinct(entries: seq<Entry>) {
    forall i, j :: 0 <= i < j < |entries| ==> entries[i].name != entries[j].name
  }

  /** Search succeeds exactly on the names of live entries. */
  lemma {:induction false} FindIff(slots: seq<Slot>, name: Name)
    ensures match Find(slots, name)
            case None => forall e :: e in Live(slots) ==> e.name != name
            case Some(e) => e in Live(slots) && e.name == name
  {
    var i := IndexOf(slots, name);
    if i < |slots| {
      LiveHas(slots, i);
    } else {
      forall e | e in Live(slots)
        ensures e.name != name
      {
        var j := LiveFrom(slots, e);
        assert !Matches(slots[j], name);
      }
    }
  }

  lemma {:induction false} LiveHas(slots: seq<Slot>, i: nat)
    requires i < |slots| && IsLive(slots[i])
    ensures EntryOf(slots[i]) in Live(slots)
    decreases |slots|
  {
    if i > 0 { LiveHas(slots[1..], i - 1); }
  }

  lemma {:induction false} LiveFrom(slots: seq<Slot>, e: Entry) returns (j: nat)
    requires e in Live(slots)
    ensures j < |slots| && IsLive(slots[j]) && EntryOf(slots[j]) == e
    decreases |slots|
  {
    if IsLive(slots[0]) && EntryOf(slots[0]) == e {
      j := 0;
    } else {
      j := LiveFrom(slots[1..], e);
      j := j + 1;
    }
  }
}
