/** A directory block as bytes, with its iterators (src/directory/block.rs, src/directory/entry.rs).

    An entry is a 32-bit inode number, a 16-bit length of the whole slot, one byte of name length, one
    byte of file type (version 2 of the format) and the name.  A slot whose inode number is 0 is free.

    The class keeps the list of slots that its bytes stand for; module DirectorySlots defines that
    relation and what insertion, search and removal make of the list.  Each method writes the bytes
    as the source does and is proved to make of the list what DirectorySlots says.  The iterators
    keep the slots they have seen and those still to come, so that a loop over a block knows what it
    has ruled out. */
module DirectoryBlock {
  import opened Wrappers
  import opened ByteRw
  import opened DirectorySlots

  predicate BlockSize(n: nat) { n == 1024 || n == 2048 || n == 4096 }

  // ---- what writing an entry does to the bytes ---------------------------------------------------

  /** `set_inode`, `set_type` and `set_name` at pos. */
  function PutEntry(b: seq<U8>, pos: nat, e: Entry): (r: seq<U8>)
    requires EntryOk(e) && pos + 8 + |e.name| <= |b|
    ensures |r| == |b| && SameOutside(b, r, pos, pos + 8 + |e.name|)
    ensures U32(r, pos) == e.inode && U16(r, pos + 4) == U16(b, pos + 4)
    ensures r[pos + 6] == |e.name| && r[pos + 7] == e.ftype && r[pos + 8..pos + 8 + |e.name|] == e.name
  {
    PutBytes(PutU32(b, pos, e.inode)[pos + 7 := e.ftype][pos + 6 := |e.name|], pos + 8, e.name)
  }

  lemma {:induction false} WrittenSlot(b: seq<U8>, pos: nat, e: Entry, len: nat)
    requires EntryOk(e) && pos + 8 + |e.name| <= |b| && U16(b, pos + 4) == len
    requires SlotOk(Slot(e.inode, len, e.ftype, e.name)) && pos + len <= |b|
    ensures SlotAt(PutEntry(b, pos, e), pos, Slot(e.inode, len, e.ftype, e.name))
  {
  }

  /** A dead slot becomes the entry and keeps its length. */
  lemma {:induction false} FilledDead(b: seq<U8>, pos: nat, s: Slot, e: Entry)
    requires SlotAt(b, pos, s) && !IsLive(s) && Room(s, |e.name|) && EntryOk(e)
    ensures Lays(PutEntry(b, pos, e), pos, pos + s.len, Filled(s, e))
    ensures SameOutside(b, PutEntry(b, pos, e), pos, pos + s.len)
  {
    WrittenSlot(b, pos, e, s.len);
    LaysOne(PutEntry(b, pos, e), pos, Slot(e.inode, s.len, e.ftype, e.name));
  }

  /** `split`: the live slot keeps what its entry needs and the rest gets a length of its own. */
  function SplitBytes(b: seq<U8>, pos: nat, used: nat, rest: nat): (r: seq<U8>)
    requires 8 <= used <= U16_MAX && rest <= U16_MAX && pos + used + 6 <= |b|
    ensures |r| == |b| && SameOutside(b, r, pos + 4, pos + used + 6)
    ensures U16(r, pos + 4) == used && U16(r, pos + used + 4) == rest
    ensures forall k :: pos + 6 <= k < pos + used + 4 ==> r[k] == b[k]
  {
    PutU16(PutU16(b, pos + 4, used), pos + used + 4, rest)
  }

  /** Both halves of a split slot, after the entry has been written into the second one. */
  lemma {:induction false} FilledLiveSlot(b: seq<U8>, pos: nat, s: Slot, e: Entry)
    requires SlotAt(b, pos, s) && IsLive(s) && Room(s, |e.name|) && EntryOk(e)
    ensures var used := Need(|s.name|);
            var r := PutEntry(SplitBytes(b, pos, used, s.len - used), pos + used, e);
            Lays(r, pos, pos + s.len, Filled(s, e)) && SameOutside(b, r, pos, pos + s.len)
  {
    hide Lays;
    hide SlotAt;
    hide Need;
    hide PutEntry;
    hide SplitBytes;
    hide Filled;
    SlotFacts(b, pos, s);
    SplitFits(b, pos, s, e);
    var used := Need(|s.name|);
    var m := SplitBytes(b, pos, used, s.len - used);
    var r := PutEntry(m, pos + used, e);
    var first, second := s.(len := used), Slot(e.inode, s.len - used, e.ftype, e.name);
    SplitKeepsFirst(b, m, pos, s, used);
    WrittenSlot(m, pos + used, e, s.len - used);
    BothOutside(b, m, r, pos, used, 8 + |e.name|, s.len);
    TwoSlots(m, r, pos, first, second);
    FilledIs(s, e, first, second);
  }

  lemma {:induction false} FilledIs(s: Slot, e: Entry, first: Slot, second: Slot)
    requires SlotOk(s) && IsLive(s) && Room(s, |e.name|)
    requires first == s.(len := Need(|s.name|)) && second == Slot(e.inode, s.len - Need(|s.name|), e.ftype, e.name)
    ensures Filled(s, e) == [first, second]
  {
  }

  lemma {:induction false} BothOutside(b: seq<U8>, m: seq<U8>, r: seq<U8>, pos: nat, used: nat, size: nat, len: nat)
    requires SameOutside(b, m, pos + 4, pos + used + 6) && SameOutside(m, r, pos + used, pos + used + size)
    requires 8 <= size && used + size <= len
    ensures SameOutside(m, r, pos + used, |m|) && SameOutside(b, r, pos, pos + len)
  {
  }

  lemma {:induction false} TwoSlots(m: seq<U8>, r: seq<U8>, pos: nat, first: Slot, second: Slot)
    requires SlotAt(m, pos, first) && SlotAt(r, pos + first.len, second)
    requires SameOutside(m, r, pos + first.len, |m|)
    ensures Lays(r, pos, pos + first.len + second.len, [first, second])
  {
    LaysOne(m, pos, first);
    LaysFrame(m, r, pos, pos + first.len, [first]);
    LaysOne(r, pos + first.len, second);
    LaysAppend(r, pos, pos + first.len, pos + first.len + second.len, [first], [second]);
    assert [first, second] == [first] + [second];
  }

  /** The two lengths that a split gives. */
  lemma {:induction false} SplitFits(b: seq<U8>, pos: nat, s: Slot, e: Entry)
    requires SlotAt(b, pos, s) && IsLive(s) && Room(s, |e.name|) && EntryOk(e)
    ensures var used := Need(|s.name|);
            && 8 <= used && used + 8 + |e.name| <= s.len && pos + s.len <= |b|
            && SlotOk(s.(len := used)) && SlotOk(Slot(e.inode, s.len - used, e.ftype, e.name))
  {
  }

  lemma {:induction false} SlotFacts(b: seq<U8>, pos: nat, s: Slot)
    requires SlotAt(b, pos, s)
    ensures SlotOk(s) && pos + s.len <= |b| && U32(b, pos) == s.inode && U16(b, pos + 4) == s.len
    ensures b[pos + 6] == |s.name| && b[pos + 7] == s.ftype && b[pos + 8..pos + 8 + |s.name|] == s.name
  {
  }

  lemma {:induction false} SplitKeepsFirst(b: seq<U8>, m: seq<U8>, pos: nat, s: Slot, used: nat)
    requires SlotAt(b, pos, s) && used == Need(|s.name|) && used < s.len
    requires SameOutside(b, m, pos + 4, pos + used + 6) && U16(m, pos + 4) == used
    requires forall k :: pos + 6 <= k < pos + used + 4 ==> m[k] == b[k]
    ensures SlotAt(m, pos, s.(len := used))
  {
    assert m[pos + 8..pos + 8 + |s.name|] == b[pos + 8..pos + 8 + |s.name|];
  }

  /** `destroy`: the inode number becomes 0 and the slot before takes over the room. */
  lemma {:induction false} DestroyedBytes(b: seq<U8>, ppos: nat, p: Slot, s: Slot)
    requires SlotAt(b, ppos, p) && SlotAt(b, ppos + p.len, s) && p.len + s.len <= U16_MAX
    ensures var r := PutU16(PutU32(b, ppos + p.len, 0), ppos + 4, p.len + s.len);
            && SameOutside(b, r, ppos, ppos + p.len + s.len)
            && SlotAt(r, ppos, p.(len := p.len + s.len))
  {
    hide SlotAt;
    SlotFacts(b, ppos, p);
    SlotFacts(b, ppos + p.len, s);
    var m := PutU32(b, ppos + p.len, 0);
    SlotFrame(b, m, ppos, p);
    SetLen(m, ppos, p, p.len + s.len);
  }

  lemma {:induction false} SlotFrame(b: seq<U8>, m: seq<U8>, pos: nat, s: Slot)
    requires SlotAt(b, pos, s) && SameOutside(b, m, pos + s.len, |b|)
    ensures SlotAt(m, pos, s)
  {
    assert m[pos + 8..pos + 8 + |s.name|] == b[pos + 8..pos + 8 + |s.name|];
  }

  /** `set_entry_len` changes the length of a slot only. */
  lemma {:induction false} SetLen(b: seq<U8>, pos: nat, s: Slot, len: nat)
    requires SlotAt(b, pos, s) && SlotOk(s.(len := len)) && pos + len <= |b|
    ensures SlotAt(PutU16(b, pos + 4, len), pos, s.(len := len))
  {
    var r := PutU16(b, pos + 4, len);
    assert r[pos + 8..pos + 8 + |s.name|] == b[pos + 8..pos + 8 + |s.name|];
  }

  // ---- the block -----------------------------------------------------------------------------------

  class Block {
    const data: array<U8>
    ghost var slots: seq<Slot>

    ghost predicate Valid()
      reads this, data
    {
      && BlockSize(data.Length)
      && Lays(data[..], 0, data.Length, slots)
    }

    /** A block of unknown bytes that is cleared before anything else is done with it.  `clear` does
        not write bytes 6 and 7, so a name and a file type may be left over in the one dead slot. */
    constructor (bytes: array<U8>)
      requires BlockSize(bytes.Length)
      modifies bytes
      ensures data == bytes && Valid()
      ensures slots == [Slot(0, data.Length, old(bytes[7]), old(bytes[8..8 + bytes[6] as nat]))]
    {
      data := bytes;
      new;
      Clear();
    }

    method Clear()
      requires BlockSize(data.Length)
      modifies this, data
      ensures Valid()
      ensures slots == [Slot(0, data.Length, old(data[7]), old(data[8..8 + data[6] as nat]))]
    {
      ghost var before := data[..];
      WriteU32(data, 0, 0);
      WriteU16(data, 4, data.Length);
      WriteU16(data, 0, 0);
      slots := [Slot(0, data.Length, before[7], before[8..8 + before[6] as nat])];
      ClearedIs(before, data[..], slots[0]);
      LaysOne(data[..], 0, slots[0]);
    }

    /** Bytes [pos, pos + 8 + name) get the entry. */
    method SetEntry(pos: nat, e: Entry)
      requires EntryOk(e) && pos + 8 + |e.name| <= data.Length
      modifies data
      ensures data[..] == PutEntry(old(data[..]), pos, e)
    {
      WriteU32(data, pos, e.inode);
      data[pos + 7] := e.ftype;
      data[pos + 6] := |e.name|;
      WriteBytes(data, pos + 8, e.name);
    }

    /** `split`: returns where the new entry starts. */
    method Split(pos: nat) returns (at: nat)
      requires pos + 8 <= data.Length
      requires var used := Need(data[pos + 6] as nat);
               used <= U16(data[..], pos + 4) && pos + used + 6 <= data.Length
      modifies data
      ensures var used := Need(old(data[pos + 6]) as nat);
              && at == pos + used
              && data[..] == SplitBytes(old(data[..]), pos, used, old(U16(data[..], pos + 4)) - used)
    {
      var nameLen := data[pos + 6] as nat;
      var len := U16(data[..], pos + 4);
      var used := Need(nameLen);
      WriteU16(data, pos + 4, used);
      at := pos + used;
      WriteU16(data, at + 4, len - used);
    }

    /** The slot at pos is dead and takes the entry. */
    method FillDead(pos: nat, e: Entry, ghost pre: seq<Slot>, ghost s: Slot, ghost post: seq<Slot>)
      requires SlotAt(data[..], pos, s) && !IsLive(s) && Room(s, |e.name|) && EntryOk(e)
      requires Lays(data[..], 0, pos, pre) && Lays(data[..], pos + s.len, data.Length, post)
      modifies data
      ensures Lays(data[..], 0, data.Length, pre + Filled(s, e) + post)
    {
      hide Lays;
      hide SlotAt;
      SlotFacts(data[..], pos, s);
      ghost var before := data[..];
      FilledDead(before, pos, s, e);
      SetEntry(pos, e);
      LaysReplace(before, data[..], pos, pos + s.len, pre, Filled(s, e), post);
    }

    /** The slot at pos is live and is split to take the entry. */
    method FillLive(pos: nat, e: Entry, ghost pre: seq<Slot>, ghost s: Slot, ghost post: seq<Slot>)
      requires SlotAt(data[..], pos, s) && IsLive(s) && Room(s, |e.name|) && EntryOk(e)
      requires Lays(data[..], 0, pos, pre) && Lays(data[..], pos + s.len, data.Length, post)
      modifies data
      ensures Lays(data[..], 0, data.Length, pre + Filled(s, e) + post)
    {
      hide Lays;
      hide SlotAt;
      hide SameOutside;
      hide PutEntry;
      hide SplitBytes;
      ghost var before := data[..];
      SlotFacts(before, pos, s);
      SplitFits(before, pos, s, e);
      FilledLiveSlot(before, pos, s, e);
      ghost var used := Need(|s.name|);
      ghost var r := PutEntry(SplitBytes(before, pos, used, s.len - used), pos + used, e);
      var at := Split(pos);
      SetEntry(at, e);
      assert data[..] == r;
      LaysReplace(before, r, pos, pos + s.len, pre, Filled(s, e), post);
    }

    /** One step of `insert_entry`: the slot at pos takes the entry if it has room. */
    method TryFill(pos: nat, e: Entry, ghost pre: seq<Slot>, ghost s: Slot, ghost post: seq<Slot>) returns (ok: bool)
      requires SlotAt(data[..], pos, s) && EntryOk(e)
      requires Lays(data[..], 0, pos, pre) && Lays(data[..], pos + s.len, data.Length, post)
      modifies data
      ensures ok <==> Room(s, |e.name|)
      ensures SlotOk(s) && (ok ==> Lays(data[..], 0, data.Length, pre + Filled(s, e) + post))
      ensures !ok ==> data[..] == old(data[..])
    {
      hide Lays;
      hide SlotAt;
      SlotFacts(data[..], pos, s);
      var inode, len, nameLen := U32(data[..], pos), U16(data[..], pos + 4), data[pos + 6] as nat;
      if inode == 0 && data[pos + 7] != CHECKSUM && len >= Need(|e.name|) {
        FillDead(pos, e, pre, s, post);
        return true;
      } else if inode != 0 && len >= Need(|e.name|) + Need(nameLen) {
        FillLive(pos, e, pre, s, post);
        return true;
      }
      return false;
    }

    /** Main result: `insert_entry` puts the entry into the first slot with room for it, and says
        whether there was one. */
    method InsertEntry(e: Entry) returns (ok: bool)
      requires Valid() && EntryOk(e)
      modifies this, data
      ensures Valid() && SlotsOk(old(slots))
      ensures ok <==> HasRoom(old(slots), |e.name|)
      ensures slots == if ok then Insert(old(slots), e) else old(slots)
      ensures !ok ==> data[..] == old(data[..])
    {
      hide Lays;
      hide SlotAt;
      hide LastAt;
      hide CursorAt;
      hide Passed;
      hide Last;
      hide Room;
      hide NoRoom;
      hide HasRoom;
      hide EntryOk;
      ghost var b := data[..];
      LaysTotal(b, 0, data.Length, slots);
      hide Filled;
      hide Insert;
      var iter := new IteratorMut(this);
      var item := iter.Next();
      FirstPassed(iter.seen, item, |e.name|, e.name);
      while item.At?
        invariant fresh(iter) && iter.block == this && iter.bytes == b && iter.slots == slots && iter.Valid()
        invariant slots == old(slots) && data[..] == b && iter.Visited(item)
        invariant NoRoom(Passed(iter.seen, item), |e.name|)
        decreases if item.At? then |iter.left| + 1 else 0
      {
        ghost var pre, s := Passed(iter.seen, item), Last(iter.seen);
        AtLast(b, item, iter.seen);
        ok := TryFill(item.pos, e, pre, s, iter.left);
        if ok {
          InsertIs(slots, pre, s, iter.left, e);
          slots := Insert(slots, e);
          return;
        }
        NoRoomGrows(iter.seen, |e.name|);
        ghost var before, rest := iter.seen, iter.left;
        item := iter.Next();
        PassedNext(before, rest, iter.seen, iter.left, item);
      }
      PassedAll(iter.seen, item);
      NoRoomAtAll(slots, iter.seen, iter.left, |e.name|);
      return false;
    }

    /** The inner loop of `find_then`: the first live entry with this name. */
    method FindEntry(name: Name) returns (r: Option<Entry>)
      requires Valid()
      ensures r == Find(slots, name)
    {
      ghost var b := data[..];
      var iter := new Iterator(this);
      var item := iter.Next();
      FoundOrLeft(slots, item, iter.current, iter.left, name);
      while item.At?
        invariant fresh(iter) && iter.block == this && iter.bytes == b && iter.Valid() && !item.Corrupt?
        invariant item.At? ==> SlotAt(b, item.pos, iter.current) && IsLive(iter.current)
        invariant Find(slots, name) == if item.At? then Find([iter.current] + iter.left, name) else None
        decreases if item.At? then |iter.left| + 1 else 0
      {
        var pos := item.pos;
        NamedAtIff(b, pos, iter.current, name);
        SlotFacts(b, pos, iter.current);
        var nameLen := data[pos + 6] as nat;
        FindStep(iter.current, iter.left, name);
        if NamedAt(data[..], pos, name) {
          return Some(Entry(U32(data[..], pos), data[pos + 7], data[pos + 8..pos + 8 + nameLen]));
        }
        ghost var before := iter.left;
        item := iter.Next();
        FoundOrLeft(before, item, iter.current, iter.left, name);
      }
      return None;
    }

    /** The second half of `destroy`: the slot at pos has a slot before it, at p. */
    method MergeIntoPrevious(p: nat, pos: nat, len: nat, ghost i: nat)
      requires 0 < i < |slots| && data.Length <= U16_MAX && p + slots[i - 1].len == pos
      requires SlotAt(data[..], p, slots[i - 1]) && SlotAt(data[..], pos, slots[i]) && len == slots[i].len
      requires Lays(data[..], 0, p, slots[..i - 1]) && Lays(data[..], pos + slots[i].len, data.Length, slots[i + 1..])
      modifies data
      ensures Lays(data[..], 0, data.Length, Destroyed(slots, i))
    {
      hide Lays;
      hide SlotAt;
      hide Destroyed;
      hide PutU16;
      hide PutU32;
      ghost var b := data[..];
      SlotFacts(b, pos, slots[i]);
      SlotFacts(b, p, slots[i - 1]);
      DestroyedLater(b, p, pos, slots, i);
      WriteU32(data, pos, 0);
      assert U16(data[..], p + 4) == U16(b, p + 4);
      WriteU16(data, p + 4, U16(data[..], p + 4) + len);
    }

    /** `destroy` on the cursor that is on the last of the slots seen so far. */
    method Destroy(ppos: Option<nat>, pos: nat, ghost seen: seq<Slot>, ghost left: seq<Slot>) returns (inode: nat)
      requires Valid() && slots == seen + left && CursorAt(data[..], ppos, pos, seen)
      requires Lays(data[..], pos + Last(seen).len, data.Length, left)
      modifies this, data
      ensures Valid() && slots == Destroyed(old(slots), |seen| - 1) && inode == Last(seen).inode
    {
      hide Lays;
      hide SlotAt;
      ghost var i := |seen| - 1;
      CursorParts(data[..], ppos, pos, slots, seen, left);
      SlotFacts(data[..], pos, slots[i]);
      inode := U32(data[..], pos);
      var len := U16(data[..], pos + 4);
      if ppos.Some? {
        MergeIntoPrevious(ppos.value, pos, len, i);
      } else {
        DestroyedAtFront(data[..], slots);
        WriteU32(data, pos, 0);
      }
      slots := Destroyed(slots, i);
    }

    /** The inner loop of `find_mut_then`: the cursor on the first live entry with this name, and the
        slots up to that one and after it. */
    method FindCursor(name: Name) returns (item: Item, ghost seen: seq<Slot>, ghost left: seq<Slot>)
      requires Valid()
      ensures slots == seen + left && NoMatch(Passed(seen, item), name)
      ensures item.At? ==> CursorAt(data[..], item.ppos, item.pos, seen) && Matches(Last(seen), name)
      ensures item.At? ==> Lays(data[..], item.pos + Last(seen).len, data.Length, left)
      ensures !item.At? ==> left == []
    {
      hide Lays;
      hide SlotAt;
      hide LastAt;
      hide CursorAt;
      hide NoMatch;
      hide Matches;
      hide NamedAt;
      ghost var b := data[..];
      var iter := new IteratorMut(this);
      item := iter.Next();
      FirstPassed(iter.seen, item, |name|, name);
      while item.At?
        invariant fresh(iter) && iter.block == this && iter.bytes == b && iter.slots == slots && iter.Valid()
        invariant data[..] == b && iter.Visited(item)
        invariant NoMatch(Passed(iter.seen, item), name)
        decreases if item.At? then |iter.left| + 1 else 0
      {
        AtLast(b, item, iter.seen);
        NamedAtIff(b, item.pos, Last(iter.seen), name);
        if NamedAt(data[..], item.pos, name) {
          break;
        }
        NoMatchGrows(iter.seen, name);
        ghost var before, rest := iter.seen, iter.left;
        item := iter.Next();
        PassedNext(before, rest, iter.seen, iter.left, item);
      }
      seen, left := iter.seen, iter.left;
    }

    /** Main result: `find_mut_then` with `destroy` removes the first live entry with this name and
        returns its inode number. */
    method RemoveEntry(name: Name) returns (r: Option<nat>)
      requires Valid()
      modifies this, data
      ensures Valid() && slots == Remove(old(slots), name)
      ensures r == match Find(old(slots), name) case None => None case Some(e) => Some(e.inode)
    {
      hide Lays;
      hide LastAt;
      hide CursorAt;
      var item, seen, left := FindCursor(name);
      if item.At? {
        AtLast(data[..], item, seen);
        MatchIsFirst(slots, seen, left, name);
        var inode := Destroy(item.ppos, item.pos, seen, left);
        return Some(inode);
      }
      assert seen + left == seen;
      return None;
    }
  }

  /** The test of the search loops on the bytes of an entry. */
  predicate NamedAt(b: seq<U8>, pos: nat, name: Name)
    requires pos + 8 <= |b| && pos + 8 + b[pos + 6] as nat <= |b|
  {
    b[pos + 8..pos + 8 + b[pos + 6] as nat] == name && U32(b, pos) != 0
  }

  lemma {:induction false} NamedAtIff(b: seq<U8>, pos: nat, s: Slot, name: Name)
    requires SlotAt(b, pos, s)
    ensures pos + 8 <= |b| && pos + 8 + b[pos + 6] as nat <= |b|
    ensures NamedAt(b, pos, name) <==> Matches(s, name)
  {
  }

  lemma {:induction false} ClearedIs(before: seq<U8>, after: seq<U8>, s: Slot)
    requires BlockSize(|before|)
    requires after == PutU16(PutU16(PutU32(before, 0, 0), 4, |before|), 0, 0)
    requires s == Slot(0, |before|, before[7], before[8..8 + before[6] as nat])
    ensures SlotAt(after, 0, s)
  {
    assert after[8..8 + |s.name|] == before[8..8 + |s.name|];
  }

  // ---- what the loops know -------------------------------------------------------------------------

  /** What an iterator yields: nothing more, an error, or the entry at pos, after the one at ppos. */
  datatype Item = Done | Corrupt | At(ppos: Option<nat>, pos: nat)

  function Last(seen: seq<Slot>): Slot
    requires seen != []
  {
    seen[|seen| - 1]
  }

  /** The slots before the one just yielded. */
  ghost function Passed(seen: seq<Slot>, item: Item): seq<Slot> {
    if item.At? && seen != [] then seen[..|seen| - 1] else seen
  }

  lemma {:induction false} FirstPassed(seen: seq<Slot>, item: Item, n: nat, name: Name)
    requires if item.At? then |seen| == 1 else seen == []
    ensures NoRoom(Passed(seen, item), n) && NoMatch(Passed(seen, item), name)
  {
  }

  lemma {:induction false} PassedAll(seen: seq<Slot>, item: Item)
    requires !item.At?
    ensures Passed(seen, item) == seen
  {
  }

  lemma {:induction false} PassedNext(before: seq<Slot>, rest: seq<Slot>, seen: seq<Slot>, left: seq<Slot>, item: Item)
    requires if item.At? then rest != [] && seen == before + [rest[0]] && left == rest[1..] else seen == before
    ensures Passed(seen, item) == if item.At? then before else seen
    ensures item.At? ==> |left| < |rest|
  {
  }

  /** The last of the slots that tile [0, end) starts at p. */
  ghost predicate LastAt(b: seq<U8>, p: nat, end: nat, slots: seq<Slot>) {
    && slots != []
    && SlotAt(b, p, Last(slots)) && p + Last(slots).len == end
    && Lays(b, 0, p, slots[..|slots| - 1])
  }

  /** A cursor at pos is on the last of these slots, and ppos is where the one before starts. */
  ghost predicate CursorAt(b: seq<U8>, ppos: Option<nat>, pos: nat, seen: seq<Slot>) {
    && seen != [] && LastAt(b, pos, pos + Last(seen).len, seen)
    && match ppos
       case None => |seen| == 1
       case Some(p) => |seen| > 1 && LastAt(b, p, pos, seen[..|seen| - 1])
  }

  lemma {:induction false} LastStep(b: seq<U8>, pos: nat, seen: seq<Slot>, s: Slot)
    requires Lays(b, 0, pos, seen) && SlotAt(b, pos, s)
    ensures LastAt(b, pos, pos + s.len, seen + [s]) && Lays(b, 0, pos + s.len, seen + [s])
  {
    LaysOne(b, pos, s);
    LaysAppend(b, 0, pos, pos + s.len, seen, [s]);
    assert (seen + [s])[..|seen|] == seen;
  }

  lemma {:induction false} AtLast(b: seq<U8>, item: Item, seen: seq<Slot>)
    requires item.At? && CursorAt(b, item.ppos, item.pos, seen)
    ensures seen != [] && seen == Passed(seen, item) + [Last(seen)] && Passed(seen, item) == seen[..|seen| - 1]
    ensures SlotAt(b, item.pos, Last(seen)) && Lays(b, 0, item.pos, Passed(seen, item))
  {
  }

  lemma {:induction false} CursorParts(b: seq<U8>, ppos: Option<nat>, pos: nat, slots: seq<Slot>, seen: seq<Slot>,
      left: seq<Slot>)
    requires slots == seen + left && CursorAt(b, ppos, pos, seen)
    ensures var i := |seen| - 1;
            && 0 <= i < |slots| && slots[i] == Last(seen) && slots[i + 1..] == left
            && SlotAt(b, pos, slots[i])
            && if ppos.None? then i == 0 && pos == 0
               else i > 0 && ppos.value + slots[i - 1].len == pos && SlotAt(b, ppos.value, slots[i - 1])
                    && Lays(b, 0, ppos.value, slots[..i - 1])
  {
    var i := |seen| - 1;
    assert slots[i] == seen[i];
    if i > 0 {
      assert slots[..i - 1] == seen[..i][..i - 1];
      assert slots[i - 1] == seen[..i][i - 1];
    }
  }

  lemma {:induction false} DestroyedLater(b: seq<U8>, p: nat, pos: nat, slots: seq<Slot>, i: nat)
    requires 0 < i < |slots| && |b| <= U16_MAX && p + slots[i - 1].len == pos
    requires SlotAt(b, p, slots[i - 1]) && SlotAt(b, pos, slots[i])
    requires Lays(b, 0, p, slots[..i - 1]) && Lays(b, pos + slots[i].len, |b|, slots[i + 1..])
    ensures Lays(PutU16(PutU32(b, pos, 0), p + 4, slots[i - 1].len + slots[i].len), 0, |b|, Destroyed(slots, i))
  {
    hide Lays;
    hide SlotAt;
    var prev, s := slots[i - 1], slots[i];
    SlotFacts(b, p, prev);
    SlotFacts(b, pos, s);
    var m := prev.(len := prev.len + s.len);
    var r := PutU16(PutU32(b, pos, 0), p + 4, m.len);
    DestroyedBytes(b, p, prev, s);
    LaysOne(r, p, m);
    LaysReplace(b, r, p, pos + s.len, slots[..i - 1], [m], slots[i + 1..]);
  }

  lemma {:induction false} DestroyedAtFront(b: seq<U8>, slots: seq<Slot>)
    requires slots != [] && SlotAt(b, 0, slots[0]) && Lays(b, slots[0].len, |b|, slots[1..])
    ensures Lays(PutU32(b, 0, 0), 0, |b|, Destroyed(slots, 0))
  {
    var s := slots[0].(inode := 0);
    assert PutU32(b, 0, 0)[8..8 + |s.name|] == b[8..8 + |s.name|];
    LaysOne(PutU32(b, 0, 0), 0, s);
    LaysReplace(b, PutU32(b, 0, 0), 0, s.len, [], [s], slots[1..]);
    assert [] + [s] + slots[1..] == Destroyed(slots, 0);
  }

  ghost predicate NoRoom(slots: seq<Slot>, n: nat) { forall i :: 0 <= i < |slots| ==> !Room(slots[i], n) }

  lemma {:induction false} NoRoomGrows(seen: seq<Slot>, n: nat)
    requires seen != [] && NoRoom(seen[..|seen| - 1], n) && !Room(Last(seen), n)
    ensures NoRoom(seen, n)
  {
    forall i | 0 <= i < |seen|
      ensures !Room(seen[i], n)
    {
      if i < |seen| - 1 { assert seen[i] == seen[..|seen| - 1][i]; }
    }
  }

  lemma {:induction false} RoomIsFirst(slots: seq<Slot>, pre: seq<Slot>, s: Slot, post: seq<Slot>, n: nat)
    requires slots == pre + [s] + post && NoRoom(pre, n) && Room(s, n)
    ensures FirstRoom(slots, n) == |pre| && slots[..|pre|] == pre && slots[|pre|] == s && slots[|pre| + 1..] == post
  {
    var i := FirstRoom(slots, n);
    assert slots[|pre|] == s;
    assert forall j :: 0 <= j < |pre| ==> slots[j] == pre[j];
  }

  lemma {:induction false} InsertIs(slots: seq<Slot>, pre: seq<Slot>, s: Slot, post: seq<Slot>, e: Entry)
    requires slots == pre + [s] + post && NoRoom(pre, |e.name|) && Room(s, |e.name|) && SlotsOk(slots) && SlotOk(s)
    ensures HasRoom(slots, |e.name|) && Insert(slots, e) == pre + Filled(s, e) + post
  {
    RoomIsFirst(slots, pre, s, post, |e.name|);
  }

  lemma {:induction false} NoRoomAtAll(slots: seq<Slot>, seen: seq<Slot>, left: seq<Slot>, n: nat)
    requires slots == seen + left && left == [] && NoRoom(seen, n)
    ensures !HasRoom(slots, n)
  {
  }

  ghost predicate NoMatch(slots: seq<Slot>, name: Name) { forall i :: 0 <= i < |slots| ==> !Matches(slots[i], name) }

  lemma {:induction false} NoMatchGrows(seen: seq<Slot>, name: Name)
    requires seen != [] && NoMatch(seen[..|seen| - 1], name) && !Matches(Last(seen), name)
    ensures NoMatch(seen, name)
  {
    forall i | 0 <= i < |seen|
      ensures !Matches(seen[i], name)
    {
      if i < |seen| - 1 { assert seen[i] == seen[..|seen| - 1][i]; }
    }
  }

  lemma {:induction false} MatchIsFirst(slots: seq<Slot>, seen: seq<Slot>, left: seq<Slot>, name: Name)
    requires slots == seen + left && seen != [] && NoMatch(seen[..|seen| - 1], name)
    requires Matches(Last(seen), name)
    ensures IndexOf(slots, name) == |seen| - 1
    ensures slots[..|seen|] == seen && slots[|seen|..] == left
  {
    var i := IndexOf(slots, name);
    assert slots[|seen| - 1] == Last(seen);
    assert forall j :: 0 <= j < |seen| - 1 ==> slots[j] == seen[..|seen| - 1][j];
  }

  lemma {:induction false} FindStep(s: Slot, rest: seq<Slot>, name: Name)
    ensures Find([s] + rest, name) == if Matches(s, name) then Some(EntryOf(s)) else Find(rest, name)
  {
    assert ([s] + rest)[1..] == rest;
  }

  /** The slot at pos, if the block does not end there. */
  lemma {:induction false} NextSlot(b: seq<U8>, pos: nat, left: seq<Slot>)
    requires Lays(b, pos, |b|, left)
    ensures if pos + 8 > |b| then left == []
            else left != [] && left == [left[0]] + left[1..]
                 && SlotAt(b, pos, left[0]) && Lays(b, pos + left[0].len, |b|, left[1..])
  {
  }

  // ---- the iterators -------------------------------------------------------------------------------

  /** The shared iterator: it skips dead slots. */
  class Iterator {
    const block: Block
    var pos: nat
    var stopped: bool
    ghost const bytes: seq<U8>
    ghost var current: Slot
    ghost var left: seq<Slot>

    ghost predicate Valid()
      reads this, block, block.data
    {
      && block.data[..] == bytes && !stopped && pos <= |bytes|
      && Lays(bytes, pos, |bytes|, left)
    }

    constructor (block: Block)
      requires block.Valid()
      ensures this.block == block && bytes == block.data[..] && Valid() && pos == 0 && left == block.slots
    {
      this.block, pos, stopped := block, 0, false;
      bytes := block.data[..];
      left := block.slots;
    }

    /** `read_entry_at`: the length and the inode of the entry at `at`, unless its name does not fit. */
    method ReadEntryAt(at: nat, ghost s: Slot) returns (r: Option<(nat, nat)>)
      requires block.data[..] == bytes && SlotAt(bytes, at, s)
      ensures r == Some((s.len, s.inode)) && at + s.len <= |bytes| && s.len > 0
    {
      SlotFacts(bytes, at, s);
      var nameLen := block.data[at + 6] as nat;
      if block.data.Length - at - 8 < nameLen {
        return None;
      }
      return Some((U16(block.data[..], at + 4), U32(block.data[..], at)));
    }

    /** The next live entry; on a well-formed block the error case does not occur. */
    method Next() returns (r: Item)
      requires Valid()
      modifies this
      ensures Valid() && !r.Corrupt? && SkipsTo(old(left), r, current, left)
      ensures r.At? ==> SlotAt(bytes, r.pos, current)
    {
      hide Lays;
      hide SlotAt;
      hide Skipped;
      hide SkipsTo;
      hide U16;
      hide U32;
      NothingSkipped(left);
      while !stopped && pos + 8 <= block.data.Length
        invariant Valid() && Skipped(old(left), left)
        decreases |left|
      {
        NextSlot(bytes, pos, left);
        var entry := ReadEntryAt(pos, left[0]);
        if entry.None? {
          assert false;
        } else {
          var at := pos;
          var (len, inode) := entry.value;
          ghost var slot, rest := left[0], left[1..];
          SkipStep(old(left), left, slot, rest, At(None, at));
          current, left := slot, rest;
          pos := pos + len;
          if inode != 0 {
            return At(None, at);
          }
        }
      }
      NextSlot(bytes, pos, left);
      SkippedAll(old(left), current, left);
      return Done;
    }
  }

  /** Only dead slots lie between the two. */
  ghost predicate Skipped(before: seq<Slot>, left: seq<Slot>) {
    && |left| <= |before| && before[|before| - |left|..] == left
    && forall i :: 0 <= i < |before| - |left| ==> !IsLive(before[i])
  }

  /** The item is the first live slot of `before`, and `left` are the slots after it. */
  ghost predicate SkipsTo(before: seq<Slot>, r: Item, current: Slot, left: seq<Slot>) {
    if r.At? then IsLive(current) && Skipped(before, [current] + left) else left == [] && Skipped(before, [])
  }

  lemma {:induction false} NothingSkipped(left: seq<Slot>)
    ensures Skipped(left, left)
  {
  }

  lemma {:induction false} SkipStep(before: seq<Slot>, left: seq<Slot>, slot: Slot, rest: seq<Slot>, r: Item)
    requires Skipped(before, left) && left != [] && slot == left[0] && rest == left[1..] && r.At?
    ensures slot.inode != 0 ==> SkipsTo(before, r, slot, rest)
    ensures slot.inode == 0 ==> Skipped(before, rest)
    ensures |rest| < |left|
  {
    var k := |before| - |left|;
    assert before[k] == slot && [slot] + rest == left;
    assert before[k + 1..] == before[k..][1..];
  }

  lemma {:induction false} SkippedAll(before: seq<Slot>, current: Slot, left: seq<Slot>)
    requires Skipped(before, left) && left == []
    ensures SkipsTo(before, Done, current, left)
  {
  }

  /** Dead slots do not matter to a search. */
  lemma {:induction false} FindSkips(before: seq<Slot>, left: seq<Slot>, name: Name)
    requires Skipped(before, left)
    ensures Find(before, name) == Find(left, name)
    decreases |before| - |left|
  {
    if |before| > |left| {
      var k := |before| - |left|;
      assert before[1..][k - 1..] == before[k..];
      FindSkips(before[1..], left, name);
      FindStep(before[0], before[1..], name);
      assert before == [before[0]] + before[1..];
    } else {
      assert before == left;
    }
  }

  lemma {:induction false} FoundOrLeft(before: seq<Slot>, r: Item, current: Slot, left: seq<Slot>, name: Name)
    requires SkipsTo(before, r, current, left)
    ensures Find(before, name) == if r.At? then Find([current] + left, name) else None
    ensures r.At? ==> |left| < |before|
  {
    FindSkips(before, if r.At? then [current] + left else [], name);
  }

  /** The mutable iterator: it yields dead slots too, each with the position before it. */
  class IteratorMut {
    const block: Block
    var pos: nat
    var ppos: Option<nat>
    var stopped: bool
    ghost const bytes: seq<U8>
    ghost const slots: seq<Slot>
    ghost var seen: seq<Slot>
    ghost var left: seq<Slot>

    ghost predicate Valid()
      reads this, block, block.data
    {
      && block.data[..] == bytes && block.slots == slots && !stopped && pos <= |bytes|
      && seen + left == slots
      && Lays(bytes, 0, pos, seen) && Lays(bytes, pos, |bytes|, left)
      && match ppos
         case None => seen == []
         case Some(p) => LastAt(bytes, p, pos, seen)
    }

    /** What is known of an item just yielded. */
    ghost predicate Visited(r: Item)
      reads this
    {
      match r
      case Corrupt => false
      case Done => left == []
      case At(before, p) => CursorAt(bytes, before, p, seen) && p + Last(seen).len == pos
    }

    constructor (block: Block)
      requires block.Valid()
      ensures this.block == block && bytes == block.data[..] && slots == block.slots && Valid()
      ensures pos == 0 && seen == [] && left == block.slots
    {
      this.block, pos, ppos, stopped := block, 0, None, false;
      bytes, slots := block.data[..], block.slots;
      seen, left := [], block.slots;
    }

    method Next() returns (r: Item)
      requires Valid()
      modifies this
      ensures Valid() && Visited(r)
      ensures r.At? ==> old(left) != [] && seen == old(seen) + [old(left)[0]] && left == old(left)[1..]
      ensures r.Done? ==> seen == old(seen)
    {
      hide Lays;
      hide SlotAt;
      if !stopped && pos + 8 <= block.data.Length {
        NextSlot(bytes, pos, left);
        SlotFacts(bytes, pos, left[0]);
        var len, nameLen := U16(block.data[..], pos + 4), block.data[pos + 6] as nat;
        if pos + len <= block.data.Length && nameLen + 8 <= len {
          r := At(ppos, pos);
          LastStep(bytes, pos, seen, left[0]);
          SeenStep(slots, seen, left);
          seen, left := seen + [left[0]], left[1..];
          ppos := Some(pos);
          pos := pos + len;
        } else {
          assert false;
        }
      } else {
        NextSlot(bytes, pos, left);
        r := Done;
      }
    }
  }

  lemma {:induction false} SeenStep(slots: seq<Slot>, seen: seq<Slot>, left: seq<Slot>)
    requires seen + left == slots && left != []
    ensures (seen + [left[0]]) + left[1..] == slots && (seen + [left[0]])[..|seen|] == seen
  {
  }
}
