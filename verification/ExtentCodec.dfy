/** Extent tree entries as bytes: encoding, both decoders, and the writes into a node
    (src/inode/extent/mod.rs).

    An entry is twelve bytes, that is, three little-endian words.  A leaf holds its first file block,
    a 16-bit length whose top bit marks it as uninitialised, and a 48-bit start; an inner entry holds
    the first file block below it and the 48-bit number of the next node.  The root lies in the inode
    and has a decoder of its own. */
module ExtentCodec {
  import opened ByteRw

  /** A run of blocks: file blocks [block, block + len) lie at [start, start + len). */
  datatype Leaf = Leaf(block: nat, start: nat, len: nat, isInit: bool)

  datatype Internal = Internal(block: nat, nextNode: nat)

  datatype Entry = InternalEntry(internal: Internal) | LeafEntry(leaf: Leaf)

  function FirstBlock(e: Entry): nat {
    match e
    case InternalEntry(i) => i.block
    case LeafEntry(l) => l.block
  }

  const LBA_MAX: nat := 0xffff_ffff_ffff

  /** The field widths: 32-bit file blocks, a 16-bit length, and 48-bit block numbers (`replace_at`
      and `insert_at` stop with a panic when a leaf's start does not fit). */
  predicate Fits(e: Entry) {
    match e
    case InternalEntry(i) => i.block <= U32_MAX && i.nextNode <= LBA_MAX
    case LeafEntry(l) => l.block <= U32_MAX && l.start <= LBA_MAX && l.len <= U16_MAX
  }

  /** `if is_init { len } else { len | 0x8000 }`. */
  function RawLen(len: nat, isInit: bool): (v: nat)
    requires len <= U16_MAX
    ensures v <= U16_MAX
  {
    if isInit || len >= 0x8000 then len else len + 0x8000
  }

  /** The decoder of the root: `(v & 0x7fff, v < 0x8000)`. */
  function RootLen(v: nat): (nat, bool)
    requires v <= U16_MAX
  {
    (v % 0x8000, v < 0x8000)
  }

  /** The decoder of the other nodes. */
  function NodeLen(v: nat): (nat, bool)
    requires v <= U16_MAX
  {
    if v <= 0x8000 then (v, true) else (v - 0x8000, false)
  }

  // ---- one entry -------------------------------------------------------------------------------

  /** An entry as three 32-bit words. */
  datatype Words = Words(w0: nat, w1: nat, w2: nat)

  ghost predicate WordsOk(w: Words) { w.w0 <= U32_MAX && w.w1 <= U32_MAX && w.w2 <= U32_MAX }

  /** What `insert_at` and `replace_at` write.  In a leaf the second word is the length and the high
      16 bits of the start; an inner entry has the low word of its block before the high one. */
  function Encode(e: Entry): (w: Words)
    requires Fits(e)
    ensures WordsOk(w)
  {
    match e
    case LeafEntry(l) =>
      Words(l.block, RawLen(l.len, l.isInit) + 65536 * (l.start / 0x1_0000_0000), l.start % 0x1_0000_0000)
    case InternalEntry(i) =>
      Words(i.block, i.nextNode % 0x1_0000_0000, i.nextNode / 0x1_0000_0000)
  }

  /** What both `get` read. */
  function Decode(w: Words, leaf: bool, root: bool): Entry
    requires WordsOk(w)
  {
    if leaf then
      var v := if root then RootLen(w.w1 % 65536) else NodeLen(w.w1 % 65536);
      LeafEntry(Leaf(w.w0, w.w1 / 65536 * 0x1_0000_0000 + w.w2, v.0, v.1))
    else
      InternalEntry(Internal(w.w0, w.w2 % 65536 * 0x1_0000_0000 + w.w1))
  }

  /** The entry's level. */
  predicate LevelOf(e: Entry, leaf: bool) { e.LeafEntry? == leaf }

  /** What reading gives back after writing: the length goes through the decoder, the rest is kept. */
  function Stored(e: Entry, root: bool): Entry
    requires Fits(e)
  {
    match e
    case InternalEntry(_) => e
    case LeafEntry(l) =>
      var v := if root then RootLen(RawLen(l.len, l.isInit)) else NodeLen(RawLen(l.len, l.isInit));
      LeafEntry(l.(len := v.0, isInit := v.1))
  }

  lemma {:induction false} ReadBack(e: Entry, root: bool)
    requires Fits(e)
    ensures Decode(Encode(e), e.LeafEntry?, root) == Stored(e, root)
  {
    match e
    case LeafEntry(l) =>
      var raw, hi, lo := RawLen(l.len, l.isInit), l.start / 0x1_0000_0000, l.start % 0x1_0000_0000;
      assert (raw + 65536 * hi) % 65536 == raw && (raw + 65536 * hi) / 65536 == hi;
      assert hi * 0x1_0000_0000 + lo == l.start;
    case InternalEntry(i) =>
      var hi, lo := i.nextNode / 0x1_0000_0000, i.nextNode % 0x1_0000_0000;
      assert hi % 65536 == hi && hi * 0x1_0000_0000 + lo == i.nextNode;
  }

  /** Main result: the root gives a leaf back as it was written exactly when its length is less than
      0x8000. */
  lemma {:induction false} RootRoundTripIff(l: Leaf)
    requires Fits(LeafEntry(l))
    ensures Decode(Encode(LeafEntry(l)), true, true) == LeafEntry(l) <==> l.len <= 0x7fff
  {
    ReadBack(LeafEntry(l), true);
  }

  /** Main result: a node gives a leaf back exactly when it is initialised and at most 0x8000 long, or
      uninitialised and between 1 and 0x7fff long. */
  lemma {:induction false} NodeRoundTripIff(l: Leaf)
    requires Fits(LeafEntry(l))
    ensures Decode(Encode(LeafEntry(l)), true, false) == LeafEntry(l)
            <==> if l.isInit then l.len <= 0x8000 else 1 <= l.len <= 0x7fff
  {
    ReadBack(LeafEntry(l), false);
  }

  /** They do not give every leaf back: one of 0x8000 blocks comes back from the root without length
      and uninitialised, and one of 0x8001 blocks comes back from a node as an uninitialised block. */
  lemma {:induction false} LongLeavesComeBackWrong(block: nat, start: nat)
    requires block <= U32_MAX && start <= LBA_MAX
    ensures Decode(Encode(LeafEntry(Leaf(block, start, 0x8000, true))), true, true)
         == LeafEntry(Leaf(block, start, 0, false))
    ensures Decode(Encode(LeafEntry(Leaf(block, start, 0x8001, true))), true, false)
         == LeafEntry(Leaf(block, start, 1, false))
  {
    ReadBack(LeafEntry(Leaf(block, start, 0x8000, true)), true);
    ReadBack(LeafEntry(Leaf(block, start, 0x8001, true)), false);
  }

  // ---- the words of a node -----------------------------------------------------------------------

  /** Word k behind base. */
  function WordAt(b: seq<U8>, base: nat, k: nat): (w: nat)
    requires base + 4 * k + 4 <= |b|
    ensures w <= U32_MAX
  {
    U32(b, base + 4 * k)
  }

  /** The first n words behind base. */
  function WordsOf(b: seq<U8>, base: nat, n: nat): (r: seq<nat>)
    requires base + 4 * n <= |b|
    ensures |r| == n && forall k :: 0 <= k < n ==> r[k] == WordAt(b, base, k)
  {
    seq(n, k requires 0 <= k < n => WordAt(b, base, k))
  }

  /** Writing word k changes that word only. */
  lemma {:induction false} PutWord(b: seq<U8>, base: nat, n: nat, k: nat, v: nat)
    requires base + 4 * n <= |b| && k < n && v <= U32_MAX
    ensures WordsOf(PutU32(b, base + 4 * k, v), base, n) == WordsOf(b, base, n)[k := v]
    ensures SameOutside(b, PutU32(b, base + 4 * k, v), base, base + 4 * n)
  {
    var r := PutU32(b, base + 4 * k, v);
    forall j | 0 <= j < n && j != k
      ensures WordAt(r, base, j) == WordAt(b, base, j)
    {
      var p := base + 4 * j;
      assert r[p] == b[p] && r[p + 1] == b[p + 1] && r[p + 2] == b[p + 2] && r[p + 3] == b[p + 3];
    }
  }

  /** The two halves of a word are written one after the other in a leaf entry. */
  lemma {:induction false} HalvesOfWord(b: seq<U8>, at: nat, lo: nat, hi: nat)
    requires at + 4 <= |b| && lo <= U16_MAX && hi <= U16_MAX
    ensures lo + 65536 * hi <= U32_MAX
    ensures PutU16(PutU16(b, at + 2, hi), at, lo) == PutU32(b, at, lo + 65536 * hi)
  {
    assert (lo + 65536 * hi) % 65536 == lo && (lo + 65536 * hi) / 65536 == hi;
  }

  function EntryWords(w: seq<nat>, i: nat): Words
    requires 3 * i + 3 <= |w|
  {
    Words(w[3 * i], w[3 * i + 1], w[3 * i + 2])
  }

  function PutEntry(w: seq<nat>, i: nat, e: Entry): (r: seq<nat>)
    requires 3 * i + 3 <= |w| && Fits(e)
    ensures |r| == |w| && EntryWords(r, i) == Encode(e)
    ensures forall k :: 0 <= k < |w| && !(3 * i <= k < 3 * i + 3) ==> r[k] == w[k]
  {
    w[3 * i := Encode(e).w0][3 * i + 1 := Encode(e).w1][3 * i + 2 := Encode(e).w2]
  }

  ghost predicate AllWords(w: seq<nat>) { forall k :: 0 <= k < |w| ==> w[k] <= U32_MAX }

  /** The entries that a node of this count shows. */
  function Entries(w: seq<nat>, cnt: nat, leaf: bool, root: bool): (r: seq<Entry>)
    requires 3 * cnt <= |w| && AllWords(w)
    ensures |r| == cnt
    ensures forall i :: 0 <= i < cnt ==> r[i] == Decode(EntryWords(w, i), leaf, root)
  {
    seq(cnt, i requires 0 <= i < cnt => Decode(EntryWords(w, i), leaf, root))
  }

  /** What the loop of `insert_at` makes of the words: the entries behind `at` move by one place, but
      the last one is overwritten and does not reach the place behind the end. */
  function Shifted(w: seq<nat>, cnt: nat, at: nat): (r: seq<nat>)
    requires 3 * cnt <= |w|
    ensures |r| == |w|
    ensures forall k :: 0 <= k < |w| ==> r[k] == if 3 * (at + 1) <= k < 3 * cnt then w[k - 3] else w[k]
  {
    seq(|w|, k requires 0 <= k < |w| => if 3 * (at + 1) <= k < 3 * cnt then w[k - 3] else w[k])
  }

  /** Main result: after `insert_at` and the new count the node shows the old entries with the new one
      among them exactly when the place is at the end, or what lies behind the end happens to be the
      last entry already. */
  lemma {:induction false} InsertAtIsRightIff(w: seq<nat>, cnt: nat, at: nat, e: Entry, root: bool)
    requires AllWords(w) && 3 * cnt + 3 <= |w| && at <= cnt && Fits(e)
    ensures AllWords(PutEntry(Shifted(w, cnt, at), at, e))
    ensures var was := Entries(w, cnt, e.LeafEntry?, root);
            Entries(PutEntry(Shifted(w, cnt, at), at, e), cnt + 1, e.LeafEntry?, root)
            == was[..at] + [Stored(e, root)] + was[at..]
            <==> at == cnt || Decode(EntryWords(w, cnt), e.LeafEntry?, root) == was[cnt - 1]
  {
    hide Decode;
    hide Encode;
    hide Stored;
    hide EntryWords;
    hide Shifted;
    hide PutEntry;
    ShiftedWords(w, cnt, at, e);
    var leaf := e.LeafEntry?;
    var after := PutEntry(Shifted(w, cnt, at), at, e);
    var was := Entries(w, cnt, leaf, root);
    var now := Entries(after, cnt + 1, leaf, root);
    var want := was[..at] + [Stored(e, root)] + was[at..];
    ReadBack(e, root);
    forall i | 0 <= i < cnt
      ensures now[i] == want[i]
    {
      assert EntryWords(after, i) == ShiftedEntry(w, at, e, i);
    }
    if at < cnt {
      assert EntryWords(after, cnt) == EntryWords(w, cnt);
      assert want[cnt] == was[cnt - 1];
    }
    assert now == want <==> now[cnt] == want[cnt];
  }

  /** The words of entry i after an entry is put in at place `at`. */
  ghost function ShiftedEntry(w: seq<nat>, at: nat, e: Entry, i: nat): Words
    requires 3 * i + 3 <= |w| && Fits(e)
  {
    if i == at then Encode(e) else if i > at then EntryWords(w, i - 1) else EntryWords(w, i)
  }

  lemma {:induction false} ShiftedWords(w: seq<nat>, cnt: nat, at: nat, e: Entry)
    requires AllWords(w) && 3 * cnt + 3 <= |w| && at <= cnt && Fits(e)
    ensures var after := PutEntry(Shifted(w, cnt, at), at, e);
            && |after| == |w| && AllWords(after)
            && (forall i :: 0 <= i < cnt ==> EntryWords(after, i) == ShiftedEntry(w, at, e, i))
            && (EntryWords(after, at) == Encode(e))
            && (at < cnt ==> EntryWords(after, cnt) == EntryWords(w, cnt))
  {
    hide Encode;
  }

  /** It does go wrong: putting the run at block 0 before the one at block 9 into a node with one entry
      loses the latter; the second entry is then the empty cell behind the end. */
  lemma {:induction false} InsertInFrontLosesEntry(root: bool)
    ensures
      var last, e := LeafEntry(Leaf(9, 70, 1, true)), LeafEntry(Leaf(0, 50, 9, true));
      var w := [9, 1, 70, 0, 0, 0];
      && AllWords(w) && Entries(w, 1, true, root) == [last]
      && AllWords(PutEntry(Shifted(w, 1, 0), 0, e))
      && Entries(PutEntry(Shifted(w, 1, 0), 0, e), 2, true, root)[0] == e
      && Entries(PutEntry(Shifted(w, 1, 0), 0, e), 2, true, root)[1] == Decode(Words(0, 0, 0), true, root)
      && Decode(Words(0, 0, 0), true, root) != last
  {
    var last, e := LeafEntry(Leaf(9, 70, 1, true)), LeafEntry(Leaf(0, 50, 9, true));
    var w := [9, 1, 70, 0, 0, 0];
    ReadBack(e, root);
    ReadBack(last, root);
    ShiftedWords(w, 1, 0, e);
    assert EntryWords(w, 0) == Encode(last) && EntryWords(w, 1) == Words(0, 0, 0);
    assert Stored(e, root) == e && Stored(last, root) == last;
  }

  /** `replace_at` shows the new entry at its place and all others as before. */
  lemma {:induction false} ReplaceAtIsRight(w: seq<nat>, cnt: nat, at: nat, e: Entry, root: bool)
    requires AllWords(w) && 3 * cnt <= |w| && at < cnt && Fits(e)
    ensures AllWords(PutEntry(w, at, e))
    ensures Entries(PutEntry(w, at, e), cnt, e.LeafEntry?, root)
         == Entries(w, cnt, e.LeafEntry?, root)[at := Stored(e, root)]
  {
    ReadBack(e, root);
    forall i | 0 <= i < cnt && i != at
      ensures EntryWords(PutEntry(w, at, e), i) == EntryWords(w, i)
    {
    }
  }

  // ---- the writes --------------------------------------------------------------------------------

  /** The match at the end of `insert_at` and `replace_at`, on n words behind base. */
  method WriteEntry(a: array<U8>, base: nat, n: nat, i: nat, e: Entry)
    requires base + 4 * n <= a.Length && 3 * i + 3 <= n && Fits(e)
    modifies a
    ensures WordsOf(a[..], base, n) == PutEntry(old(WordsOf(a[..], base, n)), i, e)
    ensures SameOutside(old(a[..]), a[..], base, base + 4 * n)
  {
    var at := base + 12 * i;
    ghost var b0 := a[..];
    match e
    case LeafEntry(l) =>
      WriteU32(a, at, l.block);
      ghost var b1 := a[..];
      WriteU16(a, at + 6, l.start / 0x1_0000_0000);
      WriteU32(a, at + 8, l.start % 0x1_0000_0000);
      WriteU16(a, at + 4, RawLen(l.len, l.isInit));
      LeafWrites(b0, base, n, i, l);
    case InternalEntry(x) =>
      WriteU32(a, at, x.block);
      WriteU32(a, at + 4, x.nextNode % 0x1_0000_0000);
      WriteU32(a, at + 8, x.nextNode / 0x1_0000_0000);
      WordWrites(b0, base, n, i, Encode(e));
  }

  lemma {:induction false} WordWrites(b: seq<U8>, base: nat, n: nat, i: nat, w: Words)
    requires base + 4 * n <= |b| && 3 * i + 3 <= n && WordsOk(w)
    ensures var at := base + 12 * i;
            var r := PutU32(PutU32(PutU32(b, at, w.w0), at + 4, w.w1), at + 8, w.w2);
            && WordsOf(r, base, n) == WordsOf(b, base, n)[3 * i := w.w0][3 * i + 1 := w.w1][3 * i + 2 := w.w2]
            && SameOutside(b, r, base, base + 4 * n)
  {
    hide WordsOf;
    var at := base + 12 * i;
    PutWord(b, base, n, 3 * i, w.w0);
    var b1 := PutU32(b, at, w.w0);
    PutWord(b1, base, n, 3 * i + 1, w.w1);
    var b2 := PutU32(b1, at + 4, w.w1);
    PutWord(b2, base, n, 3 * i + 2, w.w2);
  }

  lemma {:induction false} LeafWrites(b: seq<U8>, base: nat, n: nat, i: nat, l: Leaf)
    requires base + 4 * n <= |b| && 3 * i + 3 <= n && Fits(LeafEntry(l))
    ensures var at := base + 12 * i;
            var r := PutU16(PutU32(PutU16(PutU32(b, at, l.block), at + 6, l.start / 0x1_0000_0000),
                                   at + 8, l.start % 0x1_0000_0000), at + 4, RawLen(l.len, l.isInit));
            && WordsOf(r, base, n) == PutEntry(WordsOf(b, base, n), i, LeafEntry(l))
            && SameOutside(b, r, base, base + 4 * n)
  {
    hide WordsOf;
    hide PutU16;
    hide RawLen;
    hide U32;
    var at := base + 12 * i;
    var w := Encode(LeafEntry(l));
    WordWrites(b, base, n, i, w);
    SameBytes(b, at, l.block, l.start / 0x1_0000_0000, l.start % 0x1_0000_0000, RawLen(l.len, l.isInit));
  }

  /** The order of the four writes of a leaf does not matter. */
  lemma {:induction false} SameBytes(b: seq<U8>, at: nat, block: nat, hi: nat, lo: nat, len: nat)
    requires at + 12 <= |b| && block <= U32_MAX && hi <= U16_MAX && lo <= U32_MAX && len <= U16_MAX
    ensures len + 65536 * hi <= U32_MAX
    ensures PutU16(PutU32(PutU16(PutU32(b, at, block), at + 6, hi), at + 8, lo), at + 4, len)
         == PutU32(PutU32(PutU32(b, at, block), at + 4, len + 65536 * hi), at + 8, lo)
  {
    var b1 := PutU32(b, at, block);
    HalvesOfWord(b1, at + 4, len, hi);
    assert PutU16(PutU32(PutU16(b1, at + 6, hi), at + 8, lo), at + 4, len)
        == PutU32(PutU16(PutU16(b1, at + 6, hi), at + 4, len), at + 8, lo);
  }

  /** `replace_at`: fails past the end or on the wrong level. */
  method ReplaceAt(a: array<U8>, base: nat, n: nat, cnt: nat, depth: nat, e: Entry, at: nat) returns (ok: bool)
    requires base + 4 * n <= a.Length && 3 * cnt <= n && Fits(e)
    modifies a
    ensures ok <==> at < cnt && LevelOf(e, depth == 0)
    ensures ok ==> WordsOf(a[..], base, n) == PutEntry(old(WordsOf(a[..], base, n)), at, e)
    ensures SameOutside(old(a[..]), a[..], base, base + 4 * n)
    ensures !ok ==> a[..] == old(a[..])
  {
    if at >= cnt {
      return false;
    }
    if (e.LeafEntry? && depth == 0) || (e.InternalEntry? && depth > 0) {
      WriteEntry(a, base, n, at, e);
      return true;
    }
    return false;
  }

  /** The loop of `insert_at`. */
  method ShiftUp(a: array<U8>, base: nat, n: nat, cnt: nat, at: nat)
    requires base + 4 * n <= a.Length && at < cnt && 3 * cnt <= n
    modifies a
    ensures WordsOf(a[..], base, n) == Shifted(old(WordsOf(a[..], base, n)), cnt, at)
    ensures SameOutside(old(a[..]), a[..], base, base + 4 * n)
  {
    hide WordsOf;
    hide Shifted;
    hide PutU32;
    hide SameOutside;
    ghost var b0 := a[..];
    ghost var w := WordsOf(a[..], base, n);
    NotShifted(w, cnt, b0, base, base + 4 * n);
    var i := cnt;
    while i > at + 1
      invariant at + 1 <= i <= cnt
      invariant SameOutside(b0, a[..], base, base + 4 * n)
      invariant WordsOf(a[..], base, n) == Shifted(w, cnt, i - 1)
    {
      i := i - 1;
      ghost var now := a[..];
      MoveOne(w, now, base, n, cnt, i);
      WriteU32(a, base + 12 * i, U32(a[..], base + 12 * i - 12));
      WriteU32(a, base + 12 * i + 4, U32(a[..], base + 12 * i - 8));
      WriteU32(a, base + 12 * i + 8, U32(a[..], base + 12 * i - 4));
      OutsideTrans(b0, now, a[..], base, base + 4 * n);
    }
  }

  lemma {:induction false} NotShifted(w: seq<nat>, cnt: nat, b: seq<U8>, lo: nat, hi: nat)
    requires 3 * cnt <= |w| && cnt > 0
    ensures Shifted(w, cnt, cnt - 1) == w && SameOutside(b, b, lo, hi)
  {
  }

  /** `insert_at`: fails when there is no room at `at`, or on the wrong level, when it has shifted the
      entries already. */
  method InsertAt(a: array<U8>, base: nat, n: nat, max: nat, cnt: nat, depth: nat, e: Entry, at: nat) returns (ok: bool)
    requires base + 4 * n <= a.Length && 3 * max <= n && cnt <= max && Fits(e)
    modifies a
    ensures ok <==> at < max && LevelOf(e, depth == 0)
    ensures ok ==> WordsOf(a[..], base, n) == PutEntry(Shifted(old(WordsOf(a[..], base, n)), cnt, at), at, e)
    ensures !ok && at < max ==> WordsOf(a[..], base, n) == Shifted(old(WordsOf(a[..], base, n)), cnt, at)
    ensures at >= max ==> a[..] == old(a[..])
    ensures SameOutside(old(a[..]), a[..], base, base + 4 * n)
  {
    if max <= at {
      return false;
    }
    if at < cnt {
      ShiftUp(a, base, n, cnt, at);
    } else {
      assert Shifted(WordsOf(a[..], base, n), cnt, at) == WordsOf(a[..], base, n);
    }
    if (e.LeafEntry? && depth == 0) || (e.InternalEntry? && depth > 0) {
      WriteEntry(a, base, n, at, e);
      return true;
    }
    return false;
  }

  lemma {:induction false} OutsideTrans(a: seq<U8>, b: seq<U8>, c: seq<U8>, lo: nat, hi: nat)
    requires SameOutside(a, b, lo, hi) && SameOutside(b, c, lo, hi)
    ensures SameOutside(a, c, lo, hi)
  {
  }

  /** One turn of the loop: entry i - 1 is copied to place i. */
  lemma {:induction false} MoveOne(w: seq<nat>, now: seq<U8>, base: nat, n: nat, cnt: nat, i: nat)
    requires |w| == n && base + 4 * n <= |now| && 0 < i < cnt && 3 * cnt <= n
    requires WordsOf(now, base, n) == Shifted(w, cnt, i)
    ensures var p := base + 12 * i;
            && U32(now, p - 12) <= U32_MAX
            && var b1 := PutU32(now, p, U32(now, p - 12));
            && U32(b1, p - 8) <= U32_MAX
            && var b2 := PutU32(b1, p + 4, U32(b1, p - 8));
            && U32(b2, p - 4) <= U32_MAX
            && var b3 := PutU32(b2, p + 8, U32(b2, p - 4));
            && WordsOf(b3, base, n) == Shifted(w, cnt, i - 1)
            && SameOutside(now, b3, base, base + 4 * n)
  {
    var p := base + 12 * i;
    var w0 := WordsOf(now, base, n);
    assert w0[3 * i - 3] == U32(now, p - 12);
    PutWord(now, base, n, 3 * i, w0[3 * i - 3]);
    var b1 := PutU32(now, p, U32(now, p - 12));
    var w1 := WordsOf(b1, base, n);
    assert w1[3 * i - 2] == U32(b1, p - 8);
    PutWord(b1, base, n, 3 * i + 1, w1[3 * i - 2]);
    var b2 := PutU32(b1, p + 4, U32(b1, p - 8));
    var w2 := WordsOf(b2, base, n);
    assert w2[3 * i - 1] == U32(b2, p - 4);
    PutWord(b2, base, n, 3 * i + 2, w2[3 * i - 1]);
    MovedWords(w, cnt, i);
  }

  lemma {:induction false} MovedWords(w: seq<nat>, cnt: nat, i: nat)
    requires 0 < i < cnt && 3 * cnt <= |w|
    ensures var s := Shifted(w, cnt, i);
            s[3 * i := s[3 * i - 3]][3 * i + 1 := s[3 * i - 2]][3 * i + 2 := s[3 * i - 1]] == Shifted(w, cnt, i - 1)
  {
  }
}
