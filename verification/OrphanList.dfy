/** The orphan list: an in-memory doubly linked map and an on-disk chain
    (src/superblock/mod.rs, src/transaction/event.rs). */
module OrphanList {
  import opened Wrappers
  import opened InodeTable

  // An inode enters at the head when its last link is dropped by a write-back.  It leaves the memory
  // map at once when it is deallocated, but the chain on disk is repaired only when that transaction
  // is written back.  `pending` holds the repairs in the order they were recorded; as transactions
  // commit in any order, so are the repairs written.

  // ---- lists -------------------------------------------------------------------------------------

  ghost predicate Distinct(l: seq<Ino>) {
    && (forall i :: 0 <= i < |l| ==> l[i] != 0)
    && (forall i, j :: 0 <= i < j < |l| ==> l[i] != l[j])
  }

  function At(l: seq<Ino>, i: int): nat {
    if 0 <= i < |l| then l[i] else 0
  }

  function Without(l: seq<Ino>, i: nat): seq<Ino>
    requires i < |l|
  {
    l[..i] + l[i + 1..]
  }

  ghost predicate Linked(m: OrphanMap, l: seq<Ino>, i: int) {
    0 <= i < |l| && l[i] in m && m[l[i]] == (At(l, i - 1), At(l, i + 1))
  }

  /** The memory map is the doubly linked list l. */
  ghost predicate MemList(m: OrphanMap, l: seq<Ino>) {
    && Distinct(l)
    && (forall x :: x in m ==> x in l)
    && (forall i :: 0 <= i < |l| ==> Linked(m, l, i))
  }

  ghost predicate Chained(st: InodeState, l: seq<Ino>, i: int) {
    0 <= i < |l| && l[i] in st.inodes && st.inodes[l[i]].dtime == At(l, i + 1)
  }

  /** The chain on disk, from `lastOrphan` through the deletion times, is the list l. */
  ghost predicate DiskList(st: InodeState, l: seq<Ino>) {
    && Distinct(l)
    && st.lastOrphan == At(l, 0)
    && (forall i :: 0 <= i < |l| ==> Chained(st, l, i))
  }

  /** Following the chain for at most `fuel` steps. */
  function Walk(inodes: map<Ino, InodeRec>, from: nat, fuel: nat): seq<Ino>
    decreases fuel
  {
    if fuel == 0 || from == 0 || from !in inodes then []
    else [from] + Walk(inodes, inodes[from].dtime, fuel - 1)
  }

  lemma {:induction false} WalkFrom(st: InodeState, l: seq<Ino>, i: nat, fuel: nat)
    requires DiskList(st, l) && i <= |l| && fuel >= |l| - i
    ensures Walk(st.inodes, At(l, i), fuel) == l[i..]
    decreases |l| - i
  {
    if i < |l| {
      assert Chained(st, l, i);
      WalkFrom(st, l, i + 1, fuel - 1);
    }
  }

  /** The chain on disk ends, and visits exactly the list. */
  lemma {:induction false} WalkIsList(st: InodeState, l: seq<Ino>, fuel: nat)
    requires DiskList(st, l) && fuel >= |l|
    ensures Walk(st.inodes, st.lastOrphan, fuel) == l
  {
    WalkFrom(st, l, 0, fuel);
  }

  // ---- removal -----------------------------------------------------------------------------------

  lemma {:induction false} DistinctWithout(l: seq<Ino>, i: nat)
    requires Distinct(l) && i < |l|
    ensures Distinct(Without(l, i))
    ensures forall x :: x in Without(l, i) <==> x in l && x != l[i]
  {
    var w := Without(l, i);
    forall x | x in l && x != l[i]
      ensures x in w
    {
      var j :| 0 <= j < |l| && l[j] == x;
      assert w[if j < i then j else j - 1] == x;
    }
  }

  lemma {:induction false} RemoveFromMemory(m: OrphanMap, l: seq<Ino>, i: nat)
    requires MemList(m, l) && i < |l|
    ensures l[i] in m && m[l[i]] == (At(l, i - 1), At(l, i + 1))
    ensures MemList(RemoveOrphan(m, l[i]), Without(l, i))
  {
    DistinctWithout(l, i);
    assert Linked(m, l, i);
    forall j | 0 <= j < |Without(l, i)|
      ensures Linked(RemoveOrphan(m, l[i]), Without(l, i), j)
    {
      RemovedInList(m, l, i, j);
    }
    assert forall x :: x in RemoveOrphan(m, l[i]) <==> x in m && x != l[i];
  }

  lemma {:induction false} RemovedInList(m: OrphanMap, l: seq<Ino>, i: nat, j: nat)
    requires MemList(m, l) && i < |l| && j < |Without(l, i)|
    requires l[i] in m
    ensures Linked(RemoveOrphan(m, l[i]), Without(l, i), j)
  {
    var w := Without(l, i);
    var k := if j < i then j else j + 1;
    assert w[j] == l[k];
    assert Linked(m, l, k) && Linked(m, l, i);
    assert At(w, j - 1) == if k == i + 1 then At(l, i - 1) else At(l, k - 1);
    assert At(w, j + 1) == if k == i - 1 then At(l, i + 1) else At(l, k + 1);
  }

  lemma {:induction false} RepairOnDisk(fmt: Format, st: InodeState, l: seq<Ino>, i: nat)
    requires DiskList(st, l) && i < |l|
    ensures var r := ApplyOp(fmt, st, UpdateOrphanLink(At(l, i - 1), At(l, i + 1)));
            r.Some? && DiskList(r.value, Without(l, i)) && r.value.orphaned == st.orphaned && SameLinks(st, r.value)
  {
    DistinctWithout(l, i);
    var w := Without(l, i);
    if i > 0 { assert Chained(st, l, i - 1); }
    var st' := ApplyOp(fmt, st, UpdateOrphanLink(At(l, i - 1), At(l, i + 1))).value;
    forall j | 0 <= j < |w|
      ensures Chained(st', w, j)
    {
      var k := if j < i then j else j + 1;
      assert w[j] == l[k];
      assert Chained(st, l, k);
      assert At(w, j + 1) == if k == i - 1 then At(l, i + 1) else At(l, k + 1);
    }
  }

  ghost predicate SameLinks(st: InodeState, st': InodeState) {
    && st'.inodes.Keys == st.inodes.Keys
    && forall x :: x in st.inodes ==> st'.inodes[x].links == st.inodes[x].links
  }

  // ---- insertion at the head -----------------------------------------------------------------------

  /** Pushing `ino` in front of `head` gives the longer list exactly when `head` is the present
      head of the memory list. */
  lemma {:induction false} PushInMemory(m: OrphanMap, l: seq<Ino>, ino: Ino, head: nat)
    requires MemList(m, l) && ino != 0 && ino !in l
    ensures MemList(AddOrphanLink(ReplaceOrphanPrevlink(m, ino, head), 0, ino, head), [ino] + l)
            <==> head == At(l, 0)
  {
    var m' := AddOrphanLink(ReplaceOrphanPrevlink(m, ino, head), 0, ino, head);
    var n := [ino] + l;
    assert n[0] == ino && At(n, 1) == At(l, 0) && m'[ino] == (0, head);
    if head == At(l, 0) {
      forall j | 0 <= j < |n|
        ensures Linked(m', n, j)
      {
        PushedAt(m, l, ino, j);
      }
      forall i, j | 0 <= i < j < |n|
        ensures n[i] != n[j]
      {
        assert n[j] == l[j - 1] && l[j - 1] in l;
      }
      assert forall x :: x in m' ==> x == ino || x in m;
    } else {
      assert !Linked(m', n, 0);
    }
  }

  lemma {:induction false} PushedAt(m: OrphanMap, l: seq<Ino>, ino: Ino, j: nat)
    requires MemList(m, l) && ino != 0 && ino !in l && j < |l| + 1
    ensures Linked(AddOrphanLink(ReplaceOrphanPrevlink(m, ino, At(l, 0)), 0, ino, At(l, 0)), [ino] + l, j)
  {
    var n := [ino] + l;
    if |l| > 0 { assert Linked(m, l, 0); }
    if j > 0 {
      assert Linked(m, l, j - 1);
      assert n[j] == l[j - 1] && l[j - 1] in l;
      assert At(n, j + 1) == At(l, j);
      assert l[j - 1] == At(l, 0) <==> j == 1;
      assert j >= 2 ==> At(n, j - 1) == At(l, j - 2);
    }
  }

  // ---- repairs not yet written ---------------------------------------------------------------------

  ghost predicate IsRepair(st: InodeState, op: InodeOp) {
    op.UpdateOrphanLink? && (op.pred == 0 || op.pred in st.inodes)
  }

  ghost predicate AreRepairs(st: InodeState, ops: seq<InodeOp>) {
    forall k :: 0 <= k < |ops| ==> IsRepair(st, ops[k])
  }

  predicate Repairs(op: InodeOp, p: nat) {
    op.UpdateOrphanLink? && op.pred == p
  }

  /** The last link that `ops` writes behind inode p, or into `lastOrphan` when p is 0. */
  function LastFor(ops: seq<InodeOp>, p: nat): Option<nat> {
    if ops == [] then None
    else if Repairs(ops[|ops| - 1], p) then Some(ops[|ops| - 1].succ)
    else LastFor(ops[..|ops| - 1], p)
  }

  function Pointer(st: InodeState, p: nat): nat {
    if p == 0 then st.lastOrphan else if p in st.inodes then st.inodes[p].dtime else 0
  }

  /** The link behind p once `ops` is written. */
  function Settled(st: InodeState, ops: seq<InodeOp>, p: nat): nat {
    var last := LastFor(ops, p);
    if last.Some? then last.value else Pointer(st, p)
  }

  ghost predicate SettledAt(st: InodeState, ops: seq<InodeOp>, l: seq<Ino>, i: int) {
    Settled(st, ops, At(l, i)) == At(l, i + 1)
  }

  /** Once `ops` is written, the chain on disk is the list l. */
  ghost predicate Settles(st: InodeState, ops: seq<InodeOp>, l: seq<Ino>) {
    && Distinct(l)
    && (forall x :: x in l ==> x in st.inodes)
    && (forall i :: -1 <= i < |l| ==> SettledAt(st, ops, l, i))
  }

  lemma {:induction false} LastForAppend(ops: seq<InodeOp>, op: InodeOp, p: nat)
    ensures LastFor(ops + [op], p) == if Repairs(op, p) then Some(op.succ) else LastFor(ops, p)
  {
    assert (ops + [op])[..|ops|] == ops;
  }

  /** Which repairs `LastFor` looks at. */
  lemma {:induction false} LastForIff(ops: seq<InodeOp>, p: nat)
    ensures LastFor(ops, p).Some? <==> exists op :: op in ops && Repairs(op, p)
    ensures LastFor(ops, p).Some? ==>
              exists k :: 0 <= k < |ops| && Repairs(ops[k], p) && LastFor(ops, p) == Some(ops[k].succ)
    ensures forall k :: 0 <= k < |ops| && Repairs(ops[k], p) ==>
              LastFor(ops, p) == Some(ops[k].succ) || exists m :: k < m < |ops| && Repairs(ops[m], p)
  {
    if ops != [] {
      var init, op := ops[..|ops| - 1], ops[|ops| - 1];
      LastForIff(init, p);
      assert ops == init + [op];
      if Repairs(op, p) {
        assert Repairs(ops[|init|], p);
      } else {
        if k :| 0 <= k < |init| && Repairs(init[k], p) && LastFor(init, p) == Some(init[k].succ) {
          assert Repairs(ops[k], p);
        }
        forall k | 0 <= k < |ops| && Repairs(ops[k], p)
          ensures LastFor(ops, p) == Some(ops[k].succ) || exists m :: k < m < |ops| && Repairs(ops[m], p)
        {
          assert Repairs(init[k], p);
          if m :| k < m < |init| && Repairs(init[m], p) { assert Repairs(ops[m], p); }
        }
      }
    }
  }

  lemma {:induction false} WriteRepairs(fmt: Format, st: InodeState, ops: seq<InodeOp>)
    requires AreRepairs(st, ops)
    ensures ApplyOps(fmt, st, ops).Some?
    ensures var r := ApplyOps(fmt, st, ops).value;
            && r.inodes.Keys == st.inodes.Keys && r.orphaned == st.orphaned
            && forall p :: p == 0 || p in st.inodes ==> Pointer(r, p) == Settled(st, ops, p)
  {
    if ops != [] {
      var init, op := ops[..|ops| - 1], ops[|ops| - 1];
      assert IsRepair(st, op);
      forall k | 0 <= k < |init|
        ensures IsRepair(st, init[k])
      {
        assert init[k] == ops[k];
      }
      WriteRepairs(fmt, st, init);
      var mid, r := ApplyOps(fmt, st, init).value, ApplyOps(fmt, st, ops).value;
      forall p | p == 0 || p in st.inodes
        ensures Pointer(r, p) == Settled(st, ops, p)
      {
        assert Pointer(mid, p) == Settled(st, init, p);
        assert Pointer(r, p) == if Repairs(op, p) then op.succ else Pointer(mid, p);
      }
    }
  }

  lemma {:induction false} SettlesIsDiskList(fmt: Format, st: InodeState, ops: seq<InodeOp>, l: seq<Ino>)
    requires AreRepairs(st, ops)
    ensures ApplyOps(fmt, st, ops).Some?
    ensures DiskList(ApplyOps(fmt, st, ops).value, l) <==> Settles(st, ops, l)
  {
    WriteRepairs(fmt, st, ops);
    var r := ApplyOps(fmt, st, ops).value;
    if DiskList(r, l) {
      forall i | -1 <= i < |l|
        ensures SettledAt(st, ops, l, i)
      {
        if i >= 0 { assert Chained(r, l, i); }
      }
      forall x | x in l
        ensures x in st.inodes
      {
        var i :| 0 <= i < |l| && l[i] == x;
        assert Chained(r, l, i);
      }
    }
    if Settles(st, ops, l) {
      assert SettledAt(st, ops, l, -1);
      forall i | 0 <= i < |l|
        ensures Chained(r, l, i)
      {
        assert l[i] in l && SettledAt(st, ops, l, i);
      }
    }
  }

  /** Both write the same link last, in `lastOrphan` and behind each inode of l. */
  ghost predicate SameLast(a: seq<InodeOp>, b: seq<InodeOp>, l: seq<Ino>) {
    forall p :: p == 0 || p in l ==> LastFor(a, p) == LastFor(b, p)
  }

  /** Main result: recorded repairs may be written in another order exactly when, behind every inode of
      the list and in `lastOrphan`, the one recorded last is also written last. */
  lemma {:induction false} RepairOrderIff(fmt: Format, st: InodeState, pending: seq<InodeOp>, l: seq<Ino>,
      written: seq<InodeOp>)
    requires AreRepairs(st, pending)
    requires ApplyOps(fmt, st, pending).Some? && DiskList(ApplyOps(fmt, st, pending).value, l)
    requires multiset(written) == multiset(pending)
    ensures ApplyOps(fmt, st, written).Some?
    ensures DiskList(ApplyOps(fmt, st, written).value, l)
            <==> SameLast(written, pending, l)
  {
    SettlesIsDiskList(fmt, st, pending, l);
    forall op
      ensures op in written <==> op in pending
    {
      assert op in written <==> op in multiset(written);
    }
    forall k | 0 <= k < |written|
      ensures IsRepair(st, written[k])
    {
      assert written[k] in pending;
    }
    SettlesIsDiskList(fmt, st, written, l);
    forall p
      ensures LastFor(written, p).Some? <==> LastFor(pending, p).Some?
    {
      LastForIff(written, p);
      LastForIff(pending, p);
    }
    SameLastForIff(st, pending, l, written);
  }

  lemma {:induction false} PlaceOf(l: seq<Ino>, p: nat) returns (i: int)
    requires p == 0 || p in l
    ensures -1 <= i < |l| && At(l, i) == p
  {
    if p == 0 { return -1; }
    i :| 0 <= i < |l| && l[i] == p;
  }

  lemma {:induction false} SameLastForIff(st: InodeState, pending: seq<InodeOp>, l: seq<Ino>, written: seq<InodeOp>)
    requires Settles(st, pending, l)
    requires forall p :: LastFor(written, p).Some? <==> LastFor(pending, p).Some?
    ensures Settles(st, written, l) <==> SameLast(written, pending, l)
  {
    if Settles(st, written, l) {
      forall p | p == 0 || p in l
        ensures LastFor(written, p) == LastFor(pending, p)
      {
        var i := PlaceOf(l, p);
        assert SettledAt(st, written, l, i) && SettledAt(st, pending, l, i);
        assert Settled(st, written, p) == Settled(st, pending, p);
      }
    } else {
      var i :| -1 <= i < |l| && !SettledAt(st, written, l, i);
      var p := At(l, i);
      assert SettledAt(st, pending, l, i);
      assert p == 0 || p in l;
      assert LastFor(written, p) != LastFor(pending, p);
    }
  }

  // ---- recording a repair --------------------------------------------------------------------------

  function RepairOf(l: seq<Ino>, i: nat): InodeOp {
    UpdateOrphanLink(At(l, i - 1), At(l, i + 1))
  }

  lemma {:induction false} RecordSettles(st: InodeState, ops: seq<InodeOp>, l: seq<Ino>, i: nat)
    requires AreRepairs(st, ops) && Settles(st, ops, l) && i < |l|
    ensures AreRepairs(st, ops + [RepairOf(l, i)])
    ensures Settles(st, ops + [RepairOf(l, i)], Without(l, i))
  {
    var op, w := RepairOf(l, i), Without(l, i);
    DistinctWithout(l, i);
    if i > 0 { assert l[i - 1] in l; }
    forall j | -1 <= j < |w|
      ensures SettledAt(st, ops + [op], w, j)
    {
      var k := if j < i then j else j + 1;
      assert At(w, j) == At(l, k);
      assert SettledAt(st, ops, l, k);
      LastForAppend(ops, op, At(w, j));
      assert At(w, j + 1) == if k == i - 1 then At(l, i + 1) else At(l, k + 1);
    }
  }

  /** Two repairs written in the other order are right exactly when they write different links. */
  lemma {:induction false} TwoRepairsIff(fmt: Format, st: InodeState, l: seq<Ino>, i: nat, j: nat)
    requires DiskList(st, l) && i < |l| && j < |Without(l, i)|
    ensures
      var a, b := RepairOf(l, i), RepairOf(Without(l, i), j);
      && ApplyOps(fmt, st, [b, a]).Some?
      && (DiskList(ApplyOps(fmt, st, [b, a]).value, Without(Without(l, i), j)) <==> a.pred != b.pred)
  {
    hide SameLast;
    RecordTwo(fmt, st, l, i, j);
    var a, b := RepairOf(l, i), RepairOf(Without(l, i), j);
    assert multiset([b, a]) == multiset([a, b]);
    RepairOrderIff(fmt, st, [a, b], Without(Without(l, i), j), [b, a]);
    SwappedIff(l, i, j);
  }

  lemma {:induction false} RecordTwo(fmt: Format, st: InodeState, l: seq<Ino>, i: nat, j: nat)
    requires DiskList(st, l) && i < |l| && j < |Without(l, i)|
    ensures var ops := [RepairOf(l, i), RepairOf(Without(l, i), j)];
            && AreRepairs(st, ops) && ApplyOps(fmt, st, ops).Some?
            && DiskList(ApplyOps(fmt, st, ops).value, Without(Without(l, i), j))
  {
    hide Settles;
    hide SettledAt;
    var a, b := RepairOf(l, i), RepairOf(Without(l, i), j);
    assert ApplyOps(fmt, st, []) == Some(st);
    SettlesIsDiskList(fmt, st, [], l);
    RecordSettles(st, [], l, i);
    assert [] + [a] == [a] && [a] + [b] == [a, b];
    RecordSettles(st, [a], Without(l, i), j);
    SettlesIsDiskList(fmt, st, [a, b], Without(Without(l, i), j));
  }

  lemma {:induction false} SwappedIff(l: seq<Ino>, i: nat, j: nat)
    requires Distinct(l) && i < |l| && j < |Without(l, i)|
    ensures var a, b := RepairOf(l, i), RepairOf(Without(l, i), j);
            SameLast([b, a], [a, b], Without(Without(l, i), j)) <==> a.pred != b.pred
  {
    var a, b := RepairOf(l, i), RepairOf(Without(l, i), j);
    var w := Without(Without(l, i), j);
    LastForPair(a, b);
    LastForPair(b, a);
    DistinctWithout(l, i);
    if a.pred == b.pred {
      SuccAdvances(l, i, j);
      assert b.pred == 0 || b.pred in w by { if j > 0 { assert w[j - 1] == b.pred; } }
      assert LastFor([b, a], b.pred) != LastFor([a, b], b.pred);
    }
  }

  lemma {:induction false} LastForPair(a: InodeOp, b: InodeOp)
    ensures forall p :: LastFor([a, b], p) == LastOfTwo(a, b, p)
  {
    assert [a, b][..1] == [a] && [a][..0] == [];
    forall p
      ensures LastFor([a, b], p) == LastOfTwo(a, b, p)
    {
      assert LastFor([a], p) == if Repairs(a, p) then Some(a.succ) else LastFor([], p);
    }
  }

  function LastOfTwo(a: InodeOp, b: InodeOp, p: nat): Option<nat> {
    if Repairs(b, p) then Some(b.succ) else if Repairs(a, p) then Some(a.succ) else None
  }

  lemma {:induction false} SuccAdvances(l: seq<Ino>, i: nat, j: nat)
    requires Distinct(l) && i < |l| && j < |Without(l, i)|
    requires At(l, i - 1) == At(Without(l, i), j - 1)
    ensures At(l, i + 1) != At(Without(l, i), j + 1)
  {
    var w := Without(l, i);
    assert forall k :: 0 <= k < |w| ==> w[k] == l[if k < i then k else k + 1];
    assert forall k :: 0 <= k < |l| ==> l[k] != 0;
    assert i == 0 <==> j == 0;
    assert i == j;
  }

  // ---- a push under way ----------------------------------------------------------------------------

  // A push reads the head from the superblock and writes the disk, then replaces the predecessor of the
  // head in the map, then enters the inode.  It keeps the superblock locked, so no other commit comes in
  // between; but it locks the map for each of the two updates alone, so removals do.

  /** What a push of `ino` in front of `head` has still to do: both updates of the map, or the second. */
  datatype PushStage =
    | Idle
    | Replacing(ino: Ino, head: nat)
    | Adding(ino: Ino, head: nat)

  /** The map once the push under way has made its updates. */
  function Finished(m: OrphanMap, push: PushStage): OrphanMap {
    match push
    case Idle => m
    case Replacing(ino, head) => AddOrphanLink(ReplaceOrphanPrevlink(m, ino, head), 0, ino, head)
    case Adding(ino, head) => AddOrphanLink(m, 0, ino, head)
  }

  /** The memory map will be the list l, with the pushed inode at its head. */
  ghost predicate PushedList(m: OrphanMap, push: PushStage, l: seq<Ino>) {
    && MemList(Finished(m, push), l)
    && (!push.Idle? ==> push.ino !in m && l != [] && l[0] == push.ino && push.head == At(l, 1))
  }

  /** The head that the push has read is not in the map any more. */
  ghost predicate HeadLost(m: OrphanMap, push: PushStage) {
    !push.Idle? && push.ino !in m && push.head != 0 && push.head !in m
  }

  lemma {:induction false} HeadLostIsNoList(m: OrphanMap, push: PushStage, l: seq<Ino>)
    requires HeadLost(m, push)
    ensures !MemList(Finished(m, push), l)
  {
    var f := Finished(m, push);
    assert f[push.ino] == (0, push.head);
    if MemList(f, l) {
      var i :| 0 <= i < |l| && l[i] == push.ino;
      assert Linked(f, l, i);
      InListIff(f, l, push.head);
    }
  }

  lemma {:induction false} PlaceIn(m: OrphanMap, push: PushStage, l: seq<Ino>, x: Ino) returns (i: nat)
    requires PushedList(m, push, l) && x in m
    ensures i < |l| && l[i] == x
  {
    assert x in Finished(m, push);
    i :| 0 <= i < |l| && l[i] == x;
  }

  /** Main result: a removal keeps the list right, while a push is under way too, exactly when it does
      not remove the head that the push has read; then no updates of the push make a list any more. */
  lemma {:induction false} RemoveWhilePushedIff(m: OrphanMap, push: PushStage, l: seq<Ino>, i: nat)
    requires PushedList(m, push, l) && i < |l| && l[i] in m
    ensures PushedList(RemoveOrphan(m, l[i]), push, Without(l, i)) <==> push.Idle? || l[i] != push.head
    ensures push.Idle? || l[i] != push.head ==> m[l[i]] == (At(l, i - 1), At(l, i + 1))
    ensures !push.Idle? && l[i] == push.head ==> HeadLost(RemoveOrphan(m, l[i]), push)
  {
    if push.Idle? {
      RemoveFromMemory(m, l, i);
    } else if l[i] == push.head {
      HeadLostIsNoList(RemoveOrphan(m, l[i]), push, Without(l, i));
    } else {
      assert i >= 2;
      RemoveFromMemory(Finished(m, push), l, i);
      RemovesCommute(m, push, l[i]);
      assert Without(l, i)[0] == l[0] && At(Without(l, i), 1) == l[1];
    }
  }

  lemma {:induction false} RemovesCommute(m: OrphanMap, push: PushStage, x: Ino)
    requires !push.Idle? && push.ino !in m && x in m && x != push.head
    requires m[x].0 != push.ino && m[x].1 != push.ino && m[x].1 != push.head
    ensures Finished(RemoveOrphan(m, x), push) == RemoveOrphan(Finished(m, push), x)
  {
    var a, b := Finished(RemoveOrphan(m, x), push), RemoveOrphan(Finished(m, push), x);
    assert Finished(m, push)[x] == m[x];
    assert a.Keys == b.Keys;
  }

  // ---- runs ----------------------------------------------------------------------------------------

  datatype State = State(st: InodeState, pending: seq<InodeOp>, push: PushStage)

  /** Commit: an inode operation of a write-back; dropping a last link starts a push.  ReplacePrev and
      EnterHead: the two updates of the map that the push makes.  Remove: an orphan is deallocated.
      Repair: the recorded repair at this place is written back. */
  datatype Step =
    | Commit(op: InodeOp)
    | ReplacePrev
    | EnterHead
    | Remove(cur: Ino)
    | Repair(k: nat)

  function Drop(ops: seq<InodeOp>, k: nat): seq<InodeOp>
    requires k < |ops|
  {
    ops[..k] + ops[k + 1..]
  }

  predicate IsPush(st: InodeState, op: InodeOp) {
    op.RmLink? && op.ino in st.inodes && st.inodes[op.ino].links == 1
  }

  /** None where the source panics, and for a commit or repair while a push keeps the superblock locked. */
  function Next(fmt: Format, s: State, step: Step): Option<State> {
    match step
    case Commit(op) =>
      if !s.push.Idle? then None
      else if IsPush(s.st, op) then
        Some(s.(st := DropOnDisk(s.st, op.ino), push := Replacing(op.ino, s.st.lastOrphan)))
      else
        var r := ApplyOp(fmt, s.st, op);
        if r.Some? then Some(s.(st := r.value)) else None
    case ReplacePrev =>
      if !s.push.Replacing? then None
      else
        var m := ReplaceOrphanPrevlink(s.st.orphaned, s.push.ino, s.push.head);
        Some(s.(st := s.st.(orphaned := m), push := Adding(s.push.ino, s.push.head)))
    case EnterHead =>
      if !s.push.Adding? then None
      else
        var m := AddOrphanLink(s.st.orphaned, 0, s.push.ino, s.push.head);
        Some(s.(st := s.st.(orphaned := m), push := Idle))
    case Remove(cur) =>
      if cur !in s.st.orphaned then None
      else
        var (pred, succ) := s.st.orphaned[cur];
        Some(s.(st := s.st.(orphaned := RemoveOrphan(s.st.orphaned, cur)),
                pending := s.pending + [UpdateOrphanLink(pred, succ)]))
    case Repair(k) =>
      if !s.push.Idle? || k >= |s.pending| then None
      else
        var r := ApplyOp(fmt, s.st, s.pending[k]);
        if r.Some? then Some(s.(st := r.value, pending := Drop(s.pending, k))) else None
  }

  ghost predicate RepairsHead(pending: seq<InodeOp>) {
    exists op :: op in pending && Repairs(op, 0)
  }

  ghost predicate Mentions(op: InodeOp, ino: Ino) {
    op.UpdateOrphanLink? && (op.pred == ino || op.succ == ino)
  }

  /** Writing the repair at place k now leaves the last word to the one recorded last, or it writes
      behind an inode that has left the list. */
  ghost predicate InOrder(s: State, k: nat)
    requires k < |s.pending| && s.pending[k].UpdateOrphanLink?
  {
    var p := s.pending[k].pred;
    || (p != 0 && p !in s.st.orphaned)
    || LastFor(Drop(s.pending, k), p).None?
    || LastFor(Drop(s.pending, k), p) == LastFor(s.pending, p)
  }

  /** An orphan gets no new link and is not initialised again; nothing is pushed while a repair of the
      head is pending, and no inode that a pending repair names; the head that a push has read is not
      removed before the push is over; repairs are written in order as far as they write the same link. */
  ghost predicate Allowed(s: State, step: Step) {
    match step
    case Commit(op) =>
      && !op.UpdateOrphanLink? && op.ino != 0
      && (op.AddLink? || op.Init? ==> op.ino !in s.st.orphaned)
      && (IsPush(s.st, op) ==>
            !RepairsHead(s.pending) && forall r :: r in s.pending ==> !Mentions(r, op.ino))
    case ReplacePrev => true
    case EnterHead => true
    case Remove(cur) => s.push.Idle? || cur != s.push.head
    case Repair(k) => k < |s.pending| && s.pending[k].UpdateOrphanLink? ==> InOrder(s, k)
  }

  /** A link that a later repair replaces led to an inode which has left the list. */
  ghost predicate Replaced(pending: seq<InodeOp>, mem: seq<Ino>, j: int, k: int) {
    0 <= j < k < |pending| && pending[j].UpdateOrphanLink? && Repairs(pending[k], pending[j].pred) ==>
      pending[j].succ != 0 && pending[j].succ !in mem
  }

  /** The memory map is the list mem once the push under way is over; once the pending repairs are
      written so is the chain on disk; and what is in the list has no links. */
  ghost predicate Lists(s: State, mem: seq<Ino>) {
    && PushedList(s.st.orphaned, s.push, mem)
    && AreRepairs(s.st, s.pending)
    && Settles(s.st, s.pending, mem)
    && (forall x :: x in mem && x in s.st.inodes ==> s.st.inodes[x].links == 0)
    && Superseded(s, mem)
  }

  ghost predicate Superseded(s: State, mem: seq<Ino>) {
    && (forall j, k :: 0 <= j < k < |s.pending| ==> Replaced(s.pending, mem, j, k))
    && (RepairsHead(s.pending) ==> s.st.lastOrphan != 0 && s.st.lastOrphan !in mem)
  }

  ghost predicate Inv(s: State) {
    exists mem :: Lists(s, mem)
  }

  /** Main result: every allowed step keeps the memory map a list to which the pending repairs will take
      the chain on disk, and neither the removal of an orphan nor a repair panics. */
  lemma {:induction false} StepKeepsInv(fmt: Format, s: State, step: Step)
    requires Inv(s) && Allowed(s, step)
    ensures Next(fmt, s, step).Some? ==> Inv(Next(fmt, s, step).value)
    ensures step.Remove? && step.cur in s.st.orphaned ==> Next(fmt, s, step).Some?
    ensures step.Repair? && step.k < |s.pending| && s.push.Idle? ==> Next(fmt, s, step).Some?
  {
    var mem :| Lists(s, mem);
    match step
    case Commit(op) =>
      if Next(fmt, s, step).Some? {
        if IsPush(s.st, op) { PushStarts(fmt, s, op, mem); }
        else { UpdateKeepsLists(fmt, s, op, mem); }
      }
    case ReplacePrev => PushGoesOn(fmt, s, step, mem);
    case EnterHead => PushGoesOn(fmt, s, step, mem);
    case Remove(cur) =>
      if cur in s.st.orphaned {
        var i := PlaceIn(s.st.orphaned, s.push, mem, cur);
        RemoveStepIff(fmt, s, mem, i);
      }
    case Repair(k) =>
      if k < |s.pending| && s.push.Idle? {
        RepairStepIff(fmt, s, mem, k);
      }
  }

  // ---- one removal ---------------------------------------------------------------------------------

  /** Main result: a removal keeps the list, on disk too once the repairs are written, exactly when it
      does not remove the head that a push under way has read. */
  lemma {:induction false} RemoveStepIff(fmt: Format, s: State, mem: seq<Ino>, i: nat)
    requires Lists(s, mem) && i < |mem| && mem[i] in s.st.orphaned
    ensures Next(fmt, s, Remove(mem[i])).Some?
    ensures Lists(Next(fmt, s, Remove(mem[i])).value, Without(mem, i)) <==> s.push.Idle? || mem[i] != s.push.head
  {
    var s' := Next(fmt, s, Remove(mem[i])).value;
    RemoveWhilePushedIff(s.st.orphaned, s.push, mem, i);
    if s.push.Idle? || mem[i] != s.push.head {
      RecordSettles(s.st, s.pending, mem, i);
      DistinctWithout(mem, i);
      assert s'.pending == s.pending + [RepairOf(mem, i)];
      SameSettles(s.st, s'.st, s'.pending, Without(mem, i));
      RemoveSupersedes(s, s', mem, i);
    }
  }

  lemma {:induction false} SameSettles(st: InodeState, st': InodeState, ops: seq<InodeOp>, l: seq<Ino>)
    requires Settles(st, ops, l) && st'.inodes.Keys == st.inodes.Keys
    requires forall p :: p == 0 || p in l ==> Pointer(st', p) == Pointer(st, p)
    ensures Settles(st', ops, l)
  {
    forall i | -1 <= i < |l|
      ensures SettledAt(st', ops, l, i)
    {
      assert SettledAt(st, ops, l, i);
      assert At(l, i) == 0 || At(l, i) in l;
    }
  }

  lemma {:induction false} RemoveSupersedes(s: State, s': State, mem: seq<Ino>, i: nat)
    requires Settles(s.st, s.pending, mem) && Superseded(s, mem) && i < |mem|
    requires s'.pending == s.pending + [RepairOf(mem, i)] && s'.st.lastOrphan == s.st.lastOrphan
    ensures Superseded(s', Without(mem, i))
  {
    var p := At(mem, i - 1);
    DistinctWithout(mem, i);
    LastForIff(s.pending, p);
    assert SettledAt(s.st, s.pending, mem, i - 1);
    forall j, k | 0 <= j < k < |s'.pending|
      ensures Replaced(s'.pending, Without(mem, i), j, k)
    {
      assert s'.pending[j] == s.pending[j];
      if k < |s.pending| {
        assert Replaced(s.pending, mem, j, k);
      } else if Repairs(s.pending[j], p) && LastFor(s.pending, p) != Some(s.pending[j].succ) {
        var m :| j < m < |s.pending| && Repairs(s.pending[m], p);
        assert Replaced(s.pending, mem, j, m);
      }
    }
    if RepairsHead(s'.pending) && !RepairsHead(s.pending) {
      assert Repairs(RepairOf(mem, i), 0);
      assert p == 0 && LastFor(s.pending, 0).None?;
    }
  }

  // ---- one commit ----------------------------------------------------------------------------------

  lemma {:induction false} UpdateKeepsLists(fmt: Format, s: State, op: InodeOp, mem: seq<Ino>)
    requires Lists(s, mem) && Allowed(s, Commit(op)) && !IsPush(s.st, op)
    requires Next(fmt, s, Commit(op)).Some?
    ensures Lists(Next(fmt, s, Commit(op)).value, mem)
  {
    var s' := Next(fmt, s, Commit(op)).value;
    InListIff(s.st.orphaned, mem, op.ino);
    SameSettles(s.st, s'.st, s.pending, mem);
    SameRepairs(s.st, s'.st, s.pending);
    SameSuperseded(s, s', mem);
  }

  lemma {:induction false} SameRepairs(st: InodeState, st': InodeState, ops: seq<InodeOp>)
    requires AreRepairs(st, ops) && st'.inodes.Keys == st.inodes.Keys
    ensures AreRepairs(st', ops)
  {
    forall k | 0 <= k < |ops|
      ensures IsRepair(st', ops[k])
    {
      assert IsRepair(st, ops[k]);
    }
  }

  lemma {:induction false} SameSuperseded(s: State, s': State, mem: seq<Ino>)
    requires Superseded(s, mem) && s'.pending == s.pending && s'.st.lastOrphan == s.st.lastOrphan
    ensures Superseded(s', mem)
  {
  }

  // ---- one push ------------------------------------------------------------------------------------

  lemma {:induction false} PushStarts(fmt: Format, s: State, op: InodeOp, mem: seq<Ino>)
    requires Lists(s, mem) && s.push.Idle? && Allowed(s, Commit(op)) && IsPush(s.st, op)
    ensures Next(fmt, s, Commit(op)).Some?
    ensures Lists(Next(fmt, s, Commit(op)).value, [op.ino] + mem)
  {
    var s' := Next(fmt, s, Commit(op)).value;
    PushStartIff(s, mem, op.ino);
    SameRepairs(s.st, s'.st, s.pending);
    LastForIff(s.pending, op.ino);
    assert forall r :: r in s.pending && Repairs(r, op.ino) ==> Mentions(r, op.ino);
    assert LastFor(s.pending, op.ino).None?;
    forall j, k | 0 <= j < k < |s.pending|
      ensures Replaced(s.pending, [op.ino] + mem, j, k)
    {
      assert Replaced(s.pending, mem, j, k);
      assert s.pending[j] in s.pending && !Mentions(s.pending[j], op.ino);
    }
    assert Superseded(s', [op.ino] + mem);
  }

  lemma {:induction false} PushGoesOn(fmt: Format, s: State, step: Step, mem: seq<Ino>)
    requires Lists(s, mem) && (step.ReplacePrev? || step.EnterHead?)
    ensures Next(fmt, s, step).Some? ==> Lists(Next(fmt, s, step).value, mem)
  {
    if Next(fmt, s, step).Some? {
      var s' := Next(fmt, s, step).value;
      SameSettles(s.st, s'.st, s.pending, mem);
      SameRepairs(s.st, s'.st, s.pending);
      SameSuperseded(s, s', mem);
    }
  }

  /** The two updates of the map, when no removal comes before them, make the pushed inode the head
      exactly when no repair of the head is pending; and the disk will have the right chain exactly
      when moreover no pending repair writes another link behind the pushed inode. */
  lemma {:induction false} PushStartIff(s: State, mem: seq<Ino>, ino: Ino)
    requires Lists(s, mem) && s.push.Idle? && ino != 0 && ino in s.st.inodes && s.st.inodes[ino].links == 1
    ensures PushedList(s.st.orphaned, Replacing(ino, s.st.lastOrphan), [ino] + mem) <==> !RepairsHead(s.pending)
    ensures RepairsHead(s.pending) <==> HeadLost(s.st.orphaned, Replacing(ino, s.st.lastOrphan))
    ensures Settles(DropOnDisk(s.st, ino), s.pending, [ino] + mem)
            <==> !RepairsHead(s.pending) && LastFor(s.pending, ino) in {None, Some(At(mem, 0))}
  {
    assert ino !in mem;
    LastForIff(s.pending, 0);
    assert RepairsHead(s.pending) <==> LastFor(s.pending, 0).Some?;
    assert SettledAt(s.st, s.pending, mem, -1);
    assert RepairsHead(s.pending) ==> s.st.lastOrphan != At(mem, 0);
    PushInMemory(s.st.orphaned, mem, ino, s.st.lastOrphan);
    PushSettlesIff(s.st, s.pending, mem, ino);
    InListIff(s.st.orphaned, mem, ino);
    InListIff(s.st.orphaned, mem, s.st.lastOrphan);
    assert At([ino] + mem, 1) == At(mem, 0);
    assert At(mem, 0) == 0 || At(mem, 0) in mem;
  }

  lemma {:induction false} PushSettlesIff(st: InodeState, ops: seq<InodeOp>, l: seq<Ino>, ino: Ino)
    requires Settles(st, ops, l) && ino != 0 && ino !in l && ino in st.inodes && st.inodes[ino].links == 1
    ensures Settles(DropOnDisk(st, ino), ops, [ino] + l)
            <==> LastFor(ops, 0).None? && LastFor(ops, ino) in {None, Some(At(l, 0))}
  {
    var st', n := DropOnDisk(st, ino), [ino] + l;
    assert At(n, 0) == ino && At(n, 1) == At(l, 0);
    assert SettledAt(st, ops, l, -1);
    assert SettledAt(st', ops, n, -1) <==> LastFor(ops, 0).None? by {
      assert At(l, 0) == 0 || At(l, 0) in l;
    }
    if LastFor(ops, 0).None? {
      assert SettledAt(st', ops, n, 0) <==> LastFor(ops, ino) in {None, Some(At(l, 0))};
      forall i | 1 <= i < |n|
        ensures SettledAt(st', ops, n, i)
      {
        assert n[i] == l[i - 1] && l[i - 1] in l && At(n, i + 1) == At(l, i);
        assert SettledAt(st, ops, l, i - 1);
      }
    }
    forall i, j | 0 <= i < j < |n|
      ensures n[i] != n[j]
    {
      assert n[j] == l[j - 1] && l[j - 1] in l;
    }
  }

  // ---- a push and the removals in between ------------------------------------------------------------

  function After(fmt: Format, s: State, steps: seq<Step>): Option<State>
    decreases |steps|
  {
    if steps == [] then Some(s)
    else
      var r := Next(fmt, s, steps[0]);
      if r.None? then None else After(fmt, r.value, steps[1..])
  }

  lemma {:induction false} AfterOne(fmt: Format, s: State, step: Step)
    ensures After(fmt, s, [step]) == Next(fmt, s, step)
  {
    assert [step][1..] == [];
  }

  lemma {:induction false} AfterBoth(fmt: Format, s: State, a: seq<Step>, b: seq<Step>)
    ensures After(fmt, s, a + b)
         == if After(fmt, s, a).None? then None else After(fmt, After(fmt, s, a).value, b)
    decreases |a|
  {
    if a == [] {
      assert a + b == b;
    } else {
      assert (a + b)[0] == a[0] && (a + b)[1..] == a[1..] + b;
      if Next(fmt, s, a[0]).Some? { AfterBoth(fmt, Next(fmt, s, a[0]).value, a[1..], b); }
    }
  }

  function Removals(xs: seq<Ino>): seq<Step> {
    if xs == [] then [] else [Remove(xs[0])] + Removals(xs[1..])
  }

  /** Dropping the last link of `ino`, with the removals a before and the removals b after the first
      update of the map.  Nothing else can come in between. */
  function PushSteps(ino: Ino, a: seq<Ino>, b: seq<Ino>): seq<Step> {
    [Commit(RmLink(ino))] + Removals(a) + [ReplacePrev] + Removals(b) + [EnterHead]
  }

  /** The list without the inodes of xs. */
  function Except(l: seq<Ino>, xs: seq<Ino>): seq<Ino> {
    if l == [] then []
    else (if l[0] in xs then [] else [l[0]]) + Except(l[1..], xs)
  }

  lemma {:induction false} ExceptSame(l: seq<Ino>, xs: seq<Ino>, ys: seq<Ino>)
    requires forall x :: x in l ==> (x in xs <==> x in ys)
    ensures Except(l, xs) == Except(l, ys)
  {
    if l != [] { ExceptSame(l[1..], xs, ys); }
  }

  lemma {:induction false} ExceptNone(l: seq<Ino>)
    ensures Except(l, []) == l
  {
    if l != [] { ExceptNone(l[1..]); }
  }

  lemma {:induction false} ExceptTwice(l: seq<Ino>, xs: seq<Ino>, ys: seq<Ino>)
    ensures Except(Except(l, xs), ys) == Except(l, xs + ys)
  {
    if l != [] {
      ExceptTwice(l[1..], xs, ys);
      if l[0] in xs {
        assert Except(l, xs) == Except(l[1..], xs);
        assert Except(l, xs + ys) == Except(l[1..], xs + ys);
      } else {
        assert Except(l, xs)[1..] == Except(l[1..], xs);
      }
    }
  }

  lemma {:induction false} ExceptWithout(l: seq<Ino>, i: nat, xs: seq<Ino>)
    requires Distinct(l) && i < |l|
    ensures Except(Without(l, i), xs) == Except(l, [l[i]] + xs)
  {
    if i == 0 {
      assert Without(l, 0) == l[1..];
      ExceptSame(l[1..], xs, [l[0]] + xs);
    } else {
      assert Without(l, i)[0] == l[0] && Without(l, i)[1..] == Without(l[1..], i - 1);
      ExceptWithout(l[1..], i - 1, xs);
    }
  }

  /** While a push is under way: the list l is coming about, or the head is lost. */
  ghost predicate Stands(s: State, l: seq<Ino>, lost: bool) {
    !s.push.Idle? && if lost then HeadLost(s.st.orphaned, s.push) else PushedList(s.st.orphaned, s.push, l)
  }

  lemma {:induction false} RemovalsStand(fmt: Format, s: State, l: seq<Ino>, lost: bool, xs: seq<Ino>)
    requires Stands(s, l, lost) && After(fmt, s, Removals(xs)).Some?
    ensures var s' := After(fmt, s, Removals(xs)).value;
            s'.push == s.push && Stands(s', Except(l, xs), lost || s.push.head in xs)
    decreases |xs|
  {
    if xs == [] {
      ExceptNone(l);
    } else {
      var s1 := Next(fmt, s, Remove(xs[0])).value;
      assert Removals(xs)[1..] == Removals(xs[1..]) && xs == [xs[0]] + xs[1..];
      if lost {
        RemovalsStand(fmt, s1, l, true, xs[1..]);
      } else {
        var i := PlaceIn(s.st.orphaned, s.push, l, xs[0]);
        RemoveWhilePushedIff(s.st.orphaned, s.push, l, i);
        RemovalsStand(fmt, s1, Without(l, i), xs[0] == s.push.head, xs[1..]);
        ExceptWithout(l, i, xs[1..]);
      }
    }
  }

  /** The states that a push with its removals goes through. */
  lemma {:induction false} PushParts(fmt: Format, s: State, ino: Ino, a: seq<Ino>, b: seq<Ino>)
    returns (s1: State, s2: State, s3: State, s4: State)
    requires After(fmt, s, PushSteps(ino, a, b)).Some?
    ensures Next(fmt, s, Commit(RmLink(ino))) == Some(s1) && After(fmt, s1, Removals(a)) == Some(s2)
    ensures Next(fmt, s2, ReplacePrev) == Some(s3) && After(fmt, s3, Removals(b)) == Some(s4)
    ensures Next(fmt, s4, EnterHead) == After(fmt, s, PushSteps(ino, a, b))
  {
    hide Next;
    hide Removals;
    var p1 := [Commit(RmLink(ino))];
    AfterBoth(fmt, s, p1 + Removals(a) + [ReplacePrev] + Removals(b), [EnterHead]);
    AfterBoth(fmt, s, p1 + Removals(a) + [ReplacePrev], Removals(b));
    AfterBoth(fmt, s, p1 + Removals(a), [ReplacePrev]);
    AfterBoth(fmt, s, p1, Removals(a));
    AfterOne(fmt, s, Commit(RmLink(ino)));
    s1 := Next(fmt, s, Commit(RmLink(ino))).value;
    s2 := After(fmt, s1, Removals(a)).value;
    AfterOne(fmt, s2, ReplacePrev);
    s3 := Next(fmt, s2, ReplacePrev).value;
    s4 := After(fmt, s3, Removals(b)).value;
    AfterOne(fmt, s4, EnterHead);
  }

  /** Main result: a push keeps the list in memory right exactly when no repair of the head is pending
      when it reads the head, and the head is not removed before the inode is entered.  The list is then
      the old one with the inode in front and without what was removed meanwhile. */
  lemma {:induction false} PushIsRightIff(fmt: Format, s: State, mem: seq<Ino>, ino: Ino, a: seq<Ino>, b: seq<Ino>)
    requires Lists(s, mem) && s.push.Idle? && ino != 0 && ino in s.st.inodes && s.st.inodes[ino].links == 1
    requires After(fmt, s, PushSteps(ino, a, b)).Some?
    ensures var end := After(fmt, s, PushSteps(ino, a, b)).value;
            && end.push.Idle?
            && (MemList(end.st.orphaned, Except([ino] + mem, a + b))
                <==> !RepairsHead(s.pending) && s.st.lastOrphan !in a + b)
            && ((exists l :: MemList(end.st.orphaned, l))
                <==> !RepairsHead(s.pending) && s.st.lastOrphan !in a + b)
  {
    hide Lists;
    hide RepairsHead;
    hide MemList;
    var s1, s2, s3, s4 := PushParts(fmt, s, ino, a, b);
    var l, lost := [ino] + mem, RepairsHead(s.pending);
    PushStartIff(s, mem, ino);
    assert Stands(s1, l, lost);
    RemovalsStand(fmt, s1, l, lost, a);
    assert Stands(s3, Except(l, a), lost || s.st.lastOrphan in a);
    RemovalsStand(fmt, s3, Except(l, a), lost || s.st.lastOrphan in a, b);
    ExceptTwice(l, a, b);
    var end := After(fmt, s, PushSteps(ino, a, b)).value;
    assert end.st.orphaned == Finished(s4.st.orphaned, s4.push);
    if lost || s.st.lastOrphan in a + b {
      forall k
        ensures !MemList(end.st.orphaned, k)
      {
        HeadLostIsNoList(s4.st.orphaned, s4.push, k);
      }
    }
  }

  /** Main result: a push that may begin keeps the list, on disk too once the repairs are written, exactly
      when the head it has read is not removed before the inode is entered. */
  lemma {:induction false} PushKeepsListsIff(fmt: Format, s: State, mem: seq<Ino>, ino: Ino, a: seq<Ino>, b: seq<Ino>)
    requires Lists(s, mem) && s.push.Idle? && IsPush(s.st, RmLink(ino)) && Allowed(s, Commit(RmLink(ino)))
    requires After(fmt, s, PushSteps(ino, a, b)).Some?
    ensures Lists(After(fmt, s, PushSteps(ino, a, b)).value, Except([ino] + mem, a + b))
            <==> s.st.lastOrphan !in a + b
  {
    hide Superseded;
    hide Settles;
    hide MemList;
    PushIsRightIff(fmt, s, mem, ino, a, b);
    if s.st.lastOrphan !in a + b {
      var s1, s2, s3, s4 := PushParts(fmt, s, ino, a, b);
      PushStarts(fmt, s, RmLink(ino), mem);
      RemovalsKeepLists(fmt, s1, [ino] + mem, a);
      PushGoesOn(fmt, s2, ReplacePrev, Except([ino] + mem, a));
      RemovalsKeepLists(fmt, s3, Except([ino] + mem, a), b);
      ExceptTwice([ino] + mem, a, b);
      PushGoesOn(fmt, s4, EnterHead, Except([ino] + mem, a + b));
    }
  }

  lemma {:induction false} RemovalsKeepLists(fmt: Format, s: State, l: seq<Ino>, xs: seq<Ino>)
    requires Lists(s, l) && !s.push.Idle? && s.push.head !in xs && After(fmt, s, Removals(xs)).Some?
    ensures var s' := After(fmt, s, Removals(xs)).value;
            s'.push == s.push && Lists(s', Except(l, xs))
    decreases |xs|
  {
    hide Superseded;
    hide Settles;
    if xs == [] {
      ExceptNone(l);
    } else {
      assert Removals(xs)[1..] == Removals(xs[1..]) && xs == [xs[0]] + xs[1..];
      var i := PlaceIn(s.st.orphaned, s.push, l, xs[0]);
      RemoveStepIff(fmt, s, l, i);
      RemovalsKeepLists(fmt, Next(fmt, s, Remove(xs[0])).value, Without(l, i), xs[1..]);
      ExceptWithout(l, i, xs[1..]);
    }
  }

  // ---- one repair ----------------------------------------------------------------------------------

  /** Main result: writing one of the pending repairs keeps the list to which they take the chain
      exactly when it is in order. */
  lemma {:induction false} RepairStepIff(fmt: Format, s: State, mem: seq<Ino>, k: nat)
    requires Lists(s, mem) && s.push.Idle? && k < |s.pending|
    ensures s.pending[k].UpdateOrphanLink? && Next(fmt, s, Repair(k)).Some?
    ensures Lists(Next(fmt, s, Repair(k)).value, mem) <==> InOrder(s, k)
  {
    var op := s.pending[k];
    assert IsRepair(s.st, op);
    var s' := Next(fmt, s, Repair(k)).value;
    var rest := Drop(s.pending, k);
    assert forall j :: 0 <= j < |rest| ==> rest[j] == s.pending[if j < k then j else j + 1];
    assert AreRepairs(s'.st, rest) by {
      forall j | 0 <= j < |rest|
        ensures IsRepair(s'.st, rest[j])
      {
        assert IsRepair(s.st, s.pending[if j < k then j else j + 1]);
      }
    }
    SettledAfterRepair(s, s', k);
    InListIff(s.st.orphaned, mem, op.pred);
    RepairSettlesIff(s, s', mem, k);
    if InOrder(s, k) { RepairSupersedes(s, s', mem, k); }
  }

  lemma {:induction false} InListIff(m: OrphanMap, l: seq<Ino>, x: Ino)
    requires MemList(m, l)
    ensures x in m <==> x in l
  {
    if x in l {
      var i :| 0 <= i < |l| && l[i] == x;
      assert Linked(m, l, i);
    }
  }

  lemma {:induction false} LastForDrop(ops: seq<InodeOp>, k: nat, p: nat)
    requires k < |ops|
    ensures !Repairs(ops[k], p) ==> LastFor(Drop(ops, k), p) == LastFor(ops, p)
    ensures Repairs(ops[k], p) && LastFor(Drop(ops, k), p).None? ==> LastFor(ops, p) == Some(ops[k].succ)
    decreases |ops|
  {
    var n := |ops| - 1;
    if k == n {
      assert Drop(ops, k) == ops[..n];
    } else {
      assert Drop(ops, k)[..n - 1] == Drop(ops[..n], k);
      assert Drop(ops, k)[n - 1] == ops[n];
      LastForDrop(ops[..n], k, p);
    }
  }

  /** The repair at place k has been written. */
  ghost predicate Repaired(s: State, s': State, k: nat) {
    && k < |s.pending| && IsRepair(s.st, s.pending[k])
    && s'.pending == Drop(s.pending, k)
    && s'.st.inodes.Keys == s.st.inodes.Keys
    && forall p :: p == 0 || p in s.st.inodes ==>
         Pointer(s'.st, p) == if p == s.pending[k].pred then s.pending[k].succ else Pointer(s.st, p)
  }

  ghost predicate SettledSame(s: State, s': State, p: nat) {
    Settled(s'.st, s'.pending, p) == Settled(s.st, s.pending, p)
  }

  ghost predicate LinkInOrder(s: State, s': State, k: nat, p: nat)
    requires Repaired(s, s', k)
  {
    || p != s.pending[k].pred
    || LastFor(s'.pending, p).None? || LastFor(s'.pending, p) == LastFor(s.pending, p)
  }

  lemma {:induction false} SettledAfterRepair(s: State, s': State, k: nat)
    requires Repaired(s, s', k)
    ensures forall p :: (p == 0 || p in s.st.inodes) ==>
              (SettledSame(s, s', p) <==> LinkInOrder(s, s', k, p))
  {
    forall p | p == 0 || p in s.st.inodes
      ensures SettledSame(s, s', p) <==> LinkInOrder(s, s', k, p)
    {
      LastForDrop(s.pending, k, p);
      LastForIff(s.pending, p);
      assert s.pending[k] in s.pending;
    }
  }

  lemma {:induction false} RepairSettlesIff(s: State, s': State, mem: seq<Ino>, k: nat)
    requires Lists(s, mem) && s.push.Idle? && Repaired(s, s', k)
    ensures Settles(s'.st, s'.pending, mem) <==> InOrder(s, k)
  {
    var p := s.pending[k].pred;
    SettledAfterRepair(s, s', k);
    InListIff(s.st.orphaned, mem, p);
    forall i | -1 <= i < |mem|
      ensures SettledAt(s'.st, s'.pending, mem, i) <==> SettledSame(s, s', At(mem, i))
      ensures At(mem, i) != p ==> SettledAt(s'.st, s'.pending, mem, i)
    {
      assert SettledAt(s.st, s.pending, mem, i);
      assert At(mem, i) == 0 || At(mem, i) in mem;
    }
    if !InOrder(s, k) {
      var i := PlaceOf(mem, p);
      assert !SettledAt(s'.st, s'.pending, mem, i);
    }
  }

  lemma {:induction false} RepairSupersedes(s: State, s': State, mem: seq<Ino>, k: nat)
    requires Lists(s, mem) && s.push.Idle? && Repaired(s, s', k) && InOrder(s, k)
    ensures Superseded(s', mem)
  {
    var op := s.pending[k];
    forall i, j | 0 <= i < j < |s'.pending|
      ensures Replaced(s'.pending, mem, i, j)
    {
      var m, n := if i < k then i else i + 1, if j < k then j else j + 1;
      assert s'.pending[i] == s.pending[m] && s'.pending[j] == s.pending[n];
      assert Replaced(s.pending, mem, m, n);
    }
    assert Pointer(s'.st, 0) == if op.pred == 0 then op.succ else Pointer(s.st, 0);
    if RepairsHead(s'.pending) {
      var r :| r in s'.pending && Repairs(r, 0);
      assert r in s.pending;
      if op.pred == 0 {
        LastForIff(s'.pending, 0);
        assert SettledAt(s.st, s.pending, mem, -1);
        assert At(mem, 0) == 0 || At(mem, 0) in mem;
        HeadRepairIsLater(s.pending, mem, k);
        var j :| k < j < |s.pending| && Repairs(s.pending[j], 0);
        assert Replaced(s.pending, mem, k, j);
      }
    }
  }

  /** When leaving out the repair at place k changes nothing and another one of the head remains, one of
      them was recorded later. */
  lemma {:induction false} HeadRepairIsLater(pending: seq<InodeOp>, mem: seq<Ino>, k: nat)
    requires k < |pending| && Repairs(pending[k], 0) && LastFor(Drop(pending, k), 0) == LastFor(pending, 0)
    requires LastFor(pending, 0).Some? ==> LastFor(pending, 0).value == 0 || LastFor(pending, 0).value in mem
    requires forall j :: 0 <= j < k ==> Replaced(pending, mem, j, k)
    ensures exists j :: k < j < |pending| && Repairs(pending[j], 0)
  {
    var rest := Drop(pending, k);
    LastForIff(rest, 0);
    LastForIff(pending, 0);
    assert pending[k] in pending;
    var j :| 0 <= j < |rest| && Repairs(rest[j], 0) && LastFor(rest, 0) == Some(rest[j].succ);
    assert rest[j] == pending[if j < k then j else j + 1];
    assert j < k ==> Replaced(pending, mem, j, k);
    if j >= k { assert Repairs(pending[j + 1], 0); }
  }

  // ---- whole runs ----------------------------------------------------------------------------------

  ghost predicate IsRun(fmt: Format, states: seq<State>, steps: seq<Step>) {
    && |states| == |steps| + 1
    && states[0].st.orphaned == map[] && states[0].st.lastOrphan == 0 && states[0].pending == []
    && states[0].push.Idle?
    && forall i :: 0 <= i < |steps| ==>
         Allowed(states[i], steps[i]) && Next(fmt, states[i], steps[i]) == Some(states[i + 1])
  }

  lemma {:induction false} RunsKeepInv(fmt: Format, states: seq<State>, steps: seq<Step>, i: nat)
    requires IsRun(fmt, states, steps) && i < |states|
    ensures Inv(states[i])
  {
    if i == 0 {
      assert SettledAt(states[0].st, [], [], -1);
      assert Lists(states[0], []);
    } else {
      RunsKeepInv(fmt, states, steps, i - 1);
      StepKeepsInv(fmt, states[i - 1], steps[i - 1]);
    }
  }

  /** Main result: in every run from a mount without orphans, the memory map is a doubly linked list
      without repetition, once a push that is under way has made its updates; and once the pending
      repairs are written, following the chain on disk from `lastOrphan` ends and visits exactly that
      list. */
  lemma {:induction false} RunsKeepLists(fmt: Format, states: seq<State>, steps: seq<Step>, i: nat)
    requires IsRun(fmt, states, steps) && i < |states|
    ensures ApplyOps(fmt, states[i].st, states[i].pending).Some?
    ensures exists mem ::
              && MemList(Finished(states[i].st.orphaned, states[i].push), mem)
              && var end := ApplyOps(fmt, states[i].st, states[i].pending).value;
                 forall n :: n >= |mem| ==> Walk(end.inodes, end.lastOrphan, n) == mem
    ensures states[i].pending == [] ==> ApplyOps(fmt, states[i].st, states[i].pending).value == states[i].st
  {
    RunsKeepInv(fmt, states, steps, i);
    var mem :| Lists(states[i], mem);
    SettlesIsDiskList(fmt, states[i].st, states[i].pending, mem);
    var end := ApplyOps(fmt, states[i].st, states[i].pending).value;
    forall n | n >= |mem|
      ensures Walk(end.inodes, end.lastOrphan, n) == mem
    {
      WalkIsList(end, mem, n);
    }
  }

  // ---- runs that go wrong ----------------------------------------------------------------------------

  ghost predicate Reachable(fmt: Format, s: State) {
    exists states: seq<State>, steps: seq<Step> :: IsRun(fmt, states, steps) && states[|steps|] == s
  }

  lemma {:induction false} ReachableStep(fmt: Format, s: State, step: Step)
    requires Reachable(fmt, s) && Allowed(s, step) && Next(fmt, s, step).Some?
    ensures Reachable(fmt, Next(fmt, s, step).value)
  {
    hide Next;
    hide Allowed;
    var states: seq<State>, steps: seq<Step> :| IsRun(fmt, states, steps) && states[|steps|] == s;
    var states', steps' := states + [Next(fmt, s, step).value], steps + [step];
    forall i | 0 <= i < |steps'|
      ensures Allowed(states'[i], steps'[i]) && Next(fmt, states'[i], steps'[i]) == Some(states'[i + 1])
    {
      if i < |steps| { assert states'[i] == states[i] && steps'[i] == steps[i] && states'[i + 1] == states[i + 1]; }
    }
    assert IsRun(fmt, states', steps') && states'[|steps'|] == Next(fmt, s, step).value;
  }

  lemma {:induction false} MountReachable(fmt: Format, inodes: map<Ino, InodeRec>)
    ensures Reachable(fmt, State(InodeState(inodes, 0, map[]), [], Idle))
  {
    var s := State(InodeState(inodes, 0, map[]), [], Idle);
    assert IsRun(fmt, [s], []) && [s][0] == s;
  }

  /** A push that nothing comes between. */
  lemma {:induction false} PushReachable(fmt: Format, st: InodeState, ino: Ino)
    requires Reachable(fmt, State(st, [], Idle)) && ino != 0 && ino in st.inodes && st.inodes[ino].links == 1
    ensures Reachable(fmt, State(DropLink(st, ino), [], Idle))
  {
    hide Reachable;
    var s := State(st, [], Idle);
    ReachableStep(fmt, s, Commit(RmLink(ino)));
    var s1 := Next(fmt, s, Commit(RmLink(ino))).value;
    ReachableStep(fmt, s1, ReplacePrev);
    var s2 := Next(fmt, s1, ReplacePrev).value;
    ReachableStep(fmt, s2, EnterHead);
    assert Next(fmt, s2, EnterHead).value == State(DropLink(st, ino), [], Idle);
  }

  /** Orphans 2 and 1, in this order, and an inode 3 with one link. */
  ghost predicate TwoOrphans(st: InodeState) {
    && MemList(st.orphaned, [2, 1]) && DiskList(st, [2, 1])
    && st.orphaned == map[2 := (0, 1), 1 := (2, 0)]
    && 3 in st.inodes && st.inodes[3].links == 1
  }

  /** Orphans 3, 2 and 1, in this order. */
  ghost predicate ThreeOrphans(st: InodeState) {
    && MemList(st.orphaned, [3, 2, 1]) && DiskList(st, [3, 2, 1])
    && st.orphaned == map[3 := (0, 2), 2 := (3, 1), 1 := (2, 0)]
  }

  lemma {:induction false} TwoReachable(fmt: Format) returns (st: InodeState)
    ensures Reachable(fmt, State(st, [], Idle)) && TwoOrphans(st)
  {
    hide Reachable;
    var rec := fmt.blank.(links := 1);
    var inodes: map<Ino, InodeRec> := map[1 := rec, 2 := rec, 3 := rec];
    var st0 := InodeState(inodes, 0, map[]);
    MountReachable(fmt, inodes);
    PushReachable(fmt, st0, 1);
    var st1 := DropLink(st0, 1);
    PushReachable(fmt, st1, 2);
    st := DropLink(st1, 2);
    assert st1.orphaned == map[1 := (0, 0)];
    assert st.orphaned == map[2 := (0, 1), 1 := (2, 0)];
    assert Linked(st.orphaned, [2, 1], 0) && Linked(st.orphaned, [2, 1], 1);
    assert Chained(st, [2, 1], 0) && Chained(st, [2, 1], 1);
  }

  lemma {:induction false} ThreeReachable(fmt: Format) returns (st: InodeState)
    ensures Reachable(fmt, State(st, [], Idle)) && ThreeOrphans(st)
  {
    hide Reachable;
    var st2 := TwoReachable(fmt);
    PushReachable(fmt, st2, 3);
    st := DropLink(st2, 3);
    var l := [3, 2, 1];
    assert Chained(st2, [2, 1], 0) && Chained(st2, [2, 1], 1);
    assert st.orphaned == map[3 := (0, 2), 2 := (3, 1), 1 := (2, 0)];
    assert Linked(st.orphaned, l, 0) && Linked(st.orphaned, l, 1) && Linked(st.orphaned, l, 2);
    assert Chained(st, l, 0) && Chained(st, l, 1) && Chained(st, l, 2);
  }

  lemma {:induction false} AfterFour(fmt: Format, s: State, a: Step, b: Step, c: Step, d: Step)
    requires Next(fmt, s, a).Some?
    requires var s1 := Next(fmt, s, a).value;
             && Next(fmt, s1, b).Some?
             && Next(fmt, Next(fmt, s1, b).value, c).Some?
    ensures var s2 := Next(fmt, Next(fmt, s, a).value, b).value;
            After(fmt, s, [a, b, c, d]) == Next(fmt, Next(fmt, s2, c).value, d)
  {
    hide Next;
    var s1 := Next(fmt, s, a).value;
    var s2 := Next(fmt, s1, b).value;
    AfterOne(fmt, Next(fmt, s2, c).value, d);
    assert [c, d][1..] == [d];
    assert After(fmt, s2, [c, d]) == After(fmt, Next(fmt, s2, c).value, [d]);
    assert [b, c, d][1..] == [c, d];
    assert After(fmt, s1, [b, c, d]) == After(fmt, s2, [c, d]);
    assert [a, b, c, d][1..] == [b, c, d];
  }

  /** Repairs out of order do go wrong: with orphans 3, 2 and 1, removing 2 and then 1 but writing the
      second repair first leaves 1 on the chain. */
  lemma {:induction false} RepairsOutOfOrder(fmt: Format)
    ensures exists st, end ::
              && Reachable(fmt, State(st, [], Idle)) && ThreeOrphans(st)
              && After(fmt, State(st, [], Idle), [Remove(2), Remove(1), Repair(1), Repair(0)]) == Some(end)
              && end.pending == [] && end.st.orphaned == map[3 := (0, 0)]
              && Walk(end.st.inodes, end.st.lastOrphan, 3) == [3, 1]
  {
    hide Reachable;
    var st := ThreeReachable(fmt);
    var end := SwappedRepairs(fmt, st);
  }

  lemma {:induction false} SwappedRepairs(fmt: Format, st: InodeState) returns (end: State)
    requires ThreeOrphans(st)
    ensures After(fmt, State(st, [], Idle), [Remove(2), Remove(1), Repair(1), Repair(0)]) == Some(end)
    ensures end.pending == [] && end.st.orphaned == map[3 := (0, 0)]
    ensures Walk(end.st.inodes, end.st.lastOrphan, 3) == [3, 1]
  {
    var s := State(st, [], Idle);
    TwoRemovals(fmt, st);
    var s1 := Next(fmt, s, Remove(2)).value;
    var s2 := Next(fmt, s1, Remove(1)).value;
    end := TwoRepairs(fmt, st, s2);
    AfterFour(fmt, s, Remove(2), Remove(1), Repair(1), Repair(0));
  }

  lemma {:induction false} TwoRemovals(fmt: Format, st: InodeState)
    requires st.orphaned == map[3 := (0, 2), 2 := (3, 1), 1 := (2, 0)]
    ensures var a, b := UpdateOrphanLink(3, 1), UpdateOrphanLink(3, 0);
            var s1 := Next(fmt, State(st, [], Idle), Remove(2));
            && s1.Some?
            && Next(fmt, s1.value, Remove(1)) == Some(State(st.(orphaned := map[3 := (0, 0)]), [a, b], Idle))
  {
    assert RemoveOrphan(st.orphaned, 2) == map[3 := (0, 1), 1 := (3, 0)];
    assert RemoveOrphan(map[3 := (0, 1), 1 := (3, 0)], 1) == map[3 := (0, 0)];
    var a, b := UpdateOrphanLink(3, 1), UpdateOrphanLink(3, 0);
    assert [] + [a] == [a] && [a] + [b] == [a, b];
  }

  lemma {:induction false} TwoRepairs(fmt: Format, st: InodeState, s: State) returns (end: State)
    requires s.push.Idle? && s.pending == [UpdateOrphanLink(3, 1), UpdateOrphanLink(3, 0)]
    requires DiskList(st, [3, 2, 1]) && s.st.inodes == st.inodes && s.st.lastOrphan == st.lastOrphan
    ensures Next(fmt, s, Repair(1)).Some? && Next(fmt, Next(fmt, s, Repair(1)).value, Repair(0)) == Some(end)
    ensures end.pending == [] && end.st.orphaned == s.st.orphaned
    ensures Walk(end.st.inodes, end.st.lastOrphan, 3) == [3, 1]
  {
    var l, a := [3, 2, 1], s.pending[0];
    assert Chained(st, l, 0) && Chained(st, l, 1) && Chained(st, l, 2);
    assert Drop(s.pending, 1) == [a] && Drop([a], 0) == [];
    end := Next(fmt, Next(fmt, s, Repair(1)).value, Repair(0)).value;
    var inodes := end.st.inodes;
    assert inodes[3].dtime == 1 && inodes[1].dtime == 0;
    assert Walk(inodes, 0, 1) == [] && Walk(inodes, 1, 2) == [1] + Walk(inodes, 0, 1);
    assert Walk(inodes, 3, 3) == [3] + Walk(inodes, 1, 2);
  }

  /** So does a push onto a head whose repair is pending: with orphans 2 and 1, removing 2 and pushing 3
      leaves a map in which 3 is followed by an inode that is not there. */
  lemma {:induction false} PushOntoRemovedHead(fmt: Format)
    ensures exists st, end ::
              && Reachable(fmt, State(st, [], Idle)) && TwoOrphans(st)
              && After(fmt, State(st, [], Idle), [Remove(2), Commit(RmLink(3)), ReplacePrev, EnterHead]) == Some(end)
              && end.push.Idle? && end.st.orphaned == map[1 := (0, 0), 3 := (0, 2)]
              && forall mem :: !MemList(end.st.orphaned, mem)
  {
    hide Reachable;
    var st := TwoReachable(fmt);
    var end := RemoveThenPush(fmt, st);
  }

  lemma {:induction false} RemoveThenPush(fmt: Format, st: InodeState) returns (end: State)
    requires TwoOrphans(st)
    ensures After(fmt, State(st, [], Idle), [Remove(2), Commit(RmLink(3)), ReplacePrev, EnterHead]) == Some(end)
    ensures end.push.Idle? && end.st.orphaned == map[1 := (0, 0), 3 := (0, 2)]
    ensures forall mem :: !MemList(end.st.orphaned, mem)
  {
    var s := State(st, [], Idle);
    assert RemoveOrphan(st.orphaned, 2) == map[1 := (0, 0)];
    var s1 := Next(fmt, s, Remove(2)).value;
    var s2 := Next(fmt, s1, Commit(RmLink(3))).value;
    var s3 := Next(fmt, s2, ReplacePrev).value;
    end := Next(fmt, s3, EnterHead).value;
    AfterFour(fmt, s, Remove(2), Commit(RmLink(3)), ReplacePrev, EnterHead);
    assert s3.push == Adding(3, 2) && s3.st.orphaned == map[1 := (0, 0)];
    assert end.st.orphaned == map[1 := (0, 0), 3 := (0, 2)];
    assert end.st.orphaned == Finished(s3.st.orphaned, s3.push);
    NoListWithoutHead(s3);
  }

  lemma {:induction false} NoListWithoutHead(s: State)
    requires HeadLost(s.st.orphaned, s.push)
    ensures forall mem :: !MemList(Finished(s.st.orphaned, s.push), mem)
  {
    forall mem
      ensures !MemList(Finished(s.st.orphaned, s.push), mem)
    {
      HeadLostIsNoList(s.st.orphaned, s.push, mem);
    }
  }

  /** And so does a removal of the head between the updates of a push, although nothing is pending when
      the push begins: with orphans 2 and 1, pushing 3 and removing 2 meanwhile leaves 3 followed by an
      inode that is not there. */
  lemma {:induction false} HeadRemovedWhilePushed(fmt: Format)
    ensures exists st, end ::
              && Reachable(fmt, State(st, [], Idle)) && TwoOrphans(st)
              && After(fmt, State(st, [], Idle), [Commit(RmLink(3)), ReplacePrev, Remove(2), EnterHead]) == Some(end)
              && end.push.Idle? && end.st.orphaned == map[1 := (3, 0), 3 := (0, 2)]
              && forall mem :: !MemList(end.st.orphaned, mem)
  {
    hide Reachable;
    var st := TwoReachable(fmt);
    var end := RemoveAmidPush(fmt, st);
  }

  lemma {:induction false} RemoveAmidPush(fmt: Format, st: InodeState) returns (end: State)
    requires TwoOrphans(st)
    ensures After(fmt, State(st, [], Idle), [Commit(RmLink(3)), ReplacePrev, Remove(2), EnterHead]) == Some(end)
    ensures end.push.Idle? && end.st.orphaned == map[1 := (3, 0), 3 := (0, 2)]
    ensures forall mem :: !MemList(end.st.orphaned, mem)
  {
    var s := State(st, [], Idle);
    var s1 := Next(fmt, s, Commit(RmLink(3))).value;
    var s2 := Next(fmt, s1, ReplacePrev).value;
    assert s2.st.orphaned == map[2 := (3, 1), 1 := (2, 0)];
    assert RemoveOrphan(s2.st.orphaned, 2) == map[1 := (3, 0)];
    var s3 := Next(fmt, s2, Remove(2)).value;
    end := Next(fmt, s3, EnterHead).value;
    AfterFour(fmt, s, Commit(RmLink(3)), ReplacePrev, Remove(2), EnterHead);
    assert s3.push == Adding(3, 2) && s3.st.orphaned == map[1 := (3, 0)];
    assert end.st.orphaned == map[1 := (3, 0), 3 := (0, 2)];
    assert end.st.orphaned == Finished(s3.st.orphaned, s3.push);
    NoListWithoutHead(s3);
  }

  // ---- the superblock's orphan functions -------------------------------------------------------------

  // `list` is the list that the map will be once the push under way, if any, is over.

  class SuperBlock {
    var orphaned: OrphanMap
    ghost var list: seq<Ino>
    ghost var push: PushStage

    ghost predicate Valid()
      reads this
    {
      PushedList(orphaned, push, list)
    }

    /** The map when the push under way is over. */
    ghost function Map(): OrphanMap
      reads this
    {
      Finished(orphaned, push)
    }

    constructor ()
      ensures Valid() && list == [] && push.Idle?
    {
      orphaned, list, push := map[], [], Idle;
    }

    /** A push of `ino` reads `head` from the superblock and puts the inode on the disk before it. */
    ghost method StartPush(ino: Ino, head: nat)
      modifies this`list, this`push
      ensures push == Replacing(ino, head) && list == [ino] + old(list)
      ensures old(Valid()) && old(push).Idle? && ino != 0 && ino !in old(list) ==>
                (Valid() <==> head == At(old(list), 0))
    {
      if Valid() && push.Idle? && ino != 0 && ino !in list {
        PushInMemory(orphaned, list, ino, head);
        InListIff(orphaned, list, ino);
      }
      list, push := [ino] + list, Replacing(ino, head);
      assert At(list, 1) == At(old(list), 0);
    }

    /** The last update of a push enters its inode. */
    method AddLink(pred: nat, cur: Ino, succ: nat)
      modifies this`orphaned, this`push
      ensures orphaned == AddOrphanLink(old(orphaned), pred, cur, succ)
      ensures push == if pred == 0 && old(push) == Adding(cur, succ) then Idle else old(push)
      ensures push != old(push) ==> Map() == old(Map()) && (old(Valid()) ==> Valid())
    {
      orphaned := orphaned[cur := (pred, succ)];
      if pred == 0 && push == Adding(cur, succ) { push := Idle; }
    }

    /** The first update of a push names its inode as the predecessor of the head. */
    method ReplacePrevlink(pred: nat, cur: Ino)
      modifies this`orphaned, this`push
      ensures orphaned == ReplaceOrphanPrevlink(old(orphaned), pred, cur)
      ensures push == if old(push) == Replacing(pred, cur) then Adding(pred, cur) else old(push)
      ensures push != old(push) ==> Map() == old(Map()) && (old(Valid()) ==> Valid())
    {
      if cur in orphaned {
        orphaned := orphaned[cur := (pred, orphaned[cur].1)];
      }
      if push == Replacing(pred, cur) { push := Adding(pred, cur); }
    }

    /** What a write-back does when it drops the last link of `ino`, with the head it reads from the
        superblock, when no removal comes in between: the list grows at its head exactly when that is the
        head in memory. */
    method Push(ino: Ino, head: nat)
      modifies this
      ensures push.Idle? && list == [ino] + old(list)
      ensures old(Valid()) && old(push).Idle? && ino != 0 && ino !in old(list) ==>
                (Valid() <==> head == At(old(list), 0))
    {
      if Valid() && push.Idle? && ino != 0 && ino !in list { PushInMemory(orphaned, list, ino, head); }
      StartPush(ino, head);
      ReplacePrevlink(ino, head);
      AddLink(0, ino, head);
    }

    /** Takes an inode out of the list and returns the repair to record in the transaction.  While a push
        is under way that is right exactly when the inode is not the head that the push has read. */
    method Remove(cur: Ino) returns (repair: InodeOp)
      requires cur in orphaned
      modifies this`orphaned, this`list
      ensures orphaned == RemoveOrphan(old(orphaned), cur)
      ensures old(Valid()) ==>
                && (Valid() <==> push.Idle? || cur != push.head)
                && exists i :: 0 <= i < |old(list)| && old(list)[i] == cur
                     && list == Without(old(list), i)
                     && (push.Idle? || cur != push.head ==> repair == RepairOf(old(list), i))
    {
      ghost var was, l := orphaned, list;
      var (pred, succ) := orphaned[cur];
      orphaned := orphaned - {cur};
      if pred in orphaned {
        orphaned := orphaned[pred := (orphaned[pred].0, succ)];
      }
      if succ in orphaned {
        orphaned := orphaned[succ := (pred, orphaned[succ].1)];
      }
      if PushedList(was, push, l) {
        ghost var i := PlaceIn(was, push, l, cur);
        RemoveWhilePushedIff(was, push, l, i);
        list := Without(l, i);
      }
      return UpdateOrphanLink(pred, succ);
    }
  }
}
