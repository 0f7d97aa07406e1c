/** Extent trees of depth 0 and 1 as values: what they stand for, and what the steps of an append do
    to them (src/inode/extent/mod.rs, src/inode/extent/path.rs). */
module ExtentShape {
  import opened Wrappers
  import opened ExtentCodec

  // ---- plain lists of runs -----------------------------------------------------------------------

  predicate Covers(l: Leaf, fba: nat) { l.block <= fba < l.block + l.len }

  /** The reference: the block that the first run over fba gives it. */
  function Lookup(runs: seq<Leaf>, fba: nat): Option<nat>
    decreases |runs|
  {
    if runs == [] then None
    else if Covers(runs[0], fba) then Some(runs[0].start + (fba - runs[0].block))
    else Lookup(runs[1..], fba)
  }

  function End(runs: seq<Leaf>): nat {
    if runs == [] then 0 else runs[|runs| - 1].block + runs[|runs| - 1].len
  }

  ghost predicate RunOk(runs: seq<Leaf>, i: int) {
    && 0 <= i < |runs|
    && runs[i].isInit && 1 <= runs[i].len <= 0x8000 && Fits(LeafEntry(runs[i]))
    && runs[i].block == if i == 0 then 0 else runs[i - 1].block + runs[i - 1].len
  }

  /** Initialised runs one after the other from file block 0 on. */
  ghost predicate Chained(runs: seq<Leaf>) {
    forall i :: 0 <= i < |runs| ==> RunOk(runs, i)
  }

  lemma {:induction false} ChainedMonotone(runs: seq<Leaf>, i: nat, j: nat)
    requires Chained(runs) && i < j < |runs|
    ensures runs[i].block + runs[i].len <= runs[j].block
    decreases j
  {
    assert RunOk(runs, j) && RunOk(runs, j - 1);
    if j > i + 1 { ChainedMonotone(runs, i, j - 1); }
  }

  lemma {:induction false} LookupAppend(x: seq<Leaf>, y: seq<Leaf>, fba: nat)
    ensures Lookup(x + y, fba) == if Lookup(x, fba).Some? then Lookup(x, fba) else Lookup(y, fba)
    decreases |x|
  {
    if x == [] {
      assert x + y == y;
    } else {
      LookupAppend(x[1..], y, fba);
      assert (x + y)[1..] == x[1..] + y;
    }
  }

  lemma {:induction false} LookupMiss(runs: seq<Leaf>, fba: nat)
    requires forall i :: 0 <= i < |runs| ==> !Covers(runs[i], fba)
    ensures Lookup(runs, fba) == None
    decreases |runs|
  {
    if runs != [] {
      assert !Covers(runs[0], fba);
      LookupMiss(runs[1..], fba);
    }
  }

  /** The last run that starts at or before fba decides. */
  ghost predicate IsFloor(runs: seq<Leaf>, k: int, fba: nat) {
    0 <= k < |runs| && runs[k].block <= fba && (k + 1 < |runs| ==> fba < runs[k + 1].block)
  }

  lemma {:induction false} FloorDecides(runs: seq<Leaf>, k: nat, fba: nat)
    requires Chained(runs) && IsFloor(runs, k, fba)
    ensures Lookup(runs, fba) == if Covers(runs[k], fba) then Some(runs[k].start + (fba - runs[k].block)) else None
  {
    forall i | 0 <= i < |runs| && i != k
      ensures !Covers(runs[i], fba)
    {
      assert RunOk(runs, i);
      if i < k {
        ChainedMonotone(runs, i, k);
      } else if i > k + 1 {
        ChainedMonotone(runs, k + 1, i);
      }
    }
    var pre, post := runs[..k], runs[k..];
    assert runs == pre + post && post[0] == runs[k];
    LookupMiss(pre, fba);
    LookupAppend(pre, post, fba);
    forall i | 0 <= i < |post[1..]|
      ensures !Covers(post[1..][i], fba)
    {
      assert post[1..][i] == runs[k + 1 + i];
    }
    LookupMiss(post[1..], fba);
  }

  // ---- appending a run -----------------------------------------------------------------------------

  /** The test of `insert_leaf` for growing the last leaf. */
  predicate Merges(l: Leaf, n: Leaf) {
    l.block + l.len == n.block && l.start + l.len == n.start && l.len + n.len <= 0x8000 && l.isInit
  }

  function Grown(l: Leaf, n: Leaf): Leaf { l.(len := l.len + n.len) }

  /** The leaves after an append: the last one grows, or a new one is added. */
  function Appended(leaves: seq<Leaf>, n: Leaf): seq<Leaf> {
    if leaves != [] && Merges(leaves[|leaves| - 1], n) then leaves[..|leaves| - 1] + [Grown(leaves[|leaves| - 1], n)]
    else leaves + [n]
  }

  /** The run continues the last leaf on the device, and the two are no longer than 0x8000 blocks. */
  ghost predicate Continues(leaves: seq<Leaf>, start: nat, len: nat) {
    && leaves != []
    && leaves[|leaves| - 1].start + leaves[|leaves| - 1].len == start
    && leaves[|leaves| - 1].len + len <= 0x8000
  }

  /** Leaf i does not continue the one before it. */
  ghost predicate StandsAlone(leaves: seq<Leaf>, i: int) {
    0 < i < |leaves| && !Continues(leaves[..i], leaves[i].start, leaves[i].len)
  }

  /** No two neighbours could be one leaf. */
  ghost predicate NoneJoin(leaves: seq<Leaf>) {
    forall i :: 0 < i < |leaves| ==> StandsAlone(leaves, i)
  }

  /** Main result: an append leaves no neighbours that could be one leaf, and adds a leaf exactly when the
      run does not continue the last one. */
  lemma {:induction false} AppendedJoins(leaves: seq<Leaf>, n: Leaf)
    requires Chained(leaves) && NextRun(leaves, n) && NoneJoin(leaves)
    ensures NoneJoin(Appended(leaves, n))
    ensures |Appended(leaves, n)| == if Continues(leaves, n.start, n.len) then |leaves| else |leaves| + 1
    ensures leaves != [] ==> (Merges(leaves[|leaves| - 1], n) <==> Continues(leaves, n.start, n.len))
  {
    if leaves != [] { assert RunOk(leaves, |leaves| - 1); }
    var r := Appended(leaves, n);
    forall i | 0 < i < |r|
      ensures StandsAlone(r, i)
    {
      if i < |leaves| {
        assert StandsAlone(leaves, i);
        assert r[..i] == leaves[..i];
      } else {
        assert r[..i] == leaves;
      }
    }
  }

  predicate NextRun(leaves: seq<Leaf>, n: Leaf) {
    n.block == End(leaves) && n.isInit && 1 <= n.len <= 0x8000 && Fits(LeafEntry(n))
  }

  lemma {:induction false} AppendedChained(leaves: seq<Leaf>, n: Leaf)
    requires Chained(leaves) && NextRun(leaves, n)
    ensures Chained(Appended(leaves, n)) && End(Appended(leaves, n)) == n.block + n.len
    ensures Chained(leaves + [n]) && End(leaves + [n]) == n.block + n.len
  {
    var r := Appended(leaves, n);
    forall i | 0 <= i < |r|
      ensures RunOk(r, i)
    {
      if i < |leaves| { assert RunOk(leaves, i); }
    }
    forall i | 0 <= i < |leaves + [n]|
      ensures RunOk(leaves + [n], i)
    {
      if i < |leaves| { assert RunOk(leaves, i); }
    }
  }

  /** Main result: merging the last leaf or adding one gives every file block the same answer as
      appending the run to a plain list. */
  lemma {:induction false} AppendedAgrees(leaves: seq<Leaf>, runs: seq<Leaf>, n: Leaf, fba: nat)
    requires Lookup(leaves, fba) == Lookup(runs, fba)
    ensures Lookup(Appended(leaves, n), fba) == Lookup(runs + [n], fba)
  {
    LookupAppend(runs, [n], fba);
    LookupAppend(leaves, [n], fba);
    assert [n][1..] == [];
    if leaves != [] && Merges(leaves[|leaves| - 1], n) {
      var pre, l := leaves[..|leaves| - 1], leaves[|leaves| - 1];
      assert leaves == pre + [l];
      LookupAppend(pre, [l], fba);
      LookupAppend(pre, [Grown(l, n)], fba);
      assert [l][1..] == [] && [Grown(l, n)][1..] == [];
    }
  }

  // ---- the tree ------------------------------------------------------------------------------------

  /** The root has four places; `cuts` says where in the list of all leaves each node starts. */
  datatype Shape = Shape(depth: nat, root: seq<Entry>, nodes: map<nat, seq<Entry>>, leaves: seq<Leaf>, cuts: seq<nat>)

  const ROOT_MAX := 4

  function AsEntries(ls: seq<Leaf>): (r: seq<Entry>)
    ensures |r| == |ls| && forall i :: 0 <= i < |ls| ==> r[i] == LeafEntry(ls[i])
  {
    seq(|ls|, i requires 0 <= i < |ls| => LeafEntry(ls[i]))
  }

  /** The key of the place before leaf j. */
  function KeyAt(leaves: seq<Leaf>, j: nat): nat { if j < |leaves| then leaves[j].block else End(leaves) }

  /** Inner entry i and its node.  Only the last node may be empty, while a split is under way. */
  ghost predicate NodeOk(t: Shape, i: int, max: nat, pending: bool) {
    && 0 <= i < |t.root| && i + 1 < |t.cuts| && t.root[i].InternalEntry?
    && t.cuts[i] <= t.cuts[i + 1] <= |t.leaves| && t.cuts[i + 1] - t.cuts[i] <= max
    && (t.cuts[i] == t.cuts[i + 1] ==> pending && i == |t.root| - 1)
    && t.root[i].internal.nextNode in t.nodes && t.root[i].internal.nextNode <= LBA_MAX
    && t.nodes[t.root[i].internal.nextNode] == AsEntries(t.leaves[t.cuts[i]..t.cuts[i + 1]])
    && t.root[i].internal.block == KeyAt(t.leaves, t.cuts[i])
  }

  ghost predicate OwnNodes(root: seq<Entry>) {
    forall i, j :: 0 <= i < j < |root| && root[i].InternalEntry? && root[j].InternalEntry? ==>
      root[i].internal.nextNode != root[j].internal.nextNode
  }

  ghost predicate ShapeOk(t: Shape, max: nat, pending: bool) {
    && Chained(t.leaves) && t.depth <= 1 && |t.root| <= ROOT_MAX
    && (t.depth == 0 ==> t.root == AsEntries(t.leaves) && !pending)
    && (t.depth == 1 ==>
          && |t.root| >= 1 && |t.cuts| == |t.root| + 1 && t.cuts[0] == 0 && t.cuts[|t.root|] == |t.leaves|
          && t.leaves != [] && OwnNodes(t.root)
          && (forall i :: 0 <= i < |t.root| ==> NodeOk(t, i, max, pending))
          && (pending ==> t.cuts[|t.root| - 1] == |t.leaves|))
  }

  /** A leaf that is short enough for its place comes back as written. */
  lemma {:induction false} StoredKeeps(l: Leaf, root: bool)
    requires Fits(LeafEntry(l)) && l.isInit && l.len <= if root then 0x7fff else 0x8000
    ensures Stored(LeafEntry(l), root) == LeafEntry(l)
  {
  }

  // ---- steps ---------------------------------------------------------------------------------------

  /** A flat tree takes one more leaf. */
  lemma {:induction false} RootAppend(t: Shape, max: nat, n: Leaf)
    requires ShapeOk(t, max, false) && t.depth == 0 && |t.root| < ROOT_MAX && NextRun(t.leaves, n)
    ensures ShapeOk(t.(root := t.root + [LeafEntry(n)], leaves := t.leaves + [n]), max, false)
  {
    AppendedChained(t.leaves, n);
  }

  lemma {:induction false} RootMerge(t: Shape, max: nat, n: Leaf)
    requires ShapeOk(t, max, false) && t.depth == 0 && NextRun(t.leaves, n)
    requires t.leaves != [] && Merges(t.leaves[|t.leaves| - 1], n)
    ensures ShapeOk(t.(root := t.root[|t.root| - 1 := LeafEntry(Grown(t.leaves[|t.leaves| - 1], n))],
                       leaves := Appended(t.leaves, n)), max, false)
  {
    AppendedChained(t.leaves, n);
  }

  /** The tree after its last node has got other leaves. */
  function WithLast(t: Shape, leaves: seq<Leaf>, root: seq<Entry>): Shape
    requires t.depth == 1 && 1 <= |t.root| == |t.cuts| - 1 && t.root[|t.root| - 1].InternalEntry?
    requires t.cuts[|t.root| - 1] <= |leaves|
  {
    var i := |t.root| - 1;
    t.(root := root, nodes := t.nodes[t.root[i].internal.nextNode := AsEntries(leaves[t.cuts[i]..])],
       leaves := leaves, cuts := t.cuts[..i + 1] + [|leaves|])
  }

  /** The last node takes one more leaf, or its last leaf grows. */
  lemma {:induction false} NodeChange(t: Shape, max: nat, pending: bool, leaves: seq<Leaf>)
    requires ShapeOk(t, max, pending) && t.depth == 1 && Chained(leaves)
    requires var c := t.cuts[|t.root| - 1]; c < |leaves| && c <= |t.leaves| && |leaves| - c <= max
    requires forall j :: 0 <= j <= t.cuts[|t.root| - 1] ==> KeyAt(leaves, j) == KeyAt(t.leaves, j)
    requires leaves[..t.cuts[|t.root| - 1]] == t.leaves[..t.cuts[|t.root| - 1]]
    ensures t.root[|t.root| - 1].InternalEntry?
    ensures ShapeOk(WithLast(t, leaves, t.root), max, false)
  {
    var last := |t.root| - 1;
    assert NodeOk(t, last, max, pending);
    var t' := WithLast(t, leaves, t.root);
    forall i | 0 <= i < |t'.root|
      ensures NodeOk(t', i, max, false)
    {
      assert NodeOk(t, i, max, pending);
      if i < last {
        CutsMonotone(t, max, pending, i + 1, last);
        assert leaves[t.cuts[i]..t.cuts[i + 1]] == leaves[..t.cuts[last]][t.cuts[i]..t.cuts[i + 1]];
        assert t.leaves[t.cuts[i]..t.cuts[i + 1]] == t.leaves[..t.cuts[last]][t.cuts[i]..t.cuts[i + 1]];
      } else {
        assert leaves[t.cuts[last]..|leaves|] == leaves[t.cuts[last]..];
      }
    }
  }

  lemma {:induction false} CutsMonotone(t: Shape, max: nat, pending: bool, i: nat, j: nat)
    requires ShapeOk(t, max, pending) && t.depth == 1 && i <= j < |t.cuts|
    ensures t.cuts[i] <= t.cuts[j]
    decreases j
  {
    if i < j {
      assert NodeOk(t, j - 1, max, pending);
      CutsMonotone(t, max, pending, i, j - 1);
    }
  }

  lemma {:induction false} NodeAppend(t: Shape, max: nat, pending: bool, n: Leaf)
    requires ShapeOk(t, max, pending) && t.depth == 1 && NextRun(t.leaves, n)
    requires |t.leaves| - t.cuts[|t.root| - 1] < max
    ensures t.cuts[|t.root| - 1] <= |t.leaves|
    ensures t.root[|t.root| - 1].InternalEntry? && t.root[|t.root| - 1].internal.nextNode in t.nodes
    ensures ShapeOk(WithLast(t, t.leaves + [n], t.root), max, false)
    ensures AsEntries((t.leaves + [n])[t.cuts[|t.root| - 1]..])
         == t.nodes[t.root[|t.root| - 1].internal.nextNode] + [LeafEntry(n)]
  {
    var last := |t.root| - 1;
    assert NodeOk(t, last, max, pending);
    AppendedChained(t.leaves, n);
    NodeChange(t, max, pending, t.leaves + [n]);
    assert t.leaves[t.cuts[last]..|t.leaves|] == t.leaves[t.cuts[last]..];
    assert (t.leaves + [n])[t.cuts[last]..] == t.leaves[t.cuts[last]..] + [n];
  }

  lemma {:induction false} NodeMerge(t: Shape, max: nat, n: Leaf)
    requires ShapeOk(t, max, false) && t.depth == 1 && NextRun(t.leaves, n) && Merges(t.leaves[|t.leaves| - 1], n)
    ensures t.cuts[|t.root| - 1] < |t.leaves| == |Appended(t.leaves, n)|
    ensures t.root[|t.root| - 1].InternalEntry? && t.root[|t.root| - 1].internal.nextNode in t.nodes
    ensures ShapeOk(WithLast(t, Appended(t.leaves, n), t.root), max, false)
    ensures var node := t.nodes[t.root[|t.root| - 1].internal.nextNode];
            && node != [] && node[|node| - 1] == LeafEntry(t.leaves[|t.leaves| - 1])
            && AsEntries(Appended(t.leaves, n)[t.cuts[|t.root| - 1]..])
               == node[|node| - 1 := LeafEntry(Grown(t.leaves[|t.leaves| - 1], n))]
  {
    var last := |t.root| - 1;
    assert NodeOk(t, last, max, false);
    AppendedChained(t.leaves, n);
    NodeChange(t, max, false, Appended(t.leaves, n));
    var c, r := t.cuts[last], Appended(t.leaves, n);
    var tail := t.leaves[c..|t.leaves|];
    assert r[c..] == tail[|tail| - 1 := Grown(t.leaves[|t.leaves| - 1], n)];
    assert AsEntries(r[c..]) == AsEntries(tail)[|tail| - 1 := LeafEntry(Grown(t.leaves[|t.leaves| - 1], n))];
  }

  /** `grow_extent` on a full flat tree: its leaves move to one node. */
  lemma {:induction false} GrowOk(t: Shape, max: nat, lba: nat)
    requires ShapeOk(t, max, false) && t.depth == 0 && t.leaves != [] && |t.leaves| <= max && lba <= LBA_MAX
    ensures ShapeOk(Shape(1, [InternalEntry(Internal(t.leaves[0].block, lba))],
                          t.nodes[lba := AsEntries(t.leaves)], t.leaves, [0, |t.leaves|]), max, false)
  {
    var t' := Shape(1, [InternalEntry(Internal(t.leaves[0].block, lba))],
                    t.nodes[lba := AsEntries(t.leaves)], t.leaves, [0, |t.leaves|]);
    assert t.leaves[0..|t.leaves|] == t.leaves;
    assert NodeOk(t', 0, max, false);
  }

  /** `split_at` behind the last leaf: an empty node behind the others. */
  lemma {:induction false} SplitOk(t: Shape, max: nat, lba: nat)
    requires ShapeOk(t, max, false) && t.depth == 1 && |t.root| < ROOT_MAX && lba !in t.nodes && lba <= LBA_MAX
    ensures ShapeOk(t.(root := t.root + [InternalEntry(Internal(End(t.leaves), lba))],
                       nodes := t.nodes[lba := []], cuts := t.cuts + [|t.leaves|]), max, true)
  {
    var t' := t.(root := t.root + [InternalEntry(Internal(End(t.leaves), lba))],
                 nodes := t.nodes[lba := []], cuts := t.cuts + [|t.leaves|]);
    forall i | 0 <= i < |t'.root|
      ensures NodeOk(t', i, max, true)
    {
      if i < |t.root| {
        assert NodeOk(t, i, max, false);
      } else {
        assert t.leaves[|t.leaves|..|t.leaves|] == [];
      }
    }
    forall i | 0 <= i < |t.root|
      ensures t.root[i].InternalEntry? && t.root[i].internal.nextNode != lba
    {
      assert NodeOk(t, i, max, false);
    }
  }

  // ---- searching -------------------------------------------------------------------------------------

  /** `binary_search` returns the last entry that starts at or before fba. */
  ghost predicate FloorEntry(entries: seq<Entry>, i: int, fba: nat) {
    && 0 <= i < |entries| && FirstBlock(entries[i]) <= fba
    && (i + 1 < |entries| ==> fba < FirstBlock(entries[i + 1]))
  }

  ghost predicate SortedKeys(entries: seq<Entry>) {
    forall i, j :: 0 <= i < j < |entries| ==> FirstBlock(entries[i]) < FirstBlock(entries[j])
  }

  lemma {:induction false} LeavesSorted(leaves: seq<Leaf>, a: nat, b: nat)
    requires Chained(leaves) && a <= b <= |leaves|
    ensures SortedKeys(AsEntries(leaves[a..b]))
  {
    forall i, j | 0 <= i < j < |leaves[a..b]|
      ensures leaves[a..b][i].block < leaves[a..b][j].block
    {
      ChainedMonotone(leaves, a + i, a + j);
      assert RunOk(leaves, a + i);
    }
  }

  lemma {:induction false} RootSorted(t: Shape, max: nat)
    requires ShapeOk(t, max, false)
    ensures SortedKeys(t.root) && (t.root != [] ==> FirstBlock(t.root[0]) == 0)
    ensures t.root == [] <==> t.leaves == []
  {
    if t.depth == 0 {
      LeavesSorted(t.leaves, 0, |t.leaves|);
      assert t.leaves[0..|t.leaves|] == t.leaves;
      if t.leaves != [] { assert RunOk(t.leaves, 0); }
    } else {
      assert NodeOk(t, 0, max, false) && RunOk(t.leaves, 0);
      forall i, j | 0 <= i < j < |t.root|
        ensures FirstBlock(t.root[i]) < FirstBlock(t.root[j])
      {
        assert NodeOk(t, i, max, false) && NodeOk(t, j, max, false);
        CutsMonotone(t, max, false, i + 1, j);
        ChainedMonotone(t.leaves, t.cuts[i], t.cuts[j]);
        assert RunOk(t.leaves, t.cuts[i]);
      }
    }
  }

  /** Main result: the leaf reached through the floor of the root and the floor of its node is the
      floor among all leaves. */
  lemma {:induction false} TwoLevelFloor(t: Shape, max: nat, i: nat, j: nat, fba: nat)
    requires ShapeOk(t, max, false) && t.depth == 1 && FloorEntry(t.root, i, fba)
    requires t.root[i].InternalEntry? && t.root[i].internal.nextNode in t.nodes
    requires FloorEntry(t.nodes[t.root[i].internal.nextNode], j, fba)
    ensures t.cuts[i] + j < |t.leaves| && IsFloor(t.leaves, t.cuts[i] + j, fba)
    ensures t.nodes[t.root[i].internal.nextNode][j] == LeafEntry(t.leaves[t.cuts[i] + j])
  {
    assert NodeOk(t, i, max, false);
    var node := t.nodes[t.root[i].internal.nextNode];
    var k := t.cuts[i] + j;
    assert t.leaves[t.cuts[i]..t.cuts[i + 1]][j] == t.leaves[k];
    if j + 1 < |node| {
      assert t.leaves[t.cuts[i]..t.cuts[i + 1]][j + 1] == t.leaves[k + 1];
    } else if i + 1 < |t.root| {
      assert NodeOk(t, i + 1, max, false);
    }
  }

  lemma {:induction false} NodeSorted(t: Shape, max: nat, i: nat, fba: nat)
    requires ShapeOk(t, max, false) && t.depth == 1 && FloorEntry(t.root, i, fba)
    ensures t.root[i].InternalEntry? && t.root[i].internal.nextNode in t.nodes
    ensures var node := t.nodes[t.root[i].internal.nextNode];
            SortedKeys(node) && node != [] && FirstBlock(node[0]) <= fba
  {
    assert NodeOk(t, i, max, false);
    LeavesSorted(t.leaves, t.cuts[i], t.cuts[i + 1]);
  }
}
