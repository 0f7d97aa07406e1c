/** The extent tree of a file as an object: lookups through the tree and through the cache, and appends
    at the end (src/inode/extent/mod.rs, src/inode/extent/path.rs, src/inode/extent/cursor.rs). */
module ExtentTree {
  import opened Wrappers
  import opened ByteRw
  import opened ExtentCodec
  import opened ExtentShape

  // A node is here the list of its entries; module ExtentCodec ties such a list to the bytes.

  /** A place in the tree: the index in the root, then for each level below it the node and the index
      in it, and the leaf that was taken from the cache instead. */
  datatype Path = Path(rootIdx: Option<nat>, leafs: seq<(nat, Option<nat>)>, cache: Option<Leaf>)

  datatype Addressing = Initialized(lba: nat) | Uninitialized

  /** What an append comes to.  TooDeep: four full nodes, and the split below the second level is a
      panic. */
  datatype Outcome = Done | TooDeep

  function Get(entries: seq<Entry>, i: Option<nat>): Option<Entry> {
    if i.Some? && i.value < |entries| then Some(entries[i.value]) else None
  }

  /** Main result: `binary_search` finds the last entry that starts at or before fba.  A search below
      the first key is not ok: the source steps below index 0 there. */
  method BinarySearch(entries: seq<Entry>, fba: nat) returns (ok: bool, r: Option<nat>)
    requires SortedKeys(entries)
    ensures ok <==> entries == [] || FirstBlock(entries[0]) <= fba
    ensures ok ==> (r.None? <==> entries == [])
    ensures ok && r.Some? ==> FloorEntry(entries, r.value, fba)
  {
    if |entries| > 0 {
      var l, r := 0, |entries| - 1;
      while l <= r
        invariant 0 <= l <= r + 1 <= |entries| && r >= 0
        invariant forall j :: 0 <= j < l ==> FirstBlock(entries[j]) <= fba
        invariant forall j :: r < j < |entries| ==> fba < FirstBlock(entries[j])
        decreases r - l + 1
      {
        var m := l + (r - l) / 2;
        if fba < FirstBlock(entries[m]) {
          if m == 0 { return false, None; }
          r := m - 1;
        } else {
          l := m + 1;
        }
      }
      return true, Some(l - 1);
    } else {
      return true, None;
    }
  }

  class Tree {
    /** Entries that fit in a node: (BLK_SIZE - 16) / 12. */
    const maxNode: nat
    var depth: nat
    var root: seq<Entry>
    var nodes: map<nat, seq<Entry>>
    var cache: Option<Leaf>
    ghost var leaves: seq<Leaf>
    ghost var cuts: seq<nat>
    /** The plain list of the runs that have been appended. */
    ghost var runs: seq<Leaf>

    ghost function S(): Shape
      reads this
    {
      Shape(depth, root, nodes, leaves, cuts)
    }

    /** The tree is well-formed, has no leaves that could be one, and gives every file block the answer of
        the plain list; the cached leaf, if there is one, agrees with it too. */
    ghost predicate Valid()
      reads this
    {
      && maxNode >= 84 && ShapeOk(S(), maxNode, false) && NoneJoin(leaves)
      && Chained(runs) && End(leaves) == End(runs)
      && (forall fba :: Lookup(leaves, fba) == Lookup(runs, fba))
      && CacheOk(cache, runs)
    }

    /** `default`: an empty tree. */
    constructor (maxNode: nat)
      requires maxNode >= 84
      ensures Valid() && runs == [] && this.maxNode == maxNode
    {
      this.maxNode := maxNode;
      depth, root, nodes, cache := 0, [], map[], None;
      leaves, cuts, runs := [], [], [];
    }

    /** `get_leaf`. */
    function GetLeaf(p: Path): Option<Leaf>
      reads this
    {
      if p.cache.Some? then p.cache
      else
        var en := if p.leafs == [] then Get(root, p.rootIdx)
                  else
                    var (node, idx) := p.leafs[|p.leafs| - 1];
                    if node in nodes then Get(nodes[node], idx) else None;
        if en.Some? && en.value.LeafEntry? then Some(en.value.leaf) else None
    }

    /** `current` of both cursors. */
    function Current(p: Path, fba: nat): Option<Addressing>
      reads this
    {
      var l := GetLeaf(p);
      if l.Some? && Covers(l.value, fba) then
        Some(if l.value.isInit then Initialized(l.value.start + (fba - l.value.block)) else Uninitialized)
      else None
    }

    /** Main result: `load` reaches the last leaf that starts at or before fba, over both levels. */
    method Load(fba: nat) returns (p: Path)
      requires ShapeOk(S(), maxNode, false)
      ensures p.cache.None?
      ensures leaves == [] ==> GetLeaf(p).None? && p.rootIdx.None?
      ensures leaves != [] ==> exists k :: IsFloor(leaves, k, fba) && GetLeaf(p) == Some(leaves[k])
      ensures PathOk(S(), p, fba)
    {
      RootSorted(S(), maxNode);
      var ok, rootIdx := BinarySearch(root, fba);
      assert ok;
      var leafs: seq<(nat, Option<nat>)> := [];
      var lastNode := Get(root, rootIdx);
      if depth == 1 { NodeSorted(S(), maxNode, rootIdx.value, fba); }
      var i := 0;
      while i < depth
        invariant 0 <= i <= depth <= 1
        invariant i == 0 ==> leafs == [] && lastNode == Get(root, rootIdx)
        invariant i == 1 ==> |leafs| == 1 && PathOk(S(), Path(rootIdx, leafs, None), fba)
      {
        if lastNode.Some? {
          if lastNode.value.LeafEntry? {
            assert false;
          } else {
            var lba := lastNode.value.internal.nextNode;
            var found, index := BinarySearch(nodes[lba], fba);
            assert found;
            lastNode := Get(nodes[lba], index);
            leafs := leafs + [(lba, index)];
          }
        } else {
          break;
        }
        i := i + 1;
      }
      p := Path(rootIdx, leafs, None);
      PathLeaf(S(), maxNode, p, fba);
    }

    /** Main result: a read, through the cache or through the tree, gives the answer of the plain list
        for every file block.  The cursor leaves its leaf in the cache when it is dropped. */
    method Read(fba: nat) returns (r: Option<Addressing>)
      requires Valid()
      modifies this`cache
      ensures Valid() && runs == old(runs)
      ensures r == match Lookup(runs, fba) case None => None case Some(lba) => Some(Initialized(lba))
      ensures r.Some? ==> cache.Some? && Covers(cache.value, fba)
    {
      hide NoneJoin;
      var p: Path;
      if cache.Some? && Covers(cache.value, fba) {
        p := Path(None, [], cache);
      } else {
        p := Load(fba);
        if leaves != [] {
          ghost var k :| IsFloor(leaves, k, fba) && GetLeaf(p) == Some(leaves[k]);
          FloorDecides(leaves, k, fba);
          LeafInRuns(leaves, runs, k);
        }
      }
      r := Current(p, fba);
      DropCursor(p);
    }

    /** The cursor's `drop` writes its leaf to the cache. */
    method DropCursor(p: Path)
      modifies this`cache
      ensures cache == if old(GetLeaf(p)).Some? then old(GetLeaf(p)) else old(cache)
    {
      var leaf := GetLeaf(p);
      if leaf.Some? {
        cache := leaf;
      }
    }

    /** `load_last`: the path to the last leaf, and the last file block. */
    method LoadLast() returns (p: Path, last: Option<nat>)
      requires ShapeOk(S(), maxNode, false)
      ensures AtEnd(S(), p) && (last.None? <==> leaves == [])
      ensures last.Some? ==> last.value + 1 == End(leaves) && GetLeaf(p) == Some(leaves[|leaves| - 1])
    {
      RootSorted(S(), maxNode);
      if |root| == 0 {
        return Path(None, [], None), None;
      }
      LastEntries(S(), maxNode, false);
      var rootIndex := |root| - 1;
      var lastNode := Get(root, Some(rootIndex));
      var leafs: seq<(nat, Option<nat>)> := [];
      var i := 0;
      while i < depth
        invariant 0 <= i <= depth <= 1
        invariant i == 0 ==> leafs == [] && lastNode == Get(root, Some(rootIndex))
        invariant i == 1 ==> AtEnd(S(), Path(Some(rootIndex), leafs, None)) && leafs != []
        invariant i == 1 ==> lastNode == Some(LeafEntry(leaves[|leaves| - 1]))
      {
        if lastNode.value.LeafEntry? {
          assert false;
        } else {
          var lba := lastNode.value.internal.nextNode;
          var index: nat := |nodes[lba]| - 1;
          lastNode := Get(nodes[lba], Some(index));
          leafs := leafs + [(lba, Some(index))];
        }
        i := i + 1;
      }
      assert RunOk(leaves, |leaves| - 1);
      return Path(Some(rootIndex), leafs, None), Some(lastNode.value.leaf.block + lastNode.value.leaf.len - 1);
    }

    /** `insert_leaf` on a path to the end: the last leaf grows, or the new one is put behind it, or
        the node is full and nothing changes. */
    method InsertLeaf(p: Path, n: Leaf, ghost pending: bool) returns (rest: Option<Leaf>, q: Path)
      requires ShapeOk(S(), maxNode, pending) && AtEnd(S(), p) && NextRun(leaves, n)
      requires maxNode > 0 && (pending ==> !Merges(leaves[|leaves| - 1], n))
      requires RootTakes(S(), n)
      modifies this`root, this`nodes, this`leaves, this`cuts
      ensures rest.Some? ==> rest == Some(n) && S() == old(S()) && q == p && !pending
      ensures rest.Some? ==> leaves != [] && !Merges(leaves[|leaves| - 1], n)
      ensures rest.Some? ==> if depth == 0 then |root| == ROOT_MAX else LastFull(S(), maxNode)
      ensures old(NoPlace(S(), maxNode, n)) && !pending ==> rest.Some?
      ensures rest.None? ==> ShapeOk(S(), maxNode, false) && AtEnd(S(), q)
      ensures rest.None? ==> leaves == Appended(old(leaves), n) && GetLeaf(q) == Some(leaves[|leaves| - 1])
      ensures Continues(old(leaves), n.start, n.len) ==> rest.None? && |leaves| == |old(leaves)|
    {
      q := p;
      if leaves != [] { assert RunOk(leaves, |leaves| - 1); }
      var leaf := GetLeaf(p);
      EndLeaf(S(), maxNode, pending, p);
      if leaf.Some? && leaf.value.block == n.block {
        assert false;
      }
      if p.leafs == [] {
        rest, q := InsertInRoot(p, n, leaf);
      } else {
        rest, q := InsertInNode(p, n, leaf, pending);
      }
    }

    /** The case that the root holds the leaves. */
    method InsertInRoot(p: Path, n: Leaf, leaf: Option<Leaf>) returns (rest: Option<Leaf>, q: Path)
      requires ShapeOk(S(), maxNode, false) && depth == 0 && AtEnd(S(), p) && NextRun(leaves, n)
      requires RootTakes(S(), n) && leaf == GetLeaf(p)
      requires leaf == if leaves == [] then None else Some(leaves[|leaves| - 1])
      requires leaf.Some? ==> leaf.value.block < n.block
      modifies this`root, this`nodes, this`leaves, this`cuts
      ensures rest.Some? ==> rest == Some(n) && S() == old(S()) && q == p && |root| == ROOT_MAX
      ensures rest.Some? ==> leaves != [] && !Merges(leaves[|leaves| - 1], n)
      ensures rest.None? ==> ShapeOk(S(), maxNode, false) && AtEnd(S(), q)
      ensures rest.None? ==> leaves == Appended(old(leaves), n) && GetLeaf(q) == Some(leaves[|leaves| - 1])
    {
      q := p;
      var en := Get(root, p.rootIdx);
      if en.Some? && en.value.LeafEntry? && Merges(en.value.leaf, n) {
        RootMerge(S(), maxNode, n);
        GrownFits(leaves, n);
        StoredKeeps(Grown(en.value.leaf, n), true);
        root := root[p.rootIdx.value := Stored(LeafEntry(Grown(en.value.leaf, n)), true)];
        leaves := Appended(leaves, n);
        return None, q;
      }
      if |root| == ROOT_MAX {
        return Some(n), q;
      }
      RootAppend(S(), maxNode, n);
      StoredKeeps(n, true);
      var index := p.rootIdx;
      if leaf.None? {
        index := Some(0);
      } else if n.block > leaf.value.block {
        index := Some(index.value + 1);
      }
      assert index.value == |root|;
      root := root + [Stored(LeafEntry(n), true)];
      leaves := leaves + [n];
      q := p.(rootIdx := index);
      return None, q;
    }

    /** The case of a node below the root.  In an empty node the new leaf comes first, and its block
        becomes the key in the root. */
    method InsertInNode(p: Path, n: Leaf, leaf: Option<Leaf>, ghost pending: bool) returns (rest: Option<Leaf>, q: Path)
      requires ShapeOk(S(), maxNode, pending) && depth == 1 && AtEnd(S(), p) && NextRun(leaves, n) && maxNode > 0
      requires pending ==> !Merges(leaves[|leaves| - 1], n)
      requires leaf == if pending then None else Some(leaves[|leaves| - 1])
      requires leaf.Some? ==> leaf.value.block < n.block
      modifies this`root, this`nodes, this`leaves, this`cuts
      ensures rest.Some? ==> rest == Some(n) && S() == old(S()) && q == p && !pending && LastFull(S(), maxNode)
      ensures old(NoPlace(S(), maxNode, n)) && !pending ==> rest.Some?
      ensures rest.Some? ==> leaves != [] && !Merges(leaves[|leaves| - 1], n)
      ensures rest.None? ==> ShapeOk(S(), maxNode, false) && AtEnd(S(), q)
      ensures rest.None? ==> leaves == Appended(old(leaves), n) && GetLeaf(q) == Some(leaves[|leaves| - 1])
    {
      hide Chained;
      hide AsEntries;
      hide NodeOk;
      hide OwnNodes;
      q := p;
      LastEntries(S(), maxNode, pending);
      var (lba, idx) := p.leafs[0];
      var en := Get(nodes[lba], idx);
      if en.Some? && en.value.LeafEntry? && Merges(en.value.leaf, n) {
        GrowLast(p, n, en.value.leaf);
        return None, q;
      }
      if |nodes[lba]| == maxNode {
        return Some(n), q;
      }
      q := AddLast(p, n, leaf, pending);
      return None, q;
    }

    /** The last leaf of the last node takes the run as well. */
    method GrowLast(p: Path, n: Leaf, last: Leaf)
      requires ShapeOk(S(), maxNode, false) && depth == 1 && AtEnd(S(), p) && NextRun(leaves, n) && maxNode > 0
      requires Get(nodes[p.leafs[0].0], p.leafs[0].1) == Some(LeafEntry(last)) && Merges(last, n)
      modifies this`nodes, this`leaves, this`cuts
      ensures ShapeOk(S(), maxNode, false) && AtEnd(S(), p)
      ensures leaves == Appended(old(leaves), n) && GetLeaf(p) == Some(leaves[|leaves| - 1])
    {
      hide Chained;
      hide AsEntries;
      hide NodeOk;
      hide OwnNodes;
      LastEntries(S(), maxNode, false);
      NodeMerge(S(), maxNode, n);
      GrownFits(leaves, n);
      StoredKeeps(Grown(last, n), false);
      var (lba, idx) := p.leafs[0];
      nodes := nodes[lba := nodes[lba][idx.value := Stored(LeafEntry(Grown(last, n)), false)]];
      leaves := Appended(leaves, n);
      cuts := cuts[..|root|] + [|leaves|];
    }

    /** A leaf more at the end of the last node. */
    method AddLast(p: Path, n: Leaf, leaf: Option<Leaf>, ghost pending: bool) returns (q: Path)
      requires ShapeOk(S(), maxNode, pending) && depth == 1 && AtEnd(S(), p) && NextRun(leaves, n) && maxNode > 0
      requires !Merges(leaves[|leaves| - 1], n) && |nodes[p.leafs[0].0]| < maxNode
      requires leaf == if pending then None else Some(leaves[|leaves| - 1])
      requires leaf.Some? ==> leaf.value.block < n.block
      modifies this`root, this`nodes, this`leaves, this`cuts
      ensures ShapeOk(S(), maxNode, false) && AtEnd(S(), q)
      ensures leaves == old(leaves) + [n] && GetLeaf(q) == Some(n)
    {
      hide Chained;
      hide AsEntries;
      hide NodeOk;
      hide OwnNodes;
      LastEntries(S(), maxNode, pending);
      var (lba, idx) := p.leafs[0];
      var node := nodes[lba];
      NodeAppend(S(), maxNode, pending, n);
      StoredKeeps(n, false);
      var index := idx;
      if leaf.None? {
        index := Some(0);
      } else if n.block > leaf.value.block {
        index := Some(index.value + 1);
      }
      assert index.value == |node|;
      nodes := nodes[lba := node + [Stored(LeafEntry(n), false)]];
      if index.value == 0 {
        var prev := root[p.rootIdx.value].internal;
        KeyKept(S(), n);
        root := root[p.rootIdx.value := Stored(InternalEntry(Internal(n.block, prev.nextNode)), true)];
      }
      leaves := leaves + [n];
      cuts := cuts[..|root|] + [|leaves|];
      q := p.(leafs := [(lba, index)]);
    }

    /** `grow_extent` on a full flat tree: the entries of the root move to a new node below it. */
    method GrowExtent(lba: nat)
      requires ShapeOk(S(), maxNode, false) && depth == 0 && |root| == ROOT_MAX
      requires lba !in nodes && lba <= LBA_MAX && maxNode > ROOT_MAX
      modifies this`depth, this`root, this`nodes, this`cuts
      ensures ShapeOk(S(), maxNode, false) && depth == 1 && leaves == old(leaves) && RoomAtEnd(S(), maxNode)
    {
      GrowOk(S(), maxNode, lba);
      ghost var t := S();
      var node := [];
      var i := 0;
      while i < |root|
        invariant 0 <= i <= |root| && node == root[..i] && S() == t
      {
        assert RunOk(t.leaves, i);
        StoredKeeps(root[i].leaf, false);
        node := node + [Stored(root[i], false)];
        i := i + 1;
      }
      assert node == root;
      assert RunOk(leaves, 0);
      root := [];
      depth := depth + 1;
      root := [Stored(InternalEntry(Internal(FirstBlock(node[0]), lba)), true)];
      nodes := nodes[lba := node];
      cuts := [0, |leaves|];
    }

    /** `insert_internal` into the root. */
    method InsertInternal(p: Path, ext: Internal) returns (ok: bool)
      requires AtEnd(S(), p) && root != [] && Fits(InternalEntry(ext))
      requires ext.block > FirstBlock(root[|root| - 1])
      modifies this`root
      ensures ok <==> |old(root)| != ROOT_MAX
      ensures root == if ok then old(root) + [InternalEntry(ext)] else old(root)
    {
      if |root| == ROOT_MAX {
        return false;
      }
      var idx := p.rootIdx;
      var loc := 0;
      if idx.Some? {
        loc := idx.value;
        if ext.block > FirstBlock(root[idx.value]) {
          loc := loc + 1;
        }
      }
      assert loc == |root|;
      root := root + [Stored(InternalEntry(ext), true)];
      return true;
    }

    /** `split_at` for the node below the root, on a path to its end: a new node that takes the
        entries behind the place of the path, of which there are none.  The result says whether the
        new leaf belongs there. */
    method SplitAt(p: Path, n: Leaf, lba: nat) returns (needFix: bool)
      requires ShapeOk(S(), maxNode, false) && depth == 1 && AtEnd(S(), p) && LastFull(S(), maxNode)
      requires |root| < ROOT_MAX && lba !in nodes && lba <= LBA_MAX && NextRun(leaves, n) && maxNode > 0
      modifies this`root, this`nodes, this`cuts
      ensures ShapeOk(S(), maxNode, true) && leaves == old(leaves) && needFix
      ensures |root| == |old(root)| + 1 && root[|root| - 1] == InternalEntry(Internal(n.block, lba))
      ensures lba in nodes && nodes[lba] == []
    {
      SplitOk(S(), maxNode, lba);
      LastEntries(S(), maxNode, false);
      LastKey(S(), maxNode);
      var (full, idx) := p.leafs[0];
      var node := nodes[full];
      var insertIdx := 0;
      if idx == Some(maxNode - 1) {
        insertIdx := n.block;
      } else {
        assert false;
      }
      // The entries behind the place of the path are copied to the new node.
      var base := idx.value;
      var moved := node[base + 1..];
      nodes := nodes[full := node[..base + 1]][lba := moved];
      assert node[..base + 1] == node;
      assert moved == [] && nodes == old(nodes)[lba := []];
      var ok := InsertInternal(p, Internal(insertIdx, lba));
      cuts := cuts + [|leaves|];
      needFix := n.block >= insertIdx;
    }

    /** `do_insert`: inserts, after a split if one is needed, or grows the tree and hands the leaf
        back. */
    method DoInsert(p: Path, n: Leaf, lba: nat) returns (rest: Option<Leaf>, q: Path, out: Outcome)
      requires ShapeOk(S(), maxNode, false) && AtEnd(S(), p) && NextRun(leaves, n) && RootTakes(S(), n)
      requires maxNode > ROOT_MAX && (RoomAtEnd(S(), maxNode) || (lba !in nodes && lba <= LBA_MAX))
      modifies this`depth, this`root, this`nodes, this`leaves, this`cuts
      ensures out.TooDeep? <==> NoPlace(old(S()), maxNode, n)
      ensures out.TooDeep? ==> S() == old(S())
      ensures out.Done? ==> ShapeOk(S(), maxNode, false)
      ensures out.Done? && rest.None? ==> leaves == Appended(old(leaves), n) && GetLeaf(q) == Some(leaves[|leaves| - 1])
      ensures out.Done? && rest.Some? ==>
                rest == Some(n) && leaves == old(leaves) && !old(RoomAtEnd(S(), maxNode)) && RoomAtEnd(S(), maxNode)
      ensures out.Done? && rest.Some? ==> leaves != [] && !Merges(leaves[|leaves| - 1], n)
    {
      q := p;
      ghost var pending := false;
      while true
        invariant ShapeOk(S(), maxNode, pending) && AtEnd(S(), q) && RootTakes(S(), n)
        invariant leaves == old(leaves) && (!pending ==> S() == old(S()))
        invariant pending ==> depth == 1 && !Merges(leaves[|leaves| - 1], n) && !NoPlace(old(S()), maxNode, n)
        decreases !pending
      {
        rest, q := InsertLeaf(q, n, pending);
        if rest.None? {
          return None, q, Done;
        }
        // The innermost node that is not full.  The last one of the path is full here.
        var level: Option<int> := None;
        if q.leafs != [] && |nodes[q.leafs[0].0]| != maxNode {
          level := Some(1);
        } else if |root| != ROOT_MAX {
          level := Some(0);
        }
        if level.None? {
          if depth == 1 {
            return Some(n), q, TooDeep;
          }
          GrowExtent(lba);
          return Some(n), q, Done;
        }
        var needFix := SplitAt(q, n, lba);
        if needFix {
          var node, idx := nodes[lba], None;
          if |node| != 0 {
            idx := Some(|node| - 1);
          }
          q := q.(rootIdx := Some(q.rootIdx.value + 1), leafs := [(lba, idx)]);
        }
        pending := true;
      }
    }

    /** `insert`: goes on until the leaf has found its place. */
    method Insert(p: Path, n: Leaf, lba: nat) returns (q: Path, out: Outcome)
      requires ShapeOk(S(), maxNode, false) && AtEnd(S(), p) && NextRun(leaves, n) && RootTakes(S(), n)
      requires maxNode > ROOT_MAX && lba !in nodes && lba <= LBA_MAX
      modifies this`depth, this`root, this`nodes, this`leaves, this`cuts
      ensures out.TooDeep? <==> NoPlace(old(S()), maxNode, n)
      ensures out.TooDeep? ==> S() == old(S())
      ensures out.Done? ==> ShapeOk(S(), maxNode, false) && leaves == Appended(old(leaves), n)
      ensures out.Done? ==> GetLeaf(q) == Some(leaves[|leaves| - 1])
    {
      var rest: Option<Leaf>;
      rest, q, out := DoInsert(p, n, lba);
      if out.Done? && rest.Some? {
        q := Load(n.block);
        EndFromLoad(S(), maxNode, q, n.block);
        rest, q, out := DoInsert(q, rest.value, lba);
      }
    }

    /** `cursor_last_mut`: the path to the end of the tree, and the first file block behind it. */
    method CursorLast() returns (p: Path, fba: nat)
      requires ShapeOk(S(), maxNode, false)
      ensures AtEnd(S(), p) && fba == End(leaves)
    {
      var last;
      p, last := LoadLast();
      fba := 0;
      if last.Some? {
        fba := last.value;
        var l := GetLeaf(p);
        fba := fba + 1;
        if !Covers(l.value, fba) {
          p := Load(fba);
          EndFromLoad(S(), maxNode, p, fba);
        }
      }
    }

    /** Main result: appending a run at the end of the file, as `cursor_last_mut` and then
        `or_allocated_many` do.  start and len are what the block allocator returned; lba is the block
        for a new node, if one is needed.  Every lookup then gives the answer of the plain list with
        the run at its end.  Only a tree of four full nodes refuses the run, and never one that continues
        the last leaf and makes it no longer than 0x8000 blocks: it becomes part of that leaf. */
    method Append(start: nat, len: nat, lba: nat) returns (r: Outcome, ghost n: Leaf)
      requires Valid() && 1 <= len <= 0x8000 && start <= LBA_MAX && End(leaves) <= U32_MAX
      requires RootTakes(S(), Leaf(End(leaves), start, len, true))
      requires lba !in nodes && lba <= LBA_MAX
      modifies this
      ensures n == Leaf(End(old(runs)), start, len, true)
      ensures r.TooDeep? <==> NoPlace(old(S()), maxNode, n)
      ensures Valid() && runs == if r.Done? then old(runs) + [n] else old(runs)
      ensures |old(root)| < 4 ==> r.Done?
      ensures Continues(old(leaves), start, len) ==> r.Done?
      ensures r.Done? ==> cache == Some(leaves[|leaves| - 1])
      ensures r.Done? ==>
                |leaves| == if Continues(old(leaves), start, len) then |old(leaves)| else |old(leaves)| + 1
    {
      hide NodeOk;
      hide OwnNodes;
      hide AsEntries;
      hide NoneJoin;
      hide Continues;
      hide Merges;
      hide Appended;
      hide NoPlace;
      hide LeafOk;
      hide Chained;
      hide RootTakes;
      hide ShapeOk;
      hide Lookup;
      hide AtEnd;
      ShapeChained(S(), maxNode);
      var p, fba := CursorLast();
      var leaf := Leaf(fba, start, len, true);
      n := leaf;
      ghost var was, wasRuns := leaves, runs;
      AppendedJoins(was, n);
      if |root| < 4 || Continues(was, start, len) { HasPlace(S(), maxNode, n); }
      var q;
      q, r := Insert(p, leaf, lba);
      if r.Done? {
        runs := runs + [n];
        RunsAgree(was, wasRuns, n, cache);
        ShapeChained(S(), maxNode);
        LeafInRuns(leaves, runs, |leaves| - 1);
        DropCursor(q);
      }
    }
  }

  // ---- what the methods use ------------------------------------------------------------------------

  /** A path to the end of the tree: the last entry of the root, and of its node. */
  ghost predicate AtEnd(t: Shape, p: Path) {
    && p.cache.None?
    && p.rootIdx == (if t.root == [] then None else Some(|t.root| - 1))
    && (t.depth == 0 ==> p.leafs == [])
    && (t.depth == 1 ==>
          && t.root != [] && |p.leafs| == 1 && t.root[|t.root| - 1].InternalEntry?
          && p.leafs[0].0 == t.root[|t.root| - 1].internal.nextNode && p.leafs[0].0 in t.nodes
          && var node := t.nodes[p.leafs[0].0]; p.leafs[0].1 == if node == [] then None else Some(|node| - 1))
  }

  ghost predicate LastFull(t: Shape, max: nat) {
    && t.depth == 1 && t.root != [] && t.root[|t.root| - 1].InternalEntry?
    && t.root[|t.root| - 1].internal.nextNode in t.nodes
    && |t.nodes[t.root[|t.root| - 1].internal.nextNode]| == max
  }

  /** In a flat tree the run must not make a leaf of 0x8000 blocks, which the root cannot hold. */
  ghost predicate RootTakes(t: Shape, n: Leaf) {
    t.depth == 0 ==>
      if t.leaves != [] && Merges(t.leaves[|t.leaves| - 1], n) then t.leaves[|t.leaves| - 1].len + n.len <= 0x7fff
      else |t.leaves| < ROOT_MAX ==> n.len <= 0x7fff
  }

  lemma {:induction false} GrownFits(leaves: seq<Leaf>, n: Leaf)
    requires Chained(leaves) && leaves != [] && Merges(leaves[|leaves| - 1], n)
    ensures Fits(LeafEntry(Grown(leaves[|leaves| - 1], n)))
  {
    assert RunOk(leaves, |leaves| - 1);
  }

  /** The last inner entry and its node: as many entries as leaves from the last cut on. */
  lemma {:induction false} LastEntries(t: Shape, max: nat, pending: bool)
    requires ShapeOk(t, max, pending)
    ensures t.depth == 0 && t.leaves != [] ==> t.root[|t.root| - 1] == LeafEntry(t.leaves[|t.leaves| - 1])
    ensures t.depth == 1 ==>
              && t.root[|t.root| - 1].InternalEntry? && t.root[|t.root| - 1].internal.nextNode in t.nodes
              && var node := t.nodes[t.root[|t.root| - 1].internal.nextNode];
                 && |node| == |t.leaves| - t.cuts[|t.root| - 1] <= max
                 && (node == [] <==> pending)
                 && (node != [] ==> node[|node| - 1] == LeafEntry(t.leaves[|t.leaves| - 1]))
                 && (node == [] ==> t.root[|t.root| - 1].internal.block == End(t.leaves))
                 && t.root[|t.root| - 1].internal.nextNode <= LBA_MAX
  {
    if t.depth == 1 {
      assert NodeOk(t, |t.root| - 1, max, pending);
    }
  }

  /** What a path to the end shows. */
  lemma {:induction false} EndLeaf(t: Shape, max: nat, pending: bool, p: Path)
    requires ShapeOk(t, max, pending) && AtEnd(t, p)
    ensures t.leaves != [] && !pending ==> Reaches(t, p, t.leaves[|t.leaves| - 1])
    ensures t.leaves == [] ==> p.leafs == [] && p.rootIdx.None?
    ensures pending ==> |p.leafs| == 1 && p.leafs[0].1.None?
    ensures t.leaves != [] ==> t.leaves[|t.leaves| - 1].block < End(t.leaves)
  {
    LastEntries(t, max, pending);
    if t.leaves != [] { assert RunOk(t.leaves, |t.leaves| - 1); }
  }

  /** Writing the new first block of a fresh node into the root changes nothing: the split has put it
      there. */
  lemma {:induction false} KeyKept(t: Shape, n: Leaf)
    requires t.depth == 1 && t.root != [] && t.root[|t.root| - 1].InternalEntry?
    requires Fits(LeafEntry(n)) && n.block == t.root[|t.root| - 1].internal.block
    requires t.root[|t.root| - 1].internal.nextNode <= LBA_MAX
    ensures var next := t.root[|t.root| - 1].internal.nextNode;
            t.root[|t.root| - 1 := Stored(InternalEntry(Internal(n.block, next)), true)] == t.root
  {
  }

  /** A cached leaf is initialised and gives the answers of the plain list. */
  ghost predicate CacheOk(cache: Option<Leaf>, runs: seq<Leaf>) {
    cache.Some? ==> LeafOk(cache.value, runs)
  }

  ghost predicate LeafOk(l: Leaf, runs: seq<Leaf>) {
    l.isInit && forall fba: nat :: Covers(l, fba) ==> Lookup(runs, fba) == Some(l.start + (fba - l.block))
  }

  lemma {:induction false} LeafInRuns(leaves: seq<Leaf>, runs: seq<Leaf>, k: nat)
    requires Chained(leaves) && k < |leaves| && forall fba :: Lookup(leaves, fba) == Lookup(runs, fba)
    ensures LeafOk(leaves[k], runs)
  {
    assert RunOk(leaves, k);
    forall fba: nat | Covers(leaves[k], fba)
      ensures Lookup(runs, fba) == Some(leaves[k].start + (fba - leaves[k].block))
    {
      if k + 1 < |leaves| { assert RunOk(leaves, k + 1); }
      FloorDecides(leaves, k, fba);
    }
  }

  /** A path that a search for fba can end in. */
  ghost predicate PathOk(t: Shape, p: Path, fba: nat) {
    && p.cache.None?
    && (p.rootIdx.None? <==> t.root == [])
    && (p.rootIdx.Some? ==> FloorEntry(t.root, p.rootIdx.value, fba))
    && (t.depth == 0 ==> p.leafs == [])
    && (t.depth == 1 ==>
          && |p.leafs| == 1 && p.rootIdx.Some? && p.leafs[0].1.Some?
          && t.root[p.rootIdx.value].InternalEntry?
          && p.leafs[0].0 == t.root[p.rootIdx.value].internal.nextNode && p.leafs[0].0 in t.nodes
          && FloorEntry(t.nodes[p.leafs[0].0], p.leafs[0].1.value, fba))
  }

  /** The path ends at this leaf. */
  ghost predicate Reaches(t: Shape, p: Path, l: Leaf) {
    if p.leafs == [] then Get(t.root, p.rootIdx) == Some(LeafEntry(l))
    else
      var (node, idx) := p.leafs[|p.leafs| - 1];
      node in t.nodes && Get(t.nodes[node], idx) == Some(LeafEntry(l))
  }

  lemma {:induction false} PathLeaf(t: Shape, max: nat, p: Path, fba: nat)
    requires ShapeOk(t, max, false) && PathOk(t, p, fba)
    ensures t.leaves == [] ==> p.rootIdx.None? && p.leafs == []
    ensures t.leaves != [] ==> exists k :: IsFloor(t.leaves, k, fba) && Reaches(t, p, t.leaves[k])
  {
    RootSorted(t, max);
    if t.leaves != [] {
      var i := p.rootIdx.value;
      if t.depth == 0 {
        assert IsFloor(t.leaves, i, fba) && Reaches(t, p, t.leaves[i]);
      } else {
        TwoLevelFloor(t, max, i, p.leafs[0].1.value, fba);
        var k := t.cuts[i] + p.leafs[0].1.value;
        assert IsFloor(t.leaves, k, fba) && Reaches(t, p, t.leaves[k]);
      }
    }
  }

  /** The last node has room for one more entry. */
  ghost predicate RoomAtEnd(t: Shape, max: nat) {
    && t.depth == 1 && t.root != [] && t.root[|t.root| - 1].InternalEntry?
    && t.root[|t.root| - 1].internal.nextNode in t.nodes
    && |t.nodes[t.root[|t.root| - 1].internal.nextNode]| < max
  }

  /** Four nodes, the last one full, and a run that does not continue the last leaf. */
  ghost predicate NoPlace(t: Shape, max: nat, n: Leaf) {
    LastFull(t, max) && |t.root| == ROOT_MAX && t.leaves != [] && !Merges(t.leaves[|t.leaves| - 1], n)
  }

  lemma {:induction false} ShapeChained(t: Shape, max: nat)
    requires ShapeOk(t, max, false)
    ensures Chained(t.leaves)
  {
  }

  lemma {:induction false} HasPlace(t: Shape, max: nat, n: Leaf)
    requires Chained(t.leaves) && NextRun(t.leaves, n) && NoneJoin(t.leaves)
    requires |t.root| < 4 || Continues(t.leaves, n.start, n.len)
    ensures !NoPlace(t, max, n)
  {
    AppendedJoins(t.leaves, n);
  }

  lemma {:induction false} LastKey(t: Shape, max: nat)
    requires ShapeOk(t, max, false) && t.depth == 1
    ensures FirstBlock(t.root[|t.root| - 1]) < End(t.leaves)
  {
    var i := |t.root| - 1;
    assert NodeOk(t, i, max, false) && RunOk(t.leaves, |t.leaves| - 1);
    if t.cuts[i] < |t.leaves| - 1 { ChainedMonotone(t.leaves, t.cuts[i], |t.leaves| - 1); }
  }

  /** A search for the block behind the end leads to the end. */
  lemma {:induction false} EndFromLoad(t: Shape, max: nat, p: Path, fba: nat)
    requires ShapeOk(t, max, false) && PathOk(t, p, fba) && fba >= End(t.leaves)
    ensures AtEnd(t, p)
  {
    if t.root != [] {
      var i := p.rootIdx.value;
      if t.depth == 0 {
        if i + 1 < |t.root| { BlockBeforeEnd(t.leaves, i + 1); }
      } else {
        if i + 1 < |t.root| {
          assert NodeOk(t, i + 1, max, false);
          BlockBeforeEnd(t.leaves, t.cuts[i + 1]);
        }
        assert NodeOk(t, i, max, false);
        var j := p.leafs[0].1.value;
        var node := t.nodes[p.leafs[0].0];
        if j + 1 < |node| {
          assert t.leaves[t.cuts[i]..t.cuts[i + 1]][j + 1] == t.leaves[t.cuts[i] + j + 1];
          BlockBeforeEnd(t.leaves, t.cuts[i] + j + 1);
        }
      }
    }
  }

  lemma {:induction false} BlockBeforeEnd(leaves: seq<Leaf>, k: nat)
    requires Chained(leaves) && k < |leaves|
    ensures leaves[k].block < End(leaves)
  {
    assert RunOk(leaves, k) && RunOk(leaves, |leaves| - 1);
    if k < |leaves| - 1 { ChainedMonotone(leaves, k, |leaves| - 1); }
  }

  /** The plain list with one more run: it agrees with the leaves, and with whatever was cached. */
  lemma {:induction false} RunsAgree(leaves: seq<Leaf>, runs: seq<Leaf>, n: Leaf, cache: Option<Leaf>)
    requires Chained(leaves) && Chained(runs) && NextRun(leaves, n) && End(leaves) == End(runs)
    requires forall fba :: Lookup(leaves, fba) == Lookup(runs, fba)
    requires CacheOk(cache, runs)
    ensures Chained(runs + [n]) && End(runs + [n]) == End(Appended(leaves, n))
    ensures forall fba :: Lookup(Appended(leaves, n), fba) == Lookup(runs + [n], fba)
    ensures CacheOk(cache, runs + [n])
  {
    AppendedChained(leaves, n);
    AppendedChained(runs, n);
    forall fba
      ensures Lookup(Appended(leaves, n), fba) == Lookup(runs + [n], fba)
    {
      AppendedAgrees(leaves, runs, n, fba);
    }
    forall fba
      ensures Lookup(runs, fba).Some? ==> Lookup(runs + [n], fba) == Lookup(runs, fba)
    {
      LookupAppend(runs, [n], fba);
    }
  }

  /** What an append writes into the root comes back as written exactly under this condition. */
  lemma {:induction false} RootTakesIff(t: Shape, max: nat, n: Leaf)
    requires ShapeOk(t, max, false) && t.depth == 0 && NextRun(t.leaves, n)
    requires |t.leaves| < ROOT_MAX || Merges(t.leaves[|t.leaves| - 1], n)
    ensures Appended(t.leaves, n) != [] && Fits(LeafEntry(Appended(t.leaves, n)[|Appended(t.leaves, n)| - 1]))
    ensures var l := LeafEntry(Appended(t.leaves, n)[|Appended(t.leaves, n)| - 1]);
            Stored(l, true) == l <==> RootTakes(t, n)
  {
    AppendedChained(t.leaves, n);
    var r := Appended(t.leaves, n);
    assert RunOk(r, |r| - 1);
    RootRoundTripIff(r[|r| - 1]);
    ReadBack(LeafEntry(r[|r| - 1]), true);
  }
}
