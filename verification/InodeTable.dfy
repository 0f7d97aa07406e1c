/** On-disk inode records, the orphan chain through them, and the inode operations of a write-back
    (src/transaction/event.rs, orphan functions in src/superblock/mod.rs). */
module InodeTable {
  import opened Wrappers

  type Ino = nat

  /** The fields of an inode record that a write-back changes.  `addresses` stands for the block
      map, which is copied as a whole. */
  datatype InodeRec = InodeRec(links: nat, dtime: nat, size: nat, blocks: nat, addresses: nat)

  /** orphaned: the in-memory map from an orphan to its predecessor and successor, 0 for none. */
  datatype InodeState = InodeState(inodes: map<Ino, InodeRec>, lastOrphan: nat,
                                   orphaned: map<Ino, (nat, nat)>)

  datatype InodeOp =
    | AddLink(ino: Ino)
    | RmLink(ino: Ino)
    | Init(ino: Ino)
    | SetSize(ino: Ino, size: nat, addresses: nat)
    | UpdateOrphanLink(pred: Ino, succ: Ino)
    | SetBlock(ino: Ino, cnt: int)

  /** blank: the record written when an inode of some type is initialised; its mode, flags and empty
      block map are not modelled further. */
  datatype Format = Format(blkSize: nat, blank: InodeRec)

  const MAX_LINKS: nat := 0xFFFF
  const U64: nat := 0x1_0000_0000_0000_0000

  // ---- the in-memory orphan map ------------------------------------------------------------------

  type OrphanMap = map<Ino, (nat, nat)>

  function AddOrphanLink(m: OrphanMap, pred: nat, cur: Ino, succ: nat): OrphanMap {
    m[cur := (pred, succ)]
  }

  function ReplaceOrphanPrevlink(m: OrphanMap, pred: nat, cur: Ino): OrphanMap {
    if cur in m then m[cur := (pred, m[cur].1)] else m
  }

  /** Takes `cur` out and joins its neighbours.  The source panics when `cur` is not in the map. */
  function RemoveOrphan(m: OrphanMap, cur: Ino): OrphanMap
    requires cur in m
  {
    var (pred, succ) := m[cur];
    var m1 := m - {cur};
    var m2 := if pred in m1 then m1[pred := (m1[pred].0, succ)] else m1;
    if succ in m2 then m2[succ := (pred, m2[succ].1)] else m2
  }

  // ---- inode operations --------------------------------------------------------------------------

  /** One operation on the inode table; None where the source panics: a missing record, or a link
      count that leaves its 16 bits.  `i_blocks` wraps around at 64 bits. */
  function ApplyOp(fmt: Format, st: InodeState, op: InodeOp): Option<InodeState> {
    match op
    case AddLink(ino) =>
      if ino in st.inodes && st.inodes[ino].links < MAX_LINKS
      then Some(st.(inodes := st.inodes[ino := st.inodes[ino].(links := st.inodes[ino].links + 1)]))
      else None
    case RmLink(ino) =>
      if ino in st.inodes && st.inodes[ino].links > 0
      then Some(DropLink(st, ino))
      else None
    case Init(ino) =>
      if ino in st.inodes
      then Some(st.(inodes := st.inodes[ino := fmt.blank.(links := 0, dtime := 0)]))
      else None
    case SetSize(ino, size, addresses) =>
      if ino in st.inodes
      then Some(st.(inodes := st.inodes[ino := st.inodes[ino].(size := size, addresses := addresses)]))
      else None
    case UpdateOrphanLink(pred, succ) =>
      if pred == 0 then Some(st.(lastOrphan := succ))
      else if pred in st.inodes
      then Some(st.(inodes := st.inodes[pred := st.inodes[pred].(dtime := succ)]))
      else None
    case SetBlock(ino, cnt) =>
      if ino in st.inodes
      then
        var blocks := (st.inodes[ino].blocks + fmt.blkSize / 512 * cnt) % U64;
        Some(st.(inodes := st.inodes[ino := st.inodes[ino].(blocks := blocks)]))
      else None
  }

  /** What dropping one link writes to the disk: when it was the last, the inode becomes the head of
      the chain. */
  function DropOnDisk(st: InodeState, ino: Ino): InodeState
    requires ino in st.inodes && st.inodes[ino].links > 0
  {
    var rec := st.inodes[ino].(links := st.inodes[ino].links - 1);
    if rec.links > 0 then st.(inodes := st.inodes[ino := rec])
    else InodeState(st.inodes[ino := rec.(dtime := st.lastOrphan)], ino, st.orphaned)
  }

  /** Drops one link; when it was the last, the inode becomes the head of the orphan list, here by two
      updates of the map that nothing comes between. */
  function DropLink(st: InodeState, ino: Ino): InodeState
    requires ino in st.inodes && st.inodes[ino].links > 0
  {
    var head := st.lastOrphan;
    if st.inodes[ino].links > 1 then DropOnDisk(st, ino)
    else
      DropOnDisk(st, ino).(orphaned := AddOrphanLink(ReplaceOrphanPrevlink(st.orphaned, ino, head), 0, ino, head))
  }

  function ApplyOps(fmt: Format, st: InodeState, ops: seq<InodeOp>): Option<InodeState> {
    if ops == [] then Some(st)
    else
      var r := ApplyOps(fmt, st, ops[..|ops| - 1]);
      if r.None? then None else ApplyOp(fmt, r.value, ops[|ops| - 1])
  }

  // ---- what a list of operations does ----------------------------------------------------------------

  /** Place k is behind the last initialisation of the inode, or 0 when there is none. */
  ghost predicate SinceInit(ops: seq<InodeOp>, ino: Ino, k: nat) {
    && k <= |ops| && Init(ino) !in ops[k..]
    && (k > 0 ==> ops[k - 1] == Init(ino))
  }

  ghost function LastInit(ops: seq<InodeOp>, ino: Ino): (k: nat)
    ensures SinceInit(ops, ino, k)
  {
    if ops == [] then 0
    else if ops[|ops| - 1] == Init(ino) then |ops|
    else
      var k := LastInit(ops[..|ops| - 1], ino);
      assert ops[k..] == ops[..|ops| - 1][k..] + [ops[|ops| - 1]];
      k
  }

  /** The links of an inode by counting: those it had, or none since it was initialised, and one more for
      each AddLink and one less for each RmLink after that. */
  ghost function CountedLinks(before: nat, ops: seq<InodeOp>, ino: Ino, k: nat): int
    requires k <= |ops|
  {
    (if k == 0 then before else 0) + multiset(ops[k..])[AddLink(ino)] - multiset(ops[k..])[RmLink(ino)]
  }

  lemma {:induction false} OpsInit(fmt: Format, st: InodeState, ops: seq<InodeOp>)
    requires ops != [] && ApplyOps(fmt, st, ops).Some?
    ensures var mid := ApplyOps(fmt, st, ops[..|ops| - 1]);
            mid.Some? && ApplyOps(fmt, st, ops) == ApplyOp(fmt, mid.value, ops[|ops| - 1])
  {
  }

  lemma {:induction false} OpsKeepKeys(fmt: Format, st: InodeState, ops: seq<InodeOp>)
    requires ApplyOps(fmt, st, ops).Some?
    ensures ApplyOps(fmt, st, ops).value.inodes.Keys == st.inodes.Keys
  {
    if ops != [] { OpsKeepKeys(fmt, st, ops[..|ops| - 1]); }
  }

  lemma {:induction false} SinceInitStep(ops: seq<InodeOp>, ino: Ino, k: nat)
    requires SinceInit(ops, ino, k) && ops != [] && ops[|ops| - 1] != Init(ino)
    ensures k < |ops| && SinceInit(ops[..|ops| - 1], ino, k)
    ensures ops[k..] == ops[..|ops| - 1][k..] + [ops[|ops| - 1]]
  {
    assert ops[k..] == ops[..|ops| - 1][k..] + [ops[|ops| - 1]];
  }

  lemma {:induction false} LastInSuffix(ops: seq<InodeOp>, k: nat)
    requires k <= |ops|
    ensures k < |ops| ==> ops[|ops| - 1] in ops[k..]
  {
    if k < |ops| { assert ops[k..][|ops| - 1 - k] == ops[|ops| - 1]; }
  }

  lemma {:induction false} SinceInitLast(ops: seq<InodeOp>, ino: Ino, k: nat)
    requires SinceInit(ops, ino, k) && ops != [] && ops[|ops| - 1] == Init(ino)
    ensures k == |ops| && ops[k..] == []
  {
    LastInSuffix(ops, k);
  }

  /** Main result: after any list of operations that succeeds, an inode has the links that counting gives. */
  lemma {:induction false} LinksAreCounted(fmt: Format, st: InodeState, ops: seq<InodeOp>, ino: Ino, k: nat)
    requires ApplyOps(fmt, st, ops).Some? && ino in st.inodes && SinceInit(ops, ino, k)
    ensures ino in ApplyOps(fmt, st, ops).value.inodes
    ensures ApplyOps(fmt, st, ops).value.inodes[ino].links == CountedLinks(st.inodes[ino].links, ops, ino, k)
  {
    OpsKeepKeys(fmt, st, ops);
    if ops == [] {
      assert ops[k..] == [];
    } else if ops[|ops| - 1] == Init(ino) {
      SinceInitLast(ops, ino, k);
      OpsInit(fmt, st, ops);
      OpsKeepKeys(fmt, st, ops[..|ops| - 1]);
    } else {
      OpsInit(fmt, st, ops);
      SinceInitStep(ops, ino, k);
      LinksAreCounted(fmt, st, ops[..|ops| - 1], ino, k);
      OneOpLinks(fmt, ApplyOps(fmt, st, ops[..|ops| - 1]).value, ops[|ops| - 1], ino);
    }
  }

  lemma {:induction false} OneOpLinks(fmt: Format, st: InodeState, op: InodeOp, ino: Ino)
    requires ApplyOp(fmt, st, op).Some? && ino in st.inodes && op != Init(ino)
    ensures ino in ApplyOp(fmt, st, op).value.inodes
    ensures ApplyOp(fmt, st, op).value.inodes[ino].links == st.inodes[ino].links
              + (if op == AddLink(ino) then 1 else 0) - (if op == RmLink(ino) then 1 else 0)
  {
  }

  /** The last size set since place k is set by the operation before place j, or none is when j is k. */
  ghost predicate SinceSize(ops: seq<InodeOp>, ino: Ino, k: nat, j: nat) {
    && k <= j <= |ops|
    && (forall i :: j <= i < |ops| ==> !(ops[i].SetSize? && ops[i].ino == ino))
    && (j > k ==> ops[j - 1].SetSize? && ops[j - 1].ino == ino)
  }

  /** The record that the operations since place k start from. */
  function Base(fmt: Format, rec: InodeRec, k: nat): InodeRec {
    if k == 0 then rec else fmt.blank
  }

  function BlockSum(ops: seq<InodeOp>, ino: Ino): int {
    if ops == [] then 0
    else
      BlockSum(ops[..|ops| - 1], ino) +
      (if ops[|ops| - 1].SetBlock? && ops[|ops| - 1].ino == ino then ops[|ops| - 1].cnt else 0)
  }

  /** Main result: an inode's size and block map are those last set since it was initialised, and its count
      of device blocks changes by the recorded numbers, modulo 2^64. */
  lemma {:induction false} FieldsAreLast(fmt: Format, st: InodeState, ops: seq<InodeOp>, ino: Ino, k: nat, j: nat)
    requires ApplyOps(fmt, st, ops).Some? && ino in st.inodes && SinceInit(ops, ino, k) && SinceSize(ops, ino, k, j)
    ensures ino in ApplyOps(fmt, st, ops).value.inodes
    ensures var rec, base := ApplyOps(fmt, st, ops).value.inodes[ino], Base(fmt, st.inodes[ino], k);
            && rec.size == (if j > k then ops[j - 1].size else base.size)
            && rec.addresses == (if j > k then ops[j - 1].addresses else base.addresses)
            && CongruentU64(rec.blocks, base.blocks + fmt.blkSize / 512 * BlockSum(ops[k..], ino))
  {
    OpsKeepKeys(fmt, st, ops);
    if ops == [] {
      assert ops[k..] == [];
      Congruent(st.inodes[ino].blocks, st.inodes[ino].blocks);
    } else {
      var init, op := ops[..|ops| - 1], ops[|ops| - 1];
      OpsInit(fmt, st, ops);
      OpsKeepKeys(fmt, st, init);
      if op == Init(ino) {
        SinceInitLast(ops, ino, k);
        Congruent(fmt.blank.blocks, fmt.blank.blocks);
      } else {
        SinceInitStep(ops, ino, k);
        var i := j;
        if op.SetSize? && op.ino == ino { i := FindSize(init, ino, k); }
        FieldsAreLast(fmt, st, init, ino, k, i);
        assert ops[k..][..|ops[k..]| - 1] == init[k..];
        OneOpFields(fmt, ApplyOps(fmt, st, init).value, op, ino,
                    Base(fmt, st.inodes[ino], k).blocks, BlockSum(init[k..], ino));
      }
    }
  }

  ghost predicate CongruentU64(a: int, b: int) {
    exists q: int :: a == b + 0x1_0000_0000_0000_0000 * q
  }

  lemma {:induction false} Congruent(a: int, b: int)
    requires a == b
    ensures CongruentU64(a, b)
  {
    assert a == b + U64 * 0;
  }

  lemma {:induction false} FindSize(ops: seq<InodeOp>, ino: Ino, k: nat) returns (j: nat)
    requires k <= |ops|
    ensures SinceSize(ops, ino, k, j)
  {
    j := |ops|;
    while j > k && !(ops[j - 1].SetSize? && ops[j - 1].ino == ino)
      invariant k <= j <= |ops|
      invariant forall i :: j <= i < |ops| ==> !(ops[i].SetSize? && ops[i].ino == ino)
    {
      j := j - 1;
    }
  }

  lemma {:induction false} OneOpFields(fmt: Format, st: InodeState, op: InodeOp, ino: Ino, base: int, sum: int)
    requires ApplyOp(fmt, st, op).Some? && ino in st.inodes && op != Init(ino)
    requires CongruentU64(st.inodes[ino].blocks, base + fmt.blkSize / 512 * sum)
    ensures var rec := ApplyOp(fmt, st, op).value.inodes[ino];
            && (if op.SetSize? && op.ino == ino then rec.size == op.size && rec.addresses == op.addresses
                else rec.size == st.inodes[ino].size && rec.addresses == st.inodes[ino].addresses)
            && CongruentU64(rec.blocks, base + fmt.blkSize / 512
                                                * (sum + if op.SetBlock? && op.ino == ino then op.cnt else 0))
  {
    var rec, per := ApplyOp(fmt, st, op).value.inodes[ino], fmt.blkSize / 512;
    var q: int :| st.inodes[ino].blocks == base + per * sum + U64 * q;
    if op.SetBlock? && op.ino == ino {
      var all := st.inodes[ino].blocks + per * op.cnt;
      assert per * (sum + op.cnt) == per * sum + per * op.cnt;
      assert rec.blocks == all - U64 * (all / U64);
      assert rec.blocks == base + per * (sum + op.cnt) + U64 * (q - all / U64);
    }
  }

  /** The operation writes to the inode's record. */
  predicate WritesTo(op: InodeOp, ino: Ino) {
    if op.UpdateOrphanLink? then op.pred == ino && ino != 0 else op.ino == ino
  }

  /** Main result: inodes that no operation names keep their records. */
  lemma {:induction false} OthersUnchanged(fmt: Format, st: InodeState, ops: seq<InodeOp>, ino: Ino)
    requires ApplyOps(fmt, st, ops).Some? && ino in st.inodes
    requires forall op :: op in ops ==> !WritesTo(op, ino)
    ensures ino in ApplyOps(fmt, st, ops).value.inodes
    ensures ApplyOps(fmt, st, ops).value.inodes[ino] == st.inodes[ino]
  {
    OpsKeepKeys(fmt, st, ops);
    if ops != [] {
      assert ops[|ops| - 1] in ops;
      OpsInit(fmt, st, ops);
      OthersUnchanged(fmt, st, ops[..|ops| - 1], ino);
    }
  }

  /** The inode with the record `rec` becomes the first orphan, on the disk and in the map. */
  ghost predicate Joins(a: InodeState, b: InodeState, ino: Ino) {
    && ino in b.inodes && b.inodes[ino].links == 0 && b.inodes[ino].dtime == a.lastOrphan && b.lastOrphan == ino
    && ino in b.orphaned && b.orphaned[ino] == (0, a.lastOrphan)
    && b.orphaned.Keys == a.orphaned.Keys + {ino}
    && (forall x :: x in a.orphaned && x != ino ==>
          b.orphaned[x] == if x == a.lastOrphan then (ino, a.orphaned[x].1) else a.orphaned[x])
  }

  /** The deletion times, which are the links of the chain on disk, are as before but for one inode. */
  ghost predicate SameChainBut(a: InodeState, b: InodeState, ino: Ino) {
    forall x :: x in a.inodes && x in b.inodes && x != ino ==> b.inodes[x].dtime == a.inodes[x].dtime
  }

  /** Main result: an inode joins the orphans exactly at the RmLink that takes its counted links to 0; of the
      other operations only a repair writes a link of the chain, and only an initialisation clears one. */
  lemma {:induction false} JoinsExactlyAtZero(fmt: Format, st: InodeState, ops: seq<InodeOp>, i: nat, ino: Ino)
    requires i < |ops| && ApplyOps(fmt, st, ops[..i + 1]).Some? && ApplyOps(fmt, st, ops[..i]).Some?
    requires ino in st.inodes
    requires if ops[i].UpdateOrphanLink? then ops[i].pred == ino || ops[i].pred == 0 else ops[i].ino == ino
    ensures var a, b := ApplyOps(fmt, st, ops[..i]).value, ApplyOps(fmt, st, ops[..i + 1]).value;
            var links := CountedLinks(st.inodes[ino].links, ops[..i], ino, LastInit(ops[..i], ino));
            && SameChainBut(a, b, ino)
            && if ops[i] == RmLink(ino) && links == 1 then Joins(a, b, ino)
               else
                 && b.orphaned == a.orphaned && ino in a.inodes && ino in b.inodes
                 && b.lastOrphan == (if ops[i].UpdateOrphanLink? && ops[i].pred == 0 then ops[i].succ else a.lastOrphan)
                 && b.inodes[ino].dtime
                    == if ops[i].UpdateOrphanLink? && ops[i].pred != 0 then ops[i].succ
                       else if ops[i].Init? then 0 else a.inodes[ino].dtime
  {
    hide ApplyOp;
    hide Joins;
    hide SameChainBut;
    hide CountedLinks;
    hide SinceInit;
    var a := ApplyOps(fmt, st, ops[..i]).value;
    OpsKeepKeys(fmt, st, ops[..i]);
    LinksAreCounted(fmt, st, ops[..i], ino, LastInit(ops[..i], ino));
    assert ops[..i + 1][..i] == ops[..i];
    OpsInit(fmt, st, ops[..i + 1]);
    OneOpJoins(fmt, a, ops[i], ino);
  }

  lemma {:induction false} OneOpJoins(fmt: Format, a: InodeState, op: InodeOp, ino: Ino)
    requires ApplyOp(fmt, a, op).Some? && ino in a.inodes
    requires if op.UpdateOrphanLink? then op.pred == ino || op.pred == 0 else op.ino == ino
    ensures var b := ApplyOp(fmt, a, op).value;
            && SameChainBut(a, b, ino)
            && if op == RmLink(ino) && a.inodes[ino].links == 1 then Joins(a, b, ino)
               else
                 && b.orphaned == a.orphaned && ino in b.inodes
                 && b.lastOrphan == (if op.UpdateOrphanLink? && op.pred == 0 then op.succ else a.lastOrphan)
                 && b.inodes[ino].dtime
                    == if op.UpdateOrphanLink? && op.pred != 0 then op.succ
                       else if op.Init? then 0 else a.inodes[ino].dtime
  {
  }

  /** Main result: the next operation fails exactly when there is no record for it, or when the counted
      links are 0 or 65535 already. */
  lemma {:induction false} OpSucceedsIff(fmt: Format, st: InodeState, ops: seq<InodeOp>, i: nat, ino: Ino)
    requires i < |ops| && ApplyOps(fmt, st, ops[..i]).Some?
    requires ino == if ops[i].UpdateOrphanLink? then ops[i].pred else ops[i].ino
    ensures ApplyOps(fmt, st, ops[..i + 1]).Some? <==>
              if ino !in st.inodes then ops[i].UpdateOrphanLink? && ino == 0
              else
                var links := CountedLinks(st.inodes[ino].links, ops[..i], ino, LastInit(ops[..i], ino));
                (ops[i].AddLink? ==> links < 65535) && (ops[i].RmLink? ==> links > 0)
  {
    OpsKeepKeys(fmt, st, ops[..i]);
    assert ops[..i + 1][..i] == ops[..i];
    if ino in st.inodes { LinksAreCounted(fmt, st, ops[..i], ino, LastInit(ops[..i], ino)); }
  }
}
