/** Who owns each data block, over every run of several open transactions. */
module SpaceAccounting {
  import opened Buddy
  import Wrappers

  // A block leaves the in-memory free set as soon as it is allocated (src/block/allocator.rs), but
  // its bitmap bit is set only when the transaction is applied (src/transaction/event.rs).  A freed
  // block loses its bit when the transaction is applied, and returns to the free set only in a
  // postlude, after the bitmap has been written to the device (src/transaction/collector.rs).
  //
  // Nothing orders the transactions of several threads: their steps are interleaved in any way.  The
  // allocator's locks are held while chunks are taken and while one chunk is put back, but not in
  // between; what a thread still has to put back is `held` by its transaction.  A commit first copies
  // the cached bitmap blocks that it changed, one at a time, and then writes the copies.

  type TxId = nat

  datatype Event =
    | Alloc(start: nat, len: nat)
    | Dealloc(start: nat, len: nat)

  /** A copy of a bitmap block that covers `blocks`, with the bits of `bits` set. */
  datatype Clone = Clone(blocks: set<nat>, bits: set<nat>)

  datatype Phase = Open | Applying | Writing

  datatype Tx = Tx(phase: Phase, events: seq<Event>, postludes: seq<Event>, clones: seq<Clone>, held: set<nat>)

  /** free: the in-memory free set; bitmap: blocks whose bit is set in the cached bitmaps;
      disk: blocks whose bit is set on the device; dropped: blocks lost by the hint path. */
  datatype State = State(free: set<nat>, bitmap: set<nat>, disk: set<nat>, dropped: set<nat>,
                         txs: map<TxId, Tx>)

  /** Allocate takes `whole` blocks from `start`: `len` of them for the caller, those up to `chain`
      are dropped, and the others are to be put back.  Its event is recorded at once, as nobody else
      sees the list.  Postlude takes up the next freed run, to be put back chunk by chunk as well. */
  datatype Step =
    | Begin(t: TxId)
    | Allocate(t: TxId, start: nat, len: nat, chain: nat, whole: nat)
    | PutBack(t: TxId, part: set<nat>)
    | Deallocate(t: TxId, start: nat, len: nat)
    | Apply(t: TxId)
    | ApplyEvent(t: TxId)
    | Copy(t: TxId, blocks: set<nat>)
    | StartWrite(t: TxId)
    | WriteOut(t: TxId)
    | Postlude(t: TxId)
    | End(t: TxId)

  // ---- the events of one transaction -----------------------------------------------------------

  ghost function Blocks(e: Event): set<nat> {
    Run(e.start, e.len)
  }

  ghost function Allocs(events: seq<Event>): set<nat> {
    if events == [] then {}
    else (if events[0].Alloc? then Blocks(events[0]) else {}) + Allocs(events[1..])
  }

  ghost function Deallocs(events: seq<Event>): set<nat> {
    if events == [] then {}
    else (if events[0].Dealloc? then Blocks(events[0]) else {}) + Deallocs(events[1..])
  }

  /** A block is allocated at most once and freed at most once, and not freed before it is
      allocated. */
  ghost predicate Ordered(events: seq<Event>) {
    events == [] ||
    (var rest := events[1..];
     && Blocks(events[0]) !! Allocs(rest)
     && (events[0].Dealloc? ==> Blocks(events[0]) !! Deallocs(rest))
     && Ordered(rest))
  }

  lemma {:induction false} AppendEvent(events: seq<Event>, e: Event)
    requires Ordered(events)
    requires e.Alloc? ==> Blocks(e) !! Allocs(events) && Blocks(e) !! Deallocs(events)
    requires e.Dealloc? ==> Blocks(e) !! Deallocs(events)
    ensures Ordered(events + [e])
    ensures Allocs(events + [e]) == Allocs(events) + (if e.Alloc? then Blocks(e) else {})
    ensures Deallocs(events + [e]) == Deallocs(events) + (if e.Dealloc? then Blocks(e) else {})
  {
    if events == [] {
      assert events + [e] == [e];
      assert [e][1..] == [];
    } else {
      AppendEvent(events[1..], e);
      assert (events + [e])[1..] == events[1..] + [e];
    }
  }

  /** The bits that copies cover, and those set in one of them. */
  ghost function Copied(clones: seq<Clone>): set<nat> {
    if clones == [] then {} else clones[0].blocks + Copied(clones[1..])
  }

  ghost function CopiedBits(clones: seq<Clone>): set<nat> {
    if clones == [] then {} else clones[0].bits + CopiedBits(clones[1..])
  }

  lemma {:induction false} AppendClone(clones: seq<Clone>, c: Clone)
    ensures Copied(clones + [c]) == Copied(clones) + c.blocks
    ensures CopiedBits(clones + [c]) == CopiedBits(clones) + c.bits
  {
    if clones == [] {
      assert clones + [c] == [c];
      assert [c][1..] == [];
    } else {
      AppendClone(clones[1..], c);
      assert (clones + [c])[1..] == clones[1..] + [c];
    }
  }

  // ---- steps -----------------------------------------------------------------------------------

  ghost predicate ToAllocate(s: State, t: TxId, b: nat) {
    t in s.txs && b in Allocs(s.txs[t].events)
  }

  ghost predicate ToFree(s: State, t: TxId, b: nat) {
    t in s.txs && b in Deallocs(s.txs[t].events)
  }

  ghost predicate ToReturn(s: State, t: TxId, b: nat) {
    t in s.txs && b in Deallocs(s.txs[t].postludes)
  }

  ghost predicate Holds(s: State, t: TxId, b: nat) {
    t in s.txs && b in s.txs[t].held
  }

  /** A copy with the bit of b set has still to be written. */
  ghost predicate CopyHas(s: State, t: TxId, b: nat) {
    t in s.txs && b in CopiedBits(s.txs[t].clones)
  }

  ghost predicate PendingDealloc(s: State, b: nat) {
    exists t :: ToFree(s, t, b)
  }

  /** A transaction frees only committed blocks or its own, and frees nothing twice. */
  ghost predicate MayFree(s: State, t: TxId, b: nat)
    requires t in s.txs
  {
    && !PendingDealloc(s, b)
    && (b in s.bitmap || ToAllocate(s, t, b))
  }

  ghost predicate Enabled(s: State, step: Step) {
    match step
    case Begin(t) => t !in s.txs
    case Allocate(t, start, len, chain, whole) =>
      && t in s.txs && s.txs[t].phase == Open && s.txs[t].held == {}
      && 0 < len <= chain <= whole && Run(start, whole) <= s.free
    case PutBack(t, part) => t in s.txs && part != {} && part <= s.txs[t].held
    case Deallocate(t, start, len) =>
      && t in s.txs && s.txs[t].phase == Open && s.txs[t].held == {}
      && forall b :: b in Run(start, len) ==> MayFree(s, t, b)
    case Apply(t) => t in s.txs && s.txs[t].phase == Open && s.txs[t].held == {}
    case ApplyEvent(t) => t in s.txs && s.txs[t].phase == Applying && s.txs[t].events != []
    case Copy(t, blocks) =>
      && t in s.txs && s.txs[t].phase == Applying && s.txs[t].events == []
      && blocks !! Copied(s.txs[t].clones)
    case StartWrite(t) =>
      && t in s.txs && s.txs[t].phase == Applying && s.txs[t].events == []
      && Deallocs(s.txs[t].postludes) <= Copied(s.txs[t].clones)
    case WriteOut(t) => t in s.txs && s.txs[t].phase == Writing && s.txs[t].clones != []
    case Postlude(t) =>
      && t in s.txs && s.txs[t].phase == Writing && s.txs[t].clones == []
      && s.txs[t].held == {} && s.txs[t].postludes != []
    case End(t) =>
      && t in s.txs && s.txs[t].phase == Writing && s.txs[t].clones == []
      && s.txs[t].held == {} && s.txs[t].postludes == []
  }

  /** `set_bitmap` and `unset_bitmap` assert that every bit they touch changes. */
  ghost predicate BitmapAssertHolds(s: State, e: Event) {
    match e
    case Alloc(_, _) => Blocks(e) !! s.bitmap
    case Dealloc(_, _) => Blocks(e) <= s.bitmap
  }

  ghost function Execute(s: State, step: Step): State
    requires Enabled(s, step)
  {
    var t := step.t;
    match step
    case Begin(_) =>
      s.(txs := s.txs[t := Tx(Open, [], [], [], {})])
    case Allocate(_, start, len, chain, whole) =>
      s.(free := s.free - Run(start, whole),
         dropped := s.dropped + Run(start + len, chain - len),
         txs := s.txs[t := s.txs[t].(events := s.txs[t].events + [Alloc(start, len)],
                                     held := Run(start + chain, whole - chain))])
    case PutBack(_, part) =>
      s.(free := s.free + part,
         txs := s.txs[t := s.txs[t].(held := s.txs[t].held - part)])
    case Deallocate(_, start, len) =>
      s.(txs := s.txs[t := s.txs[t].(events := s.txs[t].events + [Dealloc(start, len)])])
    case Apply(_) =>
      s.(txs := s.txs[t := s.txs[t].(phase := Applying)])
    case ApplyEvent(_) =>
      var e, rest := s.txs[t].events[0], s.txs[t].events[1..];
      (match e
       case Alloc(_, _) =>
         s.(bitmap := s.bitmap + Blocks(e),
            txs := s.txs[t := s.txs[t].(events := rest)])
       case Dealloc(_, _) =>
         s.(bitmap := s.bitmap - Blocks(e),
            txs := s.txs[t := s.txs[t].(events := rest, postludes := s.txs[t].postludes + [e])]))
    case Copy(_, blocks) =>
      // A bitmap block is copied as it is cached now.
      s.(txs := s.txs[t := s.txs[t].(clones := s.txs[t].clones + [Clone(blocks, s.bitmap * blocks)])])
    case StartWrite(_) =>
      s.(txs := s.txs[t := s.txs[t].(phase := Writing)])
    case WriteOut(_) =>
      var c := s.txs[t].clones[0];
      s.(disk := (s.disk - c.blocks) + c.bits,
         txs := s.txs[t := s.txs[t].(clones := s.txs[t].clones[1..])])
    case Postlude(_) =>
      s.(txs := s.txs[t := s.txs[t].(postludes := s.txs[t].postludes[1..], held := Blocks(s.txs[t].postludes[0]))])
    case End(_) =>
      s.(txs := s.txs - {t})
  }

  // ---- owners ----------------------------------------------------------------------------------

  datatype Owner =
    | Free
    | Held(t: TxId)
    | Allocated(t: TxId)
    | InUse
    | Freeing(t: TxId)
    | Awaiting(t: TxId)
    | Dropped

  ghost predicate Owns(s: State, b: nat, o: Owner) {
    match o
    case Free => b in s.free
    case Held(t) => Holds(s, t, b)
    case Allocated(t) => ToAllocate(s, t, b) && !ToFree(s, t, b)
    case InUse => b in s.bitmap && !PendingDealloc(s, b)
    case Freeing(t) => ToFree(s, t, b)
    case Awaiting(t) => ToReturn(s, t, b)
    case Dropped => b in s.dropped
  }

  // ---- the invariant ---------------------------------------------------------------------------

  ghost predicate TxShape(tx: Tx) {
    && Ordered(tx.events)
    && Ordered(tx.postludes)
    && (forall e :: e in tx.postludes ==> e.Dealloc?)
    && (tx.phase == Open ==> tx.postludes == [] && tx.clones == [])
    && (tx.phase == Applying ==> tx.held == {})
    && (tx.phase == Writing ==> tx.events == [])
    && (tx.clones != [] ==> tx.events == [])
    && (forall c :: c in tx.clones ==> c.bits <= c.blocks)
  }

  ghost predicate Shaped(s: State) {
    forall t :: t in s.txs ==> TxShape(s.txs[t])
  }

  ghost predicate InSets(s: State, b: nat) {
    b in s.free || b in s.bitmap || b in s.dropped
  }

  ghost predicate InLists(s: State, t: TxId, b: nat) {
    ToAllocate(s, t, b) || ToReturn(s, t, b) || Holds(s, t, b)
  }

  ghost predicate BlockInv(volume: set<nat>, s: State, b: nat) {
    && (b in volume <==> InSets(s, b) || exists t :: InLists(s, t, b))
    && !(b in s.free && b in s.bitmap) && !(b in s.free && b in s.dropped) && !(b in s.bitmap && b in s.dropped)
    && (forall t :: InLists(s, t, b) ==> !InSets(s, b) && InOneList(s, t, b))
    && (forall t, u :: InLists(s, t, b) && InLists(s, u, b) ==> t == u)
    && (forall t :: ToFree(s, t, b) ==> b in s.bitmap || ToAllocate(s, t, b))
    && (forall t, u :: ToFree(s, t, b) && ToFree(s, u, b) ==> t == u)
    && (forall t :: ToReturn(s, t, b) ==> !CopyHas(s, t, b))
  }

  ghost predicate InOneList(s: State, t: TxId, b: nat) {
    && !(ToAllocate(s, t, b) && ToReturn(s, t, b))
    && !(ToAllocate(s, t, b) && Holds(s, t, b))
    && !(ToReturn(s, t, b) && Holds(s, t, b))
  }

  ghost predicate Inv(volume: set<nat>, s: State) {
    Shaped(s) && forall b :: BlockInv(volume, s, b)
  }

  // ---- what a step does to one block -------------------------------------------------------------

  /** The bitmap assertions hold whenever an event is applied. */
  lemma {:induction false} AssertsHold(volume: set<nat>, s: State, t: TxId)
    requires Inv(volume, s) && Enabled(s, ApplyEvent(t))
    ensures BitmapAssertHolds(s, s.txs[t].events[0])
  {
    var e := s.txs[t].events[0];
    assert TxShape(s.txs[t]);
    forall b | b in Blocks(e)
      ensures e.Alloc? ==> b !in s.bitmap
      ensures e.Dealloc? ==> b in s.bitmap
    {
      assert BlockInv(volume, s, b);
      if e.Alloc? { assert ToAllocate(s, t, b) && InLists(s, t, b); }
      else { assert ToFree(s, t, b) && !ToAllocate(s, t, b); }
    }
  }

  /** What each step needs to know about the events it extends. */
  ghost predicate Extends(s: State, step: Step)
    requires Enabled(s, step)
  {
    match step
    case Allocate(t, start, len, _, _) =>
      Run(start, len) !! Allocs(s.txs[t].events) && Run(start, len) !! Deallocs(s.txs[t].events)
    case Deallocate(t, start, len) =>
      Run(start, len) !! Deallocs(s.txs[t].events)
    case ApplyEvent(t) =>
      && BitmapAssertHolds(s, s.txs[t].events[0])
      && (s.txs[t].events[0].Dealloc? ==> Blocks(s.txs[t].events[0]) !! Deallocs(s.txs[t].postludes))
    case _ => true
  }

  lemma {:induction false} InvExtends(volume: set<nat>, s: State, step: Step)
    requires Inv(volume, s) && Enabled(s, step)
    ensures Extends(s, step)
  {
    var t := step.t;
    match step
    case Allocate(_, start, len, chain, whole) =>
      RunSplit(s.free, start, len, whole - len);
      forall b | b in Run(start, len)
        ensures b !in Allocs(s.txs[t].events) && b !in Deallocs(s.txs[t].events)
      {
        assert BlockInv(volume, s, b) && b in s.free && !InLists(s, t, b) && !ToFree(s, t, b);
      }
    case Deallocate(_, start, len) =>
      forall b | b in Run(start, len)
        ensures b !in Deallocs(s.txs[t].events)
      {
        assert MayFree(s, t, b) && !ToFree(s, t, b);
      }
    case ApplyEvent(_) =>
      AssertsHold(volume, s, t);
      var e := s.txs[t].events[0];
      if e.Dealloc? {
        forall b | b in Blocks(e)
          ensures b !in Deallocs(s.txs[t].postludes)
        {
          assert BlockInv(volume, s, b) && !InLists(s, t, b);
        }
      }
    case _ =>
  }

  lemma {:induction false} StepKeepsShape(s: State, step: Step)
    requires Enabled(s, step) && Extends(s, step) && Shaped(s)
    ensures Shaped(Execute(s, step))
  {
    hide TxShape;
    hide Run;
    hide Deallocs;
    hide Allocs;
    hide Copied;
    var s' := Execute(s, step);
    if step.t in s'.txs { TxKeepsShape(s, step); }
    forall t | t in s'.txs
      ensures TxShape(s'.txs[t])
    {
      if t != step.t { assert s'.txs[t] == s.txs[t]; }
    }
  }

  lemma {:induction false} TxKeepsShape(s: State, step: Step)
    requires Enabled(s, step) && Extends(s, step) && Shaped(s)
    requires step.t in Execute(s, step).txs
    ensures TxShape(Execute(s, step).txs[step.t])
  {
    hide Run;
    var t := step.t;
    assert !step.Begin? ==> TxShape(s.txs[t]);
    match step
    case Allocate(_, start, len, _, _) => AppendEvent(s.txs[t].events, Alloc(start, len));
    case Deallocate(_, start, len) => AppendEvent(s.txs[t].events, Dealloc(start, len));
    case ApplyEvent(_) =>
      var e := s.txs[t].events[0];
      if e.Dealloc? { AppendEvent(s.txs[t].postludes, e); }
    case _ =>
  }

  /** Block b is in the same lists of transaction t. */
  ghost predicate SameLists(s: State, s': State, t: TxId, b: nat) {
    && (ToAllocate(s', t, b) <==> ToAllocate(s, t, b))
    && (ToFree(s', t, b) <==> ToFree(s, t, b))
    && (ToReturn(s', t, b) <==> ToReturn(s, t, b))
    && (Holds(s', t, b) <==> Holds(s, t, b))
    && (CopyHas(s', t, b) <==> CopyHas(s, t, b))
    && (InLists(s', t, b) <==> InLists(s, t, b))
  }

  /** The sets that hold block b, and the lists of transaction t that do. */
  datatype Place = Place(free: bool, bitmap: bool, dropped: bool, alloc: bool, dealloc: bool, ret: bool, held: bool)

  ghost function PlaceOf(s: State, t: TxId, b: nat): Place {
    Place(b in s.free, b in s.bitmap, b in s.dropped,
          ToAllocate(s, t, b), ToFree(s, t, b), ToReturn(s, t, b), Holds(s, t, b))
  }

  /** Where a step of transaction t takes block b from place p. */
  ghost function Moved(s: State, step: Step, b: nat, p: Place): Place
    requires Enabled(s, step)
  {
    match step
    case Allocate(_, start, len, chain, whole) =>
      if b in Run(start, len) then p.(free := false, alloc := true)
      else if b in Run(start + len, chain - len) then p.(free := false, dropped := true)
      else if b in Run(start + chain, whole - chain) then p.(free := false, held := true)
      else p
    case PutBack(_, part) => if b in part then p.(held := false, free := true) else p
    case Deallocate(_, start, len) => if b in Run(start, len) then p.(dealloc := true) else p
    case ApplyEvent(t) =>
      var e := s.txs[t].events[0];
      if b !in Blocks(e) then p
      else if e.Alloc? then p.(alloc := false, bitmap := true)
      else p.(dealloc := false, bitmap := false, ret := true)
    case Postlude(t) =>
      if b in Blocks(s.txs[t].postludes[0]) then p.(ret := false, held := true) else p
    case _ => p
  }

  /** Where block b was when it moves. */
  ghost predicate MovesFrom(s: State, step: Step, b: nat, p: Place)
    requires Enabled(s, step)
  {
    match step
    case Allocate(_, start, len, chain, whole) =>
      b in Run(start, len) || b in Run(start + len, chain - len) || b in Run(start + chain, whole - chain) ==> p.free
    case PutBack(_, part) => b in part ==> p.held
    case Deallocate(t, start, len) => b in Run(start, len) ==> MayFree(s, t, b)
    case ApplyEvent(t) =>
      var e := s.txs[t].events[0];
      b in Blocks(e) ==> if e.Alloc? then p.alloc else p.dealloc && p.bitmap && !CopyHas(s, t, b)
    case Postlude(t) => b in Blocks(s.txs[t].postludes[0]) ==> p.ret
    case _ => true
  }

  ghost predicate OwnMoves(s: State, step: Step, s': State, b: nat)
    requires Enabled(s, step)
  {
    var t := step.t;
    && MovesFrom(s, step, b, PlaceOf(s, t, b))
    && PlaceOf(s', t, b) == Moved(s, step, b, PlaceOf(s, t, b))
    && (CopyHas(s', t, b) ==> CopyHas(s, t, b) || (step.Copy? && b in s.bitmap))
  }

  /** A step moves block b between the sets and the lists of its own transaction only. */
  ghost predicate Moves(s: State, step: Step, s': State, b: nat)
    requires Enabled(s, step)
  {
    OwnMoves(s, step, s', b) && forall u :: u != step.t ==> SameLists(s, s', u, b)
  }

  lemma {:induction false} StepMoves(s: State, step: Step, b: nat)
    requires Enabled(s, step) && Extends(s, step) && Shaped(s)
    ensures Moves(s, step, Execute(s, step), b)
  {
    hide OwnMoves;
    hide SameLists;
    OthersStay(s, step);
    forall u | u != step.t
      ensures SameLists(s, Execute(s, step), u, b)
    {
      SameTx(s, Execute(s, step), u, b);
    }
    match step
    case Allocate(_, _, _, _, _) => AllocateMoves(s, step, b);
    case Deallocate(_, _, _) => DeallocateMoves(s, step, b);
    case ApplyEvent(_) => ApplyEventMoves(s, step.t, b);
    case Copy(_, _) => CopyMoves(s, step, b);
    case Postlude(_) => PostludeMoves(s, step, b);
    case _ => OtherMoves(s, step, b);
  }

  ghost predicate HasSameTx(s: State, s': State, t: TxId) {
    (t in s'.txs <==> t in s.txs) && (t in s.txs ==> s'.txs[t] == s.txs[t])
  }

  lemma {:induction false} OthersStay(s: State, step: Step)
    requires Enabled(s, step)
    ensures forall u :: u != step.t ==> HasSameTx(s, Execute(s, step), u)
  {
    hide Run;
    hide Deallocs;
    hide Copied;
  }

  lemma {:induction false} SameTx(s: State, s': State, t: TxId, b: nat)
    requires HasSameTx(s, s', t)
    ensures SameLists(s, s', t, b)
  {
  }

  lemma {:induction false} OtherMoves(s: State, step: Step, b: nat)
    requires !step.Allocate? && !step.Deallocate? && !step.ApplyEvent? && !step.Copy? && !step.Postlude?
    requires Enabled(s, step) && Shaped(s)
    ensures OwnMoves(s, step, Execute(s, step), b)
  {
    hide Run;
    hide Ordered;
    match step
    case End(t) => assert TxShape(s.txs[t]);
    case _ =>
  }

  lemma {:induction false} PostludeMoves(s: State, step: Step, b: nat)
    requires step.Postlude? && Enabled(s, step) && Shaped(s)
    ensures OwnMoves(s, step, Execute(s, step), b)
  {
    hide Run;
    var tx := s.txs[step.t];
    assert TxShape(tx) && tx.postludes[0] in tx.postludes;
  }

  lemma {:induction false} CopyMoves(s: State, step: Step, b: nat)
    requires step.Copy? && Enabled(s, step)
    ensures OwnMoves(s, step, Execute(s, step), b)
  {
    hide Run;
    AppendClone(s.txs[step.t].clones, Clone(step.blocks, s.bitmap * step.blocks));
  }

  lemma {:induction false} DeallocateMoves(s: State, step: Step, b: nat)
    requires step.Deallocate? && Enabled(s, step) && Extends(s, step) && Shaped(s)
    ensures OwnMoves(s, step, Execute(s, step), b)
  {
    hide Run;
    AppendEvent(s.txs[step.t].events, Dealloc(step.start, step.len));
    assert b in Run(step.start, step.len) ==> MayFree(s, step.t, b);
  }

  lemma {:induction false} AllocateMoves(s: State, step: Step, b: nat)
    requires step.Allocate? && Enabled(s, step) && Extends(s, step) && Shaped(s)
    ensures OwnMoves(s, step, Execute(s, step), b)
  {
    hide Run;
    var tx, e := s.txs[step.t], Alloc(step.start, step.len);
    AppendEvent(tx.events, e);
    assert Execute(s, step).txs[step.t].events == tx.events + [e];
    TakenRuns(s.free, step, b);
  }

  /** The three parts of the run that an allocation takes. */
  lemma {:induction false} TakenRuns(free: set<nat>, step: Step, b: nat)
    requires step.Allocate? && step.len <= step.chain <= step.whole && Run(step.start, step.whole) <= free
    ensures b in Run(step.start, step.whole) ==> b in free
    ensures b in Run(step.start, step.whole) <==>
            || b in Run(step.start, step.len)
            || b in Run(step.start + step.len, step.chain - step.len)
            || b in Run(step.start + step.chain, step.whole - step.chain)
    ensures b in Run(step.start, step.len) ==>
              && b !in Run(step.start + step.len, step.chain - step.len)
              && b !in Run(step.start + step.chain, step.whole - step.chain)
    ensures b in Run(step.start + step.len, step.chain - step.len) ==>
              b !in Run(step.start + step.chain, step.whole - step.chain)
  {
  }

  lemma {:induction false} ApplyEventMoves(s: State, t: TxId, b: nat)
    requires Enabled(s, ApplyEvent(t)) && Extends(s, ApplyEvent(t)) && Shaped(s)
    ensures OwnMoves(s, ApplyEvent(t), Execute(s, ApplyEvent(t)), b)
  {
    hide Run;
    var tx := s.txs[t];
    var e := tx.events[0];
    assert TxShape(tx);
    if e.Alloc? {
      assert Execute(s, ApplyEvent(t)).txs[t] == tx.(events := tx.events[1..]);
    } else {
      AppendEvent(tx.postludes, e);
      assert Execute(s, ApplyEvent(t)).txs[t] == tx.(events := tx.events[1..], postludes := tx.postludes + [e]);
    }
  }

  // ---- every step keeps the invariant ------------------------------------------------------------

  /** Main result: every step of every transaction keeps the invariant. */
  lemma {:induction false} StepKeepsInv(volume: set<nat>, s: State, step: Step)
    requires Inv(volume, s) && Enabled(s, step)
    ensures Inv(volume, Execute(s, step))
  {
    InvExtends(volume, s, step);
    StepKeepsShape(s, step);
    forall b
      ensures BlockInv(volume, Execute(s, step), b)
    {
      StepMoves(s, step, b);
      KeepBlock(volume, s, step, Execute(s, step), b);
    }
  }

  lemma {:induction false} KeepBlock(volume: set<nat>, s: State, step: Step, s': State, b: nat)
    requires BlockInv(volume, s, b)
    requires Enabled(s, step) && Moves(s, step, s', b)
    ensures BlockInv(volume, s', b)
  {
    hide Enabled;
    hide Blocks;
    hide Run;
    hide ToAllocate;
    hide ToFree;
    hide ToReturn;
    hide Holds;
    hide CopyHas;
    hide MayFree;
    var t := step.t;
    if step.Deallocate? {
      KeepDeallocate(volume, s, step, s', b);
    } else {
      assert SameOwners(s, s', t, b);
      ListsOfPlace(s, t, b);
      ListsOfPlace(s', t, b);
    }
  }

  lemma {:induction false} ListsOfPlace(s: State, t: TxId, b: nat)
    ensures InLists(s, t, b) <==> PlaceOf(s, t, b).alloc || PlaceOf(s, t, b).ret || PlaceOf(s, t, b).held
  {
  }

  lemma {:induction false} KeepDeallocate(volume: set<nat>, s: State, step: Step, s': State, b: nat)
    requires BlockInv(volume, s, b)
    requires step.Deallocate? && Enabled(s, step) && Moves(s, step, s', b)
    ensures BlockInv(volume, s', b)
  {
    hide Run;
    assert SameOwners(s, s', step.t, b);
    ListsOfPlace(s, step.t, b);
    ListsOfPlace(s', step.t, b);
    if b in Run(step.start, step.len) { assert MayFree(s, step.t, b); }
  }

  ghost predicate SameOwners(s: State, s': State, t: TxId, b: nat) {
    forall u {:trigger InLists(s, u, b)} {:trigger InLists(s', u, b)}
             {:trigger ToFree(s', u, b)} {:trigger ToReturn(s', u, b)} ::
      u != t ==> SameLists(s, s', u, b)
  }
  // ---- what the invariant means ------------------------------------------------------------------

  /** Main result: the seven kinds of owner partition the volume. */
  lemma {:induction false} OneOwner(volume: set<nat>, s: State, b: nat)
    requires Inv(volume, s)
    ensures b in volume <==> exists o :: Owns(s, b, o)
    ensures forall o, p :: Owns(s, b, o) && Owns(s, b, p) ==> o == p
  {
    assert BlockInv(volume, s, b);
    if b in s.free { assert Owns(s, b, Free); }
    if b in s.dropped { assert Owns(s, b, Dropped); }
    if t :| ToFree(s, t, b) { assert Owns(s, b, Freeing(t)); }
    if b in s.bitmap && !PendingDealloc(s, b) { assert Owns(s, b, InUse); }
    if t :| InLists(s, t, b) {
      assert Owns(s, b, Allocated(t)) || Owns(s, b, Freeing(t)) || Owns(s, b, Awaiting(t)) || Owns(s, b, Held(t));
    }
    assert b in volume ==> exists o :: Owns(s, b, o);
    forall o | Owns(s, b, o)
      ensures b in volume
    {
      if o.Held? || o.Allocated? || o.Awaiting? { assert InLists(s, o.t, b); }
      if o.Freeing? && b !in s.bitmap { assert InLists(s, o.t, b); }
    }
    forall o, p | Owns(s, b, o) && Owns(s, b, p)
      ensures o == p
    {
      OwnersMeet(volume, s, b, o, p);
    }
  }

  lemma {:induction false} OwnersMeet(volume: set<nat>, s: State, b: nat, o: Owner, p: Owner)
    requires BlockInv(volume, s, b) && Owns(s, b, o) && Owns(s, b, p)
    ensures o == p
  {
    assert (o.Held? || o.Allocated? || o.Awaiting?) ==> InLists(s, o.t, b);
    assert (p.Held? || p.Allocated? || p.Awaiting?) ==> InLists(s, p.t, b);
    assert o.Freeing? && b !in s.bitmap ==> InLists(s, o.t, b);
    assert p.Freeing? && b !in s.bitmap ==> InLists(s, p.t, b);
  }

  /** The life of a block. */
  ghost predicate Succeeds(o: Owner, p: Owner) {
    || o == p
    || (o == Free && (p.Allocated? || p.Held? || p == Dropped))
    || (o.Held? && p == Free)
    || (o.Allocated? && (p == InUse || p == Freeing(o.t)))
    || (o == InUse && p.Freeing?)
    || (o.Freeing? && p == Awaiting(o.t))
    || (o.Awaiting? && p == Held(o.t))
  }

  /** Main result: a step moves a block along its life only.  In particular a freed block re-enters the
      free set only from a postlude of the transaction that freed it. */
  lemma {:induction false} LifeCycle(volume: set<nat>, s: State, step: Step, b: nat, o: Owner, p: Owner)
    requires Inv(volume, s) && Enabled(s, step)
    requires Owns(s, b, o) && Owns(Execute(s, step), b, p)
    ensures Succeeds(o, p)
    ensures o != p && p == Free ==> step.PutBack? && o == Held(step.t)
    ensures o != p && o.Awaiting? ==> step == Postlude(o.t)
  {
    var s' := Execute(s, step);
    InvExtends(volume, s, step);
    StepMoves(s, step, b);
    StepKeepsInv(volume, s, step);
    OneOwner(volume, s, b);
    OneOwner(volume, s', b);
    assert BlockInv(volume, s, b);
    var q := NextOwner(volume, s, step, s', b, o);
  }

  /** Where the step takes a block with owner o. */
  lemma {:induction false} NextOwner(volume: set<nat>, s: State, step: Step, s': State, b: nat, o: Owner)
      returns (p: Owner)
    requires BlockInv(volume, s, b) && Owns(s, b, o)
    requires Enabled(s, step) && Moves(s, step, s', b)
    ensures Owns(s', b, p) && Succeeds(o, p)
    ensures o != p && p == Free ==> step.PutBack? && o == Held(step.t)
    ensures o != p && o.Awaiting? ==> step == Postlude(o.t)
  {
    hide Run;
    hide Blocks;
    hide ToAllocate;
    hide ToReturn;
    hide ToFree;
    hide Holds;
    hide CopyHas;
    hide MayFree;
    var t := step.t;
    var was, now := PlaceOf(s, t, b), PlaceOf(s', t, b);
    ListsOfPlace(s, t, b);
    assert (o.Held? || o.Allocated? || o.Awaiting? || o.Freeing?) && o.t != t ==> SameLists(s, s', o.t, b);
    match o
    case Free =>
      p := if now.alloc then Allocated(t) else if now.held then Held(t) else if now.dropped then Dropped else Free;
      NotPending(volume, s, step, s', b);
    case Dropped => p := Dropped;
    case Held(u) => p := if u == t && now.free then Free else o;
    case Allocated(u) =>
      p := if u == t && now.dealloc then Freeing(u) else if u == t && now.bitmap then InUse else o;
      NotPending(volume, s, step, s', b);
    case InUse =>
      p := if now.dealloc then Freeing(t) else InUse;
      NotPending(volume, s, step, s', b);
    case Freeing(u) => p := if u == t && now.ret then Awaiting(u) else o;
    case Awaiting(u) => p := if u == t && now.held then Held(u) else o;
  }

  /** A block whose deallocation nobody had recorded is freed by the acting transaction only. */
  lemma {:induction false} NotPending(volume: set<nat>, s: State, step: Step, s': State, b: nat)
    requires BlockInv(volume, s, b) && Enabled(s, step) && Moves(s, step, s', b)
    ensures !PendingDealloc(s, b) && !ToFree(s', step.t, b) ==> !PendingDealloc(s', b)
    ensures forall t :: InLists(s, t, b) && !ToFree(s, t, b) ==> !PendingDealloc(s, b)
    ensures b in s.free ==> !PendingDealloc(s, b)
  {
    forall u | ToFree(s, u, b)
      ensures b in s.bitmap || InLists(s, u, b)
    {
    }
    assert SameOwners(s, s', step.t, b);
  }

  // ---- whole runs --------------------------------------------------------------------------------

  ghost predicate Init(volume: set<nat>, s: State) {
    && s.txs == map[]
    && s.free !! s.bitmap && s.dropped == {} && s.disk == s.bitmap
    && volume == s.free + s.bitmap
  }

  ghost predicate IsPath(states: seq<State>, steps: seq<Step>) {
    && |states| == |steps| + 1
    && forall i :: 0 <= i < |steps| ==> Enabled(states[i], steps[i]) && states[i + 1] == Execute(states[i], steps[i])
  }

  ghost predicate IsRun(volume: set<nat>, states: seq<State>, steps: seq<Step>) {
    IsPath(states, steps) && Init(volume, states[0])
  }

  /** Main result: in every run the invariant holds throughout and no bitmap assertion fires. */
  lemma {:induction false} RunsAreSafe(volume: set<nat>, states: seq<State>, steps: seq<Step>, i: nat)
    requires IsRun(volume, states, steps) && i < |states|
    ensures Inv(volume, states[i])
    ensures i < |steps| && steps[i].ApplyEvent? ==>
              BitmapAssertHolds(states[i], states[i].txs[steps[i].t].events[0])
  {
    if i > 0 {
      RunsAreSafe(volume, states, steps, i - 1);
      StepKeepsInv(volume, states[i - 1], steps[i - 1]);
    }
    if i < |steps| && steps[i].ApplyEvent? {
      AssertsHold(volume, states[i], steps[i].t);
    }
  }

  // ---- the device --------------------------------------------------------------------------------

  /** A copy of the bitmap block of b is written in which its bit is set, or clear. */
  ghost predicate Sets(s: State, step: Step, b: nat) {
    step.WriteOut? && Enabled(s, step) && b in s.txs[step.t].clones[0].bits
  }

  ghost predicate Clears(s: State, step: Step, b: nat) {
    && step.WriteOut? && Enabled(s, step)
    && b in s.txs[step.t].clones[0].blocks && b !in s.txs[step.t].clones[0].bits
  }

  lemma {:induction false} DeviceStep(s: State, step: Step, b: nat)
    requires Enabled(s, step)
    ensures b in Execute(s, step).disk <==> Sets(s, step, b) || (b in s.disk && !Clears(s, step, b))
  {
    hide Run;
    hide Blocks;
    hide Deallocs;
    hide Copied;
  }

  /** New copies show the bits as they are cached. */
  lemma {:induction false} CopiesStep(s: State, step: Step, t: TxId, b: nat)
    requires Enabled(s, step) && CopyHas(Execute(s, step), t, b)
    ensures CopyHas(s, t, b) || b in s.bitmap
  {
    hide Run;
    hide Blocks;
    hide Deallocs;
    hide Copied;
    if step.Copy? && step.t == t {
      AppendClone(s.txs[t].clones, Clone(step.blocks, s.bitmap * step.blocks));
    }
  }

  /** At step m a copy with the bit of b set is written that had been made before state `lo`. */
  ghost predicate SetsOld(states: seq<State>, steps: seq<Step>, lo: nat, m: nat, b: nat)
    requires lo <= m < |steps| < |states|
  {
    Sets(states[m], steps[m], b) && CopyHas(states[lo], steps[m].t, b)
  }

  /** Between `lo` and `hi` such an old copy is written, and no copy with the bit clear after it. */
  ghost predicate Overwritten(states: seq<State>, steps: seq<Step>, lo: nat, hi: nat, b: nat)
    requires hi <= |steps| < |states|
  {
    exists m :: lo <= m < hi && SetsOld(states, steps, lo, m, b)
             && forall n :: m < n < hi ==> !Clears(states[n], steps[n], b)
  }

  /** While a block's bit is clear in memory, every copy with the bit set is an old one. */
  lemma {:induction false} CopiesAreOld(states: seq<State>, steps: seq<Step>, lo: nat, hi: nat, t: TxId, b: nat)
    requires IsPath(states, steps) && lo <= hi < |states|
    requires forall k :: lo <= k < hi ==> b !in states[k].bitmap
    requires CopyHas(states[hi], t, b)
    ensures CopyHas(states[lo], t, b)
    decreases hi
  {
    if lo < hi {
      CopiesStep(states[hi - 1], steps[hi - 1], t, b);
      CopiesAreOld(states, steps, lo, hi - 1, t, b);
    }
  }

  /** Main result: as long as a block's bit is clear in memory, a clear bit on the device becomes set
      exactly when an old copy is written last. */
  lemma {:induction false} DeviceBitIff(states: seq<State>, steps: seq<Step>, lo: nat, hi: nat, b: nat)
    requires IsPath(states, steps) && lo <= hi < |states|
    requires forall k :: lo <= k < hi ==> b !in states[k].bitmap
    requires b !in states[lo].disk
    ensures b in states[hi].disk <==> Overwritten(states, steps, lo, hi, b)
    decreases hi
  {
    hide Enabled;
    hide Execute;
    hide Sets;
    hide Clears;
    hide CopyHas;
    hide Overwritten;
    if lo == hi {
      OverwrittenNever(states, steps, lo, b);
    } else {
      var s, step := states[hi - 1], steps[hi - 1];
      DeviceBitIff(states, steps, lo, hi - 1, b);
      DeviceStep(s, step, b);
      if Sets(s, step, b) {
        SetsCopied(s, step, b);
        CopiesAreOld(states, steps, lo, hi - 1, step.t, b);
      }
      OverwrittenStep(states, steps, lo, hi, b);
    }
  }

  lemma {:induction false} SetsCopied(s: State, step: Step, b: nat)
    requires Sets(s, step, b)
    ensures CopyHas(s, step.t, b) && !Clears(s, step, b)
  {
  }

  lemma {:induction false} OverwrittenNever(states: seq<State>, steps: seq<Step>, lo: nat, b: nat)
    requires lo <= |steps| < |states|
    ensures !Overwritten(states, steps, lo, lo, b)
  {
  }

  lemma {:induction false} OverwrittenStep(states: seq<State>, steps: seq<Step>, lo: nat, hi: nat, b: nat)
    requires lo < hi <= |steps| < |states|
    ensures
      var s, step := states[hi - 1], steps[hi - 1];
      Sets(s, step, b) ==> (Overwritten(states, steps, lo, hi, b) <== CopyHas(states[lo], step.t, b))
    ensures
      var s, step := states[hi - 1], steps[hi - 1];
      !Sets(s, step, b) ==>
        (Overwritten(states, steps, lo, hi, b) <==> Overwritten(states, steps, lo, hi - 1, b) && !Clears(s, step, b))
  {
    hide Sets;
    hide Clears;
    hide CopyHas;
    var s, step := states[hi - 1], steps[hi - 1];
    if Sets(s, step, b) && CopyHas(states[lo], step.t, b) {
      assert SetsOld(states, steps, lo, hi - 1, b);
    }
    if !Sets(s, step, b) {
      if Overwritten(states, steps, lo, hi, b) {
        var m :| lo <= m < hi && SetsOld(states, steps, lo, m, b)
                 && forall n :: m < n < hi ==> !Clears(states[n], steps[n], b);
        assert m < hi - 1 && SetsOld(states, steps, lo, m, b);
      }
      if Overwritten(states, steps, lo, hi - 1, b) && !Clears(s, step, b) {
        var m :| lo <= m < hi - 1 && SetsOld(states, steps, lo, m, b)
                 && forall n :: m < n < hi - 1 ==> !Clears(states[n], steps[n], b);
        assert forall n :: m < n < hi ==> !Clears(states[n], steps[n], b);
      }
    }
  }

  ghost predicate OldCopy(s: State, b: nat) {
    exists t :: CopyHas(s, t, b)
  }

  /** A continuation of s during which the bit of b stays clear in memory. */
  ghost predicate Continues(s: State, b: nat, states: seq<State>, steps: seq<Step>) {
    && IsPath(states, steps) && states[0] == s
    && forall k :: 0 <= k < |states| ==> b !in states[k].bitmap
  }

  ghost predicate MaySet(s: State, b: nat) {
    exists states: seq<State>, steps: seq<Step> :: Continues(s, b, states, steps) && b in states[|steps|].disk
  }

  /** Main result: a bit that is clear in memory and on the device stays clear on the device in every
      continuation, until it is set in memory again, exactly when no copy with the bit set is waiting to
      be written. */
  lemma {:induction false} DeviceStaysClearIff(volume: set<nat>, s: State, b: nat)
    requires Inv(volume, s) && b !in s.bitmap && b !in s.disk
    ensures MaySet(s, b) <==> OldCopy(s, b)
  {
    if MaySet(s, b) {
      var states: seq<State>, steps: seq<Step> :| Continues(s, b, states, steps) && b in states[|steps|].disk;
      DeviceBitIff(states, steps, 0, |steps|, b);
    }
    if t :| CopyHas(s, t, b) {
      assert TxShape(s.txs[t]);
      OldCopyIsWritten(s, t, b);
    }
  }

  lemma {:induction false} MaySetBefore(s: State, step: Step, b: nat)
    requires Enabled(s, step) && b !in s.bitmap && MaySet(Execute(s, step), b)
    ensures MaySet(s, b)
  {
    var after := Execute(s, step);
    var states: seq<State>, steps: seq<Step> :| Continues(after, b, states, steps) && b in states[|steps|].disk;
    var states', steps' := [s] + states, [step] + steps;
    forall i | 0 <= i < |steps'|
      ensures Enabled(states'[i], steps'[i]) && states'[i + 1] == Execute(states'[i], steps'[i])
    {
      if i > 0 { assert states'[i] == states[i - 1] && steps'[i] == steps[i - 1] && states'[i + 1] == states[i]; }
    }
    assert Continues(s, b, states', steps');
  }

  lemma {:induction false} OldCopyIsWritten(s: State, t: TxId, b: nat)
    requires CopyHas(s, t, b) && TxShape(s.txs[t]) && b !in s.bitmap
    ensures MaySet(s, b)
  {
    var tx := s.txs[t];
    if tx.phase == Writing {
      OldCopyInTurn(s, t, b);
    } else {
      var more := Deallocs(tx.postludes) - Copied(tx.clones);
      AppendClone(tx.clones, Clone(more, s.bitmap * more));
      var s1 := Execute(s, Copy(t, more));
      var s2 := Execute(s1, StartWrite(t));
      OldCopyInTurn(s2, t, b);
      MaySetBefore(s1, StartWrite(t), b);
      MaySetBefore(s, Copy(t, more), b);
    }
  }

  lemma {:induction false} OldCopyInTurn(s: State, t: TxId, b: nat)
    requires CopyHas(s, t, b) && s.txs[t].phase == Writing && b !in s.bitmap
    ensures MaySet(s, b)
    decreases if t in s.txs then |s.txs[t].clones| else 0
  {
    var s' := Execute(s, WriteOut(t));
    if b in s.txs[t].clones[0].bits {
      assert IsPath([s'], []) && Continues(s', b, [s'], []);
      assert [s'][0] == s';
    } else {
      OldCopyInTurn(s', t, b);
    }
    MaySetBefore(s, WriteOut(t), b);
  }

  // ---- two allocations of one block ----------------------------------------------------------------

  ghost predicate HandsOut(step: Step, b: nat) {
    step.Allocate? && b in Run(step.start, step.len)
  }

  ghost predicate Returns(s: State, step: Step, b: nat) {
    step.Postlude? && Enabled(s, step) && b in Blocks(s.txs[step.t].postludes[0])
  }

  /** Block b is free or about to be put back. */
  ghost predicate Idle(s: State, b: nat) {
    b in s.free || exists t :: Holds(s, t, b)
  }

  lemma {:induction false} BecomesIdle(s: State, step: Step, b: nat)
    requires Enabled(s, step) && Idle(Execute(s, step), b) && !Idle(s, b)
    ensures Returns(s, step, b)
  {
    hide Deallocs;
    hide Copied;
    OthersStay(s, step);
    forall t | t != step.t
      ensures Holds(Execute(s, step), t, b) <==> Holds(s, t, b)
    {
      assert HasSameTx(s, Execute(s, step), t);
    }
    assert !Holds(s, step.t, b);
    if step.Allocate? { TakenRuns(s.free, step, b); }
  }

  lemma {:induction false} LastReturn(states: seq<State>, steps: seq<Step>, i: nat, j: nat, b: nat) returns (k: nat)
    requires IsPath(states, steps) && i <= j < |states|
    requires !Idle(states[i], b) && Idle(states[j], b)
    ensures i <= k < j && Returns(states[k], steps[k], b)
    ensures forall m :: k < m <= j ==> Idle(states[m], b)
    decreases j
  {
    if Idle(states[j - 1], b) {
      k := LastReturn(states, steps, i, j - 1, b);
    } else {
      BecomesIdle(states[j - 1], steps[j - 1], b);
      k := j - 1;
    }
  }

  /** Block b waits for the postludes of t, whose copy of its bitmap block has been written. */
  ghost predicate Written(s: State, t: TxId, b: nat) {
    ToReturn(s, t, b) && s.txs[t].phase == Writing && b !in Copied(s.txs[t].clones)
  }

  lemma {:induction false} WrittenElsewhere(s: State, step: Step, t: TxId, b: nat)
    requires Enabled(s, step) && step.t != t
    ensures Written(Execute(s, step), t, b) <==> Written(s, t, b)
  {
    OthersStay(s, step);
    assert HasSameTx(s, Execute(s, step), t);
  }

  lemma {:induction false} BecomesWritten(volume: set<nat>, s: State, step: Step, t: TxId, b: nat)
    requires Inv(volume, s) && Enabled(s, step) && Written(Execute(s, step), t, b) && !Written(s, t, b)
    ensures step == WriteOut(t) && Clears(s, step, b)
  {
    hide Run;
    hide Blocks;
    if step.t != t {
      WrittenElsewhere(s, step, t, b);
    } else {
      assert BlockInv(volume, s, b) && TxShape(s.txs[t]);
      assert ToReturn(s, t, b) ==> !CopyHas(s, t, b);
    }
  }

  /** The write-out of the transaction that returns block b comes before its postludes. */
  lemma {:induction false} FindWrite(volume: set<nat>, states: seq<State>, steps: seq<Step>, i: nat, k: nat,
      t: TxId, b: nat) returns (w: nat)
    requires IsPath(states, steps) && i <= k < |states| && forall m :: i <= m <= k ==> Inv(volume, states[m])
    requires Written(states[k], t, b) && !Written(states[i], t, b)
    ensures i <= w < k && steps[w] == WriteOut(t) && Clears(states[w], steps[w], b)
    ensures forall m :: w < m <= k ==> Written(states[m], t, b)
    decreases k
  {
    hide Inv;
    hide Written;
    hide Clears;
    hide Enabled;
    hide Execute;
    if Written(states[k - 1], t, b) {
      w := FindWrite(volume, states, steps, i, k - 1, t, b);
    } else {
      BecomesWritten(volume, states[k - 1], steps[k - 1], t, b);
      w := k - 1;
    }
  }

  /** Main result: between two allocations of the same block, a transaction that freed it wrote a
      bitmap with its bit clear and then returned it in a postlude.  When it is handed out again its bit
      is clear in memory; and on the device it is set exactly when an older copy of the bitmap block,
      made before that transaction wrote its own, was written afterwards. */
  lemma {:induction false} NotHandedOutTwice(volume: set<nat>, states: seq<State>, steps: seq<Step>, i: nat, j: nat,
      b: nat)
    requires IsRun(volume, states, steps) && i < j < |steps|
    requires HandsOut(steps[i], b) && HandsOut(steps[j], b)
    ensures b !in states[j].bitmap
    ensures exists w, k :: i < w < k < j
              && Clears(states[w], steps[w], b) && Returns(states[k], steps[k], b) && steps[w].t == steps[k].t
              && (b in states[j].disk <==> Overwritten(states, steps, w + 1, j, b))
  {
    hide Inv;
    hide Enabled;
    hide Execute;
    hide Idle;
    hide Written;
    hide Clears;
    hide Returns;
    hide Overwritten;
    hide Run;
    forall m | 0 <= m < |states|
      ensures Inv(volume, states[m])
    {
      RunsAreSafe(volume, states, steps, m);
    }
    HandedOut(volume, states[i], steps[i], b);
    FreeToHandOut(states[j], steps[j], b);
    var k := LastReturn(states, steps, i + 1, j, b);
    ReturnIsWritten(volume, states[k], steps[k], b);
    var w := FindWrite(volume, states, steps, i + 1, k, steps[k].t, b);
    forall m | w + 1 <= m <= j
      ensures b !in states[m].bitmap
    {
      ClearInMemory(volume, states[m], steps[k].t, b);
    }
    ClearsOnDevice(states[w], steps[w], b);
    DeviceBitIff(states, steps, w + 1, j, b);
  }

  lemma {:induction false} FreeToHandOut(s: State, step: Step, b: nat)
    requires Enabled(s, step) && HandsOut(step, b)
    ensures Idle(s, b)
  {
    TakenRuns(s.free, step, b);
  }

  lemma {:induction false} ClearsOnDevice(s: State, step: Step, b: nat)
    requires Enabled(s, step) && Clears(s, step, b)
    ensures b !in Execute(s, step).disk
  {
    DeviceStep(s, step, b);
  }

  lemma {:induction false} HandedOut(volume: set<nat>, s: State, step: Step, b: nat)
    requires Inv(volume, s) && Enabled(s, step) && HandsOut(step, b)
    ensures !Idle(Execute(s, step), b) && forall t :: !Written(Execute(s, step), t, b)
  {
    var s' := Execute(s, step);
    InvExtends(volume, s, step);
    StepMoves(s, step, b);
    StepKeepsInv(volume, s, step);
    assert PlaceOf(s', step.t, b).alloc;
    assert BlockInv(volume, s', b) && InLists(s', step.t, b);
    forall t
      ensures !ToReturn(s', t, b) && !Holds(s', t, b)
    {
      assert ToReturn(s', t, b) || Holds(s', t, b) ==> InLists(s', t, b);
    }
  }

  lemma {:induction false} ReturnIsWritten(volume: set<nat>, s: State, step: Step, b: nat)
    requires Inv(volume, s) && Returns(s, step, b)
    ensures Written(s, step.t, b)
  {
    hide Run;
    var tx := s.txs[step.t];
    assert TxShape(tx) && tx.postludes[0] in tx.postludes;
  }

  lemma {:induction false} ClearInMemory(volume: set<nat>, s: State, t: TxId, b: nat)
    requires Inv(volume, s) && (Written(s, t, b) || Idle(s, b))
    ensures b !in s.bitmap
  {
    assert BlockInv(volume, s, b);
    if Written(s, t, b) {
      assert InLists(s, t, b);
    } else if u :| Holds(s, u, b) {
      assert InLists(s, u, b);
    }
  }

  // ---- runs in which the device or the allocator misleads ------------------------------------------

  ghost predicate Reachable(volume: set<nat>, s: State) {
    exists states: seq<State>, steps: seq<Step> :: IsRun(volume, states, steps) && states[|steps|] == s
  }

  lemma {:induction false} ReachableStep(volume: set<nat>, s: State, step: Step)
    requires Reachable(volume, s) && Enabled(s, step)
    ensures Reachable(volume, Execute(s, step))
  {
    var states: seq<State>, steps: seq<Step> :| IsRun(volume, states, steps) && states[|steps|] == s;
    var states', steps' := states + [Execute(s, step)], steps + [step];
    forall i | 0 <= i < |steps'|
      ensures Enabled(states'[i], steps'[i]) && states'[i + 1] == Execute(states'[i], steps'[i])
    {
      if i < |steps| { assert states'[i] == states[i] && steps'[i] == steps[i] && states'[i + 1] == states[i + 1]; }
    }
    assert IsRun(volume, states', steps') && states'[|steps'|] == Execute(s, step);
  }

  lemma {:induction false} ReachableInit(volume: set<nat>, s: State)
    requires Init(volume, s)
    ensures Reachable(volume, s)
  {
    assert IsRun(volume, [s], []) && [s][0] == s;
  }

  // The device.  Transaction t allocates block a and copies the bitmap block of a and b.  Then u frees
  // b, writes its own copy and returns b.  Then t writes its copy, in which the bit of b is set.

  ghost function Copier(t: TxId, a: nat, b: nat): Tx {
    Tx(Writing, [], [], [Clone({a, b}, {a, b})], {})
  }

  lemma {:induction false} OneBlock(b: nat)
    ensures Run(b, 1) == {b} && Run(b + 1, 0) == {}
  {
  }

  lemma {:induction false} CopyIsMade(volume: set<nat>, s: State, t: TxId, a: nat, b: nat)
    requires Reachable(volume, s) && a != b
    requires s == State({a}, {b}, {b}, {}, map[])
    ensures Reachable(volume, State({}, {a, b}, {b}, {}, map[t := Copier(t, a, b)]))
  {
    hide Reachable;
    hide Run;
    OneBlock(a);
    var e := Alloc(a, 1);
    var s1 := Execute(s, Begin(t));
    ReachableStep(volume, s, Begin(t));
    var s2 := Execute(s1, Allocate(t, a, 1, 1, 1));
    ReachableStep(volume, s1, Allocate(t, a, 1, 1, 1));
    assert s2.txs[t].events == [e] && s2.free == {};
    assert s2.dropped == {} && s2.txs[t].held == {};
    var s3 := Execute(s2, Apply(t));
    ReachableStep(volume, s2, Apply(t));
    var s4 := Execute(s3, ApplyEvent(t));
    ReachableStep(volume, s3, ApplyEvent(t));
    assert s4.bitmap == {a, b} && s4.txs[t].events == [];
    CopyAndStart(volume, s4, t, {a, b});
    assert s4.bitmap * {a, b} == {a, b};
    assert s4.txs[t].(phase := Writing, clones := [Clone({a, b}, {a, b})]) == Copier(t, a, b);
    assert s4.txs[t := Copier(t, a, b)] == map[t := Copier(t, a, b)];
  }

  lemma {:induction false} CopyAndStart(volume: set<nat>, s: State, t: TxId, blocks: set<nat>)
    requires Reachable(volume, s) && t in s.txs && s.txs[t].phase == Applying && s.txs[t].events == []
    requires s.txs[t].clones == [] && Deallocs(s.txs[t].postludes) <= blocks
    ensures Reachable(volume,
      s.(txs := s.txs[t := s.txs[t].(phase := Writing, clones := [Clone(blocks, s.bitmap * blocks)])]))
  {
    hide Reachable;
    hide Run;
    var c := Clone(blocks, s.bitmap * blocks);
    var s1 := Execute(s, Copy(t, blocks));
    ReachableStep(volume, s, Copy(t, blocks));
    assert s1.txs[t].clones == [] + [c] == [c];
    assert Copied([c]) == blocks by { assert [c][1..] == []; }
    var s2 := Execute(s1, StartWrite(t));
    ReachableStep(volume, s1, StartWrite(t));
    assert s2.txs == s.txs[t := s.txs[t].(phase := Writing, clones := [c])];
  }

  lemma {:induction false} OtherFrees(volume: set<nat>, s: State, t: TxId, u: TxId, a: nat, b: nat)
    requires Reachable(volume, s) && a != b && t != u
    requires s == State({}, {a, b}, {b}, {}, map[t := Copier(t, a, b)])
    ensures Reachable(volume, State({}, {a}, {b}, {},
      map[t := Copier(t, a, b), u := Tx(Applying, [], [Dealloc(b, 1)], [], {})]))
  {
    hide Reachable;
    hide Run;
    OneBlock(b);
    var e := Dealloc(b, 1);
    var s1 := Execute(s, Begin(u));
    ReachableStep(volume, s, Begin(u));
    forall c | c in Run(b, 1)
      ensures MayFree(s1, u, c)
    {
    }
    var s2 := Execute(s1, Deallocate(u, b, 1));
    ReachableStep(volume, s1, Deallocate(u, b, 1));
    assert s2.txs[u].events == [e];
    var s3 := Execute(s2, Apply(u));
    ReachableStep(volume, s2, Apply(u));
    var s4 := Execute(s3, ApplyEvent(u));
    ReachableStep(volume, s3, ApplyEvent(u));
    assert s4.bitmap == {a} && s4.txs[u].events == [] && s4.txs[u].postludes == [e];
    assert s4.txs == map[t := Copier(t, a, b), u := Tx(Applying, [], [e], [], {})];
  }

  lemma {:induction false} OtherWrites(volume: set<nat>, s: State, t: TxId, u: TxId, a: nat, b: nat)
    requires Reachable(volume, s) && a != b && t != u
    requires s == State({}, {a}, {b}, {}, map[t := Copier(t, a, b), u := Tx(Applying, [], [Dealloc(b, 1)], [], {})])
    ensures Reachable(volume, State({}, {a}, {a}, {},
      map[t := Copier(t, a, b), u := Tx(Writing, [], [Dealloc(b, 1)], [], {})]))
  {
    hide Reachable;
    hide Run;
    OneBlock(b);
    var e := Dealloc(b, 1);
    assert Deallocs([e]) == {b} by { assert [e][1..] == []; }
    CopyAndStart(volume, s, u, {a, b});
    var c := Clone({a, b}, s.bitmap * {a, b});
    var s1 := s.(txs := s.txs[u := s.txs[u].(phase := Writing, clones := [c])]);
    assert c.bits == {a};
    var s2 := Execute(s1, WriteOut(u));
    ReachableStep(volume, s1, WriteOut(u));
    assert s2.disk == {a} && [c][1..] == [];
    assert s2.txs == map[t := Copier(t, a, b), u := Tx(Writing, [], [e], [], {})];
  }

  lemma {:induction false} ReturnThenOverwrite(volume: set<nat>, s: State, t: TxId, u: TxId, a: nat, b: nat)
    requires Reachable(volume, s) && a != b && t != u
    requires s == State({}, {a}, {a}, {}, map[t := Copier(t, a, b), u := Tx(Writing, [], [Dealloc(b, 1)], [], {})])
    ensures exists end :: Reachable(volume, end) && end.free == {b} && end.bitmap == {a} && end.disk == {a, b}
  {
    hide Reachable;
    hide Run;
    OneBlock(b);
    var s1 := Execute(s, Postlude(u));
    ReachableStep(volume, s, Postlude(u));
    assert s1.txs[u].held == {b};
    var s2 := Execute(s1, PutBack(u, {b}));
    ReachableStep(volume, s1, PutBack(u, {b}));
    assert s2.txs[t] == Copier(t, a, b) && s2.free == {b};
    var end := Execute(s2, WriteOut(t));
    ReachableStep(volume, s2, WriteOut(t));
    assert end.disk == {a, b};
  }

  /** A run after which block 0 is free, with its bit clear in memory, but set on the device. */
  lemma {:induction false} OldCopyOverwrites()
    ensures exists s :: Reachable({0, 1}, s) && s.free == {0} && s.bitmap == {1} && s.disk == {0, 1}
  {
    OldCopyRun({1, 0}, 1, 2, 1, 0);
    assert {1, 0} == {0, 1};
  }

  lemma {:induction false} OldCopyRun(volume: set<nat>, t: TxId, u: TxId, a: nat, b: nat)
    requires a != b && t != u && volume == {a, b}
    ensures exists end :: Reachable(volume, end) && end.free == {b} && end.bitmap == {a} && end.disk == {a, b}
  {
    var s := State({a}, {b}, {b}, {}, map[]);
    ReachableInit(volume, s);
    CopyIsMade(volume, s, t, a, b);
    OtherFrees(volume, State({}, {a, b}, {b}, {}, map[t := Copier(t, a, b)]), t, u, a, b);
    var mid := map[t := Copier(t, a, b), u := Tx(Applying, [], [Dealloc(b, 1)], [], {})];
    OtherWrites(volume, State({}, {a}, {b}, {}, mid), t, u, a, b);
    var late := map[t := Copier(t, a, b), u := Tx(Writing, [], [Dealloc(b, 1)], [], {})];
    ReturnThenOverwrite(volume, State({}, {a}, {a}, {}, late), t, u, a, b);
  }

  /** A run after which nothing is free, so that an allocation fails, while three of four blocks are
      about to be put back. */
  lemma {:induction false} FullWhileHeld()
    ensures exists s :: Reachable(Run(0, 4), s) && s.free == {}
              && Enabled(s, PutBack(1, Run(1, 3))) && Execute(s, PutBack(1, Run(1, 3))).free == Run(1, 3)
  {
    HeldRun(1, 4);
  }

  lemma {:induction false} HeldRun(t: TxId, n: nat)
    requires n > 1
    ensures exists s :: Reachable(Run(0, n), s) && s.free == {}
              && Enabled(s, PutBack(t, Run(1, n - 1))) && Execute(s, PutBack(t, Run(1, n - 1))).free == Run(1, n - 1)
  {
    var s0 := State(Run(0, n), {}, {}, {}, map[]);
    ReachableInit(Run(0, n), s0);
    ReachableStep(Run(0, n), s0, Begin(t));
    var s1 := s0.(txs := map[t := Tx(Open, [], [], [], {})]);
    assert Execute(s0, Begin(t)) == s1;
    TakeOne(Run(0, n), s1, t, n);
  }

  lemma {:induction false} TakeOne(volume: set<nat>, s: State, t: TxId, n: nat)
    requires Reachable(volume, s) && s.free == Run(0, n) && n > 1
    requires t in s.txs && s.txs[t].phase == Open && s.txs[t].held == {}
    ensures exists s' :: Reachable(volume, s') && s'.free == {}
              && Enabled(s', PutBack(t, Run(1, n - 1))) && Execute(s', PutBack(t, Run(1, n - 1))).free == Run(1, n - 1)
  {
    hide Reachable;
    hide Run;
    assert 1 in Run(1, n - 1) by { OneIn(n); }
    ReachableStep(volume, s, Allocate(t, 0, 1, 1, n));
    var s' := Execute(s, Allocate(t, 0, 1, 1, n));
    assert s'.free == {} && s'.txs[t].held == Run(1, n - 1);
    assert Enabled(s', PutBack(t, Run(1, n - 1)));
    assert Execute(s', PutBack(t, Run(1, n - 1))).free == Run(1, n - 1);
  }

  lemma {:induction false} OneIn(n: nat)
    requires n > 1
    ensures 1 in Run(1, n - 1)
  {
  }

  // ---- the buddy allocator -------------------------------------------------------------------------

  /** How many blocks an allocation takes out of the free set at first: the chain at the hint, or the
      chunk that fits best. */
  ghost function Taken(backref: Index, size: nat, hope: Wrappers.Option<nat>, p: nat): nat {
    if hope.Some? && Chain(backref, hope.value, size) > size / 2 then Chain(backref, hope.value, size)
    else if p in backref then Pow2(backref[p]) else 0
  }

  /** An allocation by the buddy allocator is an `Allocate` step, which takes a chain or a chunk out of
      the free set and drops exactly the surplus, followed by `PutBack` steps for the rest. */
  lemma {:induction false} BuddyAllocationIsStep(backref: Index, maxOrder: nat, size: nat, hope: Wrappers.Option<nat>,
                              p: nat, len: nat, free': set<nat>, s: State, t: TxId)
    requires WellFormed(backref, maxOrder) && size > 0
    requires Allocates(backref, size, hope, Wrappers.Some((p, len)), free')
    requires s.free == FreeBlocks(backref)
    requires t in s.txs && s.txs[t].phase == Open && s.txs[t].held == {}
    ensures exists chain ::
              var step := Allocate(t, p, len, chain, Taken(backref, size, hope, p));
              && Enabled(s, step)
              && var s' := Execute(s, step);
                 && s'.dropped == s.dropped + Surplus(backref, size, hope)
                 && s'.free !! s'.txs[t].held && s'.free + s'.txs[t].held == free'
  {
    AllocatedRun(backref, maxOrder, size, hope, Wrappers.Some((p, len)), free');
    var whole := Taken(backref, size, hope, p);
    if hope.Some? && Chain(backref, hope.value, size) > size / 2 {
      TakenByHint(backref, size, hope, p, len, free', s, t);
      assert Enabled(s, Allocate(t, p, len, whole, whole));
    } else {
      RemoveChunk(backref, maxOrder, p);
      TakenByFit(s, t, p, len, whole, free');
      assert Surplus(backref, size, hope) == {};
      assert Enabled(s, Allocate(t, p, len, len, whole));
    }
  }

  lemma {:induction false} TakenByHint(backref: Index, size: nat, hope: Wrappers.Option<nat>,
                              p: nat, len: nat, free': set<nat>, s: State, t: TxId)
    requires hope == Wrappers.Some(p) && Chain(backref, p, size) > size / 2
    requires len == (if Chain(backref, p, size) < size then Chain(backref, p, size) else size) && len > 0
    requires s.free == FreeBlocks(backref) && free' == s.free - Run(p, Chain(backref, p, size))
    requires t in s.txs && s.txs[t].phase == Open && s.txs[t].held == {}
    ensures var chain := Chain(backref, p, size);
            var step := Allocate(t, p, len, chain, chain);
            && Enabled(s, step)
            && var s' := Execute(s, step);
               && s'.dropped == s.dropped + Surplus(backref, size, hope)
               && s'.free == free' && s'.txs[t].held == {}
  {
    ChainIsFree(backref, p, size);
    var chain := Chain(backref, p, size);
    assert Run(p + chain, 0) == {};
    assert Run(p + len, chain - len) == Surplus(backref, size, hope);
  }

  lemma {:induction false} TakenByFit(s: State, t: TxId, p: nat, len: nat, whole: nat, free': set<nat>)
    requires 0 < len <= whole && Run(p, whole) <= s.free && free' == s.free - Run(p, len)
    requires t in s.txs && s.txs[t].phase == Open && s.txs[t].held == {}
    ensures Enabled(s, Allocate(t, p, len, len, whole))
    ensures var s' := Execute(s, Allocate(t, p, len, len, whole));
            && s'.dropped == s.dropped
            && s'.free !! s'.txs[t].held && s'.free + s'.txs[t].held == free'
  {
    RunSplit(s.free, p, len, whole - len);
    assert Run(p + len, 0) == {};
  }

  // ---- a transaction can be finished -----------------------------------------------------------------

  /** Steps of transaction t alone lead from s to s'. */
  ghost predicate Leads(s: State, s': State, t: TxId) {
    exists states: seq<State>, steps: seq<Step> ::
      IsPath(states, steps) && states[0] == s && states[|steps|] == s' && OfTx(steps, t)
  }

  ghost predicate OfTx(steps: seq<Step>, t: TxId) { forall k :: 0 <= k < |steps| ==> steps[k].t == t }

  lemma {:induction false} LeadsHere(s: State, t: TxId)
    ensures Leads(s, s, t)
  {
    var states: seq<State>, steps: seq<Step> := [s], [];
    assert IsPath(states, steps) && states[0] == s && states[|steps|] == s && OfTx(steps, t);
  }

  lemma {:induction false} LeadsFrom(s: State, step: Step, s': State)
    requires Enabled(s, step) && Leads(Execute(s, step), s', step.t)
    ensures Leads(s, s', step.t)
  {
    hide Enabled;
    hide Execute;
    var states: seq<State>, steps: seq<Step> :|
      IsPath(states, steps) && states[0] == Execute(s, step) && states[|steps|] == s' && OfTx(steps, step.t);
    var states', steps' := [s] + states, [step] + steps;
    forall i | 0 <= i < |steps'|
      ensures Enabled(states'[i], steps'[i]) && states'[i + 1] == Execute(states'[i], steps'[i])
    {
      assert i > 0 ==> states'[i] == states[i - 1] && steps'[i] == steps[i - 1] && states'[i + 1] == states[i];
    }
    assert IsPath(states', steps') && states'[0] == s && states'[|steps'|] == s' && OfTx(steps', step.t);
  }

  /** Transaction t is over, and what it held and was to return is free. */
  ghost predicate Finished(s: State, s': State, t: TxId)
    requires t in s.txs
  {
    && s'.txs == s.txs - {t}
    && s'.free == s.free + s.txs[t].held + Deallocs(s.txs[t].events) + Deallocs(s.txs[t].postludes)
  }

  ghost predicate OnlyDeallocs(events: seq<Event>) { forall e :: e in events ==> e.Dealloc? }

  /** Main result: a transaction can always be finished by its own steps, whatever the others have done; all
      blocks that it freed, and all that it was putting back, are free then. */
  lemma {:induction false} CanFinish(s: State, t: TxId) returns (s': State)
    requires t in s.txs && TxShape(s.txs[t])
    ensures Leads(s, s', t) && Finished(s, s', t)
  {
    hide Leads;
    if s.txs[t].phase == Open {
      s' := FinishOpen(s, t);
    } else if s.txs[t].phase == Applying {
      s' := FinishApplying(s, t);
    } else {
      s' := FinishWriting(s, t);
    }
  }

  lemma {:induction false} FinishOpen(s: State, t: TxId) returns (s': State)
    requires t in s.txs && s.txs[t].phase == Open && OnlyDeallocs(s.txs[t].postludes)
    ensures Leads(s, s', t) && Finished(s, s', t)
    decreases s.txs[t].held
  {
    hide Leads;
    hide Run;
    var held := s.txs[t].held;
    if held != {} {
      var s1 := Execute(s, PutBack(t, held));
      s' := FinishOpen(s1, t);
      LeadsFrom(s, PutBack(t, held), s');
      assert s1.txs - {t} == s.txs - {t} && held - held == {};
    } else {
      var s1 := Execute(s, Apply(t));
      s' := FinishApplying(s1, t);
      LeadsFrom(s, Apply(t), s');
      assert s1.txs - {t} == s.txs - {t};
    }
  }

  lemma {:induction false} DeallocsAppend(events: seq<Event>, e: Event)
    ensures Deallocs(events + [e]) == Deallocs(events) + if e.Dealloc? then Blocks(e) else {}
  {
    if events == [] {
      assert events + [e] == [e] && [e][1..] == [];
    } else {
      DeallocsAppend(events[1..], e);
      assert (events + [e])[1..] == events[1..] + [e];
    }
  }

  lemma {:induction false} FinishApplying(s: State, t: TxId) returns (s': State)
    requires t in s.txs && s.txs[t].phase == Applying && OnlyDeallocs(s.txs[t].postludes)
    ensures Leads(s, s', t) && Finished(s, s', t)
    decreases |s.txs[t].events|
  {
    hide Leads;
    hide Run;
    var tx := s.txs[t];
    if tx.events != [] {
      var s1 := Execute(s, ApplyEvent(t));
      s' := FinishApplying(s1, t);
      LeadsFrom(s, ApplyEvent(t), s');
      DeallocsAppend(tx.postludes, tx.events[0]);
      assert s1.txs - {t} == s.txs - {t};
    } else {
      var blocks := Deallocs(tx.postludes) - Copied(tx.clones);
      var s1 := Execute(s, Copy(t, blocks));
      AppendClone(tx.clones, Clone(blocks, s.bitmap * blocks));
      var s2 := Execute(s1, StartWrite(t));
      s' := FinishWriting(s2, t);
      LeadsFrom(s1, StartWrite(t), s');
      LeadsFrom(s, Copy(t, blocks), s');
      assert s2.txs - {t} == s.txs - {t};
    }
  }

  lemma {:induction false} FinishWriting(s: State, t: TxId) returns (s': State)
    requires t in s.txs && s.txs[t].phase == Writing && s.txs[t].events == [] && OnlyDeallocs(s.txs[t].postludes)
    ensures Leads(s, s', t) && Finished(s, s', t)
    decreases |s.txs[t].clones|, |s.txs[t].postludes|, s.txs[t].held
  {
    hide Leads;
    hide Run;
    var tx := s.txs[t];
    if tx.clones == [] && tx.held == {} && tx.postludes == [] {
      s' := Execute(s, End(t));
      LeadsHere(s', t);
      LeadsFrom(s, End(t), s');
    } else {
      var step := if tx.clones != [] then WriteOut(t) else if tx.held != {} then PutBack(t, tx.held) else Postlude(t);
      var s1 := Execute(s, step);
      assert step.PutBack? ==> s1.txs[t].held == {};
      s' := FinishWriting(s1, t);
      LeadsFrom(s, step, s');
      assert s1.txs - {t} == s.txs - {t};
      if step.Postlude? { ReturnsFirst(tx.postludes); }
    }
  }

  lemma {:induction false} ReturnsFirst(postludes: seq<Event>)
    requires OnlyDeallocs(postludes) && postludes != []
    ensures Deallocs(postludes) == Blocks(postludes[0]) + Deallocs(postludes[1..])
  {
    assert postludes[0] in postludes;
  }
}
