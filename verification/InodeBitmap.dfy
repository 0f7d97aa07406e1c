/** The lock-free inode bitmap of one block group: allocating threads, and the transactions that
    free inodes (src/inode/allocator.rs, src/inode/manager.rs, src/transaction/collector.rs). */
module InodeBitmap {
  import opened Wrappers
  import opened Bitmap

  type Tid = nat

  /** Where a thread is inside `get_free_ino`.  Scan: it is about to load the byte of a group of
      eight inodes.  Loaded: it has loaded the byte and is about to set a bit in it. */
  datatype Local =
    | Idle
    | Scan(group: nat)
    | Loaded(group: nat, val: Byte)

  /** Where an inode number is in its life.  Held: handed out, or in use since the mount.  Freed: a
      transaction has recorded its deallocation.  Written: that transaction has written its blocks
      and has still to run its postlude. */
  datatype Stage = Held | Freed | Written

  datatype State = State(bitmap: seq<Byte>, threads: map<Tid, Local>, stages: map<nat, Stage>)

  datatype Step =
    | Start(t: Tid)
    | Load(t: Tid)
    | FetchOr(t: Tid)
    | GiveUp(t: Tid)
    | TryAt(t: Tid, ino: nat)
    | Free(ino: nat)
    | Write(ino: nat)
    | Postlude(ino: nat)

  ghost predicate Enabled(s: State, step: Step) {
    match step
    case Start(t) => t in s.threads && s.threads[t].Idle?
    case Load(t) => t in s.threads && s.threads[t].Scan? && s.threads[t].group < |s.bitmap|
    case FetchOr(t) =>
      t in s.threads && s.threads[t].Loaded? && s.threads[t].group < |s.bitmap| && s.threads[t].val != 0xff
    case GiveUp(t) => t in s.threads && s.threads[t].Scan? && s.threads[t].group == |s.bitmap|
    case TryAt(t, ino) => t in s.threads && s.threads[t].Idle? && ino < 8 * |s.bitmap|
    case Free(ino) => InStage(s, ino, Held)
    case Write(ino) => InStage(s, ino, Freed)
    case Postlude(ino) => InStage(s, ino, Written)
  }

  ghost predicate InStage(s: State, ino: nat, stage: Stage) {
    ino < 8 * |s.bitmap| && ino in s.stages && s.stages[ino] == stage
  }

  /** The bit that `get_free_ino` picks in a byte that is not full: the lowest clear one. */
  function Pick(val: Byte): (k: nat)
    requires val != 0xff
    ensures k < 8 && !BitOf(val, k) && forall j :: 0 <= j < k ==> BitOf(val, j)
  {
    NotFull(val);
    LowestBit(val ^ 0xff)
  }

  lemma {:induction false} NotFull(val: Byte)
    requires val != 0xff
    ensures val ^ 0xff != 0
    ensures forall k :: 0 <= k < 8 ==> (BitOf(val ^ 0xff, k) <==> !BitOf(val, k))
  {
    forall k | 0 <= k < 8
      ensures BitOf(val ^ 0xff, k) <==> !BitOf(val, k)
    {
      BitOfMask(val ^ 0xff, k);
      BitOfMask(val, k);
      MaskValues();
    }
  }

  /** The inode number whose bit a step tries to set. */
  function Target(s: State, step: Step): nat
    requires step.FetchOr? ==> step.t in s.threads && s.threads[step.t].Loaded? && s.threads[step.t].val != 0xff
    requires step.FetchOr? || step.TryAt?
  {
    if step.TryAt? then step.ino
    else 8 * s.threads[step.t].group + Pick(s.threads[step.t].val)
  }

  /** The inode number that a step hands out: the tried one, if the byte that `fetch_or` returned
      had its bit clear. */
  function Taken(s: State, step: Step): Option<nat>
    requires step.FetchOr? ==> step.t in s.threads && s.threads[step.t].Loaded? && s.threads[step.t].val != 0xff
    requires (step.FetchOr? || step.TryAt?) ==> Target(s, step) < 8 * |s.bitmap|
  {
    if step.FetchOr? || step.TryAt? then
      var p := Target(s, step);
      if s.bitmap[p / 8] & Mask(p % 8) == 0 then Some(p) else None
    else None
  }

  function Execute(s: State, step: Step): State
    requires Enabled(s, step)
  {
    match step
    case Start(t) => s.(threads := s.threads[t := Scan(0)])
    case Load(t) =>
      var g := s.threads[t].group;
      s.(threads := s.threads[t := if s.bitmap[g] ^ 0xff != 0 then Loaded(g, s.bitmap[g]) else Scan(g + 1)])
    case FetchOr(t) => Fetched(s, step)
    case GiveUp(t) => s.(threads := s.threads[t := Idle])
    case TryAt(t, ino) => Fetched(s, step)
    case Free(ino) => s.(stages := s.stages[ino := Freed])
    case Write(ino) => s.(stages := s.stages[ino := Written])
    case Postlude(ino) =>
      State(s.bitmap[ino / 8 := s.bitmap[ino / 8] & !Mask(ino % 8)], s.threads, s.stages - {ino})
  }

  function Fetched(s: State, step: Step): State
    requires Enabled(s, step) && (step.FetchOr? || step.TryAt?)
  {
    var p := Target(s, step);
    var l := if step.FetchOr? && Taken(s, step).None? then Scan(s.threads[step.t].group) else Idle;
    State(s.bitmap[p / 8 := s.bitmap[p / 8] | Mask(p % 8)], s.threads[step.t := l],
          if Taken(s, step).Some? then s.stages[p := Held] else s.stages)
  }

  // ---- the invariant ---------------------------------------------------------------------------

  /** An inode's bit is set exactly while its number is held, freed or written. */
  ghost predicate BitOk(s: State, p: int) {
    0 <= p < 8 * |s.bitmap| && (Bit(s.bitmap, p) <==> p in s.stages)
  }

  ghost predicate ThreadOk(s: State, t: Tid) {
    && t in s.threads
    && (s.threads[t].Scan? ==> s.threads[t].group <= |s.bitmap|)
    && (s.threads[t].Loaded? ==> s.threads[t].group < |s.bitmap| && s.threads[t].val != 0xff)
  }

  ghost predicate Inv(s: State) {
    && (forall p :: 0 <= p < 8 * |s.bitmap| ==> BitOk(s, p))
    && (forall t :: t in s.threads ==> ThreadOk(s, t))
  }

  /** Main result: `fetch_or` hands out a number exactly when no one had it, and the caller itself
      has then turned its bit from 0 to 1. */
  lemma {:induction false} TakenIff(s: State, step: Step)
    requires Inv(s) && Enabled(s, step) && (step.FetchOr? || step.TryAt?)
    ensures var p := Target(s, step);
            && Taken(s, step) == (if p in s.stages then None else Some(p))
            && (Taken(s, step).Some? <==> !Bit(s.bitmap, p))
            && Execute(s, step).bitmap == PutBit(s.bitmap, p, true)
            && Bit(Execute(s, step).bitmap, p)
  {
    assert BitOk(s, Target(s, step));
    SetsIt(s.bitmap, Target(s, step));
  }

  lemma {:induction false} SetsIt(bitmap: seq<Byte>, p: nat)
    requires p < 8 * |bitmap|
    ensures bitmap[p / 8] & Mask(p % 8) == 0 <==> !Bit(bitmap, p)
    ensures bitmap[p / 8 := bitmap[p / 8] | Mask(p % 8)] == PutBit(bitmap, p, true)
    ensures Bit(PutBit(bitmap, p, true), p)
  {
    BitOfMask(bitmap[p / 8], p % 8);
    PutBitAt(bitmap, p, true, p);
  }

  /** Main result: the asserts of `deallocate` and of `apply_deallocation_on_core` hold. */
  lemma {:induction false} AssertsHold(s: State, step: Step)
    requires Inv(s) && Enabled(s, step) && (step.Free? || step.Postlude?)
    ensures s.bitmap[step.ino / 8] & Mask(step.ino % 8) > 0
    ensures s.bitmap[step.ino / 8] & Mask(step.ino % 8) == Mask(step.ino % 8)
  {
    assert BitOk(s, step.ino);
    BitOfMask(s.bitmap[step.ino / 8], step.ino % 8);
    MaskValues();
  }

  lemma {:induction false} StepKeepsBit(s: State, step: Step, p: nat)
    requires Inv(s) && Enabled(s, step) && p < 8 * |s.bitmap|
    ensures BitOk(Execute(s, step), p)
  {
    hide BitOf;
    hide Mask;
    hide PutBit;
    assert BitOk(s, p);
    if step.FetchOr? || step.TryAt? {
      TakenIff(s, step);
      PutBitAt(s.bitmap, Target(s, step), true, p);
    } else if step.Postlude? {
      PutBitInPlace(s.bitmap, step.ino, false);
      PutBitAt(s.bitmap, step.ino, false, p);
    }
  }

  lemma {:induction false} StepKeepsThread(s: State, step: Step, t: Tid)
    requires Inv(s) && Enabled(s, step) && t in s.threads
    ensures ThreadOk(Execute(s, step), t)
  {
    assert ThreadOk(s, t);
    if step.Load? {
      var val := s.bitmap[s.threads[step.t].group];
      assert val ^ 0xff != 0 ==> val != 0xff;
    }
  }

  lemma {:induction false} StepKeepsInv(s: State, step: Step)
    requires Inv(s) && Enabled(s, step)
    ensures Inv(Execute(s, step))
    ensures |Execute(s, step).bitmap| == |s.bitmap| && Execute(s, step).threads.Keys == s.threads.Keys
  {
    var s' := Execute(s, step);
    assert |s'.bitmap| == |s.bitmap| && s'.threads.Keys == s.threads.Keys;
    forall p | 0 <= p < 8 * |s'.bitmap|
      ensures BitOk(s', p)
    {
      StepKeepsBit(s, step, p);
    }
    forall t | t in s'.threads
      ensures ThreadOk(s', t)
    {
      StepKeepsThread(s, step, t);
    }
  }

  // ---- runs ------------------------------------------------------------------------------------

  ghost predicate StepAt(states: seq<State>, steps: seq<Step>, i: int) {
    && 0 <= i < |steps| < |states|
    && Enabled(states[i], steps[i]) && states[i + 1] == Execute(states[i], steps[i])
  }

  /** A run starts at the mount: every set bit is a number in use and no thread is allocating. */
  ghost predicate IsRun(states: seq<State>, steps: seq<Step>) {
    && |states| == |steps| + 1
    && (forall p :: 0 <= p < 8 * |states[0].bitmap| ==> BitOk(states[0], p))
    && (forall t :: t in states[0].threads ==> states[0].threads[t].Idle?)
    && forall i :: 0 <= i < |steps| ==> StepAt(states, steps, i)
  }

  lemma {:induction false} RunsKeepInv(states: seq<State>, steps: seq<Step>, i: nat)
    requires IsRun(states, steps) && i < |states|
    ensures Inv(states[i]) && |states[i].bitmap| == |states[0].bitmap|
    ensures states[i].threads.Keys == states[0].threads.Keys
  {
    if i == 0 {
      assert forall t :: t in states[0].threads ==> ThreadOk(states[0], t);
    } else {
      RunsKeepInv(states, steps, i - 1);
      assert StepAt(states, steps, i - 1);
      StepKeepsInv(states[i - 1], steps[i - 1]);
    }
  }

  /** Step i of the run hands out inode number p. */
  ghost predicate TakesAt(states: seq<State>, steps: seq<Step>, i: int, p: nat) {
    && 0 <= i < |steps| < |states|
    && Enabled(states[i], steps[i])
    && Taken(states[i], steps[i]) == Some(p)
  }

  /** What one step can do to the stage of a number: nothing else moves it. */
  lemma {:induction false} StageMoves(s: State, step: Step, p: nat)
    requires Inv(s) && Enabled(s, step) && p < 8 * |s.bitmap|
    ensures p !in s.stages ==>
              (p in Execute(s, step).stages <==> Taken(s, step) == Some(p))
              && (p in Execute(s, step).stages ==> Execute(s, step).stages[p] == Held)
    ensures p in s.stages ==> Taken(s, step) != Some(p)
    ensures p in s.stages && step != Postlude(p) ==> p in Execute(s, step).stages
    ensures p in s.stages && step != Postlude(p) ==>
              Execute(s, step).stages[p]
              == if step == Free(p) then Freed else if step == Write(p) then Written else s.stages[p]
    ensures step == Postlude(p) ==> p !in Execute(s, step).stages
  {
    if step.FetchOr? || step.TryAt? { TakenIff(s, step); }
  }

  /** The part of a run after p was handed out at i, up to j, in which no postlude clears it. */
  ghost predicate InUse(states: seq<State>, steps: seq<Step>, i: int, j: int, p: nat) {
    && 0 <= i < j < |states| == |steps| + 1
    && TakesAt(states, steps, i, p) && p < 8 * |states[i].bitmap|
    && forall k :: i < k < j ==> steps[k] != Postlude(p)
  }

  /** Step a and step b are the recorded reasons for the stage of p in state j. */
  ghost predicate Reasons(steps: seq<Step>, stage: Stage, i: int, j: int, a: int, b: int, p: nat) {
    && (stage != Held ==> 0 <= i < a < j <= |steps| && steps[a] == Free(p))
    && (stage == Written ==> 0 <= i < a < b < j <= |steps| && steps[b] == Write(p))
  }

  /** The steps after the hand-out at i that led p to its present stage. */
  lemma {:induction false} CameFrom(states: seq<State>, steps: seq<Step>, i: nat, j: nat, p: nat)
    returns (a: nat, b: nat)
    requires IsRun(states, steps) && InUse(states, steps, i, j, p)
    ensures p in states[j].stages && Reasons(steps, states[j].stages[p], i, j, a, b, p)
    decreases j
  {
    RunsKeepInv(states, steps, j - 1);
    RunsKeepInv(states, steps, i);
    assert StepAt(states, steps, j - 1);
    StageMoves(states[j - 1], steps[j - 1], p);
    if j == i + 1 {
      a, b := 0, 0;
    } else {
      a, b := CameFrom(states, steps, i, j - 1, p);
      StageEnabled(states[j - 1], steps[j - 1], p);
      if steps[j - 1] == Free(p) { a := j - 1; }
      if steps[j - 1] == Write(p) { b := j - 1; }
    }
  }

  lemma {:induction false} StageEnabled(s: State, step: Step, p: nat)
    requires Enabled(s, step) && p in s.stages
    ensures step == Free(p) ==> s.stages[p] == Held
    ensures step == Write(p) ==> s.stages[p] == Freed
    ensures step == Postlude(p) ==> s.stages[p] == Written
  {
  }

  /** Main result: a number that was handed out is handed out again only after a transaction has
      freed it, has written that, and has run its postlude, in this order. */
  lemma {:induction false} NotReusedBeforeWritten(states: seq<State>, steps: seq<Step>, i: nat, j: nat, p: nat)
    returns (freed: nat, written: nat, cleared: nat)
    requires IsRun(states, steps) && i < j && TakesAt(states, steps, i, p) && TakesAt(states, steps, j, p)
    ensures i < freed < written < cleared < j
    ensures steps[freed] == Free(p) && steps[written] == Write(p) && steps[cleared] == Postlude(p)
  {
    RunsKeepInv(states, steps, i);
    RunsKeepInv(states, steps, j);
    TakenIff(states[i], steps[i]);
    TakenIff(states[j], steps[j]);
    if InUse(states, steps, i, j, p) {
      freed, written := CameFrom(states, steps, i, j, p);
    } else {
      cleared := First(steps, i + 1, j, p);
      freed, written := CameFrom(states, steps, i, cleared, p);
      assert StepAt(states, steps, cleared);
      StageEnabled(states[cleared], steps[cleared], p);
    }
  }

  lemma {:induction false} First(steps: seq<Step>, i: nat, j: nat, p: nat) returns (k: nat)
    requires i <= j <= |steps| && exists m :: i <= m < j && steps[m] == Postlude(p)
    ensures i <= k < j && steps[k] == Postlude(p) && forall m :: i <= m < k ==> steps[m] != Postlude(p)
    decreases j - i
  {
    if steps[i] == Postlude(p) { k := i; } else { k := First(steps, i + 1, j, p); }
  }

  /** A thread that works with a loaded value has loaded it in this step or before. */
  lemma {:induction false} LoadedBefore(s: State, step: Step, t: Tid)
    requires Enabled(s, step)
    requires t in Execute(s, step).threads && Execute(s, step).threads[t].Loaded?
    ensures if step == Load(t)
            then var l := Execute(s, step).threads[t]; l.group < |s.bitmap| && s.bitmap[l.group] == l.val
            else t in s.threads && s.threads[t] == Execute(s, step).threads[t]
  {
    hide BitOf;
    hide Bit;
    hide Mask;
  }

  /** The load whose value a thread still works with, and that it has done nothing since. */
  lemma {:induction false} LastLoad(states: seq<State>, steps: seq<Step>, j: nat, t: Tid) returns (i: nat)
    requires IsRun(states, steps) && j < |states| && t in states[j].threads && states[j].threads[t].Loaded?
    ensures i < j && steps[i] == Load(t)
    ensures var l := states[j].threads[t]; l.group < |states[i].bitmap| && states[i].bitmap[l.group] == l.val
    ensures forall k :: i < k <= j ==> t in states[k].threads && states[k].threads[t] == states[j].threads[t]
    decreases j
  {
    hide Enabled;
    hide Execute;
    hide BitOk;
    if j == 0 {
      assert false;
    } else {
      assert StepAt(states, steps, j - 1);
      LoadedBefore(states[j - 1], steps[j - 1], t);
      if steps[j - 1] == Load(t) {
        i := j - 1;
      } else {
        i := LastLoad(states, steps, j - 1, t);
      }
    }
  }

  /** A bit that was clear and is now set was set by a step in between that handed its number out. */
  lemma {:induction false} TookIt(states: seq<State>, steps: seq<Step>, i: nat, j: nat, p: nat) returns (k: nat)
    requires IsRun(states, steps) && i <= j < |states| && p < 8 * |states[i].bitmap| && p < 8 * |states[j].bitmap|
    requires !Bit(states[i].bitmap, p) && Bit(states[j].bitmap, p)
    ensures i <= k < j && TakesAt(states, steps, k, p)
    decreases j
  {
    RunsKeepInv(states, steps, j);
    RunsKeepInv(states, steps, j - 1);
    assert BitOk(states[j], p) && BitOk(states[j - 1], p);
    assert StepAt(states, steps, j - 1);
    StageMoves(states[j - 1], steps[j - 1], p);
    if Bit(states[j - 1].bitmap, p) {
      k := TookIt(states, steps, i, j - 1, p);
    } else {
      k := j - 1;
    }
  }

  /** Main result: `get_free_ino` goes around its loop again only because another thread was handed
      the number it tried, after it had loaded the byte. */
  lemma {:induction false} RetryMeansTaken(states: seq<State>, steps: seq<Step>, j: nat, t: Tid) returns (i: nat,
      k: nat, p: nat)
    requires IsRun(states, steps) && j < |steps| && steps[j] == FetchOr(t)
    requires Enabled(states[j], steps[j]) && Taken(states[j], steps[j]).None?
    ensures i < k < j && steps[i] == Load(t)
    ensures TakesAt(states, steps, k, p) && (steps[k].FetchOr? || steps[k].TryAt?) && steps[k].t != t
    ensures p == Target(states[j], steps[j])
  {
    assert StepAt(states, steps, j);
    RunsKeepInv(states, steps, j);
    TakenIff(states[j], steps[j]);
    p := Target(states[j], steps[j]);
    i := LastLoad(states, steps, j, t);
    assert p / 8 == states[j].threads[t].group;
    assert !Bit(states[i].bitmap, p);
    k := TookIt(states, steps, i, j, p);
    assert StepAt(states, steps, k);
    assert states[k + 1].threads[t] == states[j].threads[t];
  }

  /** Main result: `get_free_ino` reports a full group only after it has seen every byte of the
      bitmap full, each at some moment since it was called. */
  lemma {:induction false} FullMeansAllSeen(states: seq<State>, steps: seq<Step>, j: nat, t: Tid,
      g: nat) returns (i: nat)
    requires IsRun(states, steps) && j < |states| && t in states[j].threads && !states[j].threads[t].Idle?
    requires g < states[j].threads[t].group
    ensures i < j && steps[i] == Load(t) && g < |states[i].bitmap| && states[i].bitmap[g] == 0xff
    ensures forall k :: i <= k < j ==> steps[k] != Start(t)
    decreases j
  {
    if j > 0 {
      RunsKeepInv(states, steps, j - 1);
      assert StepAt(states, steps, j - 1);
      var l := states[j - 1].threads[t];
      if l.Scan? && steps[j - 1] == Load(t) && g == l.group {
        i := j - 1;
        assert states[i].bitmap[g] ^ 0xff == 0;
      } else {
        i := FullMeansAllSeen(states, steps, j - 1, t, g);
      }
    }
  }

  /** What ends a call of `get_free_ino`, and what becomes of it otherwise. */
  lemma {:induction false} CallEnds(s: State, step: Step, t: Tid)
    requires Enabled(s, step) && t in s.threads && !s.threads[t].Idle?
    ensures t in Execute(s, step).threads
    ensures Execute(s, step).threads[t].Idle? <==> step == GiveUp(t) || (step == FetchOr(t) && Taken(s, step).Some?)
    ensures step == FetchOr(t) && Taken(s, step).None? ==> Execute(s, step).threads[t] == Scan(s.threads[t].group)
    ensures step == Load(t) && s.bitmap[s.threads[t].group] != 0xff ==>
              Execute(s, step).threads[t] == Loaded(s.threads[t].group, s.bitmap[s.threads[t].group])
  {
    hide BitOf;
    hide Mask;
    if step == Load(t) {
      var val := s.bitmap[s.threads[t].group];
      assert val ^ 0xff == 0 ==> val == 0xff;
    }
  }

  ghost predicate SawFull(states: seq<State>, steps: seq<Step>, i: int, j: int, t: Tid, g: nat) {
    && 0 <= i < j <= |steps| < |states|
    && steps[i] == Load(t) && g < |states[i].bitmap| && states[i].bitmap[g] == 0xff
    && forall k :: i <= k < j ==> steps[k] != Start(t)
  }

  /** Thread t has loaded byte g and seen it full, in its present call. */
  ghost predicate SeenFull(states: seq<State>, steps: seq<Step>, j: int, t: Tid, g: nat) {
    exists i :: SawFull(states, steps, i, j, t, g)
  }

  lemma {:induction false} SeesAll(states: seq<State>, steps: seq<Step>, j: nat, t: Tid, g: nat)
    requires IsRun(states, steps) && j < |steps| && t in states[j].threads && !states[j].threads[t].Idle?
    requires g < states[j].threads[t].group
    ensures SeenFull(states, steps, j, t, g)
  {
    var i := FullMeansAllSeen(states, steps, j, t, g);
    assert SawFull(states, steps, i, j, t, g);
  }

  /** Main result: `get_free_ino` ends only with a number that nobody had, or after it has seen every byte
      of the bitmap full since it was called. */
  lemma {:induction false} EndsWithNumberOrFull(states: seq<State>, steps: seq<Step>, j: nat, t: Tid)
    requires IsRun(states, steps) && j < |steps|
    requires t in states[j].threads && !states[j].threads[t].Idle?
    requires t in states[j + 1].threads && states[j + 1].threads[t].Idle?
    ensures || (exists p :: TakesAt(states, steps, j, p) && p !in states[j].stages && steps[j] == FetchOr(t))
            || (steps[j] == GiveUp(t) &&
                forall g :: 0 <= g < |states[j].bitmap| ==> SeenFull(states, steps, j, t, g))
  {
    assert StepAt(states, steps, j);
    RunsKeepInv(states, steps, j);
    CallEnds(states[j], steps[j], t);
    if steps[j] == GiveUp(t) {
      forall g | 0 <= g < |states[j].bitmap|
        ensures SeenFull(states, steps, j, t, g)
      {
        SeesAll(states, steps, j, t, g);
      }
    } else {
      TakenIff(states[j], steps[j]);
      assert TakesAt(states, steps, j, Taken(states[j], steps[j]).value);
    }
  }

  /** Main result: an inode number that is freed, written and cleared can be handed out again at once. */
  lemma {:induction false} ComesBack(s: State, ino: nat, t: Tid)
    requires Inv(s) && InStage(s, ino, Held) && t in s.threads && s.threads[t].Idle?
    ensures var s1 := Execute(s, Free(ino));
            && Enabled(s1, Write(ino)) && Enabled(Execute(s1, Write(ino)), Postlude(ino))
            && var s3 := Execute(Execute(s1, Write(ino)), Postlude(ino));
               Enabled(s3, TryAt(t, ino)) && Taken(s3, TryAt(t, ino)) == Some(ino)
  {
    hide BitOf;
    hide Bit;
    hide Mask;
    var s1 := Execute(s, Free(ino));
    StepKeepsInv(s, Free(ino));
    var s2 := Execute(s1, Write(ino));
    StepKeepsInv(s1, Write(ino));
    var s3 := Execute(s2, Postlude(ino));
    StepKeepsInv(s2, Postlude(ino));
    TakenIff(s3, TryAt(t, ino));
  }
}
