/** The reader-writer lock as a state machine over its atomic steps
    (lib/synchronizations/src/rwlock.rs). */
module RwLock {
  import opened Wrappers

  type Tid = nat

  /** Bit 62 of the state word. */
  const WRITER: nat := 0x4000_0000_0000_0000
  const WORD: nat := 0x1_0000_0000_0000_0000

  predicate IsWriteLocked(word: nat) { word / WRITER % 2 == 1 }

  function SetWriter(word: nat): nat { if IsWriteLocked(word) then word else word + WRITER }

  function ClearWriter(word: nat): nat { if IsWriteLocked(word) then word - WRITER else word }

  /** Where a thread is.  ReadLoaded and WriteLoaded: it has loaded the state word and is about to
      compare-exchange it.  Upgrading: it holds a read guard and spins for the write lock. */
  datatype Local =
    | Idle
    | ReadLoaded(prev: nat)
    | Reading
    | Upgrading
    | WriteLoaded(prev: nat)
    | Writing

  datatype State = State(word: nat, threads: map<Tid, Local>)

  datatype Step =
    | LoadForRead(t: Tid)
    | ExchangeForRead(t: Tid)
    | LoadForWrite(t: Tid)
    | ExchangeForWrite(t: Tid)
    | StartUpgrade(t: Tid)
    | ExchangeForUpgrade(t: Tid)
    | Downgrade(t: Tid)
    | DropRead(t: Tid)
    | DropWrite(t: Tid)

  /** A step starts from a certain place in its thread. */
  predicate Ready(l: Local, step: Step) {
    match step
    case LoadForRead(_) => l.Idle?
    case ExchangeForRead(_) => l.ReadLoaded?
    case LoadForWrite(_) => l.Idle?
    case ExchangeForWrite(_) => l.WriteLoaded?
    case StartUpgrade(_) => l.Reading?
    case ExchangeForUpgrade(_) => l.Upgrading?
    case Downgrade(_) => l.Writing?
    case DropRead(_) => l.Reading?
    case DropWrite(_) => l.Writing?
  }

  /** What a step makes of the state word and of its thread.  A thread that finds the lock taken, or
      whose exchange fails, starts over or gives up; both take it back to Idle. */
  function Act(word: nat, l: Local, step: Step): (nat, Local)
    requires Ready(l, step)
  {
    match step
    case LoadForRead(_) => (word, if IsWriteLocked(word) then Idle else ReadLoaded(word))
    case ExchangeForRead(_) => if word == l.prev then ((l.prev + 1) % WORD, Reading) else (word, Idle)
    case LoadForWrite(_) => (word, if word > 0 then Idle else WriteLoaded(word))
    case ExchangeForWrite(_) => if word == l.prev then (SetWriter(l.prev), Writing) else (word, Idle)
    case StartUpgrade(_) => (word, Upgrading)
    case ExchangeForUpgrade(_) => if word == 1 then (WRITER, Writing) else (word, Upgrading)
    case Downgrade(_) => if word == WRITER then (1, Reading) else (word, Writing)
    case DropRead(_) => ((word + WORD - 1) % WORD, Idle)
    case DropWrite(_) => (ClearWriter(word), Idle)
  }

  predicate Enabled(s: State, step: Step) {
    step.t in s.threads && Ready(s.threads[step.t], step)
  }

  function Execute(s: State, step: Step): State
    requires Enabled(s, step)
  {
    var (word, l) := Act(s.word, s.threads[step.t], step);
    State(word, s.threads[step.t := l])
  }

  /** The assertions of the source: a downgrade's exchange succeeds, a dropped read guard finds no
      writer, a dropped write guard finds the writer bit. */
  predicate AssertHolds(s: State, step: Step) {
    match step
    case Downgrade(_) => s.word == WRITER
    case DropRead(_) => !IsWriteLocked(s.word)
    case DropWrite(_) => IsWriteLocked(s.word)
    case _ => true
  }

  // ---- the invariant -------------------------------------------------------------------------------

  predicate HoldsRead(l: Local) { l.Reading? || l.Upgrading? }

  function Readers(s: State): set<Tid> { set t | t in s.threads && HoldsRead(s.threads[t]) }

  function Writers(s: State): set<Tid> { set t | t in s.threads && s.threads[t].Writing? }

  /** The word is the writer bit alone when a writer exists, and otherwise the number of readers. */
  ghost predicate Counts(word: nat, readers: set<Tid>, writers: set<Tid>) {
    if writers == {} then word == |readers|
    else |writers| == 1 && readers == {} && word == WRITER
  }

  ghost predicate Inv(s: State) {
    && |s.threads| < WRITER
    && Counts(s.word, Readers(s), Writers(s))
    && (forall t :: t in s.threads ==> LoadedOk(s.threads[t]))
  }

  /** What a thread that is about to exchange has seen. */
  predicate LoadedOk(l: Local) {
    && (l.ReadLoaded? ==> !IsWriteLocked(l.prev))
    && (l.WriteLoaded? ==> l.prev == 0)
  }

  lemma {:induction false} SubsetSize<T>(a: set<T>, b: set<T>)
    requires a <= b
    ensures |a| <= |b|
    decreases b
  {
    if x :| x in a {
      SubsetSize(a - {x}, b - {x});
    }
  }

  lemma {:induction false} FewReaders(s: State)
    ensures |Readers(s)| <= |s.threads|
  {
    SubsetSize(Readers(s), s.threads.Keys);
  }

  /** Changing one thread changes its membership only. */
  lemma {:induction false} Moved(s: State, t: Tid, l: Local, word: nat)
    requires t in s.threads
    ensures Readers(State(word, s.threads[t := l])) == if HoldsRead(l) then Readers(s) + {t} else Readers(s) - {t}
    ensures Writers(State(word, s.threads[t := l])) == if l.Writing? then Writers(s) + {t} else Writers(s) - {t}
    ensures (t in Readers(s) <==> HoldsRead(l)) ==> Readers(State(word, s.threads[t := l])) == Readers(s)
    ensures (t in Writers(s) <==> l.Writing?) ==> Writers(State(word, s.threads[t := l])) == Writers(s)
    ensures |s.threads[t := l]| == |s.threads|
  {
    assert s.threads[t := l].Keys == s.threads.Keys;
  }

  lemma {:induction false} Singleton<T>(a: set<T>, x: T)
    requires x in a
    ensures |a| == 1 <==> a == {x}
    ensures |a - {x}| == |a| - 1
  {
    assert a == {x} + (a - {x});
  }

  lemma {:induction false} OnlyWriter(s: State, t: Tid)
    requires Inv(s) && t in Writers(s)
    ensures Writers(s) == {t} && Readers(s) == {} && s.word == WRITER
  {
    Singleton(Writers(s), t);
  }

  lemma {:induction false} WordFacts(word: nat)
    ensures word < WRITER ==> !IsWriteLocked(word)
    ensures IsWriteLocked(WRITER) && SetWriter(0) == WRITER && ClearWriter(WRITER) == 0
  {
  }

  /** Main result: every step of every thread keeps the invariant, and no assertion fires. */
  lemma {:induction false} StepKeepsInv(s: State, step: Step)
    requires Inv(s) && Enabled(s, step)
    ensures Inv(Execute(s, step))
    ensures AssertHolds(s, step)
  {
    hide Act;
    hide Counts;
    hide AssertHolds;
    hide LoadedOk;
    hide Ready;
    var t := step.t;
    var s' := Execute(s, step);
    assert LoadedOk(s.threads[t]);
    FewReaders(s);
    Asserted(s, step);
    StepCounts(s.word, Readers(s), Writers(s), t, s.threads[t], step);
    assert Counted(s.word, Readers(s), Writers(s), t, s.threads[t], step);
    Moved(s, t, s'.threads[t], s'.word);
  }

  lemma {:induction false} Asserted(s: State, step: Step)
    requires Inv(s) && Enabled(s, step)
    ensures AssertHolds(s, step)
  {
    var t := step.t;
    WordFacts(s.word);
    FewReaders(s);
    if t in Writers(s) { OnlyWriter(s, t); }
    assert HoldsRead(s.threads[t]) ==> t in Readers(s);
  }

  /** The same on the word and the sets of holders alone. */
  lemma {:induction false} StepCounts(word: nat, readers: set<Tid>, writers: set<Tid>, t: Tid, l: Local, step: Step)
    requires Counts(word, readers, writers) && |readers| < WRITER && LoadedOk(l)
    requires (t in readers <==> HoldsRead(l)) && (t in writers <==> l.Writing?)
    requires Ready(l, step)
    ensures Counted(word, readers, writers, t, l, step)
  {
    if step.ExchangeForRead? || step.DropRead? {
      ReaderCounts(word, readers, writers, t, l, step);
    } else if step.ExchangeForWrite? || step.ExchangeForUpgrade? || step.Downgrade? || step.DropWrite? {
      WriterCounts(word, readers, writers, t, l, step);
    } else {
      WordFacts(word);
      SameHolders(readers, writers, t, l);
    }
  }

  ghost predicate Counted(word: nat, readers: set<Tid>, writers: set<Tid>, t: Tid, l: Local, step: Step)
    requires Ready(l, step)
  {
    var (word', l') := Act(word, l, step);
    && LoadedOk(l')
    && Counts(word', if HoldsRead(l') then readers + {t} else readers - {t},
                       if l'.Writing? then writers + {t} else writers - {t})
  }

  lemma {:induction false} SameHolders(readers: set<Tid>, writers: set<Tid>, t: Tid, l: Local)
    requires (t in readers <==> HoldsRead(l)) && (t in writers <==> l.Writing?)
    ensures (if HoldsRead(l) then readers + {t} else readers - {t}) == readers
    ensures (if l.Writing? then writers + {t} else writers - {t}) == writers
  {
  }

  lemma {:induction false} ReaderCounts(word: nat, readers: set<Tid>, writers: set<Tid>, t: Tid, l: Local, step: Step)
    requires Counts(word, readers, writers) && |readers| < WRITER && LoadedOk(l)
    requires (t in readers <==> HoldsRead(l)) && (t in writers <==> l.Writing?)
    requires Ready(l, step) && (step.ExchangeForRead? || step.DropRead?)
    ensures Counted(word, readers, writers, t, l, step)
  {
    hide IsWriteLocked;
    hide SetWriter;
    hide ClearWriter;
    WordFacts(word);
    SameHolders(readers, writers, t, l);
    if t in readers { Singleton(readers, t); }
    assert t !in readers ==> |readers + {t}| == |readers| + 1;
    assert |readers| > 0 ==> (|readers| + WORD - 1) % WORD == |readers| - 1;
  }

  lemma {:induction false} WriterCounts(word: nat, readers: set<Tid>, writers: set<Tid>, t: Tid, l: Local, step: Step)
    requires Counts(word, readers, writers) && |readers| < WRITER && LoadedOk(l)
    requires (t in readers <==> HoldsRead(l)) && (t in writers <==> l.Writing?)
    requires Ready(l, step)
    requires step.ExchangeForWrite? || step.ExchangeForUpgrade? || step.Downgrade? || step.DropWrite?
    ensures Counted(word, readers, writers, t, l, step)
  {
    hide IsWriteLocked;
    hide SetWriter;
    hide ClearWriter;
    WordFacts(word);
    SameHolders(readers, writers, t, l);
    if t in readers { Singleton(readers, t); }
    if t in writers { Singleton(writers, t); }
    assert writers == {} ==> writers + {t} == {t};
    assert readers == {} ==> readers + {t} == {t} && readers - {t} == {};
  }

  lemma {:induction false} Exclusion(s: State, t: Tid, u: Tid)
    requires Inv(s) && t in s.threads && u in s.threads && t != u
    requires s.threads[t].Writing?
    ensures !s.threads[u].Writing? && !HoldsRead(s.threads[u])
  {
    OnlyWriter(s, t);
    assert u !in Writers(s) && u !in Readers(s);
  }

  // ---- runs ----------------------------------------------------------------------------------------

  ghost predicate IsRun(states: seq<State>, steps: seq<Step>) {
    && |states| == |steps| + 1
    && states[0].word == 0 && |states[0].threads| < WRITER
    && (forall t :: t in states[0].threads ==> states[0].threads[t] == Idle)
    && forall i :: 0 <= i < |steps| ==> Enabled(states[i], steps[i]) && states[i + 1] == Execute(states[i], steps[i])
  }

  /** Main result: in every interleaving, a writer excludes all other holders and no assertion fires. */
  lemma {:induction false} RunsAreSafe(states: seq<State>, steps: seq<Step>, i: nat)
    requires IsRun(states, steps) && i < |states|
    ensures Inv(states[i])
    ensures forall t, u :: t in states[i].threads && u in states[i].threads && t != u && states[i].threads[t].Writing?
              ==> !states[i].threads[u].Writing? && !HoldsRead(states[i].threads[u])
    ensures i < |steps| ==> AssertHolds(states[i], steps[i])
  {
    if i == 0 {
      assert Readers(states[0]) == {} && Writers(states[0]) == {};
    } else {
      RunsAreSafe(states, steps, i - 1);
      StepKeepsInv(states[i - 1], steps[i - 1]);
    }
    forall t, u | t in states[i].threads && u in states[i].threads && t != u && states[i].threads[t].Writing?
      ensures !states[i].threads[u].Writing? && !HoldsRead(states[i].threads[u])
    {
      Exclusion(states[i], t, u);
    }
    if i < |steps| { StepKeepsInv(states[i], steps[i]); }
  }

  // ---- taking and releasing ------------------------------------------------------------------------

  /** Nobody holds the lock. */
  predicate IsFree(s: State) { Readers(s) == {} && Writers(s) == {} }

  /** Main result: a write attempt gets past its load exactly when nobody holds the lock, and its exchange
      takes the lock exactly when nobody holds it then; otherwise the attempt is over. */
  lemma {:induction false} WriteSucceedsIff(s: State, t: Tid)
    requires Inv(s) && t in s.threads
    ensures s.threads[t].Idle? ==>
              Execute(s, LoadForWrite(t)).threads[t] == if IsFree(s) then WriteLoaded(0) else Idle
    ensures s.threads[t].WriteLoaded? ==>
              Execute(s, ExchangeForWrite(t)).threads[t] == if IsFree(s) then Writing else Idle
  {
    FreeWord(s);
    assert LoadedOk(s.threads[t]);
  }

  lemma {:induction false} FreeWord(s: State)
    requires Inv(s)
    ensures IsFree(s) <==> s.word == 0
    ensures Writers(s) == {} <==> !IsWriteLocked(s.word)
  {
    FewReaders(s);
    WordFacts(s.word);
  }

  /** Main result: a read attempt gets past its load exactly when nobody writes, and its exchange takes
      the lock exactly when the word is still the loaded one; nobody writes then. */
  lemma {:induction false} ReadSucceedsIff(s: State, t: Tid)
    requires Inv(s) && t in s.threads
    ensures s.threads[t].Idle? ==>
              Execute(s, LoadForRead(t)).threads[t] == if Writers(s) == {} then ReadLoaded(s.word) else Idle
    ensures s.threads[t].ReadLoaded? ==>
              Execute(s, ExchangeForRead(t)).threads[t] == if s.word == s.threads[t].prev then Reading else Idle
    ensures s.threads[t].ReadLoaded? && s.word == s.threads[t].prev ==> Writers(s) == {}
  {
    FreeWord(s);
    assert LoadedOk(s.threads[t]);
  }

  /** Main result: a dropped guard is not held any more, so that the lock is free after the last one; a
      downgrade keeps it for reading; and nobody else's hold changes. */
  lemma {:induction false} ReleasesLeave(s: State, t: Tid)
    requires Inv(s) && t in s.threads
    ensures s.threads[t].Reading? ==>
              var s' := Execute(s, DropRead(t));
              s'.threads[t].Idle? && Readers(s') == Readers(s) - {t} && Writers(s') == Writers(s)
    ensures s.threads[t].Writing? ==> Execute(s, DropWrite(t)).threads[t].Idle? && IsFree(Execute(s, DropWrite(t)))
    ensures s.threads[t].Writing? ==>
              var s' := Execute(s, Downgrade(t));
              s'.threads[t].Reading? && Readers(s') == {t} && Writers(s') == {}
  {
    if s.threads[t].Reading? {
      Moved(s, t, Idle, Execute(s, DropRead(t)).word);
    } else if s.threads[t].Writing? {
      OnlyWriter(s, t);
      Moved(s, t, Idle, Execute(s, DropWrite(t)).word);
      Moved(s, t, Reading, Execute(s, Downgrade(t)).word);
    }
  }

  /** A free lock is taken for writing, or for reading, by an attempt that nothing comes between. */
  lemma {:induction false} FreeLockIsTaken(s: State, t: Tid)
    requires Inv(s) && t in s.threads && s.threads[t].Idle? && IsFree(s)
    ensures var s1 := Execute(s, LoadForWrite(t));
            && Enabled(s1, ExchangeForWrite(t))
            && Execute(s1, ExchangeForWrite(t)) == State(WRITER, s.threads[t := Writing])
    ensures var s1 := Execute(s, LoadForRead(t));
            && Enabled(s1, ExchangeForRead(t))
            && Execute(s1, ExchangeForRead(t)) == State(1, s.threads[t := Reading])
  {
    FreeWord(s);
    WordFacts(s.word);
    assert Execute(s, LoadForWrite(t)).threads[t := Writing] == s.threads[t := Writing];
    assert Execute(s, LoadForRead(t)).threads[t := Reading] == s.threads[t := Reading];
  }

  // ---- upgrading -----------------------------------------------------------------------------------

  /** An upgrade succeeds exactly when the upgrading thread is the only reader. */
  lemma {:induction false} UpgradeSucceedsIff(s: State, t: Tid)
    requires Inv(s) && Enabled(s, ExchangeForUpgrade(t))
    ensures Execute(s, ExchangeForUpgrade(t)).threads[t].Writing? <==> Readers(s) == {t}
  {
    Singleton(Readers(s), t);
  }

  /** Two threads that upgrade at the same time block each other for ever, whatever else happens. */
  lemma {:induction false} TwoUpgradesDeadlock(states: seq<State>, steps: seq<Step>, i: nat, j: nat, t: Tid, u: Tid)
    requires IsRun(states, steps) && i <= j < |states| && t != u
    requires t in states[i].threads && states[i].threads[t].Upgrading?
    requires u in states[i].threads && states[i].threads[u].Upgrading?
    ensures t in states[j].threads && states[j].threads[t].Upgrading?
    ensures u in states[j].threads && states[j].threads[u].Upgrading?
    ensures Writers(states[j]) == {}
    decreases j
  {
    if j > i {
      TwoUpgradesDeadlock(states, steps, i, j - 1, t, u);
      RunsAreSafe(states, steps, j - 1);
      StaysUpgrading(states[j - 1], steps[j - 1], t, u);
    }
    RunsAreSafe(states, steps, j);
    assert t in Readers(states[j]);
  }

  lemma {:induction false} StaysUpgrading(s: State, step: Step, t: Tid, u: Tid)
    requires Inv(s) && Enabled(s, step) && t != u
    requires t in s.threads && s.threads[t].Upgrading? && u in s.threads && s.threads[u].Upgrading?
    ensures t in Execute(s, step).threads && Execute(s, step).threads[t].Upgrading?
    ensures u in Execute(s, step).threads && Execute(s, step).threads[u].Upgrading?
  {
    assert t in Readers(s) && u in Readers(s);
    if step.ExchangeForUpgrade? { UpgradeSucceedsIff(s, step.t); }
  }

  // ---- two upgraders -------------------------------------------------------------------------------

  ghost predicate Reachable(s: State) {
    exists states: seq<State>, steps: seq<Step> :: IsRun(states, steps) && states[|steps|] == s
  }

  lemma {:induction false} ReachableStep(s: State, step: Step)
    requires Reachable(s) && Enabled(s, step)
    ensures Reachable(Execute(s, step))
  {
    var states: seq<State>, steps: seq<Step> :| IsRun(states, steps) && states[|steps|] == s;
    var states', steps' := states + [Execute(s, step)], steps + [step];
    forall i | 0 <= i < |steps'|
      ensures Enabled(states'[i], steps'[i]) && states'[i + 1] == Execute(states'[i], steps'[i])
    {
      if i < |steps| { assert states'[i] == states[i] && steps'[i] == steps[i] && states'[i + 1] == states[i + 1]; }
    }
    assert IsRun(states', steps') && states'[|steps'|] == Execute(s, step);
  }

  /** Such a state is reached: two threads take the lock for reading and then both upgrade. */
  lemma {:induction false} BothUpgrade()
    ensures Reachable(State(2, map[1 := Upgrading, 2 := Upgrading]))
  {
    BothUpgrading(1, 2);
  }

  lemma {:induction false} BothUpgrading(t: Tid, u: Tid)
    requires t != u
    ensures Reachable(State(2, map[t := Upgrading, u := Upgrading]))
  {
    hide Reachable;
    var s0 := State(0, map[t := Idle, u := Idle]);
    ReachableIdle(s0);
    TakesRead(s0, t);
    var s1 := State(1, s0.threads[t := Reading]);
    TakesRead(s1, u);
    var s2 := State(2, s1.threads[u := Reading]);
    Upgrades(s2, t);
    var s3 := State(2, s2.threads[t := Upgrading]);
    Upgrades(s3, u);
    assert s3.threads[u := Upgrading] == map[t := Upgrading, u := Upgrading];
  }

  lemma {:induction false} ReachableIdle(s: State)
    requires s.word == 0 && |s.threads| < WRITER && forall t :: t in s.threads ==> s.threads[t] == Idle
    ensures Reachable(s)
  {
    assert IsRun([s], []) && [s][0] == s;
  }

  lemma {:induction false} Upgrades(s: State, t: Tid)
    requires Reachable(s) && t in s.threads && s.threads[t] == Reading
    ensures Reachable(State(s.word, s.threads[t := Upgrading]))
  {
    ReachableStep(s, StartUpgrade(t));
  }

  lemma {:induction false} TakesRead(s: State, t: Tid)
    requires Reachable(s) && t in s.threads && s.threads[t] == Idle && s.word < 2
    ensures Reachable(State(s.word + 1, s.threads[t := Reading]))
  {
    hide Reachable;
    ReachableStep(s, LoadForRead(t));
    var s1 := Execute(s, LoadForRead(t));
    ReachableStep(s1, ExchangeForRead(t));
    var s2 := Execute(s1, ExchangeForRead(t));
    assert s2.word == s.word + 1 && s2.threads == s.threads[t := Reading];
  }

  // ---- a run through all guards --------------------------------------------------------------------

  function After(s: State, steps: seq<Step>): Option<State>
    decreases |steps|
  {
    if steps == [] then Some(s)
    else if Enabled(s, steps[0]) then After(Execute(s, steps[0]), steps[1..])
    else None
  }

  lemma {:induction false} AfterOne(s: State, a: Step)
    requires Enabled(s, a)
    ensures After(s, [a]) == Some(Execute(s, a))
  {
    assert [a][1..] == [];
  }

  lemma {:induction false} AfterTwo(s: State, a: Step, b: Step)
    requires Enabled(s, a) && Enabled(Execute(s, a), b)
    ensures After(s, [a, b]) == Some(Execute(Execute(s, a), b))
  {
    AfterOne(Execute(s, a), b);
    assert [a, b][1..] == [b];
  }

  /** One thread reads and lets go, writes, and reads on. */
  lemma {:induction false} ReadsWritesDowngrades()
    ensures var s, writer := State(0, map[1 := Idle]), State(0x4000_0000_0000_0000, map[1 := Writing]);
            && After(s, [LoadForRead(1), ExchangeForRead(1)]) == Some(State(1, map[1 := Reading]))
            && After(State(1, map[1 := Reading]), [DropRead(1)]) == Some(s)
            && After(s, [LoadForWrite(1), ExchangeForWrite(1)]) == Some(writer)
            && After(writer, [Downgrade(1)]) == Some(State(1, map[1 := Reading]))
  {
    TakesFree(1);
    LetsGo(1);
  }

  lemma {:induction false} TakesFree(t: Tid)
    ensures var s := State(0, map[t := Idle]);
            && After(s, [LoadForRead(t), ExchangeForRead(t)]) == Some(State(1, map[t := Reading]))
            && After(s, [LoadForWrite(t), ExchangeForWrite(t)]) == Some(State(WRITER, map[t := Writing]))
  {
    hide Act;
    hide After;
    hide IsWriteLocked;
    var s := State(0, map[t := Idle]);
    assert Readers(s) == {} && Writers(s) == {};
    FreeLockIsTaken(s, t);
    AfterTwo(s, LoadForRead(t), ExchangeForRead(t));
    AfterTwo(s, LoadForWrite(t), ExchangeForWrite(t));
    assert s.threads[t := Reading] == map[t := Reading] && s.threads[t := Writing] == map[t := Writing];
  }

  lemma {:induction false} LetsGo(t: Tid)
    ensures After(State(1, map[t := Reading]), [DropRead(t)]) == Some(State(0, map[t := Idle]))
    ensures After(State(WRITER, map[t := Writing]), [Downgrade(t)]) == Some(State(1, map[t := Reading]))
  {
    hide After;
    AfterOne(State(1, map[t := Reading]), DropRead(t));
    AfterOne(State(WRITER, map[t := Writing]), Downgrade(t));
    assert map[t := Reading][t := Idle] == map[t := Idle] && map[t := Writing][t := Reading] == map[t := Reading];
  }
}
