/** The ticket lock as a state machine over its atomic steps
    (lib/synchronizations/src/ticket_lock.rs). */
module TicketLock {

  type Tid = nat

  const U32: nat := 0x1_0000_0000
  const U64: nat := 0x1_0000_0000_0000_0000

  // ---- the word ----------------------------------------------------------------------------------

  /** The 64-bit word holds the owner in its low half and the next ticket in its high half. */
  function Word(owner: nat, next: nat): nat { next * U32 + owner }

  function OwnerOf(word: nat): nat { word % U32 }

  function NextOf(word: nat): nat { word / U32 }

  /** The owner is in the low 32 bits, the next ticket in the high ones, and both wrap around on their own. */
  lemma {:induction false} Layout()
    ensures Word(0xffff_ffff, 0) == 0xffff_ffff && Word(0, 1) == 0x1_0000_0000
    ensures Inc(0xffff_ffff) == 0 && Inc(0) == 1
  {
  }

  /** A 32-bit fetch-add of 1. */
  function Inc(x: nat): nat { (x + 1) % U32 }

  lemma {:induction false} Halves(owner: nat, next: nat)
    requires owner < U32 && next < U32
    ensures OwnerOf(Word(owner, next)) == owner && NextOf(Word(owner, next)) == next
  {
  }

  lemma {:induction false} Below(word: nat)
    ensures OwnerOf(word) < U32 && Inc(OwnerOf(word)) < U32
  {
  }

  /** The two words that `try_lock` exchanges, computed in 64 bits as in the source. */
  function Unlocked(prev: nat): nat { (prev * U32) % U64 + prev }

  function LockedBy(prev: nat): nat { ((prev + 1) * U32) % U64 + prev }

  lemma {:induction false} TryLockWords(prev: nat)
    requires prev < U32
    ensures Unlocked(prev) == Word(prev, prev)
    ensures LockedBy(prev) == Word(prev, Inc(prev))
  {
  }

  // ---- threads -----------------------------------------------------------------------------------

  /** Waiting: has drawn a ticket and polls the owner.  Trying: has loaded the owner for `try_lock`. */
  datatype Local =
    | Idle
    | Waiting(ticket: nat)
    | Trying(prev: nat)
    | Holding

  /** queue: the threads that hold a ticket or the lock, in the order in which they got it.  It is
      bookkeeping only; no step depends on it. */
  datatype State = State(word: nat, threads: map<Tid, Local>, queue: seq<Tid>)

  datatype Step =
    | Draw(t: Tid)
    | Poll(t: Tid)
    | TryLoad(t: Tid)
    | TryExchange(t: Tid)
    | Drop(t: Tid)

  predicate Ready(l: Local, step: Step) {
    match step
    case Draw(_) => l.Idle?
    case Poll(_) => l.Waiting?
    case TryLoad(_) => l.Idle?
    case TryExchange(_) => l.Trying?
    case Drop(_) => l.Holding?
  }

  predicate Enabled(s: State, step: Step) {
    step.t in s.threads && Ready(s.threads[step.t], step)
  }

  function Act(word: nat, l: Local, step: Step): (nat, Local)
    requires Ready(l, step)
  {
    match step
    case Draw(_) => (Word(OwnerOf(word), Inc(NextOf(word))), Waiting(NextOf(word)))
    case Poll(_) => (word, if OwnerOf(word) == l.ticket then Holding else l)
    case TryLoad(_) => (word, Trying(OwnerOf(word)))
    case TryExchange(_) => if word == Unlocked(l.prev) then (LockedBy(l.prev), Holding) else (word, Idle)
    case Drop(_) => (Word(Inc(OwnerOf(word)), NextOf(word)), Idle)
  }

  function Remove(q: seq<Tid>, t: Tid): seq<Tid> {
    if q == [] then [] else if q[0] == t then q[1..] else [q[0]] + Remove(q[1..], t)
  }

  function Execute(s: State, step: Step): State
    requires Enabled(s, step)
  {
    var (word, l) := Act(s.word, s.threads[step.t], step);
    State(word, s.threads[step.t := l],
          if step.Draw? || (step.TryExchange? && l.Holding?) then s.queue + [step.t]
          else if step.Drop? then Remove(s.queue, step.t)
          else s.queue)
  }

  // ---- the invariant -------------------------------------------------------------------------------

  predicate InQueue(l: Local) { l.Waiting? || l.Holding? }

  /** The k-th thread in the queue has the k-th ticket from the owner on; only the first can hold. */
  ghost predicate QueuedOk(s: State, k: int) {
    && 0 <= k < |s.queue| && s.queue[k] in s.threads
    && var l := s.threads[s.queue[k]];
       || (l.Waiting? && l.ticket == (OwnerOf(s.word) + k) % U32)
       || (l.Holding? && k == 0)
  }

  ghost predicate ThreadOk(s: State, t: Tid) {
    && t in s.threads
    && (InQueue(s.threads[t]) <==> t in s.queue)
    && (s.threads[t].Trying? ==> s.threads[t].prev < U32)
  }

  ghost predicate Distinct(q: seq<Tid>) {
    forall i, j :: 0 <= i < j < |q| ==> q[i] != q[j]
  }

  ghost predicate Inv(s: State) {
    && |s.threads| < U32
    && s.word == Word(OwnerOf(s.word), NextOf(s.word)) && NextOf(s.word) < U32
    && NextOf(s.word) == (OwnerOf(s.word) + |s.queue|) % U32
    && Distinct(s.queue)
    && (forall k :: 0 <= k < |s.queue| ==> QueuedOk(s, k))
    && (forall t :: t in s.threads ==> ThreadOk(s, t))
    && (forall t :: t in s.queue ==> t in s.threads)
  }

  lemma {:induction false} DistinctSize(q: seq<Tid>, a: set<Tid>)
    requires Distinct(q) && forall t :: t in q ==> t in a
    ensures |q| <= |a|
    decreases q
  {
    if q != [] {
      assert q[0] in q;
      forall t | t in q[1..]
        ensures t in a - {q[0]}
      {
        assert t in q;
      }
      DistinctSize(q[1..], a - {q[0]});
      assert |a - {q[0]}| == |a| - 1;
    }
  }

  /** Fewer tickets are out than there are ticket numbers, so the word tells whether any is out. */
  lemma {:induction false} QueueSize(s: State)
    requires Inv(s)
    ensures |s.queue| < U32
    ensures s.queue == [] <==> NextOf(s.word) == OwnerOf(s.word)
  {
    DistinctSize(s.queue, s.threads.Keys);
    var o, n := OwnerOf(s.word), |s.queue|;
    assert (o + n) % U32 == if o + n < U32 then o + n else o + n - U32;
  }

  lemma {:induction false} HolderIsFirst(s: State, t: Tid)
    requires Inv(s) && t in s.threads && s.threads[t].Holding?
    ensures s.queue != [] && s.queue[0] == t
  {
    assert ThreadOk(s, t);
    var k :| 0 <= k < |s.queue| && s.queue[k] == t;
    assert QueuedOk(s, k);
  }

  // ---- steps ---------------------------------------------------------------------------------------

  lemma {:induction false} IncShift(o: nat, k: nat)
    requires o < U32
    ensures (Inc(o) + k) % U32 == (o + k + 1) % U32
    ensures Inc((o + k) % U32) == (o + k + 1) % U32
  {
    if o + 1 == U32 { assert (o + k + 1) % U32 == k % U32; }
    var q, r := (o + k) / U32, (o + k) % U32;
    assert o + k + 1 == U32 * q + (r + 1);
    if r + 1 == U32 { assert (o + k + 1) % U32 == 0; }
  }

  /** Appending thread t, with word' and its new local state. */
  lemma {:induction false} Enqueue(s: State, t: Tid, l: Local)
    requires Inv(s) && t in s.threads && t !in s.queue
    requires l == Waiting(NextOf(s.word)) || (l.Holding? && s.queue == [])
    ensures Inv(State(Word(OwnerOf(s.word), Inc(NextOf(s.word))), s.threads[t := l], s.queue + [t]))
  {
    var q := s.queue + [t];
    var s' := State(Word(OwnerOf(s.word), Inc(NextOf(s.word))), s.threads[t := l], q);
    assert s'.threads.Keys == s.threads.Keys;
    Halves(OwnerOf(s.word), Inc(NextOf(s.word)));
    IncShift(OwnerOf(s.word), |s.queue|);
    forall k | 0 <= k < |q|
      ensures QueuedOk(s', k)
    {
      if k < |s.queue| { assert QueuedOk(s, k) && s.queue[k] in s.queue; }
    }
    forall u | u in s'.threads
      ensures ThreadOk(s', u)
    {
      assert ThreadOk(s, u);
    }
  }

  /** The holder leaves the front of the queue. */
  lemma {:induction false} Dequeue(s: State, t: Tid)
    requires Inv(s) && t in s.threads && s.threads[t].Holding?
    ensures Inv(State(Word(Inc(OwnerOf(s.word)), NextOf(s.word)), s.threads[t := Idle], Remove(s.queue, t)))
  {
    hide OwnerOf;
    hide NextOf;
    hide Word;
    hide Inc;
    HolderIsFirst(s, t);
    var q := s.queue[1..];
    var s' := State(Word(Inc(OwnerOf(s.word)), NextOf(s.word)), s.threads[t := Idle], q);
    assert s'.threads.Keys == s.threads.Keys;
    Below(s.word);
    Halves(Inc(OwnerOf(s.word)), NextOf(s.word));
    IncShift(OwnerOf(s.word), |q|);
    forall k | 0 <= k < |q|
      ensures QueuedOk(s', k)
    {
      IncShift(OwnerOf(s.word), k);
      assert QueuedOk(s, k + 1) && s.queue[k + 1] == q[k] && s.queue[0] != s.queue[k + 1];
    }
    RestOfQueue(s.queue);
    forall u | u in s'.threads
      ensures ThreadOk(s', u)
    {
      assert ThreadOk(s, u);
    }
  }

  lemma {:induction false} RestOfQueue(q: seq<Tid>)
    requires q != [] && Distinct(q)
    ensures Distinct(q[1..]) && forall u :: u in q[1..] <==> u in q && u != q[0]
  {
    forall u | u in q[1..]
      ensures u in q && u != q[0]
    {
      var k :| 0 <= k < |q[1..]| && q[1..][k] == u;
      assert q[k + 1] == u;
    }
  }

  /** Thread t changes its own state only. */
  lemma {:induction false} Stay(s: State, t: Tid, l: Local)
    requires Inv(s) && t in s.threads
    requires InQueue(l) <==> InQueue(s.threads[t])
    requires l.Trying? ==> l.prev < U32
    requires l.Waiting? ==> l == s.threads[t]
    requires l.Holding? ==> s.queue != [] && s.queue[0] == t
    ensures Inv(State(s.word, s.threads[t := l], s.queue))
  {
    var s' := State(s.word, s.threads[t := l], s.queue);
    assert s'.threads.Keys == s.threads.Keys;
    assert ThreadOk(s, t);
    forall k | 0 <= k < |s.queue|
      ensures QueuedOk(s', k)
    {
      assert QueuedOk(s, k) && s.queue[k] in s.queue;
    }
    forall u | u in s'.threads
      ensures ThreadOk(s', u)
    {
      assert ThreadOk(s, u);
    }
  }

  /** A polling thread gets the lock exactly when it is first in the queue. */
  lemma {:induction false} PollSucceedsIff(s: State, t: Tid)
    requires Inv(s) && Enabled(s, Poll(t))
    ensures Execute(s, Poll(t)).threads[t].Holding? <==> s.queue != [] && s.queue[0] == t
  {
    QueueSize(s);
    assert ThreadOk(s, t);
    var k :| 0 <= k < |s.queue| && s.queue[k] == t;
    assert QueuedOk(s, k);
    var o := OwnerOf(s.word);
    assert (o + k) % U32 == if o + k < U32 then o + k else o + k - U32;
    assert s.queue[0] == t ==> k == 0;
  }

  /** `try_lock` succeeds exactly when nobody holds the lock or waits for it and the owner is still
      the one that was loaded. */
  lemma {:induction false} TryLockSucceedsIff(s: State, t: Tid)
    requires Inv(s) && Enabled(s, TryExchange(t))
    ensures Execute(s, TryExchange(t)).threads[t].Holding?
            <==> s.queue == [] && OwnerOf(s.word) == s.threads[t].prev
    ensures s.queue == [] <==> forall u :: u in s.threads ==> !InQueue(s.threads[u])
  {
    QueueSize(s);
    assert ThreadOk(s, t);
    TryLockWords(s.threads[t].prev);
    Halves(s.threads[t].prev, s.threads[t].prev);
    forall u | u in s.threads
      ensures InQueue(s.threads[u]) <==> u in s.queue
    {
      assert ThreadOk(s, u);
    }
    if s.queue != [] { assert s.queue[0] in s.queue; }
  }

  /** Main result: when nothing comes between its two steps, `try_lock` takes the lock exactly when it is
      free, and so does the first poll after a ticket is drawn. */
  lemma {:induction false} FreeLockIsTaken(s: State, t: Tid)
    requires Inv(s) && t in s.threads && s.threads[t].Idle?
    ensures var s1 := Execute(s, TryLoad(t));
            && Enabled(s1, TryExchange(t))
            && (Execute(s1, TryExchange(t)).threads[t].Holding? <==> s.queue == [])
            && (!Execute(s1, TryExchange(t)).threads[t].Holding? ==> Execute(s1, TryExchange(t)) == s)
    ensures var s1 := Execute(s, Draw(t));
            && s1.queue == s.queue + [t] && Enabled(s1, Poll(t))
            && (Execute(s1, Poll(t)).threads[t].Holding? <==> s.queue == [])
  {
    hide Word;
    hide Unlocked;
    hide LockedBy;
    hide QueuedOk;
    hide ThreadOk;
    hide OwnerOf;
    hide NextOf;
    hide Inc;
    assert ThreadOk(s, t);
    var s1, s2 := Execute(s, TryLoad(t)), Execute(s, Draw(t));
    StepKeepsInv(s, TryLoad(t));
    TryLockSucceedsIff(s1, t);
    assert s1.threads[t := Idle] == s.threads;
    StepKeepsInv(s, Draw(t));
    PollSucceedsIff(s2, t);
    IdleIsNotQueued(s, t);
  }

  lemma {:induction false} IdleIsNotQueued(s: State, t: Tid)
    requires Inv(s) && t in s.threads && s.threads[t].Idle?
    ensures t !in s.queue
  {
    assert ThreadOk(s, t);
  }

  /** Main result: a drop takes the holder, and nobody else, out of the queue, so that the next in it
      takes the lock with its next poll. */
  lemma {:induction false} DropPassesOn(s: State, t: Tid)
    requires Inv(s) && t in s.threads && s.threads[t].Holding?
    ensures var s' := Execute(s, Drop(t));
            && s'.queue == s.queue[1..] && s'.threads[t].Idle?
            && (s'.queue != [] ==>
                  var u := s'.queue[0];
                  Enabled(s', Poll(u)) && Execute(s', Poll(u)).threads[u].Holding?)
  {
    hide Word;
    hide OwnerOf;
    hide NextOf;
    hide Inc;
    HolderIsFirst(s, t);
    StepKeepsInv(s, Drop(t));
    var s' := Execute(s, Drop(t));
    if s'.queue != [] {
      var u := s'.queue[0];
      assert QueuedOk(s', 0) && QueuedOk(s, 1) && s.queue[1] == u;
      PollSucceedsIff(s', u);
    }
  }

  /** Main result: every step of every thread keeps the invariant. */
  lemma {:induction false} StepKeepsInv(s: State, step: Step)
    requires Inv(s) && Enabled(s, step)
    ensures Inv(Execute(s, step))
  {
    var t := step.t;
    assert ThreadOk(s, t);
    match step
    case Draw(_) => Enqueue(s, t, Waiting(NextOf(s.word)));
    case Poll(_) =>
      PollSucceedsIff(s, t);
      Stay(s, t, Execute(s, step).threads[t]);
    case TryLoad(_) => Stay(s, t, Trying(OwnerOf(s.word)));
    case TryExchange(_) =>
      TryLockSucceedsIff(s, t);
      if Execute(s, step).threads[t].Holding? {
        TryLockWords(s.threads[t].prev);
        QueueSize(s);
        Enqueue(s, t, Holding);
      } else {
        Stay(s, t, Idle);
      }
    case Drop(_) => Dequeue(s, t);
  }

  // ---- runs ----------------------------------------------------------------------------------------

  ghost predicate IsRun(states: seq<State>, steps: seq<Step>) {
    && |states| == |steps| + 1
    && states[0].word == 0 && states[0].queue == [] && |states[0].threads| < U32
    && (forall t :: t in states[0].threads ==> states[0].threads[t] == Idle)
    && forall i :: 0 <= i < |steps| ==> Enabled(states[i], steps[i]) && states[i + 1] == Execute(states[i], steps[i])
  }

  /** Main result: in every interleaving at most one thread holds the lock. */
  lemma {:induction false} RunsAreSafe(states: seq<State>, steps: seq<Step>, i: nat)
    requires IsRun(states, steps) && i < |states|
    ensures Inv(states[i])
    ensures AtMostOne(states[i])
  {
    if i == 0 {
      assert forall t :: t in states[0].threads ==> ThreadOk(states[0], t);
    } else {
      RunsAreSafe(states, steps, i - 1);
      StepKeepsInv(states[i - 1], steps[i - 1]);
    }
    OneHolder(states[i]);
  }

  ghost predicate AtMostOne(s: State) {
    forall t, u :: t in s.threads && u in s.threads && s.threads[t].Holding? && s.threads[u].Holding? ==> t == u
  }

  /** The holder is the head of the queue, so there is at most one. */
  lemma {:induction false} OneHolder(s: State)
    requires Inv(s)
    ensures AtMostOne(s)
  {
    forall t, u | t in s.threads && u in s.threads && s.threads[t].Holding? && s.threads[u].Holding?
      ensures t == u
    {
      HolderIsFirst(s, t);
      HolderIsFirst(s, u);
    }
  }

  /** t is before u in the queue. */
  ghost predicate Before(q: seq<Tid>, t: Tid, u: Tid) {
    exists i, j :: 0 <= i < j < |q| && q[i] == t && q[j] == u
  }

  /** Main result: tickets are served in the order in which they were drawn.  A thread that got its
      ticket before another one keeps its place until it drops the lock, and until then the other
      one does not hold the lock. */
  lemma {:induction false} ServedInOrder(states: seq<State>, steps: seq<Step>, i: nat, j: nat, t: Tid, u: Tid)
    requires IsRun(states, steps) && i <= j < |states|
    requires Before(states[i].queue, t, u)
    requires forall k :: i <= k < j ==> steps[k] != Drop(t)
    ensures Before(states[j].queue, t, u)
    ensures u in states[j].threads && !states[j].threads[u].Holding?
    decreases j
  {
    if j > i {
      ServedInOrder(states, steps, i, j - 1, t, u);
      RunsAreSafe(states, steps, j - 1);
      StaysBefore(states[j - 1], steps[j - 1], t, u);
    }
    RunsAreSafe(states, steps, j);
    NotServedYet(states[j], t, u);
  }

  /** A thread that is not first in the queue does not hold the lock. */
  lemma {:induction false} NotServedYet(s: State, t: Tid, u: Tid)
    requires Inv(s) && Before(s.queue, t, u)
    ensures u in s.threads && !s.threads[u].Holding?
  {
    var a, b :| 0 <= a < b < |s.queue| && s.queue[a] == t && s.queue[b] == u;
    assert QueuedOk(s, b);
    if s.threads[u].Holding? {
      HolderIsFirst(s, u);
    }
  }

  lemma {:induction false} StaysBefore(s: State, step: Step, t: Tid, u: Tid)
    requires Inv(s) && Enabled(s, step) && step != Drop(t) && Before(s.queue, t, u)
    ensures Before(Execute(s, step).queue, t, u)
  {
    var a, b :| 0 <= a < b < |s.queue| && s.queue[a] == t && s.queue[b] == u;
    var q := Execute(s, step).queue;
    if step.Drop? {
      HolderIsFirst(s, step.t);
      assert q[a - 1] == t && q[b - 1] == u;
    } else {
      assert q[a] == t && q[b] == u;
    }
  }
}
