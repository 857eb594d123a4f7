/**
 The thread pool (threadpool.c) as a state machine: one step for each region that a thread executes under a lock.
 Any number of producers, the workers and the adjuster interleave freely, a waiting worker may wake up at any time, and
 nothing is shut down.
 */
module PoolProtocol {

  datatype Task = Task(routine: nat, arg: nat)

  datatype Config = Config(min: nat, max: nat, capacity: nat)

  ghost predicate Sound(c: Config) {
    c.min <= c.max && c.capacity > 0
  }

  /** Where a worker is. */
  datatype Worker =
    | Top                     // before it takes the lock
    | Waiting                 // on queue_not_empty
    | Fetched(task: Task)     // has a task, not yet counted as busy
    | Running(task: Task)     // counted as busy
    | Leaving                 // has given up the lock for the last time
    | Exited

  datatype Adjuster =
    | Sleeping
    | Looked(size: nat, live: nat)
    | Counted(size: nat, live: nat, busy: nat)
    | Grown(live: nat, busy: nat)

  const MIN_WAIT_TASK_NUM := 10
  const DEFAULT_THREAD_VARY := 3

  /** The pool, with the queue as a sequence.  The last three fields are history. */
  datatype State = State(
    queue: seq<Task>, live: nat, busy: nat, waitExit: nat,
    workers: seq<Worker>, slots: seq<nat>, adjuster: Adjuster,
    added: seq<Task>, taken: seq<Task>, finished: seq<Task>)

  /** A slot of the threads array holds 0 or one more than the index of a worker. */
  predicate DeadSlot(workers: seq<Worker>, slot: nat) {
    slot == 0 || slot > |workers| || workers[slot - 1].Exited?
  }

  function Tops(k: nat): (r: seq<Worker>)
    ensures |r| == k && forall i :: 0 <= i < k ==> r[i] == Top
  {
    if k == 0 then [] else Tops(k - 1) + [Top]
  }

  function Init(c: Config): State
    requires Sound(c)
  {
    State([], c.min, 0, 0, Tops(c.min), seq(c.max, i => if 0 <= i < c.min then i + 1 else 0), Sleeping, [], [], [])
  }

  datatype Step =
    | Add(task: Task)         // threadpool_add
    | Enter(w: nat)           // a worker takes the lock at the top of its loop
    | Wake(w: nat)            // a worker returns from its wait
    | Begin(w: nat)           // ++busy_thr_num
    | Finish(w: nat)          // --busy_thr_num, once the work is done
    | Die(w: nat)             // a thread that left is gone
    | Look                    // the adjuster reads the queue size and the live count
    | LookBusy                // it reads the busy count
    | Grow                    // it may create threads
    | Shrink                  // it may ask threads to leave

  ghost predicate Taking(s: State, w: nat, t: State)
    requires w < |s.workers|
  {
    if s.queue == [] then t == s.(workers := s.workers[w := Waiting], waitExit := t.waitExit)
    else t == s.(queue := s.queue[1..], taken := s.taken +
        [s.queue[0]], workers := s.workers[w := Fetched(s.queue[0])], waitExit := t.waitExit)
  }

  /** Threads are created only in free slots, at most three of them and never beyond the maximum; fewer are created only
      when the maximum is reached or no slot is free. */
  ghost predicate Grew(c: Config, s: State, t: State) {
    var k := |t.workers| - |s.workers|;
    && 0 <= k <= DEFAULT_THREAD_VARY
    && t.workers == s.workers + Tops(k)
    && t.live == s.live + k && (k > 0 ==> t.live <= c.max)
    && |t.slots| == |s.slots|
    && (forall i :: 0 <= i < |s.slots| ==>
        t.slots[i] == s.slots[i] || (DeadSlot(s.workers, s.slots[i]) && |s.workers| < t.slots[i] <= |t.workers|))
    && (forall n :: |s.workers| < n <= |t.workers| ==> n in t.slots)
    && (forall i, j :: 0 <= i < j < |t.slots| && t.slots[i] > |s.workers| ==> t.slots[i] != t.slots[j])
    && (k == DEFAULT_THREAD_VARY || t.live >= c.max || forall i :: 0 <= i < |t.slots| ==>
        !DeadSlot(t.workers, t.slots[i]))
    && t == s.(workers := t.workers, live := t.live, slots := t.slots, adjuster := t.adjuster)
  }

  ghost predicate Next(c: Config, s: State, step: Step, t: State) {
    match step
    case Add(task) =>
      |s.queue| < c.capacity && t == s.(queue := s.queue + [task], added := s.added + [task])
    case Enter(w) =>
      w < |s.workers| && s.workers[w].Top? && Taking(s, w, t) && t.waitExit == s.waitExit
    case Wake(w) =>
      && w < |s.workers| && s.workers[w].Waiting?
      && t.waitExit == (if s.waitExit > 0 then s.waitExit - 1 else 0)
      && if s.waitExit > 0 && s.live > c.min
         then t == s.(live := s.live - 1, workers := s.workers[w := Leaving], waitExit := t.waitExit)
         else Taking(s, w, t)
    case Begin(w) =>
      w < |s.workers| && s.workers[w].Fetched? &&
          t == s.(busy := s.busy + 1, workers := s.workers[w := Running(s.workers[w].task)])
    case Finish(w) =>
      && w < |s.workers| && s.workers[w].Running? && s.busy > 0
      && t == s.(busy := s.busy - 1, workers := s.workers[w := Top], finished := s.finished + [s.workers[w].task])
    case Die(w) =>
      w < |s.workers| && s.workers[w].Leaving? && t == s.(workers := s.workers[w := Exited])
    case Look =>
      s.adjuster.Sleeping? && t == s.(adjuster := Looked(|s.queue|, s.live))
    case LookBusy =>
      s.adjuster.Looked? && t == s.(adjuster := Counted(s.adjuster.size, s.adjuster.live, s.busy))
    case Grow =>
      && s.adjuster.Counted? && t.adjuster == Grown(s.adjuster.live, s.adjuster.busy)
      && if s.adjuster.size >= MIN_WAIT_TASK_NUM && s.adjuster.live < c.max then Grew(c, s, t)
          else t == s.(adjuster := t.adjuster)
    case Shrink =>
      && s.adjuster.Grown?
      && t == s.(adjuster := Sleeping,
                 waitExit := if s.adjuster.busy * 2 < s.adjuster.live && s.adjuster.live > c.min
                     then DEFAULT_THREAD_VARY else s.waitExit)
  }

  lemma AddStep(c: Config, s: State, task: Task, t: State)
    requires |s.queue| < c.capacity && t == s.(queue := s.queue + [task], added := s.added + [task])
    ensures Next(c, s, Step.Add(task), t)
  {}

  // ----- counting

  predicate IsLive(w: Worker) { !w.Leaving? && !w.Exited? }

  predicate IsBusy(w: Worker) { w.Running? }

  ghost function Count(p: Worker -> bool, ws: seq<Worker>): nat {
    if ws == [] then 0 else Count(p, ws[..|ws| - 1]) + if p(ws[|ws| - 1]) then 1 else 0
  }

  /** The workers that hold a task. */
  function Holding(task: Task): Worker -> bool {
    (w: Worker) => (w.Fetched? || w.Running?) && w.task == task
  }

  lemma {:induction false} CountUpdate(p: Worker -> bool, ws: seq<Worker>, i: nat, w: Worker)
    requires i < |ws|
    ensures Count(p, ws[i := w]) + (if p(ws[i]) then 1 else 0) == Count(p, ws) + if p(w) then 1 else 0
  {
    var q := ws[..|ws| - 1];
    if i == |q| {
      assert ws[i := w][..|q|] == q;
    } else {
      CountUpdate(p, q, i, w);
      assert ws[i := w][..|q|] == q[i := w];
    }
  }

  lemma {:induction false} CountTops(p: Worker -> bool, ws: seq<Worker>, k: nat)
    ensures Count(p, ws + Tops(k)) == Count(p, ws) + if p(Top) then k else 0
  {
    if k == 0 {
      assert ws + Tops(k) == ws;
    } else {
      CountTops(p, ws, k - 1);
      assert ws + Tops(k) == (ws + Tops(k - 1)) + [Top];
      assert (ws + Tops(k))[..|ws| + k - 1] == ws + Tops(k - 1);
    }
  }

  lemma {:induction false} BusyAtMostLive(ws: seq<Worker>)
    ensures Count(IsBusy, ws) <= Count(IsLive, ws)
  {
    if ws != [] {
      BusyAtMostLive(ws[..|ws| - 1]);
    }
  }

  // ----- the invariant

  /** Every thread that is not gone is in exactly one slot. */
  ghost predicate Tracked(workers: seq<Worker>, slots: seq<nat>) {
    && (forall w :: 0 <= w < |workers| && !workers[w].Exited? ==> w + 1 in slots)
    && (forall i, j :: 0 <= i < j < |slots| && slots[i] != 0 ==> slots[i] != slots[j])
    && (forall i :: 0 <= i < |slots| ==> slots[i] <= |workers|)
  }

  ghost predicate Counters(c: Config, s: State) {
    && c.min <= s.live <= c.max && s.live == Count(IsLive, s.workers)
    && s.busy == Count(IsBusy, s.workers) <= s.live
  }

  /** First in, first out. */
  ghost predicate Fifo(c: Config, s: State) {
    |s.queue| <= c.capacity && s.added == s.taken + s.queue
  }

  /** Every task taken is in one worker's hands or finished, as often as it was taken. */
  ghost predicate Conserved(s: State) {
    forall task :: Balanced(s, task)
  }

  ghost predicate Balanced(s: State, task: Task) {
    multiset(s.taken)[task] == Count(Holding(task), s.workers) + multiset(s.finished)[task]
  }

  ghost predicate Inv(c: Config, s: State) {
    && Counters(c, s) && Fifo(c, s) && Conserved(s) && Tracked(s.workers, s.slots) && |s.slots| == c.max
    && s.waitExit <= DEFAULT_THREAD_VARY
  }

  lemma InitInv(c: Config)
    requires Sound(c)
    ensures Inv(c, Init(c))
  {
    hide Tops, Tracked, Conserved, Counters;
    InitTracked(c);
    InitCounters(c);
    InitConserved(c);
  }

  lemma InitCounters(c: Config)
    requires Sound(c)
    ensures Counters(c, Init(c))
  {
    hide Tops, Count;
    CountOfTops(IsLive, c.min);
    CountOfTops(IsBusy, c.min);
  }

  lemma InitConserved(c: Config)
    requires Sound(c)
    ensures Conserved(Init(c))
  {
    hide Tops, Count;
    forall task
      ensures Balanced(Init(c), task)
    {
      CountOfTops(Holding(task), c.min);
    }
  }

  lemma CountOfTops(p: Worker -> bool, k: nat)
    ensures Count(p, Tops(k)) == if p(Top) then k else 0
  {
    CountTops(p, [], k);
    assert [] + Tops(k) == Tops(k);
  }

  lemma InitTracked(c: Config)
    requires Sound(c)
    ensures Tracked(Init(c).workers, Init(c).slots)
  {
    hide Tops;
    var s := Init(c);
    forall w | 0 <= w < |s.workers| && !s.workers[w].Exited?
      ensures w + 1 in s.slots
    {
      assert s.slots[w] == w + 1;
    }
  }

  // ----- moves of one worker

  lemma CountersMove(c: Config, s: State, w: nat, x: Worker, t: State)
    requires Counters(c, s) && w < |s.workers| && t.workers == s.workers[w := x] && c.min <= t.live <= c.max
    requires t.live + (if IsLive(s.workers[w]) then 1 else 0) == s.live + if IsLive(x) then 1 else 0
    requires t.busy + (if IsBusy(s.workers[w]) then 1 else 0) == s.busy + if IsBusy(x) then 1 else 0
    ensures Counters(c, t)
  {
    CountUpdate(IsLive, s.workers, w, x);
    CountUpdate(IsBusy, s.workers, w, x);
    BusyAtMostLive(t.workers);
  }

  /** A worker takes a task, finishes one or keeps what it has. */
  lemma ConservedMove(s: State, w: nat, x: Worker, t: State, task: Task)
    requires Balanced(s, task) && w < |s.workers| && t.workers == s.workers[w := x]
    requires multiset(t.taken)[task] + (if Holding(task)(s.workers[w]) then 1 else 0) + multiset(s.finished)[task]
             == multiset(s.taken)[task] + (if Holding(task)(x) then 1 else 0) + multiset(t.finished)[task]
    ensures Balanced(t, task)
  {
    CountUpdate(Holding(task), s.workers, w, x);
  }

  lemma TrackedMove(workers: seq<Worker>, slots: seq<nat>, w: nat, x: Worker)
    requires Tracked(workers, slots) && w < |workers| && !workers[w].Exited?
    ensures Tracked(workers[w := x], slots)
  {}

  lemma TakingInv(c: Config, s: State, w: nat, t: State)
    requires Inv(c, s) && w < |s.workers| && (s.workers[w].Top? || s.workers[w].Waiting?) && Taking(s, w, t) &&
      t.waitExit <= s.waitExit
    ensures Inv(c, t)
  {
    hide Count, Tracked;
    var x := if s.queue == [] then Waiting else Fetched(s.queue[0]);
    CountersMove(c, s, w, x, t);
    TrackedMove(s.workers, s.slots, w, x);
    forall task
      ensures Balanced(t, task)
    {
      assert Balanced(s, task);
      ConservedMove(s, w, x, t, task);
    }
    if s.queue != [] {
      assert s.taken + s.queue == s.taken + [s.queue[0]] + s.queue[1..];
    }
  }

  /** The other steps of a worker. */
  lemma MoveInv(c: Config, s: State, step: Step, w: nat, x: Worker, t: State)
    requires Inv(c, s) && w < |s.workers| && t.workers == s.workers[w := x] && t.waitExit <= s.waitExit
    requires (s.workers[w].Waiting? && x.Leaving? && s.live > c.min &&
      t == s.(live := s.live - 1, workers := t.workers, waitExit := t.waitExit))
          || (s.workers[w].Fetched? && x == Running(s.workers[w].task) &&
              t == s.(busy := s.busy + 1, workers := t.workers))
          || (s.workers[w].Running? && x.Top? && s.busy > 0
                && t == s.(busy := s.busy - 1, workers := t.workers, finished := s.finished + [s.workers[w].task]))
          || (s.workers[w].Leaving? && x.Exited? && t == s.(workers := t.workers))
    ensures Inv(c, t)
  {
    hide Count, Tracked;
    CountersMove(c, s, w, x, t);
    TrackedMove(s.workers, s.slots, w, x);
    forall task
      ensures Balanced(t, task)
    {
      assert Balanced(s, task);
      ConservedMove(s, w, x, t, task);
    }
  }

  lemma GrewTracked(c: Config, s: State, t: State)
    requires Tracked(s.workers, s.slots) && Grew(c, s, t)
    ensures Tracked(t.workers, t.slots)
  {
    forall w | 0 <= w < |t.workers| && !t.workers[w].Exited?
      ensures w + 1 in t.slots
    {
      if w < |s.workers| {
        assert s.workers[w] == t.workers[w];
        var i :| 0 <= i < |s.slots| && s.slots[i] == w + 1;
        assert t.slots[i] == w + 1;
      }
    }
    forall i, j | 0 <= i < j < |t.slots| && t.slots[i] != 0
      ensures t.slots[i] != t.slots[j]
    {
      if t.slots[i] <= |s.workers| {
        assert t.slots[i] == s.slots[i];
      }
    }
  }

  lemma GrewInv(c: Config, s: State, t: State)
    requires Inv(c, s) && Grew(c, s, t)
    ensures Inv(c, t)
  {
    hide Count, Tracked;
    var k := |t.workers| - |s.workers|;
    CountTops(IsLive, s.workers, k);
    CountTops(IsBusy, s.workers, k);
    GrewTracked(c, s, t);
    forall task
      ensures Balanced(t, task)
    {
      assert Balanced(s, task);
      CountTops(Holding(task), s.workers, k);
    }
  }

  /** Every step keeps the invariant. */
  lemma NextInv(c: Config, s: State, step: Step, t: State)
    requires Inv(c, s) && Next(c, s, step, t)
    ensures Inv(c, t)
  {
    hide Count, Tracked, Grew, Counters;
    match step
    case Add(task) =>
      assert s.taken + (s.queue + [task]) == s.taken + s.queue + [task];
      SameInv(c, s, t);
    case Enter(w) =>
      TakingInv(c, s, w, t);
    case Wake(w) =>
      if s.waitExit > 0 && s.live > c.min {
        MoveInv(c, s, step, w, Leaving, t);
      } else {
        TakingInv(c, s, w, t);
      }
    case Begin(w) =>
      MoveInv(c, s, step, w, Running(s.workers[w].task), t);
    case Finish(w) =>
      MoveInv(c, s, step, w, Top, t);
    case Die(w) =>
      MoveInv(c, s, step, w, Exited, t);
    case Look =>
      SameInv(c, s, t);
    case LookBusy =>
      SameInv(c, s, t);
    case Grow =>
      if s.adjuster.size >= MIN_WAIT_TASK_NUM && s.adjuster.live < c.max {
        GrewInv(c, s, t);
      } else {
        SameInv(c, s, t);
      }
    case Shrink =>
      SameInv(c, s, t);
  }

  lemma SameInv(c: Config, s: State, t: State)
    requires Inv(c, s) && Fifo(c, t) && t.waitExit <= DEFAULT_THREAD_VARY
    requires t == s.(queue := t.queue, added := t.added, adjuster := t.adjuster, waitExit := t.waitExit)
    ensures Inv(c, t)
  {
    hide Count, Tracked;
    forall task
      ensures Balanced(t, task)
    {
      assert Balanced(s, task);
    }
  }

  // ----- runs

  ghost predicate Run(c: Config, states: seq<State>, steps: seq<Step>) {
    && Sound(c) && |states| == |steps| + 1 && states[0] == Init(c)
    && forall i :: 0 <= i < |steps| ==> Next(c, states[i], steps[i], states[i + 1])
  }

  /** The invariant holds throughout every run. */
  lemma {:induction false} AlwaysInv(c: Config, states: seq<State>, steps: seq<Step>, i: nat)
    requires Run(c, states, steps) && i < |states|
    ensures Inv(c, states[i])
  {
    hide Inv, Next;
    if i == 0 {
      InitInv(c);
    } else {
      AlwaysInv(c, states, steps, i - 1);
      NextInv(c, states[i - 1], steps[i - 1], states[i]);
    }
  }

  /** Tasks are only ever taken from the front: what was taken once stays taken, in the order of adding. */
  lemma {:induction false} TakenInOrder(c: Config, states: seq<State>, steps: seq<Step>, i: nat, j: nat)
    requires Run(c, states, steps) && i <= j < |states|
    ensures states[i].taken <= states[j].taken <= states[j].added && states[i].added <= states[j].added
    decreases j
  {
    hide Inv, Next;
    AlwaysInv(c, states, steps, j);
    AddedHasTaken(c, states[j]);
    if i < j {
      TakenInOrder(c, states, steps, i, j - 1);
      OnlyGrows(c, states[j - 1], steps[j - 1], states[j]);
    }
  }

  lemma AddedHasTaken(c: Config, s: State)
    requires Inv(c, s)
    ensures s.taken <= s.added
  {
    hide Counters, Conserved, Tracked;
  }

  lemma OnlyGrows(c: Config, s: State, step: Step, t: State)
    requires Next(c, s, step, t)
    ensures s.taken <= t.taken && s.added <= t.added
  {}

  // ----- threads

  predicate NotGone(w: Worker) { !w.Exited? }

  ghost function Ids(p: Worker -> bool, ws: seq<Worker>): set<nat> {
    set i | 0 <= i < |ws| && p(ws[i]) :: i + 1
  }

  ghost function Elements(s: seq<nat>): set<nat> {
    set x | x in s
  }

  lemma {:induction false} CountIsSize(p: Worker -> bool, ws: seq<Worker>)
    ensures Count(p, ws) == |Ids(p, ws)|
  {
    if ws != [] {
      var q := ws[..|ws| - 1];
      CountIsSize(p, q);
      assert Ids(p, ws) == Ids(p, q) + if p(ws[|q|]) then {|ws|} else {};
    }
  }

  lemma {:induction false} ElementsAtMost(s: seq<nat>)
    ensures |Elements(s)| <= |s|
  {
    if s != [] {
      var q := s[..|s| - 1];
      ElementsAtMost(q);
      assert Elements(s) == Elements(q) + {s[|s| - 1]};
    }
  }

  lemma SubsetAtMost(a: set<nat>, b: set<nat>)
    requires a <= b
    ensures |a| <= |b|
  {
    assert b == a + (b - a);
  }

  /** Counting also the threads that are on their way out, there are never more than max_thr_num. */
  lemma ThreadsAtMost(c: Config, s: State)
    requires Inv(c, s)
    ensures Count(NotGone, s.workers) <= c.max
  {
    CountIsSize(NotGone, s.workers);
    ElementsAtMost(s.slots);
    SubsetAtMost(Ids(NotGone, s.workers), Elements(s.slots));
  }

  // ----- threadpool_create

  /** As long as nothing is added, every thread that was created first is still there, so that joining one blocks. */
  ghost predicate Untouched(c: Config, s: State) {
    && |s.workers| == c.min && (forall w :: 0 <= w < |s.workers| ==> s.workers[w].Top? || s.workers[w].Waiting?)
    && s.queue == [] && s.live == c.min && s.waitExit == 0
    && (match s.adjuster
        case Sleeping => true
        case Looked(size, live) => size == 0 && live == c.min
        case Counted(size, live, _) => size == 0 && live == c.min
        case Grown(live, _) => live == c.min)
  }

  lemma {:induction false} NothingAdded(c: Config, states: seq<State>, steps: seq<Step>, i: nat)
    requires Run(c, states, steps) && i < |states| && forall j :: 0 <= j < i ==> !steps[j].Add?
    ensures Untouched(c, states[i])
  {
    if i > 0 {
      NothingAdded(c, states, steps, i - 1);
      assert Next(c, states[i - 1], steps[i - 1], states[i]);
    }
  }

  /** What threadpool_create waits for before it returns: the end of the first min_thr_num threads. */
  ghost predicate Joined(c: Config, s: State) {
    forall w :: 0 <= w < c.min ==> w < |s.workers| && s.workers[w].Exited?
  }

  /** The pool is not handed out before threadpool_create returns, so nothing is added until then: it returns exactly
      when the minimum is zero. */
  lemma CreateReturns(c: Config, states: seq<State>, steps: seq<Step>, i: nat)
    requires Run(c, states, steps) && i < |states| && forall j :: 0 <= j < i ==> !steps[j].Add?
    ensures Joined(c, states[i]) <==> c.min == 0
  {
    NothingAdded(c, states, steps, i);
    if c.min > 0 {
      assert !states[i].workers[0].Exited?;
    }
  }
}
