/**
 What the adjuster of the thread pool (threadpool.c, adjust_thread) does in the course of a run, said
 of the threads and tasks there were when it looked.
 */
module PoolRuns {
  import opened PoolProtocol

  predicate Adjusts(step: Step) {
    step.Look? || step.LookBusy? || step.Grow? || step.Shrink?
  }

  ghost predicate Quiet(steps: seq<Step>, i: nat, j: nat) {
    forall k: nat :: i <= k < j && k < |steps| ==> !Adjusts(steps[k])
  }

  /** The adjuster looks at tasks and threads in step a, at the busy ones in b, and may create threads in g. */
  ghost predicate Begins(steps: seq<Step>, a: nat, b: nat, g: nat) {
    && a < b < g < |steps| && steps[a].Look? && steps[b].LookBusy? && steps[g].Grow?
    && Quiet(steps, a + 1, b) && Quiet(steps, b + 1, g)
  }

  /** A whole turn, which ends in step h. */
  ghost predicate Turn(steps: seq<Step>, a: nat, b: nat, g: nat, h: nat) {
    Begins(steps, a, b, g) && g < h < |steps| && steps[h].Shrink? && Quiet(steps, g + 1, h)
  }

  ghost function LiveAt(s: State): nat {
    Count(IsLive, s.workers)
  }

  ghost function BusyAt(s: State): nat {
    Count(IsBusy, s.workers)
  }

  /** Fewer than half of the threads were busy, and there were more than the minimum. */
  ghost predicate Idle(c: Config, s: State, t: State) {
    BusyAt(t) + BusyAt(t) < LiveAt(s) && LiveAt(s) > c.min
  }

  lemma StepAt(c: Config, states: seq<State>, steps: seq<Step>, i: nat)
    requires Run(c, states, steps) && i < |steps|
    ensures |states| == |steps| + 1 && Next(c, states[i], steps[i], states[i + 1]) && Inv(c, states[i])
    ensures states[i].live == LiveAt(states[i]) && states[i].busy == BusyAt(states[i])
  {
    hide Next, Conserved, Tracked, Fifo, Count;
    AlwaysInv(c, states, steps, i);
  }

  // ----- one turn

  lemma OthersKeep(c: Config, s: State, step: Step, t: State)
    requires Next(c, s, step, t) && !Adjusts(step)
    ensures t.adjuster == s.adjuster && |t.workers| == |s.workers| && t.waitExit <= s.waitExit
  {}

  lemma {:induction false} AdjusterStays(c: Config, states: seq<State>, steps: seq<Step>, i: nat, j: nat)
    requires Run(c, states, steps) && i <= j < |states| && Quiet(steps, i, j)
    ensures states[j].adjuster == states[i].adjuster
    decreases j
  {
    hide Next;
    if i < j {
      AdjusterStays(c, states, steps, i, j - 1);
      OthersKeep(c, states[j - 1], steps[j - 1], states[j]);
    }
  }

  /** What the adjuster knows when it has looked twice. */
  lemma Seen(c: Config, states: seq<State>, steps: seq<Step>, a: nat, b: nat, g: nat)
    requires Run(c, states, steps) && Begins(steps, a, b, g)
    ensures |states| == |steps| + 1
    ensures states[g].adjuster == Counted(|states[a].queue|, LiveAt(states[a]), BusyAt(states[b]))
  {
    hide Run, Inv, LiveAt, BusyAt;
    StepAt(c, states, steps, a);
    AdjusterStays(c, states, steps, a + 1, b);
    StepAt(c, states, steps, b);
    AdjusterStays(c, states, steps, b + 1, g);
  }

  lemma SeenLast(c: Config, states: seq<State>, steps: seq<Step>, a: nat, b: nat, g: nat, h: nat)
    requires Run(c, states, steps) && Turn(steps, a, b, g, h)
    ensures |states| == |steps| + 1
    ensures states[h].adjuster == Grown(LiveAt(states[a]), BusyAt(states[b]))
  {
    hide Run, Inv, LiveAt, BusyAt, Grew;
    Seen(c, states, steps, a, b, g);
    StepAt(c, states, steps, g);
    AdjusterStays(c, states, steps, g + 1, h);
  }

  /** A turn that finds the pool idle asks three threads to leave; any other asks none. */
  lemma AsksThree(c: Config, states: seq<State>, steps: seq<Step>, a: nat, b: nat, g: nat, h: nat)
    requires Run(c, states, steps) && Turn(steps, a, b, g, h)
    ensures |states| == |steps| + 1 && states[h + 1].workers == states[h].workers
    ensures states[h + 1].waitExit == if Idle(c, states[a], states[b]) then 3 else states[h].waitExit
  {
    hide Run, Inv, LiveAt, BusyAt;
    SeenLast(c, states, steps, a, b, g, h);
    StepAt(c, states, steps, h);
  }

  // ----- new threads

  lemma GrewExactly(c: Config, s: State, t: State)
    requires Inv(c, s) && Grew(c, s, t)
    ensures Count(NotGone, s.workers) <= c.max
    ensures var free := c.max - Count(NotGone, s.workers); |t.workers| - |s.workers| == if free < 3 then free else 3
  {
    hide Conserved, Count, Fifo;
    GrewInv(c, s, t);
    var k := |t.workers| - |s.workers|;
    ThreadsAtMost(c, s);
    ThreadsAtMost(c, t);
    CountTops(NotGone, s.workers, k);
    if k < 3 {
      if t.live >= c.max {
        LiveAtMost(t.workers);
      } else {
        AllTaken(c, t);
      }
    }
  }

  lemma {:induction false} LiveAtMost(ws: seq<Worker>)
    ensures Count(IsLive, ws) <= Count(NotGone, ws)
  {
    if ws != [] {
      LiveAtMost(ws[..|ws| - 1]);
    }
  }

  lemma {:induction false} DistinctSize(s: seq<nat>)
    requires forall i, j :: 0 <= i < j < |s| ==> s[i] != s[j]
    ensures |Elements(s)| == |s|
  {
    if s != [] {
      var q := s[..|s| - 1];
      DistinctSize(q);
      assert Elements(s) == Elements(q) + {s[|q|]};
    }
  }

  /** Where no slot is free there are as many threads as slots. */
  lemma AllTaken(c: Config, s: State)
    requires Inv(c, s) && forall i :: 0 <= i < |s.slots| ==> !DeadSlot(s.workers, s.slots[i])
    ensures Count(NotGone, s.workers) >= c.max
  {
    hide Conserved, Count, Fifo, Counters;
    CountIsSize(NotGone, s.workers);
    DistinctSize(s.slots);
    forall x | x in Elements(s.slots)
      ensures x in Ids(NotGone, s.workers)
    {
      var i :| 0 <= i < |s.slots| && s.slots[i] == x;
      assert !DeadSlot(s.workers, s.slots[i]);
      assert NotGone(s.workers[x - 1]);
    }
    SubsetAtMost(Elements(s.slots), Ids(NotGone, s.workers));
  }

  /**
   A turn that found ten tasks waiting and fewer threads than the maximum creates three, or as many
   as there is room for; any other creates none.
   */
  lemma CreatesThree(c: Config, states: seq<State>, steps: seq<Step>, a: nat, b: nat, g: nat)
    requires Run(c, states, steps) && Begins(steps, a, b, g)
    ensures |states| == |steps| + 1
    ensures var free := c.max - Count(NotGone, states[g].workers);
            |states[g + 1].workers| - |states[g].workers|
              == if |states[a].queue| >= 10 && LiveAt(states[a]) < c.max then (if free < 3 then free else 3) else 0
  {
    hide Run, Inv, LiveAt, BusyAt, Grew, Count;
    Seen(c, states, steps, a, b, g);
    StepAt(c, states, steps, g);
    if |states[a].queue| >= 10 && LiveAt(states[a]) < c.max {
      GrewExactly(c, states[g], states[g + 1]);
    }
  }

  // ----- every turn in a run

  /** The step of the adjuster that it is in since. */
  lemma {:induction false} LastStep(c: Config, states: seq<State>, steps: seq<Step>, i: nat) returns (k: nat)
    requires Run(c, states, steps) && i < |states| && !states[i].adjuster.Sleeping?
    ensures k < i <= |steps| && Adjusts(steps[k]) && Quiet(steps, k + 1, i)
    ensures states[k + 1].adjuster == states[i].adjuster
    decreases i
  {
    hide Next;
    assert i > 0;
    if Adjusts(steps[i - 1]) {
      k := i - 1;
    } else {
      OthersKeep(c, states[i - 1], steps[i - 1], states[i]);
      k := LastStep(c, states, steps, i - 1);
    }
  }

  lemma FindBegin(c: Config, states: seq<State>, steps: seq<Step>, g: nat) returns (a: nat, b: nat)
    requires Run(c, states, steps) && g < |steps| && steps[g].Grow?
    ensures Begins(steps, a, b, g)
  {
    hide Run, Inv, Grew;
    StepAt(c, states, steps, g);
    b := LastStep(c, states, steps, g);
    StepAt(c, states, steps, b);
    a := LastStep(c, states, steps, b);
    StepAt(c, states, steps, a);
  }

  /** Every Shrink ends a turn. */
  lemma FindTurn(c: Config, states: seq<State>, steps: seq<Step>, h: nat) returns (a: nat, b: nat, g: nat)
    requires Run(c, states, steps) && h < |steps| && steps[h].Shrink?
    ensures a < b < g < h && Turn(steps, a, b, g, h)
  {
    hide Run, Inv, Grew;
    StepAt(c, states, steps, h);
    g := LastStep(c, states, steps, h);
    StepAt(c, states, steps, g);
    a, b := FindBegin(c, states, steps, g);
  }

  // ----- who leaves, and when

  predicate IsLeaver(w: Worker) { w.Leaving? || w.Exited? }

  lemma LeaversMove(c: Config, s: State, step: Step, t: State)
    requires Next(c, s, step, t) && !Adjusts(step)
    ensures Count(IsLeaver, t.workers) + t.waitExit <= Count(IsLeaver, s.workers) + s.waitExit
  {
    hide Count;
    match step
    case Add(task) =>
    case Enter(w) =>
      CountUpdate(IsLeaver, s.workers, w, t.workers[w]);
    case Wake(w) =>
      CountUpdate(IsLeaver, s.workers, w, t.workers[w]);
    case Begin(w) =>
      CountUpdate(IsLeaver, s.workers, w, t.workers[w]);
    case Finish(w) =>
      CountUpdate(IsLeaver, s.workers, w, t.workers[w]);
    case Die(w) =>
      CountUpdate(IsLeaver, s.workers, w, t.workers[w]);
  }

  lemma LeaversAdjusted(c: Config, s: State, step: Step, t: State)
    requires Next(c, s, step, t) && Adjusts(step)
    ensures Count(IsLeaver, t.workers) == Count(IsLeaver, s.workers)
    ensures !step.Shrink? ==> t.waitExit == s.waitExit
  {
    hide Count;
    if t.workers != s.workers {
      CountTops(IsLeaver, s.workers, |t.workers| - |s.workers|);
    }
  }

  /** Step h ends a turn that found the pool idle. */
  ghost predicate IdleTurn(c: Config, states: seq<State>, steps: seq<Step>, h: nat)
    requires |states| == |steps| + 1 && h < |steps|
  {
    exists a: nat, b: nat, g: nat :: Turn(steps, a, b, g, h) && Idle(c, states[a], states[b])
  }

  ghost function IdleTurns(c: Config, states: seq<State>, steps: seq<Step>, i: nat): (n: nat)
    requires |states| == |steps| + 1 && i <= |steps|
    ensures n <= i
  {
    if i == 0 then 0
    else IdleTurns(c, states, steps, i - 1) + if IdleTurn(c, states, steps, i - 1) then 1 else 0
  }

  /** At most three threads leave for each turn that found the pool idle. */
  lemma {:induction false} LeaversAtMost(c: Config, states: seq<State>, steps: seq<Step>, i: nat)
    requires Run(c, states, steps) && |states| == |steps| + 1 && i <= |steps|
    ensures Count(IsLeaver, states[i].workers) + states[i].waitExit <= 3 * IdleTurns(c, states, steps, i)
  {
    hide Inv, Next, Count, Idle, Turn;
    if i == 0 {
      CountOfTops(IsLeaver, c.min);
    } else {
      var h := i - 1;
      LeaversAtMost(c, states, steps, h);
      StepAt(c, states, steps, h);
      if !Adjusts(steps[h]) {
        LeaversMove(c, states[h], steps[h], states[i]);
      } else {
        LeaversAdjusted(c, states[h], steps[h], states[i]);
        if steps[h].Shrink? {
          var a, b, g := FindTurn(c, states, steps, h);
          AsksThree(c, states, steps, a, b, g, h);
          assert Idle(c, states[a], states[b]) ==> IdleTurn(c, states, steps, h);
        }
      }
    }
  }

  lemma {:induction false} NoIdleTurns(c: Config, states: seq<State>, steps: seq<Step>, i: nat)
    requires |states| == |steps| + 1 && i <= |steps|
    requires forall h: nat :: h < i ==> !IdleTurn(c, states, steps, h)
    ensures IdleTurns(c, states, steps, i) == 0
  {
    hide IdleTurn;
    if i > 0 {
      NoIdleTurns(c, states, steps, i - 1);
    }
  }

  lemma {:induction false} NoneCounted(p: Worker -> bool, ws: seq<Worker>, w: nat)
    requires Count(p, ws) == 0 && w < |ws|
    ensures !p(ws[w])
  {
    if w < |ws| - 1 {
      NoneCounted(p, ws[..|ws| - 1], w);
    }
  }

  /** As long as no turn finds the pool idle no thread leaves or is asked to. */
  lemma NoneLeaves(c: Config, states: seq<State>, steps: seq<Step>, i: nat)
    requires Run(c, states, steps) && |states| == |steps| + 1 && i <= |steps|
    requires forall h: nat :: h < i ==> !IdleTurn(c, states, steps, h)
    ensures states[i].waitExit == 0
    ensures forall w :: 0 <= w < |states[i].workers| ==> !states[i].workers[w].Leaving? && !states[i].workers[w].Exited?
  {
    hide Run, IdleTurn, Count;
    NoIdleTurns(c, states, steps, i);
    LeaversAtMost(c, states, steps, i);
    forall w | 0 <= w < |states[i].workers|
      ensures !IsLeaver(states[i].workers[w])
    {
      NoneCounted(IsLeaver, states[i].workers, w);
    }
  }

  /** As long as the adjuster never sees ten tasks no thread is created. */
  lemma {:induction false} NoneCreated(c: Config, states: seq<State>, steps: seq<Step>, i: nat)
    requires Run(c, states, steps) && |states| == |steps| + 1 && i <= |steps|
    requires forall a: nat :: a < i && steps[a].Look? ==> |states[a].queue| < 10
    ensures |states[i].workers| == c.min
  {
    hide Next, Inv, Count;
    if i > 0 {
      var g := i - 1;
      NoneCreated(c, states, steps, g);
      StepAt(c, states, steps, g);
      if steps[g].Grow? {
        var a, b := FindBegin(c, states, steps, g);
        CreatesThree(c, states, steps, a, b, g);
      } else {
        SameThreads(c, states[g], steps[g], states[i]);
      }
    }
  }

  lemma SameThreads(c: Config, s: State, step: Step, t: State)
    requires Next(c, s, step, t) && !step.Grow?
    ensures |t.workers| == |s.workers|
  {}

  function Wakes(steps: seq<Step>): (n: nat)
    ensures n <= |steps|
  {
    if steps == [] then 0 else Wakes(steps[..|steps| - 1]) + if steps[|steps| - 1].Wake? then 1 else 0
  }

  /** Each thread woken after such a turn uses up one request. */
  lemma {:induction false} RequestsLeft(c: Config, states: seq<State>, steps: seq<Step>,
                                        a: nat, b: nat, g: nat, h: nat, i: nat)
    requires Run(c, states, steps) && |states| == |steps| + 1
    requires Turn(steps, a, b, g, h) && Idle(c, states[a], states[b])
    requires h < i <= |steps| && forall k: nat :: h < k < i ==> !steps[k].Shrink?
    ensures var n := Wakes(steps[h + 1..i]); states[i].waitExit == if n < 3 then 3 - n else 0
    decreases i
  {
    hide Next, Inv, Turn, Idle;
    AsksThree(c, states, steps, a, b, g, h);
    if i > h + 1 {
      RequestsLeft(c, states, steps, a, b, g, h, i - 1);
      assert steps[h + 1..i][..i - h - 2] == steps[h + 1..i - 1];
      UsesOne(c, states[i - 1], steps[i - 1], states[i]);
    }
  }

  lemma UsesOne(c: Config, s: State, step: Step, t: State)
    requires Next(c, s, step, t) && !step.Shrink?
    ensures t.waitExit == if step.Wake? && s.waitExit > 0 then s.waitExit - 1 else s.waitExit
  {}

  /**
   After a turn that found the pool idle, the next three threads to wake up leave, each if there
   are more than the minimum then; those that wake up later do not.
   */
  lemma WokenLeaves(c: Config, states: seq<State>, steps: seq<Step>, a: nat, b: nat, g: nat, h: nat, i: nat, w: nat)
    requires Run(c, states, steps) && |states| == |steps| + 1
    requires Turn(steps, a, b, g, h) && Idle(c, states[a], states[b])
    requires h < i < |steps| && steps[i] == Wake(w) && forall k: nat :: h < k < i ==> !steps[k].Shrink?
    ensures w < |states[i + 1].workers|
    ensures states[i + 1].workers[w].Leaving? <==> Wakes(steps[h + 1..i]) < 3 && LiveAt(states[i]) > c.min
  {
    hide Run, Inv, Turn, Idle, LiveAt, Wakes;
    RequestsLeft(c, states, steps, a, b, g, h, i);
    StepAt(c, states, steps, i);
  }

  // ----- tasks

  /** A task can be added exactly while fewer than the capacity are waiting. */
  lemma AddPossible(c: Config, s: State, task: Task)
    requires Inv(c, s)
    ensures (exists t :: Next(c, s, Step.Add(task), t)) <==> |s.added| - |s.taken| < c.capacity
  {
    hide Conserved, Tracked, Counters;
    if |s.queue| < c.capacity {
      AddStep(c, s, task, s.(queue := s.queue + [task], added := s.added + [task]));
    }
  }

  /** A worker that comes for work and stays takes the oldest task that nobody has taken, and waits if there is none. */
  lemma TakesOldest(c: Config, states: seq<State>, steps: seq<Step>, i: nat, w: nat)
    requires Run(c, states, steps) && |states| == |steps| + 1 && i < |steps|
    requires w < |states[i + 1].workers| && (steps[i] == Enter(w) || steps[i] == Wake(w))
    requires !states[i + 1].workers[w].Leaving?
    ensures |states[i].taken| <= |states[i].added|
    ensures var n := |states[i].taken|;
            if n < |states[i].added|
            then && states[i + 1].workers[w] == Fetched(states[i].added[n])
                 && states[i + 1].taken == states[i].added[..n + 1]
            else states[i + 1].workers[w] == Waiting && states[i + 1].taken == states[i].taken
  {
    hide Run, Conserved, Tracked, Counters;
    StepAt(c, states, steps, i);
  }

  // ----- getting on

  /** A thread that is not gone can always take its next step. */
  lemma WorkerMoves(c: Config, s: State, w: nat) returns (step: Step, t: State)
    requires Inv(c, s) && w < |s.workers| && !s.workers[w].Exited?
    ensures !Adjusts(step) && !step.Add? && step.w == w && Next(c, s, step, t)
  {
    hide Conserved, Tracked, Fifo, Count;
    match s.workers[w]
    case Top =>
      step, t := Enter(w), Served(s, w);
    case Waiting =>
      step := Wake(w);
      var left := if s.waitExit > 0 then s.waitExit - 1 else 0;
      t := if s.waitExit > 0 && s.live > c.min
           then s.(live := s.live - 1, workers := s.workers[w := Leaving], waitExit := left)
           else Served(s, w).(waitExit := left);
    case Fetched(task) =>
      step, t := Begin(w), s.(busy := s.busy + 1, workers := s.workers[w := Running(task)]);
    case Running(task) =>
      CountUpdate(IsBusy, s.workers, w, Top);
      step := Finish(w);
      t := s.(busy := s.busy - 1, workers := s.workers[w := Top], finished := s.finished + [task]);
    case Leaving =>
      step, t := Die(w), s.(workers := s.workers[w := Exited]);
  }

  /** The worker has the next task, or waits. */
  function Served(s: State, w: nat): State
    requires w < |s.workers|
  {
    if s.queue == [] then s.(workers := s.workers[w := Waiting])
    else s.(queue := s.queue[1..], taken := s.taken + [s.queue[0]], workers := s.workers[w := Fetched(s.queue[0])])
  }
}
