/**
 The thread pool as threadpool.c keeps it: a ring buffer, counters and the array of threads, changed in place.
 Each method is what one thread does in one locked region; together they refine the state machine of PoolProtocol.
 */
module ThreadPool {
  import opened PoolProtocol

  // ----- the ring buffer

  /** A place in a ring of n. */
  function Wrap(i: nat, n: nat): (r: nat)
    requires n > 0
    ensures r < n
  {
    i % n
  }

  /** The queue that a ring buffer holds. */
  function Window(q: seq<Task>, front: nat, size: nat): (r: seq<Task>)
    requires |q| > 0
    ensures |r| == size && forall i :: 0 <= i < size ==> r[i] == q[Wrap(front + i, |q|)]
  {
    seq(size, i requires 0 <= i < size => q[Wrap(front + i, |q|)])
  }

  lemma ModDistinct(front: nat, i: nat, size: nat, n: nat)
    requires i < size < n
    ensures Wrap(front + i, n) != Wrap(front + size, n)
  {
    var a, b := front + i, front + size;
    if a % n == b % n {
      assert a == n * (a / n) + a % n && b == n * (b / n) + b % n;
      assert b - a == n * (b / n - a / n);
      NoMultiple(n, b / n - a / n);
    }
  }

  lemma NoMultiple(n: nat, k: int)
    requires n > 0
    ensures !(0 < n * k < n)
  {
    if k >= 1 {
      assert n * k >= n;
    } else {
      assert n * k <= 0;
    }
  }

  lemma ModSum(a: nat, i: nat, n: nat)
    requires n > 0
    ensures Wrap(Wrap(a, n) + i, n) == Wrap(a + i, n)
  {
    ModPlus(a % n + i, a / n, n);
    SplitSum(a, i, n, a / n, a % n);
  }

  lemma SplitSum(a: nat, i: nat, n: nat, q: nat, r: nat)
    requires a == n * q + r
    ensures a + i == (r + i) + n * q
  {}

  lemma {:induction false} ModPlus(x: nat, k: nat, n: nat)
    requires n > 0
    ensures (x + n * k) % n == x % n
  {
    if k > 0 {
      ModPlus(x, k - 1, n);
      assert x + n * k == (x + n * (k - 1)) + n;
      ModOnce(x + n * (k - 1), n);
    }
  }

  lemma ModOnce(x: nat, n: nat)
    requires n > 0
    ensures (x + n) % n == x % n
  {
    assert x == n * (x / n) + x % n;
    assert x + n == n * (x / n + 1) + x % n;
    ModUnique(x + n, x / n + 1, x % n, n);
  }

  lemma ModUnique(x: nat, q: nat, r: nat, n: nat)
    requires n > 0 && x == n * q + r && r < n
    ensures x % n == r
  {
    assert x == n * (x / n) + x % n;
    assert n * (q - x / n) == x % n - r;
    NoMultiple(n, q - x / n);
    NoMultiple(n, x / n - q);
    assert n * (x / n - q) == -(n * (q - x / n));
  }

  lemma SmallMod(x: nat, n: nat)
    requires x < n
    ensures Wrap(x, n) == x
  {}

  lemma WindowAdd(q: seq<Task>, front: nat, size: nat, task: Task)
    requires size < |q|
    ensures Window(q[Wrap(front + size, |q|) := task], front, size + 1) == Window(q, front, size) + [task]
  {
    hide Wrap;
    var r := Window(q[Wrap(front + size, |q|) := task], front, size + 1);
    forall i | 0 <= i < size
      ensures r[i] == Window(q, front, size)[i]
    {
      ModDistinct(front, i, size, |q|);
    }
  }

  lemma WindowTake(q: seq<Task>, front: nat, size: nat)
    requires |q| > 0 && size > 0
    ensures q[Wrap(front, |q|)] == Window(q, front, size)[0]
    ensures Window(q, Wrap(front + 1, |q|), size - 1) == Window(q, front, size)[1..]
  {
    hide Wrap;
    forall i | 0 <= i < size - 1
      ensures Window(q, Wrap(front + 1, |q|), size - 1)[i] == Window(q, front, size)[1..][i]
    {
      ModSum(front + 1, i, |q|);
    }
  }

  lemma RearMoves(front: nat, size: nat, n: nat)
    requires n > 0
    ensures Wrap(Wrap(front + size, n) + 1, n) == Wrap(front + (size + 1), n)
    ensures size > 0 ==> Wrap(front + size, n) == Wrap(Wrap(front + 1, n) + (size - 1), n)
  {
    hide Wrap;
    ModSum(front + size, 1, n);
    if size > 0 {
      ModSum(front + 1, size - 1, n);
    }
  }


  // ----- the pool

  class Pool {
    const min: nat
    const max: nat
    const capacity: nat
    const taskQueue: array<Task>
    const threads: array<nat>       // 0, or one more than the index of a worker
    var live: nat
    var busy: nat
    var waitExit: nat
    var front: nat
    var rear: nat
    var size: nat
    var workers: seq<Worker>        // where each thread is, in the order of creation
    var adjuster: Adjuster          // where the adjuster is, with what it has read
    ghost var added: seq<Task>
    ghost var taken: seq<Task>
    ghost var finished: seq<Task>

    ghost function Cfg(): Config { Config(min, max, capacity) }

    ghost predicate Ring()
      reads this
    {
      && taskQueue.Length == capacity > 0 && threads.Length == max
      && front < capacity && size <= capacity && rear == Wrap(front + size, capacity)
    }

    ghost function Abs(): State
      requires Ring()
      reads this, taskQueue, threads
    {
      State(Window(taskQueue[..], front, size), live, busy, waitExit, workers, threads[..], adjuster, added, taken,
          finished)
    }

    ghost predicate Valid()
      reads this, taskQueue, threads
    {
      Ring() && Inv(Cfg(), Abs())
    }

    /** threadpool_create, up to the point where all threads run. */
    constructor (minThreads: nat, maxThreads: nat, queueMaxSize: nat)
      requires minThreads <= maxThreads && queueMaxSize > 0
      ensures Valid() && min == minThreads && max == maxThreads && capacity == queueMaxSize && Abs() == Init(Cfg())
      ensures fresh(taskQueue) && fresh(threads)
    {
      min, max, capacity := minThreads, maxThreads, queueMaxSize;
      live, busy, waitExit, front, rear, size := minThreads, 0, 0, 0, 0, 0;
      added, taken, finished := [], [], [];
      taskQueue := new Task[queueMaxSize](_ => Task(0, 0));
      var slots := new nat[maxThreads](_ => 0);
      var started: seq<Worker> := [];
      var i := 0;
      while i < minThreads
        invariant 0 <= i <= minThreads && started == Tops(i)
        invariant forall k :: 0 <= k < maxThreads ==> slots[k] == if k < i then k + 1 else 0
      {
        slots[i] := i + 1;
        started := started + [Top];
        i := i + 1;
      }
      threads, workers, adjuster := slots, started, Sleeping;
      new;
      hide Inv, Wrap, Tops;
      SmallMod(0, capacity);
      assert threads[..] == Init(Cfg()).slots;
      assert Abs() == Init(Cfg());
      InitInv(Cfg());
    }

    /** threadpool_add, once the queue is not full. */
    method Add(task: Task)
      requires Valid() && size < capacity
      modifies this, taskQueue
      ensures Valid() && Next(Cfg(), old(Abs()), Step.Add(task), Abs())
    {
      hide Inv, Window, Next, Wrap;
      ghost var s, q := Abs(), taskQueue[..];
      WindowAdd(q, front, size, task);
      RearMoves(front, size, capacity);
      taskQueue[rear] := task;
      assert taskQueue[..] == q[rear := task];
      rear := Wrap(rear + 1, capacity);
      size := size + 1;
      added := added + [task];
      AddStep(Cfg(), s, task, Abs());
      NextInv(Cfg(), s, Step.Add(task), Abs());
    }

    /** The end of a worker's turn under the lock: it waits if there is no task, and takes the oldest one otherwise. */
    method Take(w: nat)
      requires Ring() && w < |workers|
      modifies this
      ensures Ring() && Taking(old(Abs()), w, Abs()) && waitExit == old(waitExit)
    {
      hide Wrap;
      if size == 0 {
        workers := workers[w := Waiting];
      } else {
        WindowTake(taskQueue[..], front, size);
        RearMoves(front, size, capacity);
        SmallMod(front, capacity);
        hide Window;
        var task := taskQueue[front];
        front := Wrap(front + 1, capacity);
        size := size - 1;
        workers := workers[w := Fetched(task)];
        taken := taken + [task];
      }
    }

    /** A worker at the top of its loop. */
    method Enter(w: nat)
      requires Valid() && w < |workers| && workers[w].Top?
      modifies this
      ensures Valid() && Next(Cfg(), old(Abs()), Step.Enter(w), Abs())
    {
      hide Inv, Taking;
      ghost var s := Abs();
      Take(w);
      NextInv(Cfg(), s, Step.Enter(w), Abs());
    }

    /** A worker back from its wait: it may have to leave. */
    method Wake(w: nat)
      requires Valid() && w < |workers| && workers[w].Waiting?
      modifies this
      ensures Valid() && Next(Cfg(), old(Abs()), Step.Wake(w), Abs())
    {
      hide Inv;
      ghost var s := Abs();
      var leaves := false;
      if waitExit > 0 {
        waitExit := waitExit - 1;
        if live > min {
          live := live - 1;
          workers := workers[w := Leaving];
          leaves := true;
        }
      }
      if !leaves {
        Take(w);
      }
      NextInv(Cfg(), s, Step.Wake(w), Abs());
    }

    method Begin(w: nat)
      requires Valid() && w < |workers| && workers[w].Fetched?
      modifies this
      ensures Valid() && Next(Cfg(), old(Abs()), Step.Begin(w), Abs())
    {
      hide Inv;
      ghost var s := Abs();
      busy := busy + 1;
      workers := workers[w := Running(workers[w].task)];
      NextInv(Cfg(), s, Step.Begin(w), Abs());
    }

    /** The busy count never falls below zero. */
    method Finish(w: nat)
      requires Valid() && w < |workers| && workers[w].Running?
      modifies this
      ensures Valid() && Next(Cfg(), old(Abs()), Step.Finish(w), Abs())
    {
      ghost var s := Abs();
      SomeBusy(s, Cfg(), w);
      hide Inv;
      busy := busy - 1;
      finished := finished + [workers[w].task];
      workers := workers[w := Top];
      NextInv(Cfg(), s, Step.Finish(w), Abs());
    }

    /** A thread that left is gone. */
    method Die(w: nat)
      requires Valid() && w < |workers| && workers[w].Leaving?
      modifies this
      ensures Valid() && Next(Cfg(), old(Abs()), Step.Die(w), Abs())
    {
      hide Inv;
      ghost var s := Abs();
      workers := workers[w := Exited];
      NextInv(Cfg(), s, Step.Die(w), Abs());
    }

    // ----- the adjuster

    method Look()
      requires Valid() && adjuster.Sleeping?
      modifies this
      ensures Valid() && Next(Cfg(), old(Abs()), Step.Look, Abs())
    {
      hide Inv;
      ghost var s := Abs();
      adjuster := Looked(size, live);
      NextInv(Cfg(), s, Step.Look, Abs());
    }

    method LookBusy()
      requires Valid() && adjuster.Looked?
      modifies this
      ensures Valid() && Next(Cfg(), old(Abs()), Step.LookBusy, Abs())
    {
      hide Inv;
      ghost var s := Abs();
      adjuster := Counted(adjuster.size, adjuster.live, busy);
      NextInv(Cfg(), s, Step.LookBusy, Abs());
    }

    /** The loop that creates threads. */
    method CreateThreads()
      requires Valid()
      modifies this, threads
      ensures Ring() && Grew(Cfg(), old(Abs()), Abs())
    {
      hide Inv, Growing, DeadSlot, Window, Wrap, Grew, Tops;
      ghost var s := Abs();
      GrowingNothing(Cfg(), s);
      var i, add := 0, 0;
      NextTop(workers, 0);
      while i < max && add < DEFAULT_THREAD_VARY && live < max
        invariant 0 <= i <= max && 0 <= add <= DEFAULT_THREAD_VARY && Ring()
        invariant workers == s.workers + Tops(add) && live == s.live + add && live <= max
        invariant Growing(s.workers, s.slots, threads[..], add, i)
        invariant Abs() == s.(workers := workers, live := live, slots := threads[..])
      {
        OldSlot(s.workers, s.slots, threads[..], add, i);
        if threads[i] == 0 || workers[threads[i] - 1].Exited? {
          GrowPut(s.workers, s.slots, threads[..], add, i);
          NextTop(s.workers, add);
          workers := workers + [Top];
          threads[i] := |workers|;
          add := add + 1;
          live := live + 1;
        } else {
          GrowSkip(s.workers, s.slots, threads[..], add, i);
        }
        i := i + 1;
      }
      Growed(Cfg(), s, Abs(), add, i);
    }

    method Grow()
      requires Valid() && adjuster.Counted?
      modifies this, threads
      ensures Valid() && Next(Cfg(), old(Abs()), Step.Grow, Abs())
    {
      hide Inv, Grew;
      ghost var s := Abs();
      var seen := adjuster;
      if seen.size >= MIN_WAIT_TASK_NUM && seen.live < max {
        CreateThreads();
        GrewAdjuster(Cfg(), s, Abs(), Grown(seen.live, seen.busy));
      }
      adjuster := Grown(seen.live, seen.busy);
      NextInv(Cfg(), s, Step.Grow, Abs());
    }

    method Shrink()
      requires Valid() && adjuster.Grown?
      modifies this
      ensures Valid() && Next(Cfg(), old(Abs()), Step.Shrink, Abs())
    {
      hide Inv;
      ghost var s := Abs();
      if adjuster.busy * 2 < adjuster.live && adjuster.live > min {
        waitExit := DEFAULT_THREAD_VARY;
      }
      adjuster := Sleeping;
      NextInv(Cfg(), s, Step.Shrink, Abs());
    }
  }

  lemma NextTop(ws: seq<Worker>, k: nat)
    ensures ws + Tops(0) == ws && ws + Tops(k + 1) == ws + Tops(k) + [Top]
  {}

  /** The first i slots have been looked at, and k of them filled with new threads. */
  ghost predicate Growing(ws: seq<Worker>, before: seq<nat>, now: seq<nat>, k: nat, i: nat) {
    && |now| == |before| && i <= |now| && (forall j :: 0 <= j < |before| ==> before[j] <= |ws|)
    && (forall j :: i <= j < |now| ==> now[j] == before[j])
    && (forall j :: 0 <= j < i ==> if DeadSlot(ws, before[j]) then |ws| < now[j] <= |ws| + k else now[j] == before[j])
    && (forall n :: |ws| < n <= |ws| + k ==> n in now[..i])
    && (forall j, l :: 0 <= j < l < i && now[j] > |ws| ==> now[j] != now[l])
  }

  lemma GrowingNothing(c: Config, s: State)
    requires Inv(c, s)
    ensures Growing(s.workers, s.slots, s.slots, 0, 0) && s.live <= c.max
  {}

  lemma OldSlot(ws: seq<Worker>, before: seq<nat>, now: seq<nat>, k: nat, i: nat)
    requires Growing(ws, before, now, k, i) && i < |now|
    ensures now[i] <= |ws| && now[i] == before[i]
    ensures DeadSlot(ws, before[i]) <==> now[i] == 0 || (ws + Tops(k))[now[i] - 1].Exited?
  {}

  lemma GrowPut(ws: seq<Worker>, before: seq<nat>, now: seq<nat>, k: nat, i: nat)
    requires Growing(ws, before, now, k, i) && i < |now| && DeadSlot(ws, before[i])
    ensures Growing(ws, before, now[i := |ws| + k + 1], k + 1, i + 1)
  {
    var next := now[i := |ws| + k + 1];
    assert next[..i + 1] == now[..i] + [|ws| + k + 1];
  }

  lemma GrowSkip(ws: seq<Worker>, before: seq<nat>, now: seq<nat>, k: nat, i: nat)
    requires Growing(ws, before, now, k, i) && i < |now| && !DeadSlot(ws, before[i])
    ensures Growing(ws, before, now, k, i + 1)
  {
    assert now[..i + 1] == now[..i] + [now[i]];
  }

  lemma Growed(c: Config, s: State, t: State, k: nat, i: nat)
    requires Growing(s.workers, s.slots, t.slots, k, i) && t.workers == s.workers + Tops(k) && t.live == s.live + k
    requires k <= DEFAULT_THREAD_VARY && (k > 0 ==> t.live <= c.max) &&
      (i == |s.slots| || k == DEFAULT_THREAD_VARY || t.live >= c.max)
    requires t == s.(workers := t.workers, live := t.live, slots := t.slots)
    ensures Grew(c, s, t)
  {
    hide Tops;
    assert forall n :: n in t.slots[..i] ==> n in t.slots;
  }

  lemma GrewAdjuster(c: Config, s: State, t: State, a: Adjuster)
    requires Grew(c, s, t)
    ensures Grew(c, s, t.(adjuster := a))
  {}

  lemma SomeBusy(s: State, c: Config, w: nat)
    requires Inv(c, s) && w < |s.workers| && s.workers[w].Running?
    ensures s.busy > 0
  {
    CountUpdate(IsBusy, s.workers, w, Top);
  }
}
