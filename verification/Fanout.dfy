/**
 The hand-over in distribute_run (util.c): the parent locks the mutex, writes the client index into the parameter block
 that all children share, and creates a child; the child unlocks the mutex when it is done with the block.
 */
module Fanout {

  /** Where the parent is: at the lock for the i-th client (the loop is over when i is the number of clients), past the
      lock, past the write, or past the joins. */
  datatype Parent = Locking(i: nat) | Writing(i: nat) | Creating(i: nat) | Finished

  datatype Child = Missing | Serving | Done

  /** `block` is the client index in the shared block.  The histories say what was read from it, and in which order the
      clients were served. */
  datatype State = State(
    parent: Parent, locked: bool, block: nat, children: seq<Child>,
    observed: seq<(nat, nat)>, served: seq<nat>, failed: bool)

  function Init(n: nat): State {
    State(Locking(0), false, 0, seq(n, _ => Missing), [], [], false)
  }

  datatype Step =
    | Lock | Write
    | Create | CreateFails       // pthread_create
    | Read(c: nat)               // a child reads the client index
    | Unlock(c: nat)             // a child is done: its client was served
    | Join                       // all joins return
    | JoinUnset                  // so does the join of a thread id that was never written, if it returns at all

  ghost predicate Next(s: State, step: Step, t: State) {
    match step
    case Lock =>
      s.parent.Locking? && s.parent.i < |s.children| && !s.locked &&
          t == s.(parent := Writing(s.parent.i), locked := true)
    case Write =>
      s.parent.Writing? && t == s.(parent := Creating(s.parent.i), block := s.parent.i + 1)
    case Create =>
      s.parent.Creating? && s.parent.i < |s.children| &&
          t == s.(parent := Locking(s.parent.i + 1), children := s.children[s.parent.i := Serving])
    case CreateFails =>
      s.parent.Creating? && t == s.(parent := Locking(s.parent.i + 1), failed := true)
    case Read(c) =>
      c < |s.children| && s.children[c].Serving? && t == s.(observed := s.observed + [(c, s.block)])
    case Unlock(c) =>
      c < |s.children| && s.children[c].Serving? &&
          t == s.(locked := false, children := s.children[c := Done], served := s.served + [s.block])
    case Join =>
      && s.parent.Locking? && s.parent.i == |s.children| && (forall c :: 0 <= c < |s.children| ==> s.children[c].Done?)
      && t == s.(parent := Finished)
    case JoinUnset =>
      && s.parent.Locking? && s.parent.i == |s.children| && t == s.(parent := Finished)
      && (forall c :: 0 <= c < |s.children| ==> !s.children[c].Serving?) &&
          exists c :: 0 <= c < |s.children| && s.children[c].Missing?
  }

  /** The clients 1, 2, ..., k. */
  function Upto(k: nat): (r: seq<nat>)
    ensures |r| == k && forall i :: 0 <= i < k ==> r[i] == i + 1
  {
    if k == 0 then [] else Upto(k - 1) + [k]
  }

  /** How many clients the parent has gone past. */
  function Past(s: State): nat {
    match s.parent
    case Finished => |s.children|
    case _ => s.parent.i
  }

  /** As long as creation succeeds: the children before the parent's position exist, all of them are done except perhaps
      the last one, and that one is serving exactly while the parent stands at the lock and the mutex is locked. */
  ghost predicate Inv(n: nat, s: State) {
    && |s.children| == n && Past(s) <= n && !s.failed
    && (forall c :: 0 <= c < n ==> s.children[c] == if c >= Past(s) then Missing
        else if c == Past(s) - 1 && Busy(s) then Serving else Done)
    && (s.parent.Writing? || s.parent.Creating? ==> s.locked && s.parent.i < n)
    && (Busy(s) ==> Past(s) > 0 && s.block == Past(s))
    && (s.parent.Finished? ==> !s.locked)
    && s.served == Upto(if Busy(s) then Past(s) - 1 else Past(s))
    && (s.parent.Creating? ==> s.block == s.parent.i + 1)
    && (forall k :: 0 <= k < |s.observed| ==> s.observed[k].1 == s.observed[k].0 + 1)
  }

  /** Some child is serving. */
  predicate Busy(s: State) {
    s.parent.Locking? && s.locked
  }

  lemma InitInv(n: nat)
    ensures Inv(n, Init(n))
  {}

  lemma NextInv(n: nat, s: State, step: Step, t: State)
    requires Inv(n, s) && Next(s, step, t) && !step.CreateFails?
    ensures Inv(n, t)
  {
    match step
    case Lock =>
    case Write =>
    case Create =>
    case Read(c) =>
    case Unlock(c) =>
      UnlockInv(n, s, c, t);
    case Join =>
      assert n > 0 ==> s.children[n - 1].Done?;
    case JoinUnset =>
  }

  lemma UnlockInv(n: nat, s: State, c: nat, t: State)
    requires Inv(n, s) && Next(s, Unlock(c), t)
    ensures Inv(n, t)
  {
    hide Upto;
    assert c == Past(s) - 1 && Busy(s);
    assert Upto(c) + [c + 1] == Upto(c + 1);
  }

  ghost predicate Run(n: nat, states: seq<State>, steps: seq<Step>) {
    && |states| == |steps| + 1 && states[0] == Init(n)
    && forall i :: 0 <= i < |steps| ==> Next(states[i], steps[i], states[i + 1])
  }

  lemma {:induction false} AlwaysInv(n: nat, states: seq<State>, steps: seq<Step>, i: nat)
    requires Run(n, states, steps) && i < |states| && forall j :: 0 <= j < i ==> !steps[j].CreateFails?
    ensures Inv(n, states[i])
  {
    hide Inv, Next;
    if i == 0 {
      InitInv(n);
    } else {
      AlwaysInv(n, states, steps, i - 1);
      NextInv(n, states[i - 1], steps[i - 1], states[i]);
    }
  }

  /** Whatever the interleaving: at most one child uses the block at a time, every child reads its own index, and the
      clients are served in order, each once; when distribute_run ends, all of them have been. */
  lemma HandOver(n: nat, states: seq<State>, steps: seq<Step>, i: nat)
    requires Run(n, states, steps) && i < |states| && forall j :: 0 <= j < i ==> !steps[j].CreateFails?
    ensures var s := states[i];
            && |s.children| == n
            && (forall c, d :: 0 <= c < n && 0 <= d < n && s.children[c].Serving? && s.children[d].Serving? ==> c == d)
            && (forall c :: 0 <= c < n && s.children[c].Serving? ==> s.block == c + 1)
            && (forall k :: 0 <= k < |s.observed| ==> s.observed[k].1 == s.observed[k].0 + 1)
            && |s.served| <= n && s.served == Upto(|s.served|)
            && (s.parent.Finished? ==> s.served == Upto(n))
  {
    AlwaysInv(n, states, steps, i);
  }

  // ----- getting on

  /** How many steps are left besides reads: four for each client, and the joins. */
  function Left(n: nat, s: State): int {
    match s.parent
    case Locking(i) => 4 * (n - i) + 1 + if s.locked then 1 else 0
    case Writing(i) => 4 * (n - i)
    case Creating(i) => 4 * (n - i) - 1
    case Finished => 0
  }

  lemma LeftOne(n: nat, s: State, step: Step, t: State)
    requires Inv(n, s) && Next(s, step, t) && !step.CreateFails? && !step.Read?
    ensures Left(n, t) == Left(n, s) - 1 && Left(n, t) >= 0
  {
    if step.Join? && n > 0 {
      assert s.children[n - 1].Done?;
    }
  }

  /** Unless a creation fails, some step is possible until the end, and no interleaving takes more than these steps. */
  lemma GetsOn(n: nat, s: State) returns (step: Step, t: State)
    requires Inv(n, s) && !s.parent.Finished?
    ensures Next(s, step, t) && !step.CreateFails? && !step.Read? && Left(n, t) == Left(n, s) - 1
  {
    match s.parent
    case Locking(i) =>
      if s.locked {
        step := Unlock(i - 1);
        t := s.(locked := false, children := s.children[i - 1 := Done], served := s.served + [s.block]);
      } else if i < n {
        step, t := Lock, s.(parent := Writing(i), locked := true);
      } else {
        step, t := Join, s.(parent := Finished);
      }
    case Writing(i) =>
      step, t := Write, s.(parent := Creating(i), block := i + 1);
    case Creating(i) =>
      step, t := Create, s.(parent := Locking(i + 1), children := s.children[i := Serving]);
    LeftOne(n, s, step, t);
  }

  function Turns(steps: seq<Step>): (k: nat)
    ensures k <= |steps|
  {
    if steps == [] then 0 else Turns(steps[..|steps| - 1]) + if steps[|steps| - 1].Read? then 0 else 1
  }

  /** A run ends after four steps for each client and one for the joins, reads apart. */
  lemma {:induction false} FourEach(n: nat, states: seq<State>, steps: seq<Step>, i: nat)
    requires Run(n, states, steps) && i < |states| && forall j :: 0 <= j < i ==> !steps[j].CreateFails?
    ensures Turns(steps[..i]) + Left(n, states[i]) == 4 * n + 1
  {
    hide Inv, Next;
    if i > 0 {
      FourEach(n, states, steps, i - 1);
      assert steps[..i][..i - 1] == steps[..i - 1];
      AlwaysInv(n, states, steps, i - 1);
      if steps[i - 1].Read? {
        ReadLeaves(n, states[i - 1], steps[i - 1], states[i]);
      } else {
        LeftOne(n, states[i - 1], steps[i - 1], states[i]);
      }
    }
  }

  lemma ReadLeaves(n: nat, s: State, step: Step, t: State)
    requires Next(s, step, t) && step.Read?
    ensures Left(n, t) == Left(n, s)
  {}

  // ----- when a thread cannot be created

  /** After the failure for client k: the mutex stays locked with nobody left to unlock it. */
  ghost predicate Stuck(n: nat, s: State, k: nat) {
    && |s.children| == n && 0 < k <= n && s.failed && s.served == Upto(k - 1)
    && (s.parent == Locking(k) || (k == n && s.parent.Finished?)) && s.locked
    && (forall c :: 0 <= c < n ==> s.children[c] == if c < k - 1 then Done else Missing)
  }

  lemma FailureSticks(n: nat, s: State, t: State)
    requires Inv(n, s) && Next(s, CreateFails, t)
    ensures Stuck(n, t, s.parent.i + 1) && t.parent == Locking(s.parent.i + 1)
  {}

  /** Before the last client, no step is possible any more.  After the last one, only the join of the thread id that was
      never written is left. */
  lemma StuckStep(n: nat, s: State, k: nat, step: Step, t: State)
    requires Stuck(n, s, k) && Next(s, step, t)
    ensures k == n && s.parent == Locking(n) && step.JoinUnset? && t.parent.Finished? && Stuck(n, t, n)
  {
    assert s.children[k - 1].Missing?;
  }

  /** The first failure in a run. */
  ghost predicate FirstFailure(steps: seq<Step>, f: nat) {
    f < |steps| && steps[f].CreateFails? && forall j :: 0 <= j < f ==> !steps[j].CreateFails?
  }

  /**
   The failing client and all later ones are never served.  If it is not the last client, the
   failure is the last thing that happens: the parent waits for ever.  If it is the last one, the
   parent goes on to join a thread id that was never written, and only that can end the function.
   */
  lemma AfterFailure(n: nat, states: seq<State>, steps: seq<Step>, f: nat)
    requires Run(n, states, steps) && FirstFailure(steps, f)
    ensures states[f].parent.Creating? && states[f].parent.i < n
    ensures forall i :: f < i < |states| ==> states[i].served == Upto(states[f].parent.i)
    ensures states[f].parent.i + 1 < n ==> |steps| == f + 1 && !states[|steps|].parent.Finished?
    ensures states[f].parent.i + 1 == n ==>
              |steps| == f + 1 || (|steps| == f + 2 && steps[f + 1].JoinUnset? && states[|steps|].parent.Finished?)
  {
    AlwaysInv(n, states, steps, f);
    assert Next(states[f], steps[f], states[f + 1]);
    var k := states[f].parent.i + 1;
    FailureSticks(n, states[f], states[f + 1]);
    if f + 1 < |steps| {
      assert Next(states[f + 1], steps[f + 1], states[f + 2]);
      StuckStep(n, states[f + 1], k, steps[f + 1], states[f + 2]);
      if f + 2 < |steps| {
        assert Next(states[f + 2], steps[f + 2], states[f + 3]);
        StuckStep(n, states[f + 2], k, steps[f + 2], states[f + 3]);
      }
    }
  }

  lemma {:induction false} SomeFirst(steps: seq<Step>, j: nat) returns (f: nat)
    requires j < |steps| && steps[j].CreateFails?
    ensures f <= j && FirstFailure(steps, f)
  {
    if k :| 0 <= k < j && steps[k].CreateFails? {
      f := SomeFirst(steps, k);
    } else {
      f := j;
    }
  }

  /** When distribute_run ends, all clients have been served if and only if no creation failed. */
  lemma AllServed(n: nat, states: seq<State>, steps: seq<Step>)
    requires Run(n, states, steps) && states[|steps|].parent.Finished?
    ensures states[|steps|].served == Upto(n) <==> forall j :: 0 <= j < |steps| ==> !steps[j].CreateFails?
  {
    if j :| 0 <= j < |steps| && steps[j].CreateFails? {
      var f := SomeFirst(steps, j);
      AfterFailure(n, states, steps, f);
      assert |Upto(states[f].parent.i)| < n;
    } else {
      HandOver(n, states, steps, |steps|);
    }
  }

  // ----- the code

  /** The shared variables of distribute_run and its children.  Each method is one thread's turn. */
  class Block {
    const n: nat
    var parent: Parent
    var locked: bool
    var clientIndex: nat
    var children: seq<Child>
    ghost var observed: seq<(nat, nat)>
    ghost var served: seq<nat>

    ghost function Abs(): State
      reads this
    {
      State(parent, locked, clientIndex, children, observed, served, false)
    }

    ghost predicate Valid()
      reads this
    {
      Inv(n, Abs())
    }

    constructor (clients: nat)
      ensures Valid() && n == clients && Abs() == Init(clients)
    {
      n, parent, locked, clientIndex := clients, Locking(0), false, 0;
      children, observed, served := seq(clients, _ => Missing), [], [];
    }

    method LockFor()
      requires Valid() && parent.Locking? && parent.i < n && !locked
      modifies this
      ensures Valid() && Next(old(Abs()), Lock, Abs())
    {
      ghost var s := Abs();
      locked, parent := true, Writing(parent.i);
      NextInv(n, s, Lock, Abs());
    }

    method WriteIndex()
      requires Valid() && parent.Writing?
      modifies this
      ensures Valid() && Next(old(Abs()), Write, Abs())
    {
      ghost var s := Abs();
      clientIndex, parent := parent.i + 1, Creating(parent.i);
      NextInv(n, s, Write, Abs());
    }

    method CreateChild()
      requires Valid() && parent.Creating?
      modifies this
      ensures Valid() && Next(old(Abs()), Create, Abs())
    {
      ghost var s := Abs();
      children, parent := children[parent.i := Serving], Locking(parent.i + 1);
      NextInv(n, s, Create, Abs());
    }

    /** A child reads its own index, at any time before it unlocks. */
    method ReadIndex(c: nat) returns (index: nat)
      requires Valid() && c < n && children[c].Serving?
      modifies this
      ensures Valid() && Next(old(Abs()), Read(c), Abs()) && index == c + 1
    {
      ghost var s := Abs();
      index := clientIndex;
      observed := observed + [(c, clientIndex)];
      NextInv(n, s, Read(c), Abs());
    }

    method UnlockBy(c: nat)
      requires Valid() && c < n && children[c].Serving?
      modifies this
      ensures Valid() && Next(old(Abs()), Unlock(c), Abs())
    {
      ghost var s := Abs();
      served := served + [clientIndex];
      locked, children := false, children[c := Done];
      NextInv(n, s, Unlock(c), Abs());
    }

    /** The joins at the end: every client has been served, in order. */
    method JoinAll()
      requires Valid() && parent == Locking(n) && forall c :: 0 <= c < n ==> children[c].Done?
      modifies this
      ensures Valid() && Next(old(Abs()), Join, Abs()) && served == Upto(n)
    {
      ghost var s := Abs();
      parent := Finished;
      NextInv(n, s, Join, Abs());
    }
  }
}
