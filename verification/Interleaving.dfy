/** Workers that share one memory, each confined to its own cells: every interleaving of their steps ends the same. */
module Interleaving {
  /** What one step does: the worker, the number of steps it has taken already, the shared memory. */
  type Act<!T> = (nat, nat, seq<T>) -> seq<T>

  /** Two memories hold the same values in worker w's cells. */
  ghost predicate Agree<T>(owner: nat -> nat, w: nat, a: seq<T>, b: seq<T>) {
    |a| == |b| && forall i: nat :: i < |a| && owner(i) == w ==> a[i] == b[i]
  }

  /** A step writes only its worker's cells. */
  ghost predicate WritesOwn<T(!new)>(act: Act<T>, owner: nat -> nat, size: nat) {
    forall w: nat, j: nat, mem: seq<T> :: |mem| == size ==>
      |act(w, j, mem)| == size && forall i: nat :: i < size && owner(i) != w ==> act(w, j, mem)[i] == mem[i]
  }

  /** What a step writes depends only on its worker's cells. */
  ghost predicate ReadsOwn<T(!new)>(act: Act<T>, owner: nat -> nat, size: nat) {
    forall w: nat, j: nat, a: seq<T>, b: seq<T> :: |a| == size && Agree(owner, w, a, b) ==>
      Agree(owner, w, act(w, j, a), act(w, j, b))
  }

  /** How many of the schedule's steps are worker w's. */
  ghost function Count(schedule: seq<nat>, w: nat): nat {
    if schedule == [] then 0
    else Count(schedule[..|schedule| - 1], w) + if schedule[|schedule| - 1] == w then 1 else 0
  }

  /** The memory after the steps of a schedule, which names the worker that moves at each step. */
  ghost function Run<T>(act: Act<T>, schedule: seq<nat>, mem: seq<T>): seq<T> {
    if schedule == [] then mem
    else
      var before, w := schedule[..|schedule| - 1], schedule[|schedule| - 1];
      act(w, Count(before, w), Run(act, before, mem))
  }

  /** The memory after k steps of worker w alone. */
  ghost function Solo<T>(act: Act<T>, w: nat, k: nat, mem: seq<T>): seq<T> {
    if k == 0 then mem else act(w, k - 1, Solo(act, w, k - 1, mem))
  }

  lemma {:induction false} RunSize<T(!new)>(act: Act<T>, owner: nat -> nat, schedule: seq<nat>, mem: seq<T>)
    requires WritesOwn(act, owner, |mem|)
    ensures |Run(act, schedule, mem)| == |mem|
  {
    if schedule != [] {
      RunSize(act, owner, schedule[..|schedule| - 1], mem);
    }
  }

  /** At every point of every run, a worker's cells hold what its own steps alone would have left there. */
  lemma {:induction false} Confined<T(!new)>(act: Act<T>, owner: nat -> nat, schedule: seq<nat>, mem: seq<T>, w: nat)
    requires WritesOwn(act, owner, |mem|) && ReadsOwn(act, owner, |mem|)
    ensures Agree(owner, w, Run(act, schedule, mem), Solo(act, w, Count(schedule, w), mem))
  {
    if schedule != [] {
      var before, u := schedule[..|schedule| - 1], schedule[|schedule| - 1];
      Confined(act, owner, before, mem, w);
      RunSize(act, owner, before, mem);
      var now, alone := Run(act, before, mem), Solo(act, w, Count(before, w), mem);
      if u == w {
        assert Agree(owner, w, act(w, Count(before, w), now), act(w, Count(before, w), alone));
      } else {
        assert Agree(owner, w, act(u, Count(before, u), now), now);
      }
    }
  }

  /** Two schedules that give every worker equally many steps leave the same memory. */
  lemma ScheduleIrrelevant<T(!new)>(act: Act<T>, owner: nat -> nat, a: seq<nat>, b: seq<nat>, mem: seq<T>)
    requires WritesOwn(act, owner, |mem|) && ReadsOwn(act, owner, |mem|)
    requires forall w: nat :: Count(a, w) == Count(b, w)
    ensures Run(act, a, mem) == Run(act, b, mem)
  {
    RunSize(act, owner, a, mem);
    RunSize(act, owner, b, mem);
    forall i: nat | i < |mem|
      ensures Run(act, a, mem)[i] == Run(act, b, mem)[i]
    {
      var w := owner(i);
      Confined(act, owner, a, mem, w);
      Confined(act, owner, b, mem, w);
      assert Count(a, w) == Count(b, w);
    }
  }
}
