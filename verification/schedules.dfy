/** Runs of systems whose processors take one step at a time, in any order. */
module Schedules {
  /** Which processor moves next, and what it starts if it is idle. */
  type Schedule<Op> = seq<(nat, Op)>

  /** The schedule names the first `n` processors only. */
  ghost predicate ScheduleFor<Op>(n: nat, sched: Schedule<Op>) {
    forall k :: 0 <= k < |sched| ==> sched[k].0 < n
  }

  lemma RestFor<Op>(n: nat, sched: Schedule<Op>)
    requires ScheduleFor(n, sched) && sched != []
    ensures ScheduleFor(n, sched[1..])
  {
    assert forall k :: 0 <= k < |sched[1..]| ==> sched[1..][k] == sched[k + 1];
  }

  /** The state after a schedule. */
  ghost function Exec<S, Op>(next: (S, nat, Op) -> S, s: S, sched: Schedule<Op>): S
    decreases |sched|
  {
    if sched == [] then s else Exec(next, next(s, sched[0].0, sched[0].1), sched[1..])
  }

  lemma {:induction false} ExecAppend<S, Op>(next: (S, nat, Op) -> S, s: S, a: Schedule<Op>, b: Schedule<Op>)
    ensures Exec(next, s, a + b) == Exec(next, Exec(next, s, a), b)
    decreases |a|
  {
    if a == [] {
      assert a + b == b;
    } else {
      assert (a + b)[1..] == a[1..] + b;
      ExecAppend(next, next(s, a[0].0, a[0].1), a[1..], b);
    }
  }

  /** What every step keeps holds after every schedule. */
  lemma {:induction false} ExecKeeps<S(!new), Op(!new)>(next: (S, nat, Op) -> S, inv: S -> bool, n: nat, s: S,
                                                        sched: Schedule<Op>)
    requires ScheduleFor(n, sched) && inv(s)
    requires forall t, c: nat, op :: inv(t) && c < n ==> inv(next(t, c, op))
    ensures inv(Exec(next, s, sched))
    decreases |sched|
  {
    if sched != [] {
      RestFor(n, sched);
      ExecKeeps(next, inv, n, next(s, sched[0].0, sched[0].1), sched[1..]);
    }
  }

  /** Some schedule of the first `n` processors leads from `init` to `s`. */
  ghost predicate ReachableFrom<S, Op(!new)>(next: (S, nat, Op) -> S, init: S, n: nat, s: S) {
    exists sched: Schedule<Op> :: ScheduleFor(n, sched) && Exec(next, init, sched) == s
  }

  lemma StepReachable<S, Op(!new)>(next: (S, nat, Op) -> S, init: S, n: nat, s: S, c: nat, op: Op)
    requires ReachableFrom(next, init, n, s) && c < n
    ensures ReachableFrom(next, init, n, next(s, c, op))
  {
    var sched: Schedule<Op> :| ScheduleFor(n, sched) && Exec(next, init, sched) == s;
    var step := [(c, op)];
    ExecAppend(next, init, sched, step);
    assert step[1..] == [];
    assert ScheduleFor(n, sched + step) && Exec(next, init, sched + step) == next(s, c, op);
  }

  /**
   * A system whose states carry what is remembered about the run beside what is run: if `view`
   * forgets it step by step, the runs agree.
   */
  lemma {:induction false} ExecView<T(!new), S, Op(!new)>(follow: (T, nat, Op) -> T, next: (S, nat, Op) -> S,
                                                          view: T -> S, t: T, sched: Schedule<Op>)
    requires forall u, c, op :: view(follow(u, c, op)) == next(view(u), c, op)
    ensures view(Exec(follow, t, sched)) == Exec(next, view(t), sched)
    decreases |sched|
  {
    if sched != [] {
      ExecView(follow, next, view, follow(t, sched[0].0, sched[0].1), sched[1..]);
    }
  }
}
