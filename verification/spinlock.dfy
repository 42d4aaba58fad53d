/**
 * The spinlock: the signed low byte of a word, 1 when free.  A locker decrements it, an
 * unlocker stores 1 over whatever the lockers left, and a trylock swaps in 0.
 */
module SpinLock {
  import opened Words
  import opened Counting
  import opened Schedules

  /** What an idle processor starts next. */
  datatype Op = Lock | TryLock

  /**
   * `Spin` has decremented in vain and is at the compare of its wait loop, `Ready` has seen
   * the byte above 0 and jumps back to the decrement.
   */
  datatype Pc = Idle | Spin | Ready | Holding

  datatype State = State(low: int, cpus: seq<Pc>)

  function Init(n: nat): State {
    State(1, seq(n, _ => Idle))
  }

  /** One atomic instruction of processor `c`; `op` matters only when it is idle. */
  function Next(s: State, c: nat, op: Op): (t: State)
    ensures |t.cpus| == |s.cpus|
  {
    if c >= |s.cpus| then s else
    match s.cpus[c]
    case Idle => if op.Lock? then Decrement(s, c) else Swap(s, c)
    case Spin => State(s.low, s.cpus[c := if s.low <= 0 then Spin else Ready])
    case Ready => Decrement(s, c)
    case Holding => State(1, s.cpus[c := Idle])
  }

  function Decrement(s: State, c: nat): State
    requires c < |s.cpus|
  {
    var low := Signed8(s.low - 1);
    State(low, s.cpus[c := if low < 0 then Spin else Holding])
  }

  function Swap(s: State, c: nat): State
    requires c < |s.cpus|
  {
    State(0, s.cpus[c := if s.low > 0 then Holding else Idle])
  }

  ghost predicate Reachable(n: nat, s: State) {
    ReachableFrom(Next, Init(n), n, s)
  }

  function Spinning(pc: Pc): nat { if pc.Spin? then 1 else 0 }

  function Held(pc: Pc): nat { if pc.Holding? then 1 else 0 }

  /** What spin_is_locked reads off the byte. */
  predicate IsLocked(s: State) { s.low <= 0 }

  ghost predicate SomeHolds(s: State) {
    exists i :: 0 <= i < |s.cpus| && s.cpus[i].Holding?
  }

  ghost predicate Exclusive(s: State) {
    forall i, j :: 0 <= i < j < |s.cpus| ==> !(s.cpus[i].Holding? && s.cpus[j].Holding?)
  }

  /** The lock is sound: the byte tells whether it is held, and at most one processor holds it. */
  ghost predicate Sound(s: State) {
    Exclusive(s) && (IsLocked(s) <==> SomeHolds(s))
  }

  /**
   * The inductive fact: a held lock has one holder, and its byte is below 0 by no more than
   * the number of processors in the wait loop; a free lock's byte is exactly 1.
   */
  ghost predicate SpinnersCounted(s: State) {
    && s.low <= 1 && -s.low <= Sum(s.cpus, Spinning)
    && Sum(s.cpus, Held) == (if s.low == 1 then 0 else 1)
  }

  lemma {:induction false} CountedBound(cpus: seq<Pc>)
    ensures Sum(cpus, Spinning) + Sum(cpus, Held) <= |cpus|
  {
    SumsBounded(cpus, Spinning, Held, 1);
  }

  /** One processor moves and the byte changes: what that does to the two counts. */
  lemma CountedMove(s: State, c: nat, pc: Pc, low: int)
    requires SpinnersCounted(s) && c < |s.cpus|
    ensures var t, spinners, holders := State(low, s.cpus[c := pc]), Sum(s.cpus, Spinning), Sum(s.cpus, Held);
            && Sum(t.cpus, Spinning) == spinners - Spinning(s.cpus[c]) + Spinning(pc)
            && Sum(t.cpus, Held) == holders - Held(s.cpus[c]) + Held(pc)
            && Sum(t.cpus, Spinning) + Sum(t.cpus, Held) <= |s.cpus|
            && Held(s.cpus[c]) <= holders
  {
    SumUpdate(s.cpus, Spinning, c, pc);
    SumUpdate(s.cpus, Held, c, pc);
    CountedBound(s.cpus[c := pc]);
    SumMember(s.cpus, Held, c);
  }

  lemma CountedStep(s: State, c: nat, op: Op)
    requires |s.cpus| <= 129 && SpinnersCounted(s) && c < |s.cpus|
    ensures SpinnersCounted(Next(s, c, op))
  {
    var t := Next(s, c, op);
    CountedMove(s, c, t.cpus[c], t.low);
    // Where the byte would have wrapped, this processor would be one spinner too many.
    CountedMove(s, c, Spin, t.low);
  }

  lemma {:induction false} CountedRun(s: State, sched: Schedule<Op>)
    requires |s.cpus| <= 129 && SpinnersCounted(s) && ScheduleFor(|s.cpus|, sched)
    ensures SpinnersCounted(Exec(Next, s, sched))
    decreases |sched|
  {
    if sched != [] {
      RestFor(|s.cpus|, sched);
      CountedStep(s, sched[0].0, sched[0].1);
      CountedRun(Next(s, sched[0].0, sched[0].1), sched[1..]);
    }
  }

  lemma CountedReachable(n: nat, s: State)
    requires n <= 129 && Reachable(n, s)
    ensures |s.cpus| == n && SpinnersCounted(s)
  {
    var sched: Schedule<Op> :| ScheduleFor(n, sched) && Exec(Next, Init(n), sched) == s;
    SumPositive(Init(n).cpus, Spinning);
    SumPositive(Init(n).cpus, Held);
    ExecKeeps(Next, (t: State) => |t.cpus| == n, n, Init(n), sched);
    CountedRun(Init(n), sched);
  }

  lemma CountedSound(s: State)
    requires SpinnersCounted(s)
    ensures Sound(s)
  {
    SumPositive(s.cpus, Held);
    if s.low <= 0 {
      var i :| 0 <= i < |s.cpus| && Held(s.cpus[i]) > 0;
      assert s.cpus[i].Holding?;
    }
    if i :| 0 <= i < |s.cpus| && s.cpus[i].Holding? {
      assert Held(s.cpus[i]) > 0;
    }
    forall i, j | 0 <= i < j < |s.cpus| ensures !(s.cpus[i].Holding? && s.cpus[j].Holding?) {
      SumPair(s.cpus, Held, i, j);
    }
  }

  /** Processor 0 holds and processors 1 to k-1 have each decremented once in vain. */
  function Crowd(n: nat, k: nat): State {
    State(1 - k, seq(n, i => if i >= k then Idle else if i == 0 then Holding else Spin))
  }

  lemma {:induction false} CrowdReachable(n: nat, k: nat)
    requires k <= n && k <= 129
    ensures Reachable(n, Crowd(n, k))
  {
    if k == 0 {
      assert Init(n) == Crowd(n, 0);
      assert Exec(Next, Init(n), []) == Init(n);
    } else {
      CrowdReachable(n, k - 1);
      StepReachable(Next, Init(n), n, Crowd(n, k - 1), k - 1, Lock);
      assert Next(Crowd(n, k - 1), k - 1, Lock) == Crowd(n, k);
    }
  }

  /**
   * In every reachable state at most one processor holds and spin_is_locked tells exactly
   * whether one does, up to 129 processors and no further: the 130th decrement wraps the
   * byte from -128 to 127 while another processor holds.
   */
  lemma SoundIff(n: nat)
    ensures (forall s :: Reachable(n, s) ==> Sound(s)) <==> n <= 129
  {
    if n <= 129 {
      forall s | Reachable(n, s) ensures Sound(s) {
        CountedReachable(n, s);
        CountedSound(s);
      }
    } else {
      CrowdReachable(n, 129);
      StepReachable(Next, Init(n), n, Crowd(n, 129), 129, Lock);
      var s := Next(Crowd(n, 129), 129, Lock);
      assert s.cpus[0].Holding? && s.cpus[129].Holding?;
      assert !Sound(s);
    }
  }

  /** The byte never leaves its range: its distance below 0 is at most the number of waiters. */
  lemma ByteBound(n: nat, s: State)
    requires n <= 129 && Reachable(n, s)
    ensures s.low <= 1 && -s.low <= Sum(s.cpus, Spinning)
    ensures !SomeHolds(s) <==> s.low == 1
  {
    CountedReachable(n, s);
    CountedSound(s);
  }

  /** Locking, trylocking and leaving the wait loop succeed exactly when nobody holds. */
  lemma DecisionsExact(n: nat, s: State, c: nat, op: Op)
    requires n <= 129 && Reachable(n, s) && c < |s.cpus|
    ensures var pc, t := s.cpus[c], Next(s, c, op);
            && (pc.Idle? || pc.Ready? ==> (t.cpus[c].Holding? <==> !SomeHolds(s)))
            && (pc.Spin? ==> (t.cpus[c].Ready? <==> !SomeHolds(s)))
            && (pc.Holding? ==> !SomeHolds(t))
  {
    CountedReachable(n, s);
    ByteBound(n, s);
    StepReachable(Next, Init(n), n, s, c, op);
    ByteBound(n, Next(s, c, op));
    CountedBound(s.cpus);
  }

  /** A waiter on a free lock needs only its own two next steps to hold it. */
  lemma FreeLockIsTaken(n: nat, s: State, w: nat)
    requires n <= 129 && Reachable(n, s) && w < n
    requires |s.cpus| == n && (s.cpus[w].Spin? || s.cpus[w].Ready?) && !SomeHolds(s)
    ensures Next(s, w, Lock).cpus[w].Holding? || Next(Next(s, w, Lock), w, Lock).cpus[w].Holding?
  {
    ByteBound(n, s);
  }

  // ---------- what a processor asked for ----------

  /** A state with the operation each processor last started, and whether it has held since. */
  datatype Tracked = Tracked(state: State, asked: seq<Option<Op>>, served: seq<bool>)

  function Tracking(n: nat): Tracked {
    Tracked(Init(n), seq(n, _ => None), seq(n, _ => false))
  }

  function Follow(t: Tracked, c: nat, op: Op): Tracked {
    var s := Next(t.state, c, op);
    if c >= |t.state.cpus| || c >= |t.asked| || c >= |t.served| then t.(state := s) else
      var starts := t.state.cpus[c].Idle?;
      Tracked(s, if starts then t.asked[c := Some(op)] else t.asked,
              t.served[c := s.cpus[c].Holding? || (!starts && t.served[c])])
  }

  /** Where a processor may be that last asked for `asked`: a failed trylock is idle at once. */
  predicate AsAsked(pc: Pc, asked: Option<Op>, served: bool) {
    match asked
    case None => pc.Idle? && !served
    case Some(Lock) => if served then pc.Holding? || pc.Idle? else pc.Spin? || pc.Ready?
    case Some(TryLock) => pc.Idle? || (served && pc.Holding?)
  }

  ghost predicate AllAsAsked(n: nat, t: Tracked) {
    && |t.state.cpus| == |t.asked| == |t.served| == n
    && forall c :: 0 <= c < n ==> AsAsked(t.state.cpus[c], t.asked[c], t.served[c])
  }

  lemma FollowAsAsked(n: nat, t: Tracked, c: nat, op: Op)
    requires AllAsAsked(n, t) && c < n
    ensures AllAsAsked(n, Follow(t, c, op))
  {
    var s := Next(t.state, c, op);
    assert forall d :: 0 <= d < n && d != c ==> s.cpus[d] == t.state.cpus[d];
    assert AsAsked(t.state.cpus[c], t.asked[c], t.served[c]);
  }

  /**
   * Over every schedule, a processor that started a lock is not idle again before it has held
   * it, and one that started a trylock never waits.
   */
  lemma HoldsAsAsked(n: nat, sched: Schedule<Op>)
    requires ScheduleFor(n, sched)
    ensures var t := Exec(Follow, Tracking(n), sched);
            && t.state == Exec(Next, Init(n), sched) && AllAsAsked(n, t)
            && forall c :: 0 <= c < n ==>
                 && (t.state.cpus[c].Idle? && t.asked[c] == Some(Lock) ==> t.served[c])
                 && (t.asked[c] == Some(TryLock) ==> t.state.cpus[c].Idle? || t.state.cpus[c].Holding?)
  {
    forall t, c: nat, op | AllAsAsked(n, t) && c < n ensures AllAsAsked(n, Follow(t, c, op)) {
      FollowAsAsked(n, t, c, op);
    }
    ExecKeeps(Follow, (t: Tracked) => AllAsAsked(n, t), n, Tracking(n), sched);
    ExecView(Follow, Next, (t: Tracked) => t.state, Tracking(n), sched);
    var t := Exec(Follow, Tracking(n), sched);
    forall c | 0 <= c < n ensures AsAsked(t.state.cpus[c], t.asked[c], t.served[c]) {
    }
  }

  /**
   * Each processor's next step by itself: a lock that fails waits, a waiter leaves its loop only
   * to decrement again, a trylock is over at once, and a release leaves the processor idle.
   */
  lemma NextPlace(s: State, c: nat, op: Op)
    requires c < |s.cpus|
    ensures var before, after := s.cpus[c], Next(s, c, op).cpus[c];
            && (before.Holding? ==> after.Idle?)
            && (before.Spin? ==> after.Spin? || after.Ready?)
            && (before.Ready? || (before.Idle? && op.Lock?) ==> after.Spin? || after.Holding?)
            && (before.Idle? && op.TryLock? ==> after.Idle? || after.Holding?)
    // The byte: swapped for 0, decremented, only read, or set to 1.
    ensures var before, low := s.cpus[c], Next(s, c, op).low;
            && (before.Idle? && op.TryLock? ==> low == 0)
            && (before.Ready? || (before.Idle? && op.Lock?) ==> low == Signed8(s.low - 1))
            && (before.Spin? ==> low == s.low) && (before.Holding? ==> low == 1)
    ensures var before, after := s.cpus[c], Next(s, c, op).cpus[c];
            && (before.Ready? || (before.Idle? && op.Lock?) ==> (after.Holding? <==> Signed8(s.low - 1) >= 0))
            && (before.Spin? ==> (after.Ready? <==> s.low > 0))
            && (before.Idle? && op.TryLock? ==> (after.Holding? <==> s.low > 0))
    ensures forall d :: 0 <= d < |s.cpus| && d != c ==> Next(s, c, op).cpus[d] == s.cpus[d]
  {
  }

  /** The low byte in memory, and the processors that run on it. */
  class Machine {
    var slock: int
    const cpus: array<Pc>

    ghost function View(): State
      reads this, cpus
    {
      State(slock, cpus[..])
    }

    constructor (n: nat)
      ensures View() == Init(n) && fresh(cpus)
    {
      slock := 1;
      cpus := new Pc[n](_ => Idle);
      new;
      assert cpus[..] == Init(n).cpus;
    }

    /** `lock; decb`: returns the sign flag. */
    method Decb() returns (sign: bool)
      modifies this
      ensures slock == Signed8(old(slock) - 1) && sign == (slock < 0)
    {
      slock := Signed8(slock - 1);
      sign := slock < 0;
    }

    /** `xchgb`: stores a byte and returns the one it replaces. */
    method Xchgb(value: int) returns (oldval: int)
      modifies this
      ensures slock == value && oldval == old(slock)
    {
      oldval := slock;
      slock := value;
    }

    method Step(c: nat, op: Op)
      requires c < cpus.Length
      modifies this, cpus
      ensures View() == Next(old(View()), c, op)
    {
      match cpus[c] {
        case Idle =>
          if op.Lock? {
            var sign := Decb();
            cpus[c] := if sign then Spin else Holding;
          } else {
            var oldval := Xchgb(0);
            cpus[c] := if oldval > 0 then Holding else Idle;
          }
        case Spin =>
          if slock > 0 {
            cpus[c] := Ready;
          }
        case Ready =>
          var sign := Decb();
          cpus[c] := if sign then Spin else Holding;
        case Holding =>
          var _ := Xchgb(1);
          cpus[c] := Idle;
      }
    }
  }
}
