/**
 * The biased reader-writer lock: a 32-bit word that starts at RW_LOCK_BIAS, from which a
 * reader takes 1 and a writer takes RW_LOCK_BIAS.  Every atomic instruction is one step of
 * a system of processors that share the word.
 */
module RwLock {
  import opened Words
  import opened Counting
  import opened Schedules

  const RW_LOCK_BIAS := 0x0100_0000

  /** What an idle processor starts next. */
  datatype Op = ReadLock | WriteLock | TryRead

  /**
   * Where a processor is.  `Failed` has taken a ticket and not yet given it back, `Spin`
   * is at the compare of its slow path, `Ready` has seen the compare succeed and is at the
   * instruction that takes the next ticket.  `TryTaken` is between the two steps of a read
   * trylock, `TryFailed` at its undo.
   */
  datatype Pc =
    | Idle
    | Reading | ReadFailed | ReadSpin | ReadReady
    | Writing | WriteFailed | WriteSpin | WriteReady
    | TryTaken | TryFailed
  {
    predicate Holds() { Reading? || Writing? }

    predicate WaitsToWrite() { WriteFailed? || WriteSpin? || WriteReady? }

    /** Inside a blocking lock operation that has not succeeded yet. */
    predicate Waits() {
      ReadFailed? || ReadSpin? || ReadReady? || WriteFailed? || WriteSpin? || WriteReady?
    }
  }

  datatype State = State(word: int, cpus: seq<Pc>)

  function Init(n: nat): State {
    State(RW_LOCK_BIAS, seq(n, _ => Idle))
  }

  /** One atomic instruction of processor `c`; `op` matters only when it is idle. */
  function Next(s: State, c: nat, op: Op): (t: State)
    ensures |t.cpus| == |s.cpus|
  {
    if c >= |s.cpus| then s else
    match s.cpus[c]
    case Idle =>
      (match op
       case ReadLock => TakeRead(s, c)
       case WriteLock => TakeWrite(s, c)
       case TryRead => Move(s, c, -1, TryTaken))
    case Reading => Move(s, c, 1, Idle)
    case ReadFailed => Move(s, c, 1, ReadSpin)
    case ReadSpin => Move(s, c, 0, if Signed32(s.word - 1) < 0 then ReadSpin else ReadReady)
    case ReadReady => TakeRead(s, c)
    case Writing => Move(s, c, RW_LOCK_BIAS, Idle)
    case WriteFailed => Move(s, c, RW_LOCK_BIAS, WriteSpin)
    case WriteSpin => Move(s, c, 0, if s.word != RW_LOCK_BIAS then WriteSpin else WriteReady)
    case WriteReady => TakeWrite(s, c)
    case TryTaken => Move(s, c, 0, if s.word >= 0 then Reading else TryFailed)
    case TryFailed => Move(s, c, 1, Idle)
  }

  function Move(s: State, c: nat, delta: int, pc: Pc): State
    requires c < |s.cpus|
  {
    State(if delta == 0 then s.word else Signed32(s.word + delta), s.cpus[c := pc])
  }

  function TakeRead(s: State, c: nat): State
    requires c < |s.cpus|
  {
    Move(s, c, -1, if Signed32(s.word - 1) < 0 then ReadFailed else Reading)
  }

  function TakeWrite(s: State, c: nat): State
    requires c < |s.cpus|
  {
    Move(s, c, -RW_LOCK_BIAS, if Signed32(s.word - RW_LOCK_BIAS) != 0 then WriteFailed else Writing)
  }

  ghost predicate Reachable(n: nat, s: State) {
    ReachableFrom(Next, Init(n), n, s)
  }

  /** Mutual exclusion: a writer holds alone. */
  ghost predicate Exclusive(s: State) {
    forall i, j :: 0 <= i < |s.cpus| && 0 <= j < |s.cpus| && i != j && s.cpus[i].Writing? ==> !s.cpus[j].Holds()
  }

  function ReadTicket(pc: Pc): nat {
    if pc.Reading? || pc.ReadFailed? || pc.TryTaken? || pc.TryFailed? then 1 else 0
  }

  function WriteTicket(pc: Pc): nat {
    if pc.Writing? || pc.WriteFailed? then 1 else 0
  }

  function Readers(s: State): nat { Sum(s.cpus, ReadTicket) }

  function Writers(s: State): nat { Sum(s.cpus, WriteTicket) }

  /** The word counts the tickets that are out, failed ones included, modulo the word size. */
  ghost predicate TicketsCounted(s: State) {
    s.word == Signed32(RW_LOCK_BIAS - Readers(s) - RW_LOCK_BIAS * Writers(s))
  }

  // ---------- the ticket invariant, for any number of processors ----------

  lemma TicketsMove(s: State, c: nat, delta: int, pc: Pc)
    requires c < |s.cpus| && TicketsCounted(s)
    requires delta == ReadTicket(s.cpus[c]) - ReadTicket(pc)
                      + RW_LOCK_BIAS * (WriteTicket(s.cpus[c]) - WriteTicket(pc))
    ensures TicketsCounted(Move(s, c, delta, pc))
  {
    SumUpdate(s.cpus, ReadTicket, c, pc);
    SumUpdate(s.cpus, WriteTicket, c, pc);
    Signed32Add(RW_LOCK_BIAS - Readers(s) - RW_LOCK_BIAS * Writers(s), delta);
  }

  lemma TicketsStep(s: State, c: nat, op: Op)
    requires c < |s.cpus| && TicketsCounted(s)
    ensures TicketsCounted(Next(s, c, op))
  {
    var pc := Next(s, c, op).cpus[c];
    TicketsMove(s, c, ReadTicket(s.cpus[c]) - ReadTicket(pc)
                      + RW_LOCK_BIAS * (WriteTicket(s.cpus[c]) - WriteTicket(pc)), pc);
  }

  lemma {:induction false} TicketsRun(s: State, sched: Schedule<Op>)
    requires ScheduleFor(|s.cpus|, sched) && TicketsCounted(s)
    ensures TicketsCounted(Exec(Next, s, sched))
    decreases |sched|
  {
    if sched != [] {
      TicketsStep(s, sched[0].0, sched[0].1);
      TicketsRun(Next(s, sched[0].0, sched[0].1), sched[1..]);
    }
  }

  lemma InitCounted(n: nat)
    ensures TicketsCounted(Init(n)) && Readers(Init(n)) == 0 && Writers(Init(n)) == 0
  {
    SumPositive(Init(n).cpus, ReadTicket);
    SumPositive(Init(n).cpus, WriteTicket);
  }

  /**
   * In every reachable state of any number of processors the word is the bias minus the
   * tickets; so it is back at the bias whenever nobody holds and no ticket is open.
   */
  lemma TicketsConserved(n: nat, s: State)
    requires Reachable(n, s)
    ensures |s.cpus| == n && TicketsCounted(s)
    ensures (forall i :: 0 <= i < n ==> ReadTicket(s.cpus[i]) == 0 && WriteTicket(s.cpus[i]) == 0)
            ==> s.word == RW_LOCK_BIAS
  {
    var sched: Schedule<Op> :| ScheduleFor(n, sched) && Exec(Next, Init(n), sched) == s;
    InitCounted(n);
    ExecKeeps(Next, (t: State) => |t.cpus| == n, n, Init(n), sched);
    TicketsRun(Init(n), sched);
    SumPositive(s.cpus, ReadTicket);
    SumPositive(s.cpus, WriteTicket);
  }

  // ---------- exclusion, and the number of processors it needs ----------

  /** With at most 129 processors the word never wraps. */
  lemma WordExact(s: State)
    requires |s.cpus| <= 129 && TicketsCounted(s)
    ensures s.word == RW_LOCK_BIAS - Readers(s) - RW_LOCK_BIAS * Writers(s)
    ensures Readers(s) + Writers(s) <= 129
  {
    SumsBounded(s.cpus, ReadTicket, WriteTicket, 1);
  }

  lemma HolderHasTicket(s: State, i: nat)
    requires i < |s.cpus|
    ensures s.cpus[i].Reading? ==> Readers(s) >= 1
    ensures s.cpus[i].Writing? ==> Writers(s) >= 1
  {
    SumMember(s.cpus, ReadTicket, i);
    SumMember(s.cpus, WriteTicket, i);
  }

  /** A reader gets in only when no writer has a ticket, a writer only when nobody else has one. */
  lemma Acquired(s: State, c: nat, op: Op)
    requires |s.cpus| <= 129 && TicketsCounted(s) && c < |s.cpus|
    ensures var t := Next(s, c, op);
            && (t.cpus[c].Reading? && !s.cpus[c].Reading? ==> Writers(t) == 0)
            && (t.cpus[c].Writing? && !s.cpus[c].Writing? ==> Writers(t) == 1 && Readers(t) == 0)
  {
    var t := Next(s, c, op);
    TicketsStep(s, c, op);
    WordExact(t);
    HolderHasTicket(t, c);
  }

  lemma ExclusionStep(s: State, c: nat, op: Op)
    requires |s.cpus| <= 129 && TicketsCounted(s) && Exclusive(s) && c < |s.cpus|
    ensures Exclusive(Next(s, c, op))
  {
    var t := Next(s, c, op);
    Acquired(s, c, op);
    forall i, j | 0 <= i < |t.cpus| && 0 <= j < |t.cpus| && i != j && t.cpus[i].Writing?
      ensures !t.cpus[j].Holds()
    {
      if i == c || j == c {
        WriterIsAlone(t, i, j);
      }
    }
  }

  /** A writer beside a holder would need a second ticket. */
  lemma WriterIsAlone(t: State, i: nat, j: nat)
    requires i < |t.cpus| && j < |t.cpus| && i != j && t.cpus[i].Writing?
    ensures Writers(t) >= 1
    ensures Writers(t) == 1 && Readers(t) == 0 ==> !t.cpus[j].Holds()
  {
    HolderHasTicket(t, i);
    HolderHasTicket(t, j);
    if t.cpus[j].Writing? {
      SumPair(t.cpus, WriteTicket, if i < j then i else j, if i < j then j else i);
    }
  }

  lemma {:induction false} ExclusionRun(s: State, sched: Schedule<Op>)
    requires |s.cpus| <= 129 && TicketsCounted(s) && Exclusive(s) && ScheduleFor(|s.cpus|, sched)
    ensures Exclusive(Exec(Next, s, sched))
    decreases |sched|
  {
    if sched != [] {
      TicketsStep(s, sched[0].0, sched[0].1);
      ExclusionStep(s, sched[0].0, sched[0].1);
      ExclusionRun(Next(s, sched[0].0, sched[0].1), sched[1..]);
    }
  }

  /** The tickets of a step that takes one or none, and of one that looks at the word only. */
  lemma TakeExact(s: State, c: nat)
    requires |s.cpus| <= 129 && TicketsCounted(s) && c < |s.cpus|
    requires ReadTicket(s.cpus[c]) == 0 && WriteTicket(s.cpus[c]) == 0
    ensures TakeRead(s, c).cpus[c].Reading? <==> Writers(s) == 0
    ensures TakeWrite(s, c).cpus[c].Writing? <==> Writers(s) == 0 && Readers(s) == 0
    ensures Signed32(s.word - 1) >= 0 <==> Writers(s) == 0
    ensures s.word == RW_LOCK_BIAS <==> Writers(s) == 0 && Readers(s) == 0
  {
    SumUpdate(s.cpus, ReadTicket, c, Reading);
    SumUpdate(s.cpus, WriteTicket, c, Reading);
    SumsBounded(s.cpus[c := Reading], ReadTicket, WriteTicket, 1);
    assert Readers(s) + Writers(s) <= 128;
    WordExact(s);
  }

  /**
   * Every decision the lock code takes is exact: a reader's ticket is good, and its spin loop
   * ends, exactly when no writer has a ticket; a writer's ticket is good exactly when it is
   * the only one, and its spin loop ends exactly when there is none.
   */
  lemma DecisionsExact(n: nat, s: State, c: nat, op: Op)
    requires n <= 129 && Reachable(n, s) && c < |s.cpus|
    ensures var pc, t := s.cpus[c], Next(s, c, op);
            && (pc.ReadReady? || (pc.Idle? && op.ReadLock?) ==> (t.cpus[c].Reading? <==> Writers(s) == 0))
            && (pc.TryTaken? ==> (t.cpus[c].Reading? <==> Writers(s) == 0))
            && (pc.WriteReady? || (pc.Idle? && op.WriteLock?) ==>
                  (t.cpus[c].Writing? <==> Writers(s) == 0 && Readers(s) == 0))
            && (pc.ReadSpin? ==> (t.cpus[c].ReadReady? <==> Writers(s) == 0))
            && (pc.WriteSpin? ==> (t.cpus[c].WriteReady? <==> Writers(s) == 0 && Readers(s) == 0))
  {
    TicketsConserved(n, s);
    if s.cpus[c].TryTaken? {
      WordExact(s);
      SumMember(s.cpus, ReadTicket, c);
    } else if ReadTicket(s.cpus[c]) == 0 && WriteTicket(s.cpus[c]) == 0 {
      TakeExact(s, c);
    }
  }

  /** Processors 0 to k-1 have each taken one writer ticket, and only the first was served. */
  function Crowd(n: nat, k: nat): State {
    State(Signed32(RW_LOCK_BIAS - k * RW_LOCK_BIAS),
          seq(n, i => if i >= k then Idle else if i == 0 then Writing else WriteFailed))
  }

  lemma {:induction false} CrowdReachable(n: nat, k: nat)
    requires k <= n && k <= 129
    ensures Reachable(n, Crowd(n, k))
  {
    if k == 0 {
      assert Init(n) == Crowd(n, 0);
      assert Exec(Next, Init(n), []) == Init(n);
    } else {
      CrowdReachable(n, k - 1);
      StepReachable(Next, Init(n), n, Crowd(n, k - 1), k - 1, WriteLock);
      assert Next(Crowd(n, k - 1), k - 1, WriteLock) == Crowd(n, k);
    }
  }

  /**
   * Mutual exclusion holds in every reachable state, trylocks included, exactly up to 129
   * processors: the 129th writer ticket drives the word to -2^31, and one reader more
   * wraps it to a positive number while a writer holds.
   */
  lemma ExclusionIff(n: nat)
    ensures (forall s :: Reachable(n, s) ==> Exclusive(s)) <==> n <= 129
  {
    if n <= 129 {
      forall s | Reachable(n, s) ensures Exclusive(s) {
        var sched: Schedule<Op> :| ScheduleFor(n, sched) && Exec(Next, Init(n), sched) == s;
        InitCounted(n);
        ExclusionRun(Init(n), sched);
      }
    } else {
      CrowdReachable(n, 129);
      StepReachable(Next, Init(n), n, Crowd(n, 129), 129, ReadLock);
      var s := Next(Crowd(n, 129), 129, ReadLock);
      assert s.cpus[0].Writing? && s.cpus[129].Reading?;
      assert !Exclusive(s);
    }
  }

  // ---------- progress ----------

  /** Steps processor `pc` still needs before it has no ticket. */
  function Debt(pc: Pc): nat {
    if pc.TryTaken? then 2 else ReadTicket(pc) + WriteTicket(pc)
  }

  /** Only processors inside a lock operation move; holders move only if `release`. */
  ghost predicate Driven(s: State, sched: Schedule<Op>, release: bool)
    requires ScheduleFor(|s.cpus|, sched)
    decreases |sched|
  {
    sched == [] ||
    (var head := sched[0];
     && !s.cpus[head.0].Idle?
     && (release || !s.cpus[head.0].Holds())
     && (assert forall k :: 0 <= k < |sched[1..]| ==> sched[1..][k] == sched[k + 1];
         Driven(Next(s, head.0, head.1), sched[1..], release)))
  }

  lemma DebtStep(s: State, c: nat, w: nat)
    requires c < |s.cpus| && Debt(s.cpus[c]) > 0 && w < |s.cpus| && s.cpus[w].Waits()
    ensures Sum(Next(s, c, ReadLock).cpus, Debt) == Sum(s.cpus, Debt) - 1
    ensures !s.cpus[c].Idle? && Next(s, c, ReadLock).cpus[w].Waits()
    ensures Next(s, c, ReadLock).cpus[w].WaitsToWrite() == s.cpus[w].WaitsToWrite()
  {
    SumUpdate(s.cpus, Debt, c, Next(s, c, ReadLock).cpus[c]);
  }

  ghost predicate SomeHolds(s: State) {
    exists i :: 0 <= i < |s.cpus| && s.cpus[i].Holds()
  }

  /** A run of at most `bound` steps in which nobody enters the lock code. */
  ghost predicate InsideRun(s: State, sched: Schedule<Op>, bound: nat, release: bool) {
    ScheduleFor(|s.cpus|, sched) && |sched| <= bound && Driven(s, sched, release)
  }

  /** The waiting processor `w` holds after the schedule, and holds what it waits for. */
  ghost predicate HoldsAfter(s: State, sched: Schedule<Op>, w: nat)
    requires w < |s.cpus|
  {
    var t := Exec(Next, s, sched);
    w < |t.cpus| && t.cpus[w] == if s.cpus[w].WaitsToWrite() then Writing else Reading
  }

  /** A waiting processor acquires by two of its own steps once no ticket is out. */
  lemma AcquireAlone(s: State, w: nat) returns (sched: Schedule<Op>)
    requires TicketsCounted(s) && w < |s.cpus| && s.cpus[w].Waits() && Sum(s.cpus, Debt) == 0
    ensures InsideRun(s, sched, 2, false)
    ensures HoldsAfter(s, sched, w)
  {
    SumPositive(s.cpus, Debt);
    SumPositive(s.cpus, ReadTicket);
    SumPositive(s.cpus, WriteTicket);
    assert s.word == RW_LOCK_BIAS;
    var step := (w, ReadLock);
    var noMore: Schedule<Op> := [];
    var s1 := Next(s, w, ReadLock);
    if s.cpus[w].ReadReady? || s.cpus[w].WriteReady? {
      sched := [step];
      assert Exec(Next, s1, sched[1..]) == s1;
    } else {
      assert s.cpus[w].ReadSpin? || s.cpus[w].WriteSpin? by {
        assert Debt(s.cpus[w]) == 0;
      }
      sched := [step, step];
      assert sched[1..] == [step];
      assert Exec(Next, s1, [step]) == Exec(Next, Next(s1, w, ReadLock), []) by { assert [step][1..] == noMore; }
      assert Driven(s1, [step], false) by { assert [step][1..] == noMore; }
    }
  }

  /**
   * From every state that counts its tickets, any waiting processor can be brought to hold
   * the lock by the steps of processors already inside a lock operation, none starting a
   * new one, in at most two steps per open ticket plus two.  If holders may not release,
   * some processor is brought to hold it.
   */
  lemma {:induction false} Progress(s: State, w: nat, release: bool) returns (sched: Schedule<Op>)
    requires TicketsCounted(s) && w < |s.cpus| && s.cpus[w].Waits()
    ensures InsideRun(s, sched, Sum(s.cpus, Debt) + 2, release)
    ensures SomeHolds(Exec(Next, s, sched)) && (release ==> HoldsAfter(s, sched, w))
    decreases Sum(s.cpus, Debt)
  {
    if !release && SomeHolds(s) {
      sched := [];
    } else if Sum(s.cpus, Debt) == 0 {
      sched := AcquireAlone(s, w);
      DrivenWeaken(s, sched, release);
    } else {
      SumPositive(s.cpus, Debt);
      var c :| 0 <= c < |s.cpus| && Debt(s.cpus[c]) > 0;
      var t := Next(s, c, ReadLock);
      DebtStep(s, c, w);
      TicketsStep(s, c, ReadLock);
      var rest := Progress(t, w, release);
      sched := [(c, ReadLock)] + rest;
      assert sched[1..] == rest;
      assert Exec(Next, s, sched) == Exec(Next, t, rest);
    }
  }

  lemma {:induction false} DrivenWeaken(s: State, sched: Schedule<Op>, release: bool)
    requires ScheduleFor(|s.cpus|, sched) && Driven(s, sched, false)
    ensures Driven(s, sched, release)
    decreases |sched|
  {
    if sched != [] {
      DrivenWeaken(Next(s, sched[0].0, sched[0].1), sched[1..], release);
    }
  }

  /**
   * No reachable state is a deadlock: with a waiter and no holder, a bounded run of the
   * processors inside the lock code alone ends with a holder; and letting holders release
   * as well, every single waiter can be served.
   */
  lemma DeadlockFree(n: nat, s: State, w: nat)
    requires Reachable(n, s) && w < |s.cpus| && s.cpus[w].Waits()
    ensures exists sched :: InsideRun(s, sched, 2 * n + 2, false) && SomeHolds(Exec(Next, s, sched))
    ensures exists sched :: InsideRun(s, sched, 2 * n + 2, true) && HoldsAfter(s, sched, w)
  {
    TicketsConserved(n, s);
    assert |s.cpus| == n;
    SumsBounded(s.cpus, Debt, _ => 0, 2);
    var a := Progress(s, w, false);
    assert InsideRun(s, a, 2 * n + 2, false);
    var b := Progress(s, w, true);
    assert InsideRun(s, b, 2 * n + 2, true);
  }

  // ---------- what a processor asked for ----------

  /** A state with the operation each processor last started, and whether it has held since. */
  datatype Tracked = Tracked(state: State, asked: seq<Option<Op>>, served: seq<bool>)

  function Tracking(n: nat): Tracked {
    Tracked(Init(n), seq(n, _ => None), seq(n, _ => false))
  }

  function Follow(t: Tracked, c: nat, op: Op): Tracked {
    var s := Next(t.state, c, op);
    if c >= |t.state.cpus| || c >= |t.asked| || c >= |t.served| then t.(state := s) else
      var starts := t.state.cpus[c].Idle?;
      Tracked(s, if starts then t.asked[c := Some(op)] else t.asked,
              t.served[c := s.cpus[c].Holds() || (!starts && t.served[c])])
  }

  /** Where a processor may be that last asked for `asked`. */
  predicate AsAsked(pc: Pc, asked: Option<Op>, served: bool) {
    match asked
    case None => pc.Idle? && !served
    case Some(ReadLock) =>
      if served then pc.Reading? || pc.Idle? else pc.ReadFailed? || pc.ReadSpin? || pc.ReadReady?
    case Some(WriteLock) =>
      if served then pc.Writing? || pc.Idle? else pc.WriteFailed? || pc.WriteSpin? || pc.WriteReady?
    case Some(TryRead) =>
      if served then pc.Reading? || pc.Idle? else pc.TryTaken? || pc.TryFailed? || pc.Idle?
  }

  ghost predicate AllAsAsked(n: nat, t: Tracked) {
    && |t.state.cpus| == |t.asked| == |t.served| == n
    && forall c :: 0 <= c < n ==> AsAsked(t.state.cpus[c], t.asked[c], t.served[c])
  }

  lemma FollowAsAsked(n: nat, t: Tracked, c: nat, op: Op)
    requires AllAsAsked(n, t) && c < n
    ensures AllAsAsked(n, Follow(t, c, op))
  {
    var s := Next(t.state, c, op);
    assert forall d :: 0 <= d < n && d != c ==> s.cpus[d] == t.state.cpus[d];
    assert AsAsked(t.state.cpus[c], t.asked[c], t.served[c]);
  }

  /**
   * Over every schedule, a processor that started a read lock or a read trylock and holds, holds
   * as a reader, and one that started a write lock as a writer; and from a blocking operation
   * it is not idle again before it has held.
   */
  lemma HoldsAsAsked(n: nat, sched: Schedule<Op>)
    requires ScheduleFor(n, sched)
    ensures var t := Exec(Follow, Tracking(n), sched);
            && t.state == Exec(Next, Init(n), sched) && AllAsAsked(n, t)
            && forall c :: 0 <= c < n ==>
                 && (t.state.cpus[c].Reading? ==> t.asked[c] == Some(ReadLock) || t.asked[c] == Some(TryRead))
                 && (t.state.cpus[c].Writing? ==> t.asked[c] == Some(WriteLock))
                 && (t.state.cpus[c].Idle? && t.asked[c].Some? && t.asked[c] != Some(TryRead) ==> t.served[c])
  {
    forall t, c: nat, op | AllAsAsked(n, t) && c < n ensures AllAsAsked(n, Follow(t, c, op)) {
      FollowAsAsked(n, t, c, op);
    }
    ExecKeeps(Follow, (t: Tracked) => AllAsAsked(n, t), n, Tracking(n), sched);
    ExecView(Follow, Next, (t: Tracked) => t.state, Tracking(n), sched);
    var t := Exec(Follow, Tracking(n), sched);
    forall c | 0 <= c < n ensures AsAsked(t.state.cpus[c], t.asked[c], t.served[c]) {
    }
  }

  /**
   * Each processor's next step by itself: a failed ticket is given back and its holder then
   * waits, a waiter leaves its loop only to take a ticket, a trylock is over after its read or
   * its undo, and a release leaves the processor idle.  A reader goes on while the word stays
   * nonnegative, a trylock too, and a writer on the exact bias.
   */
  lemma NextPlace(s: State, c: nat, op: Op)
    requires c < |s.cpus|
    ensures var before, after := s.cpus[c], Next(s, c, op).cpus[c];
            && (before.Holds() || before.TryFailed? ==> after.Idle?)
            && (before.ReadFailed? ==> after.ReadSpin?) && (before.WriteFailed? ==> after.WriteSpin?)
            && (before.ReadSpin? ==> after.ReadSpin? || after.ReadReady?)
            && (before.WriteSpin? ==> after.WriteSpin? || after.WriteReady?)
            && (before.ReadReady? ==> after.ReadFailed? || after.Reading?)
            && (before.WriteReady? ==> after.WriteFailed? || after.Writing?)
            && (before.TryTaken? ==> after.TryFailed? || after.Reading?)
            && (before.Idle? ==>
                  match op
                  case ReadLock => after.ReadFailed? || after.Reading?
                  case WriteLock => after.WriteFailed? || after.Writing?
                  case TryRead => after.TryTaken?)
    ensures var before, after, word := s.cpus[c], Next(s, c, op).cpus[c], Next(s, c, op).word;
            && (before.ReadReady? || (before.Idle? && op.ReadLock?) ==> (after.Reading? <==> word >= 0))
            && (before.WriteReady? || (before.Idle? && op.WriteLock?) ==> (after.Writing? <==> word == 0))
            && (before.TryTaken? ==> (after.Reading? <==> word >= 0))
            && (before.ReadSpin? ==> (after.ReadReady? <==> Signed32(word - 1) >= 0))
            && (before.WriteSpin? ==> (after.WriteReady? <==> word == RW_LOCK_BIAS))
    ensures forall d :: 0 <= d < |s.cpus| && d != c ==> Next(s, c, op).cpus[d] == s.cpus[d]
  {
  }

  // ---------- the lock word in memory, and the machine that runs on it ----------

  /** The shared word, changed in place by locked instructions that also set flags. */
  class LockWord {
    var value: int

    constructor ()
      ensures value == RW_LOCK_BIAS
    {
      value := RW_LOCK_BIAS;
    }

    /** `lock; addl $k` or, with a negative `k`, `lock; subl $-k`. */
    method Add(k: int) returns (sign: bool, zero: bool)
      modifies this
      ensures value == Signed32(old(value) + k)
      ensures sign == (value < 0) && zero == (value == 0)
    {
      value := Signed32(value + k);
      sign, zero := value < 0, value == 0;
    }

    /** `cmpl $k`: the flags of a subtraction whose result is dropped. */
    method Compare(k: int) returns (sign: bool, zero: bool)
      ensures sign == (Signed32(value - k) < 0) && zero == (Signed32(value - k) == 0)
    {
      var difference := Signed32(value - k);
      sign, zero := difference < 0, difference == 0;
    }
  }

  class Machine {
    const lock: LockWord
    const cpus: array<Pc>

    ghost predicate Valid()
      reads lock
    {
      -TWO_31 <= lock.value < TWO_31
    }

    ghost function View(): State
      reads lock, cpus
    {
      State(lock.value, cpus[..])
    }

    constructor (n: nat)
      ensures Valid() && View() == Init(n) && fresh(lock) && fresh(cpus)
    {
      lock := new LockWord();
      cpus := new Pc[n](_ => Idle);
      new;
      assert cpus[..] == Init(n).cpus;
    }

    /** Executes the next atomic instruction of processor `c` on the word in memory. */
    method Step(c: nat, op: Op)
      requires Valid() && c < cpus.Length
      modifies lock, cpus
      ensures Valid() && View() == Next(old(View()), c, op)
    {
      match cpus[c] {
        case Idle => Start(c, op);
        case Reading | ReadFailed | ReadSpin | ReadReady => ReadStep(c);
        case Writing | WriteFailed | WriteSpin | WriteReady => WriteStep(c);
        case TryTaken | TryFailed => TryStep(c);
      }
    }

    method Start(c: nat, op: Op)
      requires Valid() && c < cpus.Length && cpus[c].Idle?
      modifies lock, cpus
      ensures Valid() && View() == Next(old(View()), c, op)
    {
      match op {
        case ReadLock => ReadTake(c);
        case WriteLock => WriteTake(c);
        case TryRead =>
          var _, _ := lock.Add(-1);
          cpus[c] := TryTaken;
      }
    }

    /** The read lock's unlock, undo, spin loop and retry. */
    method ReadStep(c: nat)
      requires Valid() && c < cpus.Length
      requires cpus[c].Reading? || cpus[c].ReadFailed? || cpus[c].ReadSpin? || cpus[c].ReadReady?
      modifies lock, cpus
      ensures Valid() && forall op :: View() == Next(old(View()), c, op)
    {
      match cpus[c] {
        case Reading =>
          var _, _ := lock.Add(1);
          cpus[c] := Idle;
        case ReadFailed =>
          var _, _ := lock.Add(1);
          cpus[c] := ReadSpin;
        case ReadSpin =>
          var sign, _ := lock.Compare(1);
          if !sign {
            cpus[c] := ReadReady;
          }
        case ReadReady => ReadTake(c);
      }
    }

    /** The same of the write lock. */
    method WriteStep(c: nat)
      requires Valid() && c < cpus.Length
      requires cpus[c].Writing? || cpus[c].WriteFailed? || cpus[c].WriteSpin? || cpus[c].WriteReady?
      modifies lock, cpus
      ensures Valid() && forall op :: View() == Next(old(View()), c, op)
    {
      match cpus[c] {
        case Writing =>
          var _, _ := lock.Add(RW_LOCK_BIAS);
          cpus[c] := Idle;
        case WriteFailed =>
          var _, _ := lock.Add(RW_LOCK_BIAS);
          cpus[c] := WriteSpin;
        case WriteSpin =>
          var _, zero := lock.Compare(RW_LOCK_BIAS);
          if zero {
            cpus[c] := WriteReady;
          }
        case WriteReady => WriteTake(c);
      }
    }

    /** The second step of a read trylock, and its undo. */
    method TryStep(c: nat)
      requires Valid() && c < cpus.Length && (cpus[c].TryTaken? || cpus[c].TryFailed?)
      modifies lock, cpus
      ensures Valid() && forall op :: View() == Next(old(View()), c, op)
    {
      match cpus[c] {
        case TryTaken =>
          cpus[c] := if lock.value >= 0 then Reading else TryFailed;
        case TryFailed =>
          var _, _ := lock.Add(1);
          cpus[c] := Idle;
      }
    }

    /** `lock; subl $1` and `js`, the taking instruction of the fast and of the slow path. */
    method ReadTake(c: nat)
      requires Valid() && c < cpus.Length
      modifies lock, cpus
      ensures Valid() && View() == TakeRead(old(View()), c)
    {
      var sign, zero := lock.Add(-1);
      cpus[c] := if sign then ReadFailed else Reading;
    }

    method WriteTake(c: nat)
      requires Valid() && c < cpus.Length
      modifies lock, cpus
      ensures Valid() && View() == TakeWrite(old(View()), c)
    {
      var sign, zero := lock.Add(-RW_LOCK_BIAS);
      cpus[c] := if zero then Writing else WriteFailed;
    }
  }
}
