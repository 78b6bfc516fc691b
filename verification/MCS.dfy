/** The ticket queue lock, as a state machine whose steps are the single memory accesses of
    MCSLock and MCSUnlock.  Any number of threads may run; tickets and threads are numbered.
    A ticket may serve any number of acquisitions, one at a time, and between them its owner, or
    whoever gets its memory, may write anything into it. */
module MCS {
  import opened Basics

  type Ticket = nat
  type Thread = nat

  /** Where a thread is.  After the exchange its ticket is already the top of the queue, though
      its two fields are yet to be written, in either order. */
  datatype Phase =
    | Outside
    | Publishing(ticket: Ticket, seen: Option<Ticket>, flagWritten: bool, prevWritten: bool)
    | Spinning(ticket: Ticket)
    | Inside(ticket: Ticket)
    | Leaving(ticket: Ticket)

  /** The shared memory: `top`, the tickets whose flag is set, and the links.  The last four
      fields are history, which no step reads: who exchanged which ticket, in order; the tickets
      for which MCSLock has returned and those that have finished; and where each thread's
      latest ticket stands in the queue. */
  datatype State = State(
    top: Option<Ticket>,
    finished: set<Ticket>,
    prev: map<Ticket, Option<Ticket>>,
    phase: map<Thread, Phase>,
    queue: seq<(Thread, Ticket)>,
    entered: seq<Ticket>,
    left: seq<Ticket>,
    spot: map<Thread, nat>
  )

  datatype Action =
    | Exchange(ticket: Ticket)
    | WriteFlag
    | WritePrev
    | StartSpin
    | Test
    | Finish
    | ClearPrev
    | Rewrite(ticket: Ticket, flag: bool, link: Option<Ticket>)

  function PhaseOf(s: State, t: Thread): Phase {
    if t in s.phase then s.phase[t] else Outside
  }

  /** Nothing is queued; the `stale` tickets have their flag set by chance. */
  function Initial(stale: set<Ticket>): State {
    State(None, stale, map[], map[], [], [], [], map[])
  }

  /** The loop of MCSLock ends: there is no predecessor, or it has finished. */
  predicate MayEnter(s: State, ticket: Ticket) {
    ticket in s.prev && (s.prev[ticket].None? || s.prev[ticket].value in s.finished)
  }

  predicate Holds(ph: Phase, ticket: Ticket) {
    !ph.Outside? && ph.ticket == ticket
  }

  /** From the exchange until MCSUnlock has returned. */
  predicate InUse(s: State, ticket: Ticket) {
    exists t :: t in s.phase && Holds(s.phase[t], ticket)
  }

  /** The ticket has been exchanged before. */
  predicate Used(s: State, ticket: Ticket) {
    exists k :: 0 <= k < |s.queue| && s.queue[k].1 == ticket
  }

  /** Whether thread `t` can take step `a`.  A ticket serves one acquisition at a time, and only
      those inside MCSLock and MCSUnlock write to it meanwhile. */
  predicate Enabled(s: State, t: Thread, a: Action) {
    var ph := PhaseOf(s, t);
    match a
    case Exchange(ticket) => ph.Outside? && !InUse(s, ticket)
    case WriteFlag => ph.Publishing? && !ph.flagWritten
    case WritePrev => ph.Publishing? && !ph.prevWritten
    case StartSpin => ph.Publishing? && ph.flagWritten && ph.prevWritten
    case Test => ph.Spinning?
    case Finish => ph.Inside?
    case ClearPrev => ph.Leaving?
    case Rewrite(ticket, _, _) => ph.Outside? && !InUse(s, ticket)
  }

  function Next(s: State, t: Thread, a: Action): State
    requires Enabled(s, t, a)
  {
    var ph := PhaseOf(s, t);
    match a
    case Exchange(ticket) =>
      s.(top := Some(ticket), phase := s.phase[t := Publishing(ticket, s.top, false, false)],
         queue := s.queue + [(t, ticket)], spot := s.spot[t := |s.queue|])
    case WriteFlag =>
      s.(finished := s.finished - {ph.ticket}, phase := s.phase[t := ph.(flagWritten := true)])
    case WritePrev =>
      s.(prev := s.prev[ph.ticket := ph.seen], phase := s.phase[t := ph.(prevWritten := true)])
    case StartSpin =>
      s.(phase := s.phase[t := Spinning(ph.ticket)])
    case Test =>
      if MayEnter(s, ph.ticket) then s.(phase := s.phase[t := Inside(ph.ticket)], entered := s.entered + [ph.ticket])
      else s
    case Finish =>
      s.(finished := s.finished + {ph.ticket}, phase := s.phase[t := Leaving(ph.ticket)], left := s.left + [ph.ticket])
    case ClearPrev =>
      s.(prev := s.prev[ph.ticket := None], phase := s.phase[t := Outside])
    case Rewrite(ticket, flag, link) =>
      s.(finished := if flag then s.finished + {ticket} else s.finished - {ticket}, prev := s.prev[ticket := link])
  }

  // ----- Safety -----

  /** Between the return of MCSLock and the flag write of MCSUnlock. */
  predicate IsInside(s: State, t: Thread) {
    PhaseOf(s, t).Inside?
  }

  ghost predicate MutualExclusion(s: State) {
    forall t, u :: IsInside(s, t) && IsInside(s, u) ==> t == u
  }

  function Tickets(queue: seq<(Thread, Ticket)>): (tickets: seq<Ticket>)
    ensures |tickets| == |queue| && forall k :: 0 <= k < |queue| ==> tickets[k] == queue[k].1
  {
    seq(|queue|, k requires 0 <= k < |queue| => queue[k].1)
  }

  /** Threads enter in the order of their exchanges. */
  ghost predicate FirstComeFirstServed(s: State) {
    s.entered <= Tickets(s.queue)
  }

  function Predecessor(s: State, k: nat): Option<Ticket>
    requires k < |s.queue|
  {
    if k == 0 then None else Some(s.queue[k - 1].1)
  }

  /** What holds of a thread whose ticket stands at position `k`. */
  predicate PhaseOk(s: State, ph: Phase, k: nat) {
    k < |s.queue| &&
    var ticket := s.queue[k].1;
    match ph
    case Outside => false
    case Publishing(own, seen, flagWritten, prevWritten) =>
      && own == ticket && seen == Predecessor(s, k) && |s.entered| <= k
      && (prevWritten ==> ticket in s.prev && s.prev[ticket] == seen)
    case Spinning(own) =>
      own == ticket && |s.entered| <= k && ticket in s.prev && s.prev[ticket] == Predecessor(s, k)
    case Inside(own) =>
      own == ticket && k == |s.left| && |s.entered| == k + 1
    case Leaving(own) =>
      own == ticket && k < |s.left|
  }

  /** Thread `t`, unless outside, owns the ticket at its spot. */
  ghost predicate ThreadOk(s: State, t: Thread) {
    t in s.phase && !s.phase[t].Outside? ==>
      t in s.spot && PhaseOk(s, s.phase[t], s.spot[t]) && s.queue[s.spot[t]].0 == t
  }

  /** An unfinished ticket belongs to a thread that is still at it. */
  ghost predicate OwnerOk(s: State, k: nat)
    requires k < |s.queue|
  {
    |s.left| <= k ==> AtWork(s, k)
  }

  /** The thread that made the exchange at position `k` has not finished with it. */
  predicate AtWork(s: State, k: nat)
    requires k < |s.queue|
  {
    var t := s.queue[k].0;
    t in s.phase && !s.phase[t].Outside? && !s.phase[t].Leaving? && t in s.spot && s.spot[t] == k
  }

  /** The thread that made the exchange at position `k` has yet to write the flag of its ticket. */
  predicate Unwritten(s: State, k: nat)
    requires k < |s.queue|
  {
    AtWork(s, k) && s.phase[s.queue[k].0].Publishing? && !s.phase[s.queue[k].0].flagWritten
  }

  /** A ticket with its flag set has finished, or its owner has yet to write the flag. */
  predicate FlagSoft(s: State, k: nat)
    requires k < |s.queue|
  {
    s.queue[k].1 in s.finished ==> k < |s.left| || Unwritten(s, k)
  }

  /** A ticket with its flag set has finished in every acquisition it was used for. */
  predicate FlagOk(s: State, k: nat)
    requires k < |s.queue|
  {
    s.queue[k].1 in s.finished ==> k < |s.left|
  }

  /** No ticket is in the hands of two threads. */
  predicate HandsOk(s: State, t: Thread, u: Thread) {
    (t in s.phase && u in s.phase && !s.phase[t].Outside? && Holds(s.phase[u], s.phase[t].ticket)) ==> t == u
  }

  /** What holds in every run until a thread is fooled: it passes the test because of a flag that
      its owner has yet to write. */
  ghost predicate Orderly(s: State) {
    && s.top == (if s.queue == [] then None else Some(s.queue[|s.queue| - 1].1))
    && s.left <= s.entered <= Tickets(s.queue)
    && |s.entered| <= |s.left| + 1
    && (forall k :: 0 <= k < |s.queue| ==> FlagSoft(s, k))
    && (forall t :: ThreadOk(s, t))
    && (forall k :: 0 <= k < |s.queue| ==> OwnerOk(s, k))
    && (forall t, u :: HandsOk(s, t, u))
  }

  ghost predicate Invariant(s: State) {
    Orderly(s) && forall k :: 0 <= k < |s.queue| ==> FlagOk(s, k)
  }

  /** A ticket's flag is false when the exchange publishes it. */
  predicate Clean(s: State, a: Action) {
    a.Exchange? ==> a.ticket !in s.finished
  }

  predicate Fooled(s: State, t: Thread, a: Action) {
    a.Test? && PhaseOf(s, t).Spinning? && MayEnter(s, PhaseOf(s, t).ticket) &&
    t in s.spot && 0 < s.spot[t] <= |s.queue| && Unwritten(s, s.spot[t] - 1)
  }

  ghost predicate Safe(s: State) {
    MutualExclusion(s) && FirstComeFirstServed(s)
  }

  lemma OrderlyIsSafe(s: State)
    requires Orderly(s)
    ensures Safe(s)
  {
    forall t, u | IsInside(s, t) && IsInside(s, u)
      ensures t == u
    {
      assert ThreadOk(s, t) && ThreadOk(s, u);
    }
  }

  lemma InvariantIsSafe(s: State)
    requires Invariant(s)
    ensures Safe(s)
  {
    OrderlyIsSafe(s);
  }

  lemma InitiallyOk(stale: set<Ticket>)
    ensures Invariant(Initial(stale))
  {
  }

  /** The ticket of an unfinished position is in its owner's hands. */
  lemma OwnerHolds(s: State, k: nat)
    requires Orderly(s) && |s.left| <= k < |s.queue|
    ensures AtWork(s, k) && s.phase[s.queue[k].0].ticket == s.queue[k].1 && InUse(s, s.queue[k].1)
  {
    assert OwnerOk(s, k) && ThreadOk(s, s.queue[k].0);
    assert Holds(s.phase[s.queue[k].0], s.queue[k].1);
  }

  /** Whoever passes the test without being fooled is next in the queue, and nobody is inside. */
  lemma PassMeans(s: State, t: Thread)
    requires Orderly(s) && PhaseOf(s, t).Spinning? && MayEnter(s, PhaseOf(s, t).ticket) && !Fooled(s, t, Test)
    ensures t in s.spot && s.spot[t] == |s.left| == |s.entered| < |s.queue|
    ensures s.queue[s.spot[t]] == (t, s.phase[t].ticket)
  {
    assert ThreadOk(s, t);
    var k := s.spot[t];
    if k > 0 {
      assert FlagSoft(s, k - 1);
    }
  }

  lemma NeverFooled(s: State, t: Thread, a: Action)
    requires Invariant(s)
    ensures !Fooled(s, t, a)
  {
    assert ThreadOk(s, t);
    if t in s.spot && 0 < s.spot[t] <= |s.queue| {
      var k := s.spot[t] - 1;
      assert FlagOk(s, k) && ThreadOk(s, s.queue[k].0);
    }
  }

  lemma TestMeans(s: State, t: Thread)
    requires Invariant(s) && PhaseOf(s, t).Spinning? && MayEnter(s, PhaseOf(s, t).ticket)
    ensures t in s.spot && s.spot[t] == |s.left| == |s.entered| < |s.queue|
    ensures s.queue[s.spot[t]] == (t, s.phase[t].ticket)
  {
    hide Orderly, MayEnter, Fooled;
    NeverFooled(s, t, Test);
    PassMeans(s, t);
  }

  lemma NotHeld(s: State, ticket: Ticket, u: Thread)
    requires !InUse(s, ticket)
    ensures u in s.phase ==> !Holds(s.phase[u], ticket)
  {
  }

  lemma ThreadMoves(s: State, t: Thread, a: Action, u: Thread)
    requires Enabled(s, t, a) && ThreadOk(s, t) && ThreadOk(s, u) && HandsOk(s, t, u)
    requires s.top == (if s.queue == [] then None else Some(s.queue[|s.queue| - 1].1))
    requires |s.left| <= |s.entered| <= |s.queue| && |s.entered| <= |s.left| + 1
    requires a.Test? && MayEnter(s, PhaseOf(s, t).ticket) ==> s.spot[t] == |s.left| == |s.entered|
    requires a.Rewrite? && u in s.phase ==> !Holds(s.phase[u], a.ticket)
    ensures ThreadOk(Next(s, t, a), u)
  {
    hide InUse;
  }

  lemma ThreadKept(s: State, t: Thread, a: Action, u: Thread)
    requires Orderly(s) && Enabled(s, t, a) && !Fooled(s, t, a)
    ensures ThreadOk(Next(s, t, a), u)
  {
    hide ThreadOk, HandsOk, OwnerOk, FlagSoft, InUse, MayEnter, Fooled;
    assert ThreadOk(s, t) && ThreadOk(s, u) && HandsOk(s, t, u);
    if a.Rewrite? {
      NotHeld(s, a.ticket, u);
    }
    if a.Test? && MayEnter(s, PhaseOf(s, t).ticket) {
      PassMeans(s, t);
    }
    ThreadMoves(s, t, a, u);
  }

  lemma HandsKept(s: State, t: Thread, a: Action, u: Thread, v: Thread)
    requires Enabled(s, t, a) && HandsOk(s, u, v)
    ensures HandsOk(Next(s, t, a), u, v)
  {
    if a.Exchange? {
      NotHeld(s, a.ticket, u);
      NotHeld(s, a.ticket, v);
    }
  }

  lemma OwnerKept(s: State, t: Thread, a: Action, k: nat)
    requires Orderly(s) && Enabled(s, t, a) && k < |Next(s, t, a).queue|
    ensures OwnerOk(Next(s, t, a), k)
  {
    assert ThreadOk(s, t);
    if k < |s.queue| {
      assert OwnerOk(s, k) && ThreadOk(s, s.queue[k].0);
    }
  }

  lemma FlagSoftKept(s: State, t: Thread, a: Action, k: nat)
    requires Orderly(s) && Enabled(s, t, a) && k < |Next(s, t, a).queue|
    ensures FlagSoft(Next(s, t, a), k)
  {
    assert ThreadOk(s, t);
    if k < |s.queue| {
      assert FlagSoft(s, k);
      if |s.left| <= k {
        OwnerHolds(s, k);
        assert HandsOk(s, t, s.queue[k].0);
      }
    }
  }

  lemma FlagKept(s: State, t: Thread, a: Action, k: nat)
    requires Invariant(s) && Enabled(s, t, a) && Clean(s, a) && k < |Next(s, t, a).queue|
    ensures FlagOk(Next(s, t, a), k)
  {
    assert ThreadOk(s, t);
    if k < |s.queue| {
      assert FlagOk(s, k);
      if |s.left| <= k {
        OwnerHolds(s, k);
        assert HandsOk(s, t, s.queue[k].0);
      }
    }
  }

  lemma QueueKept(s: State, t: Thread, a: Action)
    requires Orderly(s) && Enabled(s, t, a) && !Fooled(s, t, a)
    ensures var s' := Next(s, t, a);
            && s'.top == (if s'.queue == [] then None else Some(s'.queue[|s'.queue| - 1].1))
            && s'.left <= s'.entered <= Tickets(s'.queue)
            && |s'.entered| <= |s'.left| + 1
  {
    assert ThreadOk(s, t);
    if a.Test? && MayEnter(s, PhaseOf(s, t).ticket) {
      PassMeans(s, t);
    }
  }

  /** Every step by which no thread is fooled keeps order. */
  lemma StepOrderly(s: State, t: Thread, a: Action)
    requires Orderly(s) && Enabled(s, t, a) && !Fooled(s, t, a)
    ensures Orderly(Next(s, t, a))
  {
    hide Enabled, Next, ThreadOk, OwnerOk, FlagSoft, HandsOk, Tickets, Fooled;
    var s' := Next(s, t, a);
    QueueKept(s, t, a);
    forall u ensures ThreadOk(s', u) {
      ThreadKept(s, t, a, u);
    }
    forall u, v ensures HandsOk(s', u, v) {
      HandsKept(s, t, a, u, v);
    }
    forall k | 0 <= k < |s'.queue| ensures OwnerOk(s', k) && FlagSoft(s', k) {
      OwnerKept(s, t, a, k);
      FlagSoftKept(s, t, a, k);
    }
  }

  /** Every step of any thread keeps the invariant. */
  lemma StepKeeps(s: State, t: Thread, a: Action)
    requires Invariant(s) && Enabled(s, t, a) && Clean(s, a)
    ensures Invariant(Next(s, t, a))
  {
    NeverFooled(s, t, a);
    StepOrderly(s, t, a);
    forall k | 0 <= k < |Next(s, t, a).queue| ensures FlagOk(Next(s, t, a), k) {
      FlagKept(s, t, a, k);
    }
  }

  // ----- Runs -----

  datatype Move = Move(thread: Thread, action: Action)

  ghost predicate Takes(s: State, m: Move, s': State) {
    Enabled(s, m.thread, m.action) && s' == Next(s, m.thread, m.action)
  }

  /** An interleaving of any number of threads. */
  ghost predicate IsRun(states: seq<State>, moves: seq<Move>) {
    |states| == |moves| + 1 && forall k :: 0 <= k < |moves| ==> Takes(states[k], moves[k], states[k + 1])
  }

  ghost predicate AllClean(states: seq<State>, moves: seq<Move>)
    requires |states| == |moves| + 1
  {
    forall k :: 0 <= k < |moves| ==> Clean(states[k], moves[k].action)
  }

  lemma {:induction false} RunKeeps(states: seq<State>, moves: seq<Move>, k: nat)
    requires IsRun(states, moves) && AllClean(states, moves) && Invariant(states[0]) && k <= |moves|
    ensures Invariant(states[k])
  {
    hide Invariant, Enabled, Next, Clean;
    if k > 0 {
      RunKeeps(states, moves, k - 1);
      assert Takes(states[k - 1], moves[k - 1], states[k - 1 + 1]) && Clean(states[k - 1], moves[k - 1].action);
      StepKeeps(states[k - 1], moves[k - 1].thread, moves[k - 1].action);
    }
  }

  /** In every interleaving in which no exchange publishes a ticket with its flag set, at most one
      thread is inside at any time, and threads enter in the order of their exchanges. */
  lemma RunSafe(stale: set<Ticket>, states: seq<State>, moves: seq<Move>, k: nat)
    requires IsRun(states, moves) && AllClean(states, moves) && states[0] == Initial(stale) && k <= |moves|
    ensures Safe(states[k])
  {
    InitiallyOk(stale);
    RunKeeps(states, moves, k);
    InvariantIsSafe(states[k]);
  }

  // ----- What the flag write is for -----

  /** From its flag write until its release, a thread's ticket does not have its flag set. */
  predicate WrittenOk(s: State, t: Thread) {
    t in s.phase &&
    ((s.phase[t].Publishing? && s.phase[t].flagWritten) || s.phase[t].Spinning? || s.phase[t].Inside?) ==>
      s.phase[t].ticket !in s.finished
  }

  ghost predicate Written(s: State) {
    (forall t, u :: HandsOk(s, t, u)) && (forall t :: WrittenOk(s, t))
  }

  lemma WrittenKept(s: State, t: Thread, a: Action, u: Thread)
    requires Enabled(s, t, a) && HandsOk(s, t, u) && WrittenOk(s, u)
    ensures WrittenOk(Next(s, t, a), u)
  {
    if a.Rewrite? {
      NotHeld(s, a.ticket, u);
    }
  }

  /** In every run, whatever the exchanges publish, a thread that spins or is inside holds a ticket
      whose flag is clear. */
  lemma {:induction false} RunWritten(stale: set<Ticket>, states: seq<State>, moves: seq<Move>, k: nat)
    requires IsRun(states, moves) && states[0] == Initial(stale) && k <= |moves|
    ensures Written(states[k])
    ensures forall t :: PhaseOf(states[k], t).Spinning? || PhaseOf(states[k], t).Inside? ==>
              PhaseOf(states[k], t).ticket !in states[k].finished
  {
    if k > 0 {
      hide HandsOk, Enabled, Next;
      RunWritten(stale, states, moves, k - 1);
      var s, t, a := states[k - 1], moves[k - 1].thread, moves[k - 1].action;
      assert Takes(s, moves[k - 1], states[k - 1 + 1]);
      forall u ensures WrittenOk(states[k], u) {
        WrittenKept(s, t, a, u);
      }
      forall u, v ensures HandsOk(states[k], u, v) {
        HandsKept(s, t, a, u, v);
      }
    }
    forall t ensures PhaseOf(states[k], t).Spinning? || PhaseOf(states[k], t).Inside? ==>
        PhaseOf(states[k], t).ticket !in states[k].finished
    {
      assert WrittenOk(states[k], t);
    }
  }

  // ----- Exactly which runs are safe -----

  /** A thread that is fooled enters out of turn. */
  lemma FooledBreaks(s: State, t: Thread, a: Action)
    requires Orderly(s) && Enabled(s, t, a) && Fooled(s, t, a)
    ensures !Safe(Next(s, t, a))
  {
    var k, p := s.spot[t], |s.entered|;
    assert ThreadOk(s, t) && ThreadOk(s, s.queue[k - 1].0);
    OwnerHolds(s, p);
    assert HandsOk(s, t, s.queue[p].0);
    var s' := Next(s, t, a);
    assert s'.entered[p] == s.phase[t].ticket != Tickets(s'.queue)[p];
  }

  ghost predicate NobodyFooled(states: seq<State>, moves: seq<Move>)
    requires |states| == |moves| + 1
  {
    forall k :: 0 <= k < |moves| ==> !Fooled(states[k], moves[k].thread, moves[k].action)
  }

  lemma {:induction false} RunOrderly(stale: set<Ticket>, states: seq<State>, moves: seq<Move>, k: nat)
    requires IsRun(states, moves) && states[0] == Initial(stale) && k <= |moves|
    requires (forall i :: 0 <= i <= |moves| ==> Safe(states[i])) || NobodyFooled(states, moves)
    ensures Orderly(states[k])
    ensures forall i :: 0 <= i < k ==> !Fooled(states[i], moves[i].thread, moves[i].action)
  {
    hide Orderly, Enabled, Next, Fooled, Safe, Initial;
    if k == 0 {
      InitiallyOrderly(stale);
    } else {
      RunOrderly(stale, states, moves, k - 1);
      var s, t, a := states[k - 1], moves[k - 1].thread, moves[k - 1].action;
      assert Takes(s, moves[k - 1], states[k - 1 + 1]);
      if Fooled(s, t, a) {
        FooledBreaks(s, t, a);
        assert false;
      }
      StepOrderly(s, t, a);
    }
  }

  lemma InitiallyOrderly(stale: set<Ticket>)
    ensures Orderly(Initial(stale))
  {
  }

  /** A run, clean or not, is safe throughout if and only if nobody passes the test because of a
      flag that its owner has yet to write. */
  lemma SafeExactlyWhenNobodyFooled(stale: set<Ticket>, states: seq<State>, moves: seq<Move>)
    requires IsRun(states, moves) && states[0] == Initial(stale)
    ensures (forall k :: 0 <= k <= |moves| ==> Safe(states[k])) <==> NobodyFooled(states, moves)
  {
    hide Orderly, Enabled, Next, Fooled, Safe, Initial;
    if NobodyFooled(states, moves) {
      forall k | 0 <= k <= |moves| ensures Safe(states[k]) {
        RunOrderly(stale, states, moves, k);
        OrderlyIsSafe(states[k]);
      }
    }
    if forall k :: 0 <= k <= |moves| ==> Safe(states[k]) {
      RunOrderly(stale, states, moves, |moves|);
    }
  }

  /** The thread tests the flag of the ticket before its own, whose owner has yet to write it. */
  predicate TestsUnwritten(s: State, t: Thread, a: Action) {
    a.Test? && t in s.spot && 0 < s.spot[t] <= |s.queue| && Unwritten(s, s.spot[t] - 1)
  }

  /** A stale ticket does no harm if nobody tests its flag before its owner has written it. */
  lemma StaleHarmless(stale: set<Ticket>, states: seq<State>, moves: seq<Move>, k: nat)
    requires IsRun(states, moves) && states[0] == Initial(stale) && k <= |moves|
    requires forall i :: 0 <= i < |moves| ==> !TestsUnwritten(states[i], moves[i].thread, moves[i].action)
    ensures Safe(states[k])
  {
    hide Safe, Unwritten;
    assert NobodyFooled(states, moves);
    SafeExactlyWhenNobodyFooled(stale, states, moves);
  }

  // ----- Exactly which exchanges are safe -----

  /** Whatever happens from here on, as long as later exchanges are clean. */
  ghost predicate AlwaysSafeFrom(s: State) {
    forall states, moves, k: nat ::
      IsRun(states, moves) && AllClean(states, moves) && states[0] == s && k <= |moves| ==> Safe(states[k])
  }

  lemma {:induction false} Beyond(used: set<nat>) returns (n: nat)
    ensures forall x :: x in used ==> x < n
    decreases |used|
  {
    if used == {} {
      n := 0;
    } else {
      var x :| x in used;
      var n' := Beyond(used - {x});
      n := if x < n' then n' else x + 1;
      forall y | y in used ensures y < n {
        assert y == x || y in used - {x};
      }
    }
  }

  /** A thread and a ticket that have had no part in anything so far. */
  lemma Newcomer(s: State, t: Thread, ticket: Ticket) returns (u: Thread, b: Ticket)
    ensures u !in s.phase && u != t && b != ticket && b !in s.finished
    ensures forall k :: 0 <= k < |s.queue| ==> s.queue[k].1 != b
  {
    u := Beyond(s.phase.Keys + {t});
    var tickets := set k | 0 <= k < |s.queue| :: s.queue[k].1;
    b := Beyond(s.finished + tickets + {ticket});
    forall k | 0 <= k < |s.queue| ensures s.queue[k].1 != b {
      assert s.queue[k].1 in tickets;
    }
  }

  lemma Unheld(s: State, b: Ticket)
    requires Invariant(s) && forall k :: 0 <= k < |s.queue| ==> s.queue[k].1 != b
    ensures !InUse(s, b)
  {
    forall t | t in s.phase ensures !Holds(s.phase[t], b) {
      assert ThreadOk(s, t);
    }
  }

  /** The newcomer queues up behind the stale ticket, takes its flag for a release, and is in. */
  lemma Overtake(s: State, u: Thread, b: Ticket, ticket: Ticket) returns (states: seq<State>, moves: seq<Move>)
    requires u !in s.phase && !InUse(s, b) && b != ticket && b !in s.finished
    requires s.top == Some(ticket) && ticket in s.finished
    ensures |moves| == 5 && |states| == 6 && states[0] == s && IsRun(states, moves) && AllClean(states, moves)
    ensures states[5].entered == s.entered + [b] && states[5].queue == s.queue + [(u, b)]
  {
    hide InUse;
    var s1 := Next(s, u, Exchange(b));
    var s2 := Next(s1, u, WriteFlag);
    var s3 := Next(s2, u, WritePrev);
    var s4 := Next(s3, u, StartSpin);
    var s5 := Next(s4, u, Test);
    states := [s, s1, s2, s3, s4, s5];
    moves := [Move(u, Exchange(b)), Move(u, WriteFlag), Move(u, WritePrev), Move(u, StartSpin), Move(u, Test)];
    forall k | 0 <= k < |moves|
      ensures Takes(states[k], moves[k], states[k + 1]) && Clean(states[k], moves[k].action)
    {
      assert k == 0 || k == 1 || k == 2 || k == 3 || k == 4;
    }
  }

  lemma OutOfTurn(s: State, b: Ticket, t: Thread, ticket: Ticket, s': State, u: Thread)
    requires s.entered <= Tickets(s.queue) && b != ticket
    requires forall k :: 0 <= k < |s.queue| ==> s.queue[k].1 != b
    requires s'.entered == s.entered + [b] && s'.queue == s.queue + [(t, ticket)] + [(u, b)]
    ensures !Safe(s')
  {
    assert s'.entered[|s.entered|] == b;
    assert Tickets(s'.queue)[|s.entered|] == s'.queue[|s.entered|].1 != b;
  }

  lemma UnheldStill(s: State, t: Thread, ticket: Ticket, b: Ticket)
    requires Enabled(s, t, Exchange(ticket)) && !InUse(s, b) && b != ticket
    ensures !InUse(Next(s, t, Exchange(ticket)), b)
  {
    var s' := Next(s, t, Exchange(ticket));
    forall v | v in s'.phase ensures !Holds(s'.phase[v], b) {
      NotHeld(s, b, v);
    }
  }

  /** In any state that clean steps lead to, all that clean steps can do after an exchange is safe
      if and only if the flag of its ticket is false. */
  lemma SafeExactlyWhenClean(s: State, t: Thread, ticket: Ticket)
    requires Invariant(s) && Enabled(s, t, Exchange(ticket))
    ensures AlwaysSafeFrom(Next(s, t, Exchange(ticket))) <==> ticket !in s.finished
  {
    hide Invariant, Safe, InUse, IsRun, AllClean, Tickets;
    var s' := Next(s, t, Exchange(ticket));
    if ticket !in s.finished {
      StepKeeps(s, t, Exchange(ticket));
      SafeFrom(s');
    } else {
      var u, b := Newcomer(s, t, ticket);
      Unheld(s, b);
      UnheldStill(s, t, ticket, b);
      var states, moves := Overtake(s', u, b, ticket);
      InOrder(s);
      OutOfTurn(s, b, t, ticket, states[5], u);
      assert IsRun(states, moves) && AllClean(states, moves) && !Safe(states[5]);
    }
  }

  lemma SafeFrom(s: State)
    requires Invariant(s)
    ensures AlwaysSafeFrom(s)
  {
    forall states, moves, k: nat | IsRun(states, moves) && AllClean(states, moves) && states[0] == s && k <= |moves|
      ensures Safe(states[k])
    {
      hide *;
      RunKeeps(states, moves, k);
      InvariantIsSafe(states[k]);
    }
  }

  lemma InOrder(s: State)
    requires Invariant(s)
    ensures s.entered <= Tickets(s.queue)
  {
  }

  // ----- Tickets used once -----

  /** No ticket is exchanged a second time, or written to from outside. */
  predicate FirstUse(s: State, a: Action) {
    (a.Exchange? ==> !Used(s, a.ticket)) && !a.Rewrite?
  }

  ghost predicate FirstUses(states: seq<State>, moves: seq<Move>)
    requires |states| == |moves| + 1
  {
    forall k :: 0 <= k < |moves| ==> FirstUse(states[k], moves[k].action)
  }

  /** No two positions of the queue have the same ticket, and flags say exactly which have finished. */
  ghost predicate Single(s: State) {
    && (forall i, j :: 0 <= i < j < |s.queue| ==> s.queue[i].1 != s.queue[j].1)
    && (forall k :: 0 <= k < |s.queue| && k < |s.left| ==> s.queue[k].1 in s.finished)
  }

  /** Only stale tickets and tickets that have been queued have their flag set. */
  ghost predicate Explained(s: State, stale: set<Ticket>) {
    forall ticket :: ticket in s.finished ==> ticket in stale || Used(s, ticket)
  }

  lemma StepExplained(s: State, t: Thread, a: Action, stale: set<Ticket>)
    requires Invariant(s) && Explained(s, stale) && Enabled(s, t, a) && FirstUse(s, a)
    ensures Explained(Next(s, t, a), stale)
  {
    var s' := Next(s, t, a);
    assert ThreadOk(s, t);
    forall ticket | Used(s, ticket)
      ensures Used(s', ticket)
    {
      var k :| 0 <= k < |s.queue| && s.queue[k].1 == ticket;
      assert s'.queue[k].1 == ticket;
    }
  }

  lemma StepSingle(s: State, t: Thread, a: Action)
    requires Invariant(s) && Single(s) && Enabled(s, t, a) && FirstUse(s, a)
    ensures Single(Next(s, t, a))
  {
    var s' := Next(s, t, a);
    assert ThreadOk(s, t);
    forall k | 0 <= k < |s.queue| ensures a.Exchange? ==> s.queue[k].1 != a.ticket {
    }
  }

  /** In a run without stale tickets in which each serves once, every exchange is clean. */
  lemma {:induction false} FirstUsesClean(states: seq<State>, moves: seq<Move>, k: nat)
    requires IsRun(states, moves) && FirstUses(states, moves) && states[0] == Initial({}) && k <= |moves|
    ensures Invariant(states[k]) && Single(states[k]) && Explained(states[k], {})
  {
    hide Invariant, Single, Explained, Enabled, Next, FirstUse, Initial;
    if k == 0 {
      InitiallyOk({});
      InitiallySingle();
    } else {
      FirstUsesClean(states, moves, k - 1);
      var s, t, a := states[k - 1], moves[k - 1].thread, moves[k - 1].action;
      assert Takes(s, moves[k - 1], states[k - 1 + 1]) && FirstUse(s, a);
      UnusedIsClean(s, a);
      StepKeeps(s, t, a);
      StepSingle(s, t, a);
      StepExplained(s, t, a, {});
    }
  }

  lemma InitiallySingle()
    ensures Single(Initial({})) && Explained(Initial({}), {})
  {
  }

  lemma UnusedIsClean(s: State, a: Action)
    requires Explained(s, {}) && FirstUse(s, a)
    ensures Clean(s, a)
  {
  }

  /** Once the owner of a finished ticket has left, the ticket links to nothing. */
  predicate LinkOk(s: State, k: nat)
    requires k < |s.queue|
  {
    k < |s.left| ==>
      var (t, ticket) := s.queue[k];
      (t in s.phase && s.phase[t] == Leaving(ticket)) || (ticket in s.prev && s.prev[ticket] == None)
  }

  lemma LinkKept(s: State, t: Thread, a: Action, k: nat)
    requires Invariant(s) && Single(s) && Enabled(s, t, a) && FirstUse(s, a)
    requires k < |Next(s, t, a).queue| && (k < |s.queue| ==> LinkOk(s, k))
    ensures LinkOk(Next(s, t, a), k)
  {
    assert ThreadOk(s, t);
  }

  /** In runs in which each ticket serves once, MCSUnlock leaves the ticket without a predecessor. */
  lemma {:induction false} LinksCleared(states: seq<State>, moves: seq<Move>, k: nat, i: nat)
    requires IsRun(states, moves) && FirstUses(states, moves) && states[0] == Initial({}) && k <= |moves|
    requires i < |states[k].queue|
    ensures LinkOk(states[k], i)
  {
    if k > 0 {
      FirstUsesClean(states, moves, k - 1);
      hide Invariant, Single, Enabled, Next, FirstUse, LinkOk;
      var s, t, a := states[k - 1], moves[k - 1].thread, moves[k - 1].action;
      assert Takes(s, moves[k - 1], states[k - 1 + 1]) && FirstUse(s, a);
      if i < |s.queue| {
        LinksCleared(states, moves, k - 1, i);
      }
      LinkKept(s, t, a, i);
    }
  }

  /** Tickets that each serve once exclude each other in every run. */
  ghost predicate AlwaysExclusive(stale: set<Ticket>) {
    forall states, moves, k: nat ::
      IsRun(states, moves) && FirstUses(states, moves) && states[0] == Initial(stale) && k <= |moves| ==>
        MutualExclusion(states[k])
  }

  /** The moves by which a stale ticket `a` lets a second thread in: thread 1 publishes it, and
      thread 2, queued behind it with ticket `b`, takes its flag for a release. */
  function Break(a: Ticket, b: Ticket): seq<Move> {
    [Move(1, Exchange(a)), Move(2, Exchange(b)),
     Move(2, WriteFlag), Move(2, WritePrev), Move(2, StartSpin), Move(2, Test),
     Move(1, WriteFlag), Move(1, WritePrev), Move(1, StartSpin), Move(1, Test)]
  }

  function BreakStates(stale: set<Ticket>, a: Ticket, b: Ticket): seq<State> {
    var q1, q2 := [(1, a)], [(1, a), (2, b)];
    var s0 := Initial(stale);
    var s1 := s0.(top := Some(a), phase := map[1 := Publishing(a, None, false, false)], queue := q1,
                  spot := map[1 := 0]);
    var s2 := s1.(top := Some(b), phase := s1.phase[2 := Publishing(b, Some(a), false, false)], queue := q2,
                  spot := s1.spot[2 := 1]);
    var s3 := s2.(finished := stale - {b}, phase := s2.phase[2 := Publishing(b, Some(a), true, false)]);
    var s4 := s3.(prev := map[b := Some(a)], phase := s3.phase[2 := Publishing(b, Some(a), true, true)]);
    var s5 := s4.(phase := s4.phase[2 := Spinning(b)]);
    var s6 := s5.(phase := s5.phase[2 := Inside(b)], entered := [b]);
    var s7 := s6.(finished := stale - {b} - {a}, phase := s6.phase[1 := Publishing(a, None, true, false)]);
    var s8 := s7.(prev := s7.prev[a := None], phase := s7.phase[1 := Publishing(a, None, true, true)]);
    var s9 := s8.(phase := s8.phase[1 := Spinning(a)]);
    var s10 := s9.(phase := s9.phase[1 := Inside(a)], entered := [b, a]);
    [s0, s1, s2, s3, s4, s5, s6, s7, s8, s9, s10]
  }

  lemma BreakRuns(stale: set<Ticket>, a: Ticket, b: Ticket)
    requires a in stale && a != b
    ensures IsRun(BreakStates(stale, a, b), Break(a, b)) && BreakStates(stale, a, b)[0] == Initial(stale)
    ensures FirstUses(BreakStates(stale, a, b), Break(a, b))
    ensures !MutualExclusion(BreakStates(stale, a, b)[10])
  {
    var states, moves := BreakStates(stale, a, b), Break(a, b);
    forall k | 0 <= k < |moves|
      ensures Takes(states[k], moves[k], states[k + 1]) && FirstUse(states[k], moves[k].action)
    {
      BreakStep(stale, a, b, k);
    }
    assert IsInside(states[10], 1) && IsInside(states[10], 2);
  }

  lemma BreakStep(stale: set<Ticket>, a: Ticket, b: Ticket, k: nat)
    requires a in stale && a != b && k < 10
    ensures Takes(BreakStates(stale, a, b)[k], Break(a, b)[k], BreakStates(stale, a, b)[k + 1])
    ensures FirstUse(BreakStates(stale, a, b)[k], Break(a, b)[k].action)
  {
  }

  /** The exchange publishes a ticket before its flag is written, so with tickets that each serve
      once the lock excludes in every interleaving if and only if no flag is set to begin with. */
  lemma SafeExactlyWhenFresh(stale: set<Ticket>)
    ensures AlwaysExclusive(stale) <==> stale == {}
  {
    if stale == {} {
      forall states, moves, k: nat |
        IsRun(states, moves) && FirstUses(states, moves) && states[0] == Initial(stale) && k <= |moves|
        ensures MutualExclusion(states[k])
      {
        hide Invariant;
        FirstUsesClean(states, moves, k);
        InvariantIsSafe(states[k]);
      }
    } else {
      var a :| a in stale;
      BreakRuns(stale, a, a + 1);
    }
  }

  // ----- Progress -----

  /** Somebody is inside exactly while one more thread has entered than has finished. */
  lemma HeldMeans(s: State)
    requires Invariant(s)
    ensures (exists t :: IsInside(s, t)) <==> |s.entered| == |s.left| + 1
  {
    if t :| IsInside(s, t) {
      assert ThreadOk(s, t);
    }
    if |s.entered| == |s.left| + 1 {
      var t := s.queue[|s.left|].0;
      assert OwnerOk(s, |s.left|) && ThreadOk(s, t);
      assert IsInside(s, t);
    }
  }

  /** The number of own steps, each of which it can take, that a thread is away from its loop test. */
  function StepsLeft(ph: Phase): nat {
    match ph
    case Publishing(_, _, flagWritten, prevWritten) =>
      2 + (if flagWritten then 0 else 1) + (if prevWritten then 0 else 1)
    case _ => 1
  }

  /** While nobody is inside, the flag of the last ticket to finish is what the next thread waits for. */
  predicate Signalled(s: State) {
    |s.entered| == |s.left| && 0 < |s.left| <= |s.queue| ==> s.queue[|s.left| - 1].1 in s.finished
  }

  /** Its owner does not clear that flag before the next thread is in. */
  predicate Careful(s: State, a: Action) {
    a.Rewrite? && !a.flag && |s.entered| == |s.left| && 0 < |s.left| <= |s.queue| ==>
      a.ticket != s.queue[|s.left| - 1].1
  }

  lemma InitiallySignalled(stale: set<Ticket>)
    ensures Signalled(Initial(stale))
  {
  }

  lemma SignalKept(s: State, t: Thread, a: Action)
    requires Invariant(s) && Signalled(s) && Enabled(s, t, a) && Careful(s, a)
    ensures Signalled(Next(s, t, a))
  {
    assert ThreadOk(s, t);
    if a.WriteFlag? {
      assert FlagOk(s, s.spot[t]);
    }
  }

  /** Thread `t` made the earliest exchange that has not finished, and nobody is inside. */
  predicate IsNext(s: State, t: Thread) {
    |s.entered| == |s.left| < |s.queue| && s.queue[|s.left|].0 == t
  }

  /** A step of its own takes it nearer to entering, or in; ... */
  lemma OwnStep(s: State, t: Thread, a: Action)
    requires Invariant(s) && Signalled(s) && IsNext(s, t) && Enabled(s, t, a)
    ensures var s' := Next(s, t, a);
            if StepsLeft(PhaseOf(s, t)) == 1 then IsInside(s', t)
            else IsNext(s', t) && StepsLeft(PhaseOf(s', t)) == StepsLeft(PhaseOf(s, t)) - 1
  {
    assert OwnerOk(s, |s.left|) && ThreadOk(s, t);
  }

  /** ... one of another thread takes it no farther away. */
  lemma OtherStep(s: State, t: Thread, u: Thread, a: Action)
    requires Invariant(s) && IsNext(s, t) && u != t && Enabled(s, u, a)
    ensures IsNext(Next(s, u, a), t) && PhaseOf(Next(s, u, a), t) == PhaseOf(s, t)
  {
    assert ThreadOk(s, u);
    if a.Test? && MayEnter(s, PhaseOf(s, u).ticket) {
      TestMeans(s, u);
    }
  }

  lemma SomeStep(s: State, t: Thread) returns (a: Action)
    requires Invariant(s) && IsNext(s, t)
    ensures Enabled(s, t, a) && Clean(s, a) && Careful(s, a)
  {
    assert OwnerOk(s, |s.left|) && ThreadOk(s, t);
    var ph := PhaseOf(s, t);
    a := if ph.Spinning? then Test
         else if !ph.flagWritten then WriteFlag
         else if !ph.prevWritten then WritePrev
         else StartSpin;
  }

  function StepsOf(moves: seq<Move>, t: Thread): nat {
    if moves == [] then 0 else (if moves[0].thread == t then 1 else 0) + StepsOf(moves[1..], t)
  }

  ghost predicate AllCareful(states: seq<State>, moves: seq<Move>)
    requires |states| == |moves| + 1
  {
    forall k :: 0 <= k < |moves| ==> Careful(states[k], moves[k].action)
  }

  lemma TailRun(states: seq<State>, moves: seq<Move>)
    requires IsRun(states, moves) && AllClean(states, moves) && AllCareful(states, moves) && moves != []
    ensures IsRun(states[1..], moves[1..]) && AllClean(states[1..], moves[1..]) && AllCareful(states[1..], moves[1..])
    ensures Takes(states[0], moves[0], states[1])
    ensures Clean(states[0], moves[0].action) && Careful(states[0], moves[0].action)
  {
    hide Takes, Clean, Careful;
    assert Takes(states[0], moves[0], states[0 + 1]);
    forall k | 0 <= k < |moves[1..]|
      ensures Takes(states[1..][k], moves[1..][k], states[1..][k + 1])
      ensures Clean(states[1..][k], moves[1..][k].action) && Careful(states[1..][k], moves[1..][k].action)
    {
      assert Takes(states[k + 1], moves[k + 1], states[k + 1 + 1]);
      assert Clean(states[k + 1], moves[k + 1].action) && Careful(states[k + 1], moves[k + 1].action);
    }
  }

  lemma StepsOfFront(moves: seq<Move>, t: Thread, n: nat)
    requires moves != [] && n <= |moves| - 1
    ensures StepsOf(moves[..n + 1], t) == (if moves[0].thread == t then 1 else 0) + StepsOf(moves[1..][..n], t)
  {
    assert moves[..n + 1][1..] == moves[1..][..n];
  }

  /** Whatever other threads do in between, the next thread is inside when it has taken the steps
      that were left to it, which are at most four. */
  lemma {:induction false} NextGetsIn(states: seq<State>, moves: seq<Move>, t: Thread) returns (n: nat)
    requires IsRun(states, moves) && AllClean(states, moves) && AllCareful(states, moves)
    requires Invariant(states[0]) && Signalled(states[0]) && IsNext(states[0], t)
    requires StepsOf(moves, t) >= StepsLeft(PhaseOf(states[0], t))
    ensures n <= |moves| && IsInside(states[n], t)
    ensures StepsOf(moves[..n], t) == StepsLeft(PhaseOf(states[0], t)) <= 4
    decreases |moves|
  {
    hide Invariant, Signalled, IsNext, IsRun, AllClean, AllCareful, Enabled, Next, IsInside, Clean, Careful, StepsLeft;
    IsRunLength(states, moves);
    StepsLeftIs(PhaseOf(states[0], t));
    TailRun(states, moves);
    var s, u, a := states[0], moves[0].thread, moves[0].action;
    StepKeeps(s, u, a);
    SignalKept(s, u, a);
    if u == t {
      OwnStep(s, t, a);
    } else {
      OtherStep(s, t, u, a);
    }
    if u == t && StepsLeft(PhaseOf(s, t)) == 1 {
      n := 1;
      assert moves[..1][1..] == [];
    } else {
      var n' := NextGetsIn(states[1..], moves[1..], t);
      StepsOfFront(moves, t, n');
      n := n' + 1;
    }
  }

  lemma IsRunLength(states: seq<State>, moves: seq<Move>)
    requires IsRun(states, moves)
    ensures |states| == |moves| + 1
  {
  }

  lemma StepsLeftIs(ph: Phase)
    ensures 1 <= StepsLeft(ph) <= 4
  {
  }

  /** Steps of one thread, while no other thread moves. */
  ghost predicate RunsAlone(s: State, t: Thread, actions: seq<Action>, s': State)
    decreases |actions|
  {
    if actions == [] then s' == s
    else Enabled(s, t, actions[0]) && RunsAlone(Next(s, t, actions[0]), t, actions[1..], s')
  }

  lemma {:induction false} OwnerGetsIn(s: State, t: Thread) returns (actions: seq<Action>, s': State)
    requires Invariant(s) && Signalled(s) && IsNext(s, t)
    ensures |actions| == StepsLeft(PhaseOf(s, t)) && RunsAlone(s, t, actions, s') && IsInside(s', t)
    decreases StepsLeft(PhaseOf(s, t))
  {
    hide Invariant, Signalled, IsNext, Enabled, Next, IsInside, StepsLeft, Careful, Clean;
    StepsLeftIs(PhaseOf(s, t));
    var a := SomeStep(s, t);
    var s1 := Next(s, t, a);
    OwnStep(s, t, a);
    StepKeeps(s, t, a);
    SignalKept(s, t, a);
    if StepsLeft(PhaseOf(s, t)) == 1 {
      actions, s' := [a], s1;
      assert actions[1..] == [];
    } else {
      actions, s' := OwnerGetsIn(s1, t);
      assert ([a] + actions)[1..] == actions;
      actions := [a] + actions;
    }
  }

  /** Whenever tickets are queued and nobody is inside, the owner of the earliest unfinished one
      gets in by at most four steps of its own, if the flag it waits for is still set. */
  lemma EarliestCanEnter(s: State) returns (t: Thread, actions: seq<Action>, s': State)
    requires Invariant(s) && Signalled(s) && |s.left| < |s.queue| && forall u :: !IsInside(s, u)
    ensures t == s.queue[|s.left|].0
    ensures |actions| <= 4 && RunsAlone(s, t, actions, s') && IsInside(s', t)
  {
    HeldMeans(s);
    t := s.queue[|s.left|].0;
    actions, s' := OwnerGetsIn(s, t);
  }

  /** The flag of the last ticket to finish has been cleared before the next thread got in. */
  predicate Lost(s: State) {
    |s.entered| == |s.left| && 0 < |s.left| <= |s.queue| && s.queue[|s.left| - 1].1 !in s.finished
  }

  /** Writes that flag again. */
  predicate Restores(s: State, a: Action) {
    a.Rewrite? && a.flag && 0 < |s.left| <= |s.queue| && a.ticket == s.queue[|s.left| - 1].1
  }

  lemma LostStays(s: State, t: Thread, a: Action)
    requires Invariant(s) && Lost(s) && Enabled(s, t, a) && !Restores(s, a)
    ensures Lost(Next(s, t, a)) && Next(s, t, a).entered == s.entered && Next(s, t, a).left == s.left
  {
    assert ThreadOk(s, t);
    if a.Test? && MayEnter(s, PhaseOf(s, t).ticket) {
      TestMeans(s, t);
      assert false;
    }
  }

  /** Then nobody ever gets in again, unless the flag is written once more from outside. */
  lemma {:induction false} LostForever(states: seq<State>, moves: seq<Move>, k: nat)
    requires IsRun(states, moves) && AllClean(states, moves) && Invariant(states[0]) && Lost(states[0]) && k <= |moves|
    requires forall i :: 0 <= i < |moves| ==> !Restores(states[i], moves[i].action)
    ensures Lost(states[k]) && states[k].entered == states[0].entered
  {
    hide Invariant, Lost, Enabled, Next, Restores;
    if k > 0 {
      LostForever(states, moves, k - 1);
      RunKeeps(states, moves, k - 1);
      assert Takes(states[k - 1], moves[k - 1], states[k - 1 + 1]);
      LostStays(states[k - 1], moves[k - 1].thread, moves[k - 1].action);
    }
  }

  lemma {:induction false} LostAlone(s: State, t: Thread, actions: seq<Action>, s': State)
    requires Invariant(s) && Lost(s) && IsNext(s, t) && RunsAlone(s, t, actions, s')
    ensures !IsInside(s', t)
    decreases |actions|
  {
    if actions == [] {
      NobodyInside(s, t);
    } else {
      hide Invariant, Lost, IsNext, Enabled, Next;
      var a := actions[0];
      LostStep(s, t, a);
      StepKeeps(s, t, a);
      LostStays(s, t, a);
      LostAlone(Next(s, t, a), t, actions[1..], s');
    }
  }

  lemma NobodyInside(s: State, t: Thread)
    requires Invariant(s) && |s.entered| == |s.left|
    ensures !IsInside(s, t)
  {
    assert ThreadOk(s, t);
  }

  lemma LostStep(s: State, t: Thread, a: Action)
    requires Invariant(s) && Lost(s) && IsNext(s, t) && Enabled(s, t, a)
    ensures !Restores(s, a) && Clean(s, a) && IsNext(Next(s, t, a), t)
  {
    assert OwnerOk(s, |s.left|) && ThreadOk(s, t);
    if a.Test? && MayEnter(s, PhaseOf(s, t).ticket) {
      TestMeans(s, t);
    }
  }

  /** The next thread can get in by itself if and only if the flag it waits for is still set. */
  lemma EntersExactlyWhenSignalled(s: State, t: Thread)
    requires Invariant(s) && IsNext(s, t)
    ensures (exists actions, s' :: RunsAlone(s, t, actions, s') && IsInside(s', t)) <==> Signalled(s)
  {
    hide Invariant, RunsAlone, IsInside;
    if Signalled(s) {
      var actions, s' := OwnerGetsIn(s, t);
    } else {
      forall actions, s' | RunsAlone(s, t, actions, s')
        ensures !IsInside(s', t)
      {
        LostAlone(s, t, actions, s');
      }
    }
  }

  // ----- Progress in every reachable state -----

  lemma {:induction false} RunSignalled(stale: set<Ticket>, states: seq<State>, moves: seq<Move>, k: nat)
    requires IsRun(states, moves) && AllClean(states, moves) && states[0] == Initial(stale) && k <= |moves|
    requires forall i :: 0 <= i < k ==> Careful(states[i], moves[i].action)
    ensures Invariant(states[k]) && Signalled(states[k])
  {
    hide Invariant, Signalled, Enabled, Next, Careful, Initial;
    InitiallyOk(stale);
    RunKeeps(states, moves, k);
    if k == 0 {
      InitiallySignalled(stale);
    } else {
      RunSignalled(stale, states, moves, k - 1);
      assert Takes(states[k - 1], moves[k - 1], states[k - 1 + 1]);
      SignalKept(states[k - 1], moves[k - 1].thread, moves[k - 1].action);
    }
  }

  lemma CarelessLoses(s: State, t: Thread, a: Action)
    requires Invariant(s) && Enabled(s, t, a) && !Careful(s, a)
    ensures Lost(Next(s, t, a)) && !Signalled(Next(s, t, a))
  {
  }

  /** In a clean run, the flag that the next thread waits for is set at every moment if and only if
      nobody clears the last one to be set before the next thread is in. */
  lemma SignalledExactlyWhenCareful(stale: set<Ticket>, states: seq<State>, moves: seq<Move>)
    requires IsRun(states, moves) && AllClean(states, moves) && states[0] == Initial(stale)
    ensures (forall k :: 0 <= k <= |moves| ==> Signalled(states[k])) <==> AllCareful(states, moves)
  {
    hide Invariant, Signalled, Enabled, Next, Careful, Initial;
    if AllCareful(states, moves) {
      forall k | 0 <= k <= |moves| ensures Signalled(states[k]) {
        RunSignalled(stale, states, moves, k);
      }
    }
    if k :| 0 <= k < |moves| && !Careful(states[k], moves[k].action) {
      InitiallyOk(stale);
      RunKeeps(states, moves, k);
      assert Takes(states[k], moves[k], states[k + 1]);
      CarelessLoses(states[k], moves[k].thread, moves[k].action);
      assert !Signalled(states[k + 1]);
    }
  }

  /** Lock progress: in every state of a clean and careful run, if tickets are queued and nobody is
      inside, the owner of the earliest unfinished one gets in by at most four steps of its own. */
  lemma RunProgresses(stale: set<Ticket>, states: seq<State>, moves: seq<Move>, k: nat)
    returns (t: Thread, actions: seq<Action>, s': State)
    requires IsRun(states, moves) && AllClean(states, moves) && AllCareful(states, moves)
    requires states[0] == Initial(stale) && k <= |moves|
    requires |states[k].left| < |states[k].queue| && forall u :: !IsInside(states[k], u)
    ensures t == states[k].queue[|states[k].left|].0
    ensures |actions| <= 4 && RunsAlone(states[k], t, actions, s') && IsInside(s', t)
  {
    hide Invariant, Signalled, Careful, RunsAlone;
    RunSignalled(stale, states, moves, k);
    t, actions, s' := EarliestCanEnter(states[k]);
  }

  lemma RunFrom(states: seq<State>, moves: seq<Move>, k: nat)
    requires IsRun(states, moves) && AllClean(states, moves) && AllCareful(states, moves) && k <= |moves|
    ensures |states[k..]| == |moves[k..]| + 1
    ensures IsRun(states[k..], moves[k..]) && AllClean(states[k..], moves[k..]) && AllCareful(states[k..], moves[k..])
  {
    hide Takes, Clean, Careful;
    forall i | 0 <= i < |moves[k..]|
      ensures Takes(states[k..][i], moves[k..][i], states[k..][i + 1])
      ensures Clean(states[k..][i], moves[k..][i].action) && Careful(states[k..][i], moves[k..][i].action)
    {
      assert Takes(states[k + i], moves[k + i], states[k + i + 1]);
      assert Clean(states[k + i], moves[k + i].action) && Careful(states[k + i], moves[k + i].action);
    }
  }

  /** And it does get in, whatever other threads do meanwhile: from any moment `k` of such a run at
      which thread `t` is next, it is inside as soon as it has taken the steps left to it. */
  lemma RunLetsNextIn(stale: set<Ticket>, states: seq<State>, moves: seq<Move>, k: nat, t: Thread)
    returns (n: nat)
    requires IsRun(states, moves) && AllClean(states, moves) && AllCareful(states, moves)
    requires states[0] == Initial(stale) && k <= |moves| && IsNext(states[k], t)
    requires StepsOf(moves[k..], t) >= StepsLeft(PhaseOf(states[k], t))
    ensures k <= n <= |moves| && IsInside(states[n], t)
    ensures StepsOf(moves[k..n], t) == StepsLeft(PhaseOf(states[k], t)) <= 4
  {
    hide Invariant, Signalled, Careful, IsNext, IsInside, StepsLeft, StepsOf, IsRun, AllClean, AllCareful, Initial;
    IsRunLength(states, moves);
    SignalledAt(stale, states, moves, k);
    RunFrom(states, moves, k);
    n := NextGetsIn(states[k..], moves[k..], t);
    assert moves[k..][..n] == moves[k..k + n];
    n := k + n;
  }

  lemma SignalledAt(stale: set<Ticket>, states: seq<State>, moves: seq<Move>, k: nat)
    requires IsRun(states, moves) && AllClean(states, moves) && AllCareful(states, moves)
    requires states[0] == Initial(stale) && k <= |moves|
    ensures Invariant(states[k]) && Signalled(states[k])
  {
    hide Invariant, Signalled, Careful;
    RunSignalled(stale, states, moves, k);
  }

  /** When each ticket serves once nothing needs to be asked: every exchange is clean, and nobody
      clears a flag. */
  lemma FirstUsesAreCareful(states: seq<State>, moves: seq<Move>)
    requires IsRun(states, moves) && FirstUses(states, moves) && states[0] == Initial({})
    ensures AllClean(states, moves) && AllCareful(states, moves)
  {
    hide Invariant, Single, Explained, Initial;
    forall k | 0 <= k < |moves|
      ensures Clean(states[k], moves[k].action) && Careful(states[k], moves[k].action)
    {
      FirstUsesClean(states, moves, k);
      assert FirstUse(states[k], moves[k].action);
      UnusedIsClean(states[k], moves[k].action);
    }
  }

  /** Lock progress for tickets that each serve once: in every reachable state, ... */
  lemma FirstUsesProgress(states: seq<State>, moves: seq<Move>, k: nat)
    returns (t: Thread, actions: seq<Action>, s': State)
    requires IsRun(states, moves) && FirstUses(states, moves) && states[0] == Initial({}) && k <= |moves|
    requires |states[k].left| < |states[k].queue| && forall u :: !IsInside(states[k], u)
    ensures t == states[k].queue[|states[k].left|].0
    ensures |actions| <= 4 && RunsAlone(states[k], t, actions, s') && IsInside(s', t)
  {
    hide IsRun, FirstUses, AllClean, AllCareful, IsInside, RunsAlone, Initial;
    IsRunLength(states, moves);
    FirstUsesAreCareful(states, moves);
    t, actions, s' := RunProgresses({}, states, moves, k);
  }

  /** ... and in every interleaving. */
  lemma FirstUsesLetNextIn(states: seq<State>, moves: seq<Move>, k: nat, t: Thread) returns (n: nat)
    requires IsRun(states, moves) && FirstUses(states, moves) && states[0] == Initial({}) && k <= |moves|
    requires IsNext(states[k], t) && StepsOf(moves[k..], t) >= StepsLeft(PhaseOf(states[k], t))
    ensures k <= n <= |moves| && IsInside(states[n], t)
    ensures StepsOf(moves[k..n], t) == StepsLeft(PhaseOf(states[k], t)) <= 4
  {
    hide IsRun, FirstUses, AllClean, AllCareful, IsInside, IsNext, Initial, StepsOf, StepsLeft;
    IsRunLength(states, moves);
    FirstUsesAreCareful(states, moves);
    n := RunLetsNextIn({}, states, moves, k, t);
  }

  /** The moves by which a release is lost: thread 2 queues up behind thread 1, which leaves and at
      once clears the flag of its ticket. */
  function Losing(): seq<Move> {
    [Move(1, Exchange(1)), Move(1, WriteFlag), Move(1, WritePrev), Move(1, StartSpin), Move(1, Test),
     Move(2, Exchange(2)), Move(1, Finish), Move(1, ClearPrev), Move(1, Rewrite(1, false, None))]
  }

  function LosingStates(): seq<State> {
    var s0 := Initial({});
    var s1 := State(Some(1), {}, map[], map[1 := Publishing(1, None, false, false)], [(1, 1)], [], [], map[1 := 0]);
    var s2 := s1.(phase := map[1 := Publishing(1, None, true, false)]);
    var s3 := s2.(prev := map[1 := None], phase := map[1 := Publishing(1, None, true, true)]);
    var s4 := s3.(phase := map[1 := Spinning(1)]);
    var s5 := s4.(phase := map[1 := Inside(1)], entered := [1]);
    var waiting := Publishing(2, Some(1), false, false);
    var s6 := s5.(top := Some(2), phase := map[1 := Inside(1), 2 := waiting], queue := [(1, 1), (2, 2)],
                  spot := map[1 := 0, 2 := 1]);
    var s7 := s6.(finished := {1}, phase := map[1 := Leaving(1), 2 := waiting], left := [1]);
    var s8 := s7.(phase := map[1 := Outside, 2 := waiting]);
    var s9 := s8.(finished := {});
    [s0, s1, s2, s3, s4, s5, s6, s7, s8, s9]
  }

  lemma LosingEnters(k: nat)
    requires k < 5
    ensures Takes(LosingStates()[k], Losing()[k], LosingStates()[k + 1])
    ensures Clean(LosingStates()[k], Losing()[k].action)
  {
  }

  lemma LosingLeaves(k: nat)
    requires 5 <= k < 8
    ensures Takes(LosingStates()[k], Losing()[k], LosingStates()[k + 1])
    ensures Clean(LosingStates()[k], Losing()[k].action)
  {
  }

  lemma LosingClears(k: nat)
    requires k == 8
    ensures Takes(LosingStates()[k], Losing()[k], LosingStates()[k + 1])
    ensures Clean(LosingStates()[k], Losing()[k].action)
  {
  }

  lemma LosingEnds()
    ensures |LosingStates()| == 10 && LosingStates()[0] == Initial({})
    ensures Lost(LosingStates()[9]) && IsNext(LosingStates()[9], 2)
  {
  }

  /** A clean run can lose a release, so that the thread that is next never gets in. */
  lemma ReleaseLost()
    ensures IsRun(LosingStates(), Losing()) && AllClean(LosingStates(), Losing()) && LosingStates()[0] == Initial({})
    ensures Lost(LosingStates()[9]) && IsNext(LosingStates()[9], 2)
  {
    hide LosingStates, Enabled, Next, Takes, Clean;
    LosingEnds();
    forall k | 0 <= k < |Losing()|
      ensures Takes(LosingStates()[k], Losing()[k], LosingStates()[k + 1])
      ensures Clean(LosingStates()[k], Losing()[k].action)
    {
      if k < 5 { LosingEnters(k); } else if k < 8 { LosingLeaves(k); } else { LosingClears(k); }
    }
  }

  // ----- Waiting -----

  /** How many threads that exchanged before the one at position `k` have yet to finish. */
  function Ahead(s: State, k: nat): nat
    requires k <= |s.queue|
  {
    if k == 0 then 0 else Ahead(s, k - 1) + (if AtWork(s, k - 1) then 1 else 0)
  }

  /** How many tickets before the one at position `k` do not have their flag set. */
  function Unflagged(s: State, k: nat): nat
    requires k <= |s.queue|
  {
    if k == 0 then 0 else Unflagged(s, k - 1) + (if s.queue[k - 1].1 in s.finished then 0 else 1)
  }

  lemma AtWorkMeans(s: State, k: nat)
    requires Invariant(s) && k < |s.queue|
    ensures AtWork(s, k) <==> |s.left| <= k
  {
    assert OwnerOk(s, k) && ThreadOk(s, s.queue[k].0);
  }

  lemma {:induction false} AheadIs(s: State, k: nat)
    requires Invariant(s) && k <= |s.queue|
    ensures Ahead(s, k) == if k <= |s.left| then 0 else k - |s.left|
  {
    hide Invariant, AtWork;
    if k > 0 {
      AheadIs(s, k - 1);
      AtWorkMeans(s, k - 1);
    }
  }

  /** For tickets that each serve once the flags tell the same. */
  lemma {:induction false} UnflaggedIsAhead(s: State, k: nat)
    requires Invariant(s) && Single(s) && k <= |s.queue|
    ensures Unflagged(s, k) == Ahead(s, k)
  {
    hide AtWork;
    if k > 0 {
      UnflaggedIsAhead(s, k - 1);
      AtWorkMeans(s, k - 1);
      assert FlagOk(s, k - 1);
    }
  }

  /** A thread between its exchange and its entry keeps its place, which lies behind all that have
      entered. */
  lemma PlaceKept(s: State, t: Thread, a: Action, u: Thread)
    requires Invariant(s) && Enabled(s, t, a) && u in s.phase && (s.phase[u].Publishing? || s.phase[u].Spinning?)
    ensures u in s.spot && u in Next(s, t, a).spot && Next(s, t, a).spot[u] == s.spot[u]
    ensures |s.entered| <= s.spot[u] < |s.queue| <= |Next(s, t, a).queue|
    ensures |Next(s, t, a).left| == |s.left| + (if a.Finish? then 1 else 0) && (a.Finish? ==> |s.left| < |s.entered|)
  {
    assert ThreadOk(s, u) && ThreadOk(s, t);
  }

  /** Nobody is ever overtaken: the number of threads ahead of a waiting one never grows, and every
      release takes one off. */
  lemma AheadFalls(s: State, t: Thread, a: Action, u: Thread)
    requires Invariant(s) && Enabled(s, t, a) && Clean(s, a)
    requires u in s.phase && (s.phase[u].Publishing? || s.phase[u].Spinning?)
    ensures u in s.spot && u in Next(s, t, a).spot
    ensures Next(s, t, a).spot[u] == s.spot[u] < |s.queue| <= |Next(s, t, a).queue|
    ensures Ahead(Next(s, t, a), s.spot[u]) == if a.Finish? then Ahead(s, s.spot[u]) - 1 else Ahead(s, s.spot[u])
  {
    hide Invariant, Enabled, Next, Clean, Ahead;
    PlaceKept(s, t, a, u);
    StepKeeps(s, t, a);
    AheadIs(s, s.spot[u]);
    AheadIs(Next(s, t, a), s.spot[u]);
  }

  /** For tickets that each serve once, so do the tickets ahead whose flag is not set. */
  lemma UnflaggedFalls(s: State, t: Thread, a: Action, u: Thread)
    requires Invariant(s) && Single(s) && Enabled(s, t, a) && Clean(s, a) && FirstUse(s, a)
    requires u in s.phase && (s.phase[u].Publishing? || s.phase[u].Spinning?)
    ensures u in s.spot && u in Next(s, t, a).spot
    ensures Next(s, t, a).spot[u] == s.spot[u] < |s.queue| <= |Next(s, t, a).queue|
    ensures Unflagged(Next(s, t, a), s.spot[u]) ==
            if a.Finish? then Unflagged(s, s.spot[u]) - 1 else Unflagged(s, s.spot[u])
  {
    hide Invariant, Single, FirstUse, Enabled, Next, Clean, Ahead, Unflagged;
    AheadFalls(s, t, a, u);
    StepKeeps(s, t, a);
    StepSingle(s, t, a);
    UnflaggedIsAhead(s, s.spot[u]);
    UnflaggedIsAhead(Next(s, t, a), s.spot[u]);
  }
}
