/** What the interleaved connection guarantees: descriptors are not used after they are closed, a lone reader
    is always woken, and Close ends. */
module QrtrProgress {
  import opened Bytes
  import opened QrtrConn
  import opened QrtrThreads

  // Descriptors

  /** A step that passes a descriptor to the kernel other than to close it: everything a thread does while it
      holds them, and a notification. */
  predicate Uses(s: Shared, pc: Pc, a: Action) {
    || Holds(pc)
    || (a.SetReadDeadline? && s.fdValid && s.pollWaiters > 0)
    || (a.Close? && s.fdValid && s.pollWaiters > 0)
  }

  lemma {:induction false} FewerFdsDue(threads: seq<Pc>)
    ensures Sum(FdDue, threads) <= Sum(WakeDue, threads)
  {
    if threads != [] { FewerFdsDue(threads[1..]); }
  }

  /** In every reachable state: a step that uses a descriptor finds both open, and neither was ever closed more
      than once. */
  lemma NeverUsedAfterClose(n: nat, trace: Trace, i: nat, a: Action)
    requires i < n && Run(Initial(n), trace).Some?
    ensures var s := Run(Initial(n), trace).value;
            && |s.threads| == n && s.shared.fdCloses <= 1 && s.shared.wakeCloses <= 1
            && (Uses(s.shared, s.threads[i], a) && Step(s, i, a).Some? ==>
               s.shared.fdCloses == 0 && s.shared.wakeCloses == 0)
  {
    hide Local, Run, Step;
    var s := Run(Initial(n), trace).value;
    InvHolds(n);
    InvAlways(Initial(n), trace);
    SameThreads(Initial(n), trace);
    SumAtLeast(Holders, s.threads, i);
    FewerFdsDue(s.threads);
  }

  lemma {:induction false} SameThreads(s: State, trace: Trace)
    requires Run(s, trace).Some?
    ensures |Run(s, trace).value.threads| == |s.threads|
    decreases |trace|
  {
    hide Local;
    if trace != [] { SameThreads(Step(s, trace[0].0, trace[0].1).value, trace[1..]); }
  }

  /** Once Close has begun the connection stays closed, nobody acquires it, and no more wakes are sent. */
  lemma {:induction false} ClosedStays(s: State, trace: Trace)
    requires !s.shared.fdValid && Run(s, trace).Some?
    ensures var end := Run(s, trace).value.shared;
            !end.fdValid && end.activeOps <= s.shared.activeOps && end.wake <= s.shared.wake
    decreases |trace|
  {
    hide Local;
    if trace != [] {
      LocalClosed(s.shared, s.threads[trace[0].0], trace[0].1);
      ClosedStays(Step(s, trace[0].0, trace[0].1).value, trace[1..]);
    }
  }

  // Waking

  predicate Reading(pc: Pc) {
    !pc.Idle? && !pc.Sending? && !pc.Sent? && !Closing(pc)
  }

  /** At most one thread is inside Read. */
  predicate Serial(threads: seq<Pc>) {
    forall i, j :: 0 <= i < j < |threads| ==> !(Reading(threads[i]) && Reading(threads[j]))
  }

  /** Callers serialise: every state of the run is serial. */
  ghost predicate SerialRun(s: State, trace: Trace)
    decreases |trace|
  {
    Serial(s.threads)
    && (trace != [] && trace[0].0 < |s.threads| && Step(s, trace[0].0, trace[0].1).Some? ==>
          SerialRun(Step(s, trace[0].0, trace[0].1).value, trace[1..]))
  }

  /** A reader in poll whose connection is being closed will be woken. */
  predicate WakesClosed(s: State, pc: Pc) { pc.Polling? && !s.shared.fdValid ==> s.shared.wake > 0 }

  /** So will one whose deadline was changed, unless the eventfd could not be written then. */
  predicate WakesStale(s: State, pc: Pc) {
    pc.Polling? && pc.seqNo != s.shared.deadlineSeq ==> s.shared.wake > 0 || s.lost
  }

  ghost predicate NoneHung(s: State) { forall i :: 0 <= i < |s.threads| ==> WakesClosed(s, s.threads[i]) }

  ghost predicate NoneLost(s: State) {
    NoneHung(s) && forall i :: 0 <= i < |s.threads| ==> WakesStale(s, s.threads[i])
  }

  /** The step of a thread that is not itself polling leaves a polling reader one to wake. */
  lemma LocalWakes(s: Shared, pc: Pc, a: Action)
    requires Local(s, pc, a).Some? && s.fdValid == s.wakeValid
    ensures var (t, to) := Local(s, pc, a).value;
            && (to.Polling? ==> pc.Holding? && to.seqNo == t.deadlineSeq && t.fdValid)
            && ((t.deadlineSeq != s.deadlineSeq || t.fdValid != s.fdValid) && s.pollWaiters > 0 && !Unnotified(s, a) ==>
               t.wake > 0)
            && (s.wake > 0 && t.wake == 0 ==> pc.Draining?)
            && (t.deadlineSeq != s.deadlineSeq || t.fdValid != s.fdValid ==> pc.Idle?)
            && (Unnotified(s, a) ==> pc.Idle?)
  {
  }

  lemma StepWakesStale(s: State, i: nat, a: Action, j: nat)
    requires Inv(s) && Serial(s.threads) && i < |s.threads| && j < |s.threads| && Step(s, i, a).Some?
    requires WakesStale(s, s.threads[j])
    ensures WakesStale(Step(s, i, a).value, Step(s, i, a).value.threads[j])
  {
    hide Local, Sum, Placed;
    var pc := s.threads[i];
    LocalWakes(s.shared, pc, a);
    LocalSets(s.shared, pc, a);
    if j != i && s.threads[j].Polling? {
      SumAtLeast(Pollers, s.threads, j);
      assert !(Reading(pc) && Reading(s.threads[j]));
    }
  }

  lemma LocalSets(s: Shared, pc: Pc, a: Action)
    requires Local(s, pc, a).Some?
    ensures var t := Local(s, pc, a).value.0;
            && t.deadlineSeq == s.deadlineSeq + One(a.SetReadDeadline? && s.fdValid)
            && (t.fdValid != s.fdValid ==> a.Close?)
  {
  }

  /** One reader at a time, or no more than two threads. */
  predicate Few(threads: seq<Pc>) { Serial(threads) || |threads| <= 2 }

  /** While the connection is being closed, nobody drains beside a reader in poll: there is one reader only, or
      the other of two threads is closing. */
  lemma NobodyDrains(s: State, i: nat, j: nat)
    requires Inv(s) && Few(s.threads) && !s.shared.fdValid && i < |s.threads| && j < |s.threads| && i != j
    requires s.threads[j].Polling?
    ensures !s.threads[i].Draining?
  {
    hide Placed;
    SumAtLeast(Holders, s.threads, j);
    var k := SomeoneCounts(FdDue, s.threads);
    assert Closing(s.threads[k]);
    hide Sum;
  }

  lemma StepWakesClosed(s: State, i: nat, a: Action, j: nat)
    requires Inv(s) && Few(s.threads) && i < |s.threads| && j < |s.threads| && Step(s, i, a).Some?
    requires WakesClosed(s, s.threads[j])
    ensures WakesClosed(Step(s, i, a).value, Step(s, i, a).value.threads[j])
  {
    hide Local, Sum, Placed, Serial;
    LocalWakes(s.shared, s.threads[i], a);
    LocalSets(s.shared, s.threads[i], a);
    if j != i && s.threads[j].Polling? {
      SumAtLeast(Pollers, s.threads, j);
      if !s.shared.fdValid { NobodyDrains(s, i, j); }
    }
  }

  /** With one reader at a time no wakeup is lost, over any run: that of a new deadline only if the eventfd could
      not be written, and that of Close never. */
  lemma {:induction false} NoLostWakeup(s: State, trace: Trace)
    requires Inv(s) && NoneLost(s) && Run(s, trace).Some? && SerialRun(s, trace)
    ensures NoneLost(Run(s, trace).value)
    decreases |trace|
  {
    hide Inv, Step, WakesStale, WakesClosed, Serial;
    if trace != [] {
      var (i, a) := trace[0];
      var next := Step(s, i, a).value;
      StepKeepsInv(s, i, a);
      StepSize(s, i, a);
      forall j | 0 <= j < |next.threads|
        ensures WakesStale(next, next.threads[j]) && WakesClosed(next, next.threads[j])
      {
        StepWakesStale(s, i, a, j);
        StepWakesClosed(s, i, a, j);
      }
      NoLostWakeup(next, trace[1..]);
    }
  }

  /** Few threads in every state of a run. */
  ghost predicate FewRun(s: State, trace: Trace) { SerialRun(s, trace) || |s.threads| <= 2 }

  /** Close is never forgotten: with one reader at a time, or no more than two threads. */
  lemma {:induction false} NoHungReader(s: State, trace: Trace)
    requires Inv(s) && NoneHung(s) && Run(s, trace).Some? && FewRun(s, trace)
    ensures NoneHung(Run(s, trace).value) && Few(Run(s, trace).value.threads)
    decreases |trace|
  {
    hide Inv, Step, WakesClosed, Serial;
    if trace != [] {
      var (i, a) := trace[0];
      var next := Step(s, i, a).value;
      StepKeepsInv(s, i, a);
      StepSize(s, i, a);
      forall j | 0 <= j < |next.threads| ensures WakesClosed(next, next.threads[j]) { StepWakesClosed(s, i, a, j); }
      NoHungReader(next, trace[1..]);
    }
  }

  lemma StepSize(s: State, i: nat, a: Action)
    requires i < |s.threads| && Step(s, i, a).Some?
    ensures |Step(s, i, a).value.threads| == |s.threads|
  {
  }

  // Ending

  /** A thread that Close waits for, or that is closing. */
  predicate Busy(pc: Pc) { Holds(pc) || Closing(pc) }

  /** How many steps of busy threads are left, once Close has begun. */
  function Measure(s: State): nat {
    Sum(Rank(s.shared.activeOps > 0), s.threads) + One(s.shared.wake > 0)
  }

  lemma {:induction false} LessBusy(threads: seq<Pc>)
    ensures Sum(Rank(false), threads) <= Sum(Rank(true), threads)
  {
    if threads != [] { LessBusy(threads[1..]); }
  }

  lemma LocalRank(s: Shared, pc: Pc, a: Action)
    requires Local(s, pc, a).Some? && !s.fdValid && Placed(s, pc) && s.activeOps >= W(Holders, pc)
    ensures var (t, to) := Local(s, pc, a).value;
            var before := RankOf(pc, s.activeOps > 0) + One(s.wake > 0);
            var after := RankOf(to, s.activeOps > 0) + One(t.wake > 0);
            && One(t.wake > 0) <= One(s.wake > 0)
            && if Busy(pc) then after < before else after == before && RankOf(to, s.activeOps > 0) == 0
  {
  }

  /** Once Close has begun, every step of a busy thread brings its end nearer, and no other step puts it off. */
  lemma StepRank(s: State, i: nat, a: Action)
    requires Inv(s) && !s.shared.fdValid && i < |s.threads| && Step(s, i, a).Some?
    ensures Measure(Step(s, i, a).value) + One(Busy(s.threads[i])) <= Measure(s)
  {
    hide Local, Sum, Awake, RankOf;
    var pc, b := s.threads[i], s.shared.activeOps > 0;
    var (t, to) := Local(s.shared, pc, a).value;
    var moved := s.threads[i := to];
    SumAtLeast(Holders, s.threads, i);
    LocalRank(s.shared, pc, a);
    LocalClosed(s.shared, pc, a);
    SumMoved(Rank(b), s.threads, i, to);
    SumAtLeast(Rank(b), s.threads, i);
    LessBusy(moved);
    SumAwake(Rank(false), moved);
  }

  function BusySteps(s: State, trace: Trace): nat
    requires Run(s, trace).Some?
    decreases |trace|
  {
    if trace == [] then 0
    else One(Busy(s.threads[trace[0].0])) + BusySteps(Step(s, trace[0].0, trace[0].1).value, trace[1..])
  }

  /** Over any run after Close has begun, however long, the busy threads take at most Measure steps. */
  lemma {:induction false} BusyStepsEnd(s: State, trace: Trace)
    requires Inv(s) && !s.shared.fdValid && Run(s, trace).Some?
    ensures BusySteps(s, trace) + Measure(Run(s, trace).value) <= Measure(s)
    decreases |trace|
  {
    hide Local, Inv, Measure;
    if trace != [] {
      var (i, a) := trace[0];
      StepRank(s, i, a);
      StepKeepsInv(s, i, a);
      LocalClosed(s.shared, s.threads[i], a);
      BusyStepsEnd(Step(s, i, a).value, trace[1..]);
    }
  }

  /** The step a busy thread takes next by itself, once its system call returns; a poll returns because the
      eventfd wakes it. */
  function Own(s: Shared, pc: Pc): Action {
    match pc
    case Holding(_, _) => RegisterPoll
    case Polling(_, _) => Poll(Woken)
    case Draining(_, _) => if s.wake > 0 then DrainRead else DrainStop(false)
    case Unregistering(_, _, _) => UnregisterPoll
    case Sizing(_, _) => Size(Bad)
    case Receiving(_, _) => Receive(Bad, true)
    case Releasing(_, _, _) => ReleaseFD
    case Sending => Send
    case Sent => ReleaseFD
    case Waiting => TestIdle
    case ClosingFd => CloseFd
    case ClosingWake => CloseWake
    case _ => BeginRead
  }

  /** While a thread is busy after Close has begun, some busy thread can take its next step by itself. */
  lemma SomeoneCanGo(s: State) returns (i: nat)
    requires Inv(s) && NoneHung(s) && !s.shared.fdValid
    requires s.shared.activeOps > 0 || Sum(WakeDue, s.threads) > 0
    ensures i < |s.threads| && Busy(s.threads[i]) && Step(s, i, Own(s.shared, s.threads[i])).Some?
  {
    hide Sum;
    if s.shared.activeOps > 0 {
      i := SomeoneCounts(Holders, s.threads);
    } else {
      i := SomeoneCounts(WakeDue, s.threads);
    }
    assert Placed(s.shared, s.threads[i]) && WakesClosed(s, s.threads[i]);
  }

  /** Nobody is inside and both descriptors are closed, once each. */
  predicate Ended(s: State) {
    s.shared.activeOps == 0 && s.shared.fdCloses == 1 && s.shared.wakeCloses == 1
  }

  /** From any state after Close has begun in which no reader hangs, few threads by themselves bring it to its
      end, in at most Measure steps of those that are busy. */
  lemma {:induction false} CloseEnds(s: State) returns (trace: Trace)
    requires Inv(s) && NoneHung(s) && !s.shared.fdValid && Few(s.threads)
    ensures |trace| <= Measure(s) && Run(s, trace).Some? && Ended(Run(s, trace).value)
    decreases Measure(s)
  {
    hide Local, Sum, Measure, WakesClosed, Placed, Serial;
    trace := [];
    if s.shared.activeOps > 0 || Sum(WakeDue, s.threads) > 0 {
      var i := SomeoneCanGo(s);
      var a := Own(s.shared, s.threads[i]);
      var next := Step(s, i, a).value;
      StepRank(s, i, a);
      StepKeepsInv(s, i, a);
      LocalClosed(s.shared, s.threads[i], a);
      OwnStays(s, i);
      StepSize(s, i, a);
      forall j | 0 <= j < |next.threads| ensures WakesClosed(next, next.threads[j]) { StepWakesClosed(s, i, a, j); }
      var later := CloseEnds(next);
      trace := [(i, a)] + later;
      assert trace[1..] == later;
    } else {
      FewerFdsDue(s.threads);
    }
  }

  /** A busy thread's own step starts no read. */
  lemma OwnStays(s: State, i: nat)
    requires i < |s.threads| && Busy(s.threads[i]) && Step(s, i, Own(s.shared, s.threads[i])).Some? && Few(s.threads)
    ensures Few(Step(s, i, Own(s.shared, s.threads[i])).value.threads)
  {
    var a := Own(s.shared, s.threads[i]);
    var to := Local(s.shared, s.threads[i], a).value.1;
    assert Reading(to) ==> Reading(s.threads[i]);
    hide Local, Own;
    var moved := s.threads[i := to];
    assert forall j :: 0 <= j < |moved| && Reading(moved[j]) ==> Reading(s.threads[j]);
    assert forall j :: 0 <= j < |moved| ==> Reading(Awake(moved)[j]) == Reading(moved[j]);
  }

  /** So Close, once begun, ends: in every run in which callers serialise their reads, or of no more than two
      threads, the busy threads by themselves get to the end from there, in at most Measure steps, whatever the
      others do (BusyStepsEnd), and whatever notifications of new deadlines have failed before. */
  lemma CloseEndsAlways(n: nat, trace: Trace) returns (more: Trace)
    requires Run(Initial(n), trace).Some? && FewRun(Initial(n), trace)
    requires !Run(Initial(n), trace).value.shared.fdValid
    ensures var s := Run(Initial(n), trace).value;
            |more| <= Measure(s) && Run(s, more).Some? && Ended(Run(s, more).value)
  {
    hide Inv, Run, Step, Measure, FewRun, Few;
    InvHolds(n);
    InvAlways(Initial(n), trace);
    StartsWithNoneLost(n);
    NoHungReader(Initial(n), trace);
    more := CloseEnds(Run(Initial(n), trace).value);
  }

  /** A reader in poll whose deadline was changed comes by itself to the new one: in six steps of its own. */
  lemma NewDeadlineIsFetched(s: State, i: nat) returns (trace: Trace)
    requires NoneLost(s) && !s.lost
    requires i < |s.threads| && s.threads[i].Polling? && s.threads[i].seqNo != s.shared.deadlineSeq
    ensures |trace| == 6 && (forall k :: 0 <= k < 6 ==> trace[k].0 == i)
    ensures Run(s, trace).Some? && |Run(s, trace).value.threads| == |s.threads|
    ensures Run(s, trace).value.threads[i] == Fetched(s.shared.deadline, s.shared.deadlineSeq)
  {
    hide Run;
    assert WakesStale(s, s.threads[i]);
    var end;
    end, trace := ToRelease(s, i);
    OneStep(end, i, ReleaseFD);
    RunAppend(s, trace, [(i, ReleaseFD)]);
    trace := trace + [(i, ReleaseFD)];
    var next := Step(end, i, ReleaseFD).value;
    OneStep(next, i, Snapshot);
    RunAppend(s, trace, [(i, Snapshot)]);
    trace := trace + [(i, Snapshot)];
  }

  // Deadlines

  /** The time that the last SetReadDeadline of a run was given, of those that came before a Close took effect; d
      when there was none. */
  ghost function LastSet(s: State, trace: Trace, d: Deadline): Deadline
    requires Run(s, trace).Some?
    decreases |trace|
  {
    if trace == [] then d
    else
      var (i, a) := trace[0];
      LastSet(Step(s, i, a).value, trace[1..], if a.SetReadDeadline? && s.shared.fdValid then a.t else d)
  }

  /** How many of them there were. */
  ghost function SetsIn(s: State, trace: Trace): nat
    requires Run(s, trace).Some?
    decreases |trace|
  {
    if trace == [] then 0
    else
      var (i, a) := trace[0];
      One(a.SetReadDeadline? && s.shared.fdValid) + SetsIn(Step(s, i, a).value, trace[1..])
  }

  lemma LocalDeadline(s: Shared, pc: Pc, a: Action)
    requires Local(s, pc, a).Some?
    ensures Local(s, pc, a).value.0.deadline == if a.SetReadDeadline? && s.fdValid then a.t else s.deadline
  {
  }

  /** Over any run the deadline is the one set last, and its number says how many were set. */
  lemma {:induction false} DeadlineIsLastSet(s: State, trace: Trace)
    requires Run(s, trace).Some?
    ensures Run(s, trace).value.shared.deadline == LastSet(s, trace, s.shared.deadline)
    ensures Run(s, trace).value.shared.deadlineSeq == s.shared.deadlineSeq + SetsIn(s, trace)
    decreases |trace|
  {
    hide Local;
    if trace != [] {
      var (i, a) := trace[0];
      LocalDeadline(s.shared, s.threads[i], a);
      LocalSets(s.shared, s.threads[i], a);
      DeadlineIsLastSet(Step(s, i, a).value, trace[1..]);
    }
  }

  /** From the start: the time given last, and none before any was. */
  lemma DeadlineFromStart(n: nat, trace: Trace)
    requires Run(Initial(n), trace).Some?
    ensures Run(Initial(n), trace).value.shared.deadline == LastSet(Initial(n), trace, None)
    ensures Run(Initial(n), trace).value.shared.deadlineSeq == SetsIn(Initial(n), trace)
  {
    hide Run, LastSet, SetsIn;
    DeadlineIsLastSet(Initial(n), trace);
  }

  /** A deadline that thread i sets while the connection is open is the one that thread j fetches when it reads
      next. */
  lemma ReadFetchesDeadline(s: State, i: nat, j: nat, t: Deadline, notified: bool)
    requires s.shared.fdValid && i < |s.threads| && j < |s.threads| && s.threads[i] == Idle && s.threads[j] == Idle
    ensures var changed := Step(s, i, SetReadDeadline(t, notified));
            && changed.Some? && |changed.value.threads| == |s.threads|
            && var begun := Step(changed.value, j, BeginRead);
               && begun.Some? && |begun.value.threads| == |s.threads|
               && var fetched := Step(begun.value, j, Snapshot);
                  && fetched.Some? && |fetched.value.threads| == |s.threads|
                  && fetched.value.threads[j] == Fetched(t, s.shared.deadlineSeq + 1)
  {
  }

  /** A thread's steps one after another, while no other moves. */
  function Then(r: Option<(Shared, Pc)>, a: Action): Option<(Shared, Pc)> {
    if r.None? then None else Local(r.value.0, r.value.1, a)
  }

  function PcOf(r: Option<(Shared, Pc)>): Option<Pc> { if r.None? then None else Some(r.value.1) }

  /** A read expires exactly by a deadline it has: before it acquires the descriptors, before it polls, or in
      poll, after which it looks at the clock again. */
  lemma ExpiresByDeadline(s: Shared, d: Deadline, n: nat)
    ensures PcOf(Then(Some((s, Fetched(d, n))), Expire)) == if d.Some? then Some(Idle) else None
    ensures PcOf(Then(Then(Some((s, Holding(d, n))), Expire), ReleaseFD)) == if d.Some? then Some(Idle) else None
    ensures s.wake == 0 ==>
              PcOf(Then(Then(Then(Then(Some((s, Polling(d, n))), Poll(TimedOut)), UnregisterPoll), ReleaseFD), Expire))
              == if d.Some? then Some(Idle) else None
  {
  }

  /** Where a read goes on. A packet that is the service's own ends it, another sends it round the outer loop to
      fetch the deadline again; a call that would have blocked, or a poll that found nothing, sends it round the
      inner one with the deadline it has; and any other failure ends it. */
  lemma ReadGoesOn(s: Shared, d: Deadline, n: nat, mine: bool)
    requires s.wake == 0
    ensures var sized := Then(Then(Some((s, Polling(d, n))), Poll(Readable)), UnregisterPoll);
            && sized.Some? && sized.value.1 == Sizing(d, n)
            && var got := Then(sized, Size(Good));
            && PcOf(Then(Then(got, Receive(Good, mine)), ReleaseFD)) == Some(if mine then Idle else Starting)
            && PcOf(Then(Then(got, Receive(Again, mine)), ReleaseFD)) == Some(Fetched(d, n))
            && PcOf(Then(Then(got, Receive(Bad, mine)), ReleaseFD)) == Some(Idle)
            && PcOf(Then(Then(sized, Size(Again)), ReleaseFD)) == Some(Fetched(d, n))
            && PcOf(Then(Then(sized, Size(Bad)), ReleaseFD)) == Some(Idle)
    ensures forall p :: p in {Nothing, Interrupted} ==>
              PcOf(Then(Then(Then(Some((s, Polling(d, n))), Poll(p)), UnregisterPoll), ReleaseFD))
              == Some(Fetched(d, n))
    ensures PcOf(Then(Then(Then(Some((s, Polling(d, n))), Poll(PollFailed)), UnregisterPoll), ReleaseFD)) == Some(Idle)
  {
  }

  /** When the connection is closed meanwhile, or the deadline changed: a read that has not polled yet returns,
      or starts over. */
  lemma ReadNotices(s: Shared, d: Deadline, n: nat)
    ensures !s.fdValid ==> PcOf(Then(Some((s, Fetched(d, n))), AcquireFDs)) == Some(Idle)
    ensures !s.fdValid ==> PcOf(Then(Then(Some((s, Holding(d, n))), RegisterPoll), ReleaseFD)) == Some(Idle)
    ensures s.fdValid && s.deadlineSeq != n ==>
              PcOf(Then(Then(Some((s, Holding(d, n))), RegisterPoll), ReleaseFD)) == Some(Starting)
    ensures s.fdValid && s.deadlineSeq == n ==>
              PcOf(Then(Some((s, Holding(d, n))), RegisterPoll)) == Some(Polling(d, n))
  {
  }

  /** Close begins exactly when the connection is open and a reader in poll, if there is one, can be notified; it
      leaves the deadline and the counts alone, and the connection closed. */
  lemma CloseBegins(s: Shared, notified: bool)
    requires s.fdValid == s.wakeValid
    ensures var r := Local(s, Idle, Close(notified));
            && r.Some?
            && (r.value.1 == Waiting <==> s.fdValid && (s.pollWaiters > 0 ==> notified))
            && (r.value.1 == Waiting ==>
                  && !r.value.0.fdValid && !r.value.0.wakeValid
                  && r.value.0 == s.(fdValid := false, wakeValid := false, wake := r.value.0.wake)
                  && r.value.0.wake == s.wake + One(s.pollWaiters > 0 && s.wake < 0xFFFF_FFFF_FFFF_FFFE))
            && (r.value.1 != Waiting ==> r.value == (s, Idle))
  {
  }

  // Two readers

  lemma {:induction false} RunAppend(s: State, a: Trace, b: Trace)
    requires Run(s, a).Some?
    ensures Run(s, a + b) == Run(Run(s, a).value, b)
    decreases |a|
  {
    hide Step;
    if a == [] {
      assert a + b == b;
    } else {
      assert (a + b)[1..] == a[1..] + b;
      RunAppend(Step(s, a[0].0, a[0].1).value, a[1..], b);
    }
  }

  lemma OneStep(s: State, i: nat, a: Action)
    requires i < |s.threads|
    ensures Run(s, [(i, a)]) == Step(s, i, a)
  {
  }

  /** One step more of thread i, at pc, when the step wakes nobody and loses nothing. */
  lemma Further(start: State, trace: Trace, s: Shared, ts: seq<Pc>, i: nat, pc: Pc, a: Action, lost: bool)
    returns (longer: Trace)
    requires i < |ts| && Run(start, trace) == Some(State(s, ts[i := pc], lost))
    requires Local(s, pc, a).Some? && !a.SetReadDeadline? && (a.ReleaseFD? ==> Local(s, pc, a).value.0.activeOps != 0)
    ensures longer == trace + [(i, a)]
    ensures var (t, to) := Local(s, pc, a).value;
            Run(start, longer) == Some(State(t, ts[i := to], lost))
  {
    hide Local, Run;
    longer := trace + [(i, a)];
    RunAppend(start, trace, [(i, a)]);
    OneStep(State(s, ts[i := pc], lost), i, a);
    assert ts[i := pc][i := Local(s, pc, a).value.1] == ts[i := Local(s, pc, a).value.1];
  }

  lemma NoSteps(s: State, i: nat)
    requires i < |s.threads|
    ensures Run(s, []) == Some(State(s.shared, s.threads[i := s.threads[i]], s.lost))
  {
    assert s.threads[i := s.threads[i]] == s.threads;
  }

  /** A polling reader that nothing inside the connection will wake, and that Close waits for. */
  predicate Stuck(s: State, i: nat)
    requires i < |s.threads|
  {
    && s.threads[i].Polling? && s.threads[i].deadline.None? && s.shared.wake == 0 && !s.lost
    && !s.shared.fdValid && s.shared.activeOps > 0
  }

  /** With two readers in poll a wakeup is lost: the first drains the eventfd that Close wrote for both, and
      the second polls on without a deadline while Close sleeps until it releases. Two readers and a thread to
      close are enough. */
  lemma TwoReadersCanStick(n: nat) returns (trace: Trace)
    requires n >= 3
    ensures Run(Initial(n), trace).Some? && TwoRead(trace)
    ensures var end := Run(Initial(n), trace).value;
            |end.threads| == n && Stuck(end, 1) && end.threads[2] == Asleep
            && forall i :: 0 <= i < n && Busy(end.threads[i]) ==> Step(end, i, Own(end.shared, end.threads[i])) == None
  {
    hide Run;
    var s0 := Initial(n);
    var s1, t1 := Polls(s0, 0);
    var s2, t2 := Polls(s1, 1);
    RunAppend(s0, t1, t2);
    var s3, t3 := CloseSleeps(s2, 2);
    RunAppend(s0, t1 + t2, t3);
    var s4, t4 := Drains(s3, 0);
    RunAppend(s0, t1 + t2 + t3, t4);
    trace := t1 + t2 + t3 + t4;
  }

  /** How many threads are inside Read. */
  function Readers(threads: seq<Pc>): nat {
    if threads == [] then 0 else (if Reading(threads[0]) then 1 else 0) + Readers(threads[1..])
  }

  /** In every state of the run at most k threads are inside Read. */
  ghost predicate ReadersRun(k: nat, s: State, trace: Trace)
    decreases |trace|
  {
    Readers(s.threads) <= k
    && (trace != [] && trace[0].0 < |s.threads| && Step(s, trace[0].0, trace[0].1).Some? ==>
          ReadersRun(k, Step(s, trace[0].0, trace[0].1).value, trace[1..]))
  }

  /** A reader behind position i is counted there. */
  lemma {:induction false} ReaderCounts(threads: seq<Pc>, i: nat)
    requires i < |threads| && Reading(threads[i])
    ensures Readers(threads) >= 1
  {
    if i > 0 { ReaderCounts(threads[1..], i - 1); }
  }

  lemma {:induction false} OneReaderIsSerial(threads: seq<Pc>)
    requires Readers(threads) <= 1 || |threads| <= 1
    ensures Serial(threads)
  {
    if |threads| > 1 {
      OneReaderIsSerial(threads[1..]);
      forall i, j | 0 <= i < j < |threads| ensures !(Reading(threads[i]) && Reading(threads[j])) {
        if i > 0 {
          assert !(Reading(threads[1..][i - 1]) && Reading(threads[1..][j - 1]));
        } else if Reading(threads[j]) {
          ReaderCounts(threads[1..], j - 1);
        }
      }
    }
  }

  lemma {:induction false} FewReadersAreSerial(k: nat, s: State, trace: Trace)
    requires ReadersRun(k, s, trace) && (k <= 1 || |s.threads| <= 1)
    ensures SerialRun(s, trace)
    decreases |trace|
  {
    hide Step, Serial, Readers;
    OneReaderIsSerial(s.threads);
    if trace != [] && trace[0].0 < |s.threads| && Step(s, trace[0].0, trace[0].1).Some? {
      StepSize(s, trace[0].0, trace[0].1);
      FewReadersAreSerial(k, Step(s, trace[0].0, trace[0].1).value, trace[1..]);
    }
  }

  /** Only the first two threads may be inside Read. */
  predicate OthersOut(threads: seq<Pc>) { forall j :: 2 <= j < |threads| ==> !Reading(threads[j]) }

  lemma {:induction false} NoReaders(threads: seq<Pc>)
    requires forall j :: 0 <= j < |threads| ==> !Reading(threads[j])
    ensures Readers(threads) == 0
  {
    if threads != [] { NoReaders(threads[1..]); }
  }

  lemma TwoReaders(threads: seq<Pc>)
    requires OthersOut(threads)
    ensures Readers(threads) <= 2
  {
    if |threads| >= 2 {
      NoReaders(threads[2..]);
      assert threads[1..][1..] == threads[2..];
    }
  }

  /** Only the first two threads begin to read. */
  predicate TwoRead(trace: Trace) { forall m :: 0 <= m < |trace| ==> trace[m].0 < 2 || !trace[m].1.BeginRead? }

  /** Then no more than two are ever inside Read. */
  lemma {:induction false} TwoMove(k: nat, s: State, trace: Trace)
    requires k >= 2 && OthersOut(s.threads) && TwoRead(trace)
    ensures ReadersRun(k, s, trace)
    decreases |trace|
  {
    hide Local, Readers;
    TwoReaders(s.threads);
    if trace != [] && trace[0].0 < |s.threads| && Step(s, trace[0].0, trace[0].1).Some? {
      LocalBegins(s.shared, s.threads[trace[0].0], trace[0].1);
      TwoMove(k, Step(s, trace[0].0, trace[0].1).value, trace[1..]);
    }
  }

  lemma LocalBegins(s: Shared, pc: Pc, a: Action)
    requires Local(s, pc, a).Some?
    ensures !Reading(pc) && !a.BeginRead? ==> !Reading(Local(s, pc, a).value.1)
  {
  }

  /** Two threads are enough to lose a wakeup: one sets a deadline for the other, which polls, then reads
      itself and drains the eventfd. */
  lemma TwoThreadsLose(n: nat) returns (trace: Trace)
    requires n >= 2
    ensures Run(Initial(n), trace).Some? && !NoneLost(Run(Initial(n), trace).value) && TwoRead(trace)
  {
    hide Run;
    var s0 := Initial(n);
    var s1, t1 := Polls(s0, 1);
    OneStep(s1, 0, SetReadDeadline(None, true));
    var changed := Step(s1, 0, SetReadDeadline(None, true)).value;
    RunAppend(s0, t1, [(0, SetReadDeadline(None, true))]);
    var t2 := t1 + [(0, SetReadDeadline(None, true))];
    var s3, t3 := Polls(changed, 0);
    RunAppend(s0, t2, t3);
    var s4, t4 := ToRelease(s3, 0);
    RunAppend(s0, t2 + t3, t4);
    trace := t2 + t3 + t4;
    assert !WakesStale(s4, s4.threads[1]);
  }

  /** What callers have to see to: with n threads of which at most k are ever inside Read, no run loses a
      wakeup exactly when k is at most one, or there is only one thread. */
  lemma NoLostWakeupExactly(n: nat, k: nat)
    ensures (forall trace: Trace :: Run(Initial(n), trace).Some? && ReadersRun(k, Initial(n), trace) ==>
               NoneLost(Run(Initial(n), trace).value))
            <==> k <= 1 || n <= 1
  {
    hide Run, NoneLost, ReadersRun, SerialRun;
    if k <= 1 || n <= 1 {
      forall trace: Trace | Run(Initial(n), trace).Some? && ReadersRun(k, Initial(n), trace)
        ensures NoneLost(Run(Initial(n), trace).value)
      {
        InvHolds(n);
        FewReadersAreSerial(k, Initial(n), trace);
        StartsWithNoneLost(n);
        NoLostWakeup(Initial(n), trace);
      }
    } else {
      var trace := TwoThreadsLose(n);
      TwoMove(k, Initial(n), trace);
    }
  }

  /** Close has begun, somebody is inside or closing, and none of those can take a step by itself. */
  ghost predicate Hung(s: State) {
    && !s.shared.fdValid && (exists i :: 0 <= i < |s.threads| && Busy(s.threads[i]))
    && forall i :: 0 <= i < |s.threads| && Busy(s.threads[i]) ==> Step(s, i, Own(s.shared, s.threads[i])) == None
  }

  lemma NotHung(s: State)
    requires Inv(s) && NoneHung(s)
    ensures !Hung(s)
  {
    hide Sum, Step, Own;
    if !s.shared.fdValid && exists i :: 0 <= i < |s.threads| && Busy(s.threads[i]) {
      var i :| 0 <= i < |s.threads| && Busy(s.threads[i]);
      SumAtLeast(Holders, s.threads, i);
      SumAtLeast(WakeDue, s.threads, i);
      var k := SomeoneCanGo(s);
    }
  }

  /** What callers have to see to for Close to end: with n threads of which at most k are ever inside Read, no run
      hangs in Close exactly when k is at most one, or there are no more than two threads. */
  lemma CloseEndsExactly(n: nat, k: nat)
    ensures (forall trace: Trace :: Run(Initial(n), trace).Some? && ReadersRun(k, Initial(n), trace) ==>
               !Hung(Run(Initial(n), trace).value))
            <==> k <= 1 || n <= 2
  {
    hide Run, NoneHung, ReadersRun, SerialRun, Hung, Inv;
    if k <= 1 || n <= 2 {
      forall trace: Trace | Run(Initial(n), trace).Some? && ReadersRun(k, Initial(n), trace)
        ensures !Hung(Run(Initial(n), trace).value)
      {
        InvHolds(n);
        InvAlways(Initial(n), trace);
        if k <= 1 { FewReadersAreSerial(k, Initial(n), trace); }
        StartsWithNoneLost(n);
        NoHungReader(Initial(n), trace);
        NotHung(Run(Initial(n), trace).value);
      }
    } else {
      var trace := TwoReadersCanStick(n);
      TwoMove(k, Initial(n), trace);
      StuckIsHung(Run(Initial(n), trace).value);
    }
  }

  lemma StuckIsHung(s: State)
    requires |s.threads| >= 2 && Stuck(s, 1)
    requires forall i :: 0 <= i < |s.threads| && Busy(s.threads[i]) ==> Step(s, i, Own(s.shared, s.threads[i])) == None
    ensures Hung(s)
  {
    assert Busy(s.threads[1]);
  }

  lemma StartsWithNoneLost(n: nat)
    ensures NoneLost(Initial(n)) && NoneHung(Initial(n))
  {
  }

  /** A read as far as poll. */
  lemma Polls(s: State, i: nat) returns (end: State, trace: Trace)
    requires i < |s.threads| && s.threads[i] == Idle && s.shared.fdValid
    ensures Run(s, trace) == Some(end) && forall m :: 0 <= m < |trace| ==> trace[m].0 == i
    ensures end == State(s.shared.(activeOps := s.shared.activeOps + 1, pollWaiters := s.shared.pollWaiters + 1),
                         s.threads[i := Polling(s.shared.deadline, s.shared.deadlineSeq)], s.lost)
  {
    hide Run;
    var d, n, ts := s.shared.deadline, s.shared.deadlineSeq, s.threads;
    var held := s.shared.(activeOps := s.shared.activeOps + 1);
    NoSteps(s, i);
    trace := Further(s, [], s.shared, ts, i, Idle, BeginRead, s.lost);
    trace := Further(s, trace, s.shared, ts, i, Starting, Snapshot, s.lost);
    trace := Further(s, trace, s.shared, ts, i, Fetched(d, n), AcquireFDs, s.lost);
    trace := Further(s, trace, held, ts, i, Holding(d, n), RegisterPoll, s.lost);
    end := State(held.(pollWaiters := held.pollWaiters + 1), ts[i := Polling(d, n)], s.lost);
  }

  /** Close as far as its sleep. */
  lemma CloseSleeps(s: State, i: nat) returns (end: State, trace: Trace)
    requires i < |s.threads| && s.threads[i] == Idle && s.shared.fdValid && s.shared.wakeValid
    requires s.shared.pollWaiters > 0 && s.shared.activeOps > 0 && s.shared.wake == 0
    ensures Run(s, trace) == Some(end) && forall m :: 0 <= m < |trace| ==> !trace[m].1.BeginRead?
    ensures end == State(s.shared.(wake := 1, fdValid := false, wakeValid := false), s.threads[i := Asleep], s.lost)
  {
    hide Run;
    var closed := s.shared.(wake := 1, fdValid := false, wakeValid := false);
    NoSteps(s, i);
    trace := Further(s, [], s.shared, s.threads, i, Idle, Close(true), s.lost);
    trace := Further(s, trace, closed, s.threads, i, Waiting, TestIdle, s.lost);
    end := State(closed, s.threads[i := Asleep], s.lost);
  }

  /** A reader that is woken and drains the eventfd, as far as its release. */
  lemma ToRelease(s: State, i: nat) returns (end: State, trace: Trace)
    requires i < |s.threads| && s.threads[i].Polling? && s.shared.wake > 0
    ensures Run(s, trace) == Some(end) && |trace| == 4 && forall k :: 0 <= k < 4 ==> trace[k].0 == i
    ensures end == State(s.shared.(pollWaiters := s.shared.pollWaiters - 1, wake := 0),
                         s.threads[i := Releasing(s.threads[i].deadline, s.threads[i].seqNo, Restart)], s.lost)
  {
    hide Run;
    var d, n, ts := s.threads[i].deadline, s.threads[i].seqNo, s.threads;
    var dry := s.shared.(wake := 0);
    NoSteps(s, i);
    trace := Further(s, [], s.shared, ts, i, Polling(d, n), Poll(Woken), s.lost);
    trace := Further(s, trace, s.shared, ts, i, Draining(d, n), DrainRead, s.lost);
    trace := Further(s, trace, dry, ts, i, Draining(d, n), DrainStop(false), s.lost);
    trace := Further(s, trace, dry, ts, i, Unregistering(d, n, Some(Restart)), UnregisterPoll, s.lost);
    end := State(dry.(pollWaiters := dry.pollWaiters - 1), ts[i := Releasing(d, n, Restart)], s.lost);
  }

  /** And then it releases. */
  lemma Drains(s: State, i: nat) returns (end: State, trace: Trace)
    requires i < |s.threads| && s.threads[i].Polling? && s.shared.wake > 0 && s.shared.activeOps > 1
    ensures Run(s, trace) == Some(end) && forall m :: 0 <= m < |trace| ==> trace[m].0 == i
    ensures end == State(s.shared.(activeOps := s.shared.activeOps - 1,
                                   pollWaiters := s.shared.pollWaiters - 1, wake := 0),
                         s.threads[i := Starting], s.lost)
  {
    hide Run;
    var d, n := s.threads[i].deadline, s.threads[i].seqNo;
    end, trace := ToRelease(s, i);
    trace := Further(s, trace, end.shared, s.threads, i, Releasing(d, n, Restart), ReleaseFD, s.lost);
    end := State(end.shared.(activeOps := end.shared.activeOps - 1), s.threads[i := Starting], s.lost);
  }
}
