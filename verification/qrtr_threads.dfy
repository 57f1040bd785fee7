/** Threads reading, writing, setting deadlines and closing one QRTR connection, interleaved: every region
    under the mutex and every system call is one step. */
module QrtrThreads {
  import opened Bytes
  import opened QrtrConn

  /** Where a read goes once it has released the descriptors: round the inner loop, round the outer one, or
      back to its caller. */
  datatype After = Retry | Restart | Leave

  /** Where a thread is. Reads hold the deadline and the sequence number they fetched. */
  datatype Pc =
    | Idle
    | Starting
    | Fetched(deadline: Deadline, seqNo: nat)
    | Holding(deadline: Deadline, seqNo: nat)
    | Polling(deadline: Deadline, seqNo: nat)
    | Draining(deadline: Deadline, seqNo: nat)
    | Unregistering(deadline: Deadline, seqNo: nat, way: Option<After>)
    | Sizing(deadline: Deadline, seqNo: nat)
    | Receiving(deadline: Deadline, seqNo: nat)
    | Releasing(deadline: Deadline, seqNo: nat, after: After)
    | Sending
    | Sent
    | Waiting
    | Asleep
    | ClosingFd
    | ClosingWake

  /** How poll ends (conn.go:211-234). */
  datatype Polled = Woken | Readable | TimedOut | Nothing | Interrupted | PollFailed

  /** How another system call ends. */
  datatype Io = Good | Again | Bad

  /** A step, with what the environment has to say to it. */
  datatype Action =
    | BeginRead
    | Snapshot
    | Expire
    | AcquireFDs
    | RegisterPoll
    | Poll(polled: Polled)
    | DrainRead
    | DrainStop(failed: bool)
    | UnregisterPoll
    | Size(io: Io)
    | Receive(io: Io, mine: bool)
    | ReleaseFD
    | BeginSend
    | Send
    | SetReadDeadline(t: Deadline, notified: bool)
    | Close(notified: bool)
    | TestIdle
    | CloseFd
    | CloseWake

  /** A step of a thread on its own; None when it is not one the thread can take. */
  function Local(s: Shared, pc: Pc, a: Action): (r: Option<(Shared, Pc)>) {
    match pc
    case Idle =>
      (match a
       case BeginRead => Some((s, Starting))
       case BeginSend => var t := Acquire(s); Some(if t.Some? then (t.value, Sending) else (s, Idle))
       case SetReadDeadline(t, notified) => Some((SetDeadline(s, t, notified), Idle))
       case Close(notified) => var t := BeginClose(s, notified); Some(if t.Some? then (t.value, Waiting) else (s, Idle))
       case _ => None)
    case Starting => if a.Snapshot? then Some((s, Fetched(Current(s).0, Current(s).1))) else None
    case Fetched(d, n) =>
      (match a
       case Expire => if d.Some? then Some((s, Idle)) else None
       case AcquireFDs => var t := Acquire(s); Some(if t.Some? then (t.value, Holding(d, n)) else (s, Idle))
       case _ => None)
    case Holding(d, n) =>
      (match a
       case Expire => if d.Some? then Some((s, Releasing(d, n, Leave))) else None
       case RegisterPoll =>
         (match Register(s, n)
          case Registered(t) => Some((t, Polling(d, n)))
          case Closed => Some((s, Releasing(d, n, Leave)))
          case DeadlineChanged => Some((s, Releasing(d, n, Restart))))
       case _ => None)
    case Polling(d, n) => if a.Poll? then LocalPoll(s, d, n, a.polled) else None
    case Draining(d, n) =>
      (match a
       case DrainRead => if s.wake > 0 then Some((s.(wake := 0), pc)) else None
       case DrainStop(failed) => if s.wake == 0 || failed then Some((s, Unregistering(d, n, Some(Restart)))) else None
       case _ => None)
    case Unregistering(d, n, way) =>
      if a.UnregisterPoll? then
        Some((Unregister(s), if way.Some? then Releasing(d, n, way.value) else Sizing(d, n)))
      else None
    case Sizing(d, n) =>
      if a.Size? then
        Some((s, if a.io.Good? then Receiving(d, n) else Releasing(d, n, if a.io.Again? then Retry else Leave)))
      else None
    case Receiving(d, n) =>
      if a.Receive? then
        Some((s, Releasing(d, n, if a.io.Again? then Retry else if a.io.Good? && !a.mine then Restart else Leave)))
      else None
    case Releasing(d, n, after) =>
      if a.ReleaseFD? then
        Some((Release(s), match after case Retry => Fetched(d, n) case Restart => Starting case Leave => Idle))
      else None
    case Sending => if a.Send? then Some((s, Sent)) else None
    case Sent => if a.ReleaseFD? then Some((Release(s), Idle)) else None
    case Waiting => if a.TestIdle? then Some((s, if s.activeOps > 0 then Asleep else ClosingFd)) else None
    case Asleep => None
    case ClosingFd => if a.CloseFd? then Some((s.(fdCloses := s.fdCloses + 1), ClosingWake)) else None
    case ClosingWake => if a.CloseWake? then Some((s.(wakeCloses := s.wakeCloses + 1), Idle)) else None
  }

  /** Poll reports the eventfd whenever its counter is not zero; it times out only if it was given a time. */
  function LocalPoll(s: Shared, d: Deadline, n: nat, polled: Polled): (r: Option<(Shared, Pc)>) {
    match polled
    case Woken => if s.wake > 0 then Some((s, Draining(d, n))) else None
    case Readable => if s.wake == 0 then Some((s, Unregistering(d, n, None))) else None
    case TimedOut => if s.wake == 0 && d.Some? then Some((s, Unregistering(d, n, Some(Retry)))) else None
    case Nothing => if s.wake == 0 then Some((s, Unregistering(d, n, Some(Retry)))) else None
    case Interrupted => Some((s, Unregistering(d, n, Some(Retry))))
    case PollFailed => Some((s, Unregistering(d, n, Some(Leave))))
  }

  // All threads together

  /** The connection, its threads, and whether the last deadline was set while a read was polling and the eventfd
      could not be written. */
  datatype State = State(shared: Shared, threads: seq<Pc>, lost: bool)

  /** Broadcast: everyone asleep on the condition waits for the mutex again. */
  function Awake(threads: seq<Pc>): (ts: seq<Pc>)
    ensures |ts| == |threads|
  {
    seq(|threads|, i requires 0 <= i < |threads| => if threads[i].Asleep? then Waiting else threads[i])
  }

  predicate Unnotified(s: Shared, a: Action) {
    a.SetReadDeadline? && !a.notified && s.fdValid && s.pollWaiters > 0
  }

  function Step(s: State, i: nat, a: Action): (next: Option<State>)
    requires i < |s.threads|
  {
    var r := Local(s.shared, s.threads[i], a);
    if r.None? then None
    else
      var moved := s.threads[i := r.value.1];
      Some(State(r.value.0,
                 if a.ReleaseFD? && r.value.0.activeOps == 0 then Awake(moved) else moved,
                 if a.SetReadDeadline? && s.shared.fdValid then Unnotified(s.shared, a) else s.lost))
  }

  function Initial(n: nat): State { State(FRESH, seq(n, i => Idle), false) }

  /** A run: which thread takes which step, one after another. */
  type Trace = seq<(nat, Action)>

  function Run(s: State, trace: Trace): (end: Option<State>)
    decreases |trace|
  {
    if trace == [] then Some(s)
    else if trace[0].0 >= |s.threads| then None
    else
      var next := Step(s, trace[0].0, trace[0].1);
      if next.None? then None else Run(next.value, trace[1..])
  }

  // Counting

  /** Between acquiring the descriptors and releasing them. */
  predicate Holds(pc: Pc) {
    Registered(pc) || pc.Holding? || pc.Sizing? || pc.Receiving? || pc.Releasing? || pc.Sending? || pc.Sent?
  }

  predicate Registered(pc: Pc) { pc.Polling? || pc.Draining? || pc.Unregistering? }

  /** Inside Close, behind its first region. */
  predicate Closing(pc: Pc) { pc.Waiting? || pc.Asleep? || pc.ClosingFd? || pc.ClosingWake? }

  datatype Weight = Holders | Pollers | FdDue | WakeDue | Rank(busy: bool)

  /** What a thread counts for: holding the descriptors, being registered, still having to close either of
      them, and how many of its own steps are left until it has released or closed. */
  function W(w: Weight, pc: Pc): nat {
    match w
    case Holders => if Holds(pc) then 1 else 0
    case Pollers => if Registered(pc) then 1 else 0
    case FdDue => if Closing(pc) && !pc.ClosingWake? then 1 else 0
    case WakeDue => if Closing(pc) then 1 else 0
    case Rank(busy) => RankOf(pc, busy)
  }

  function RankOf(pc: Pc, busy: bool): nat {
    match pc
    case Holding(_, _) => 7
    case Polling(_, _) => 6
    case Draining(_, _) => 5
    case Unregistering(_, _, _) => 4
    case Sizing(_, _) => 3
    case Receiving(_, _) => 2
    case Releasing(_, _, _) => 1
    case Sending => 2
    case Sent => 1
    case Waiting => if busy then 5 else 3
    case Asleep => 4
    case ClosingFd => 2
    case ClosingWake => 1
    case _ => 0
  }

  function Sum(w: Weight, threads: seq<Pc>): nat {
    if threads == [] then 0 else W(w, threads[0]) + Sum(w, threads[1..])
  }

  lemma {:induction false} SumMoved(w: Weight, threads: seq<Pc>, i: nat, pc: Pc)
    requires i < |threads|
    ensures Sum(w, threads[i := pc]) == Sum(w, threads) - W(w, threads[i]) + W(w, pc)
  {
    hide W;
    if i == 0 {
      assert threads[0 := pc][1..] == threads[1..];
    } else {
      SumMoved(w, threads[1..], i - 1, pc);
      assert threads[i := pc][1..] == threads[1..][i - 1 := pc];
    }
  }

  function Sleepers(threads: seq<Pc>): nat {
    if threads == [] then 0 else One(threads[0].Asleep?) + Sleepers(threads[1..])
  }

  /** Waking sleepers changes nobody's part in the counts, and is one step on for each that it wakes. */
  lemma {:induction false} SumAwake(w: Weight, threads: seq<Pc>)
    ensures !w.Rank? ==> Sum(w, Awake(threads)) == Sum(w, threads)
    ensures w == Rank(false) ==> Sum(w, Awake(threads)) + Sleepers(threads) == Sum(w, threads)
  {
    if threads != [] {
      SumAwake(w, threads[1..]);
      assert Awake(threads)[1..] == Awake(threads[1..]);
    }
  }

  lemma {:induction false} SumAtLeast(w: Weight, threads: seq<Pc>, i: nat)
    requires i < |threads|
    ensures Sum(w, threads) >= W(w, threads[i])
  {
    hide W;
    if i > 0 { SumAtLeast(w, threads[1..], i - 1); }
  }

  lemma {:induction false} SomeoneCounts(w: Weight, threads: seq<Pc>) returns (i: nat)
    requires Sum(w, threads) > 0
    ensures i < |threads| && W(w, threads[i]) > 0
  {
    hide W;
    if W(w, threads[0]) > 0 { return 0; }
    i := SomeoneCounts(w, threads[1..]);
    i := i + 1;
  }

  lemma {:induction false} NobodyCounts(w: Weight, n: nat)
    requires W(w, Idle) == 0
    ensures Sum(w, seq(n, i => Idle)) == 0
  {
    hide W;
    if n > 0 {
      NobodyCounts(w, n - 1);
      assert seq(n, i => Idle)[1..] == seq(n - 1, i => Idle);
    }
  }

  // What every step keeps

  function One(b: bool): nat { if b then 1 else 0 }

  /** The fields count the threads; each descriptor is open, due to be closed by one thread, or closed, once;
      nobody sleeps with nothing to wait for, and nobody closes while a thread holds the descriptors. */
  ghost predicate Inv(s: State) {
    var c := s.shared;
    && c.activeOps == Sum(Holders, s.threads)
    && c.pollWaiters == Sum(Pollers, s.threads)
    && c.fdValid == c.wakeValid
    && One(c.fdValid) + Sum(FdDue, s.threads) + c.fdCloses == 1
    && One(c.fdValid) + Sum(WakeDue, s.threads) + c.wakeCloses == 1
    && (c.fdCloses > 0 ==> c.activeOps == 0)
    && forall i :: 0 <= i < |s.threads| ==> Placed(c, s.threads[i])
  }

  predicate Placed(c: Shared, pc: Pc) {
    && (pc.Asleep? ==> c.activeOps > 0)
    && (pc.ClosingFd? || pc.ClosingWake? ==> c.activeOps == 0)
  }

  /** A step changes the fields by what its thread's part in the counts changes. */
  lemma LocalCounts(s: Shared, pc: Pc, a: Action)
    requires Local(s, pc, a).Some?
    ensures var (t, to) := Local(s, pc, a).value;
            && t.activeOps - s.activeOps == W(Holders, to) - W(Holders, pc)
            && t.pollWaiters - s.pollWaiters == W(Pollers, to) - W(Pollers, pc)
  {
  }

  lemma LocalDue(s: Shared, pc: Pc, a: Action)
    requires Local(s, pc, a).Some?
    ensures var (t, to) := Local(s, pc, a).value;
            && (s.fdValid == s.wakeValid ==> t.fdValid == t.wakeValid)
            && One(t.fdValid) + W(FdDue, to) + t.fdCloses == One(s.fdValid) + W(FdDue, pc) + s.fdCloses
            && One(t.fdValid) + W(WakeDue, to) + t.wakeCloses == One(s.fdValid) + W(WakeDue, pc) + s.wakeCloses
  {
  }

  /** Once the connection is being closed: nobody acquires, nothing is opened again, and nobody is notified. */
  lemma LocalClosed(s: Shared, pc: Pc, a: Action)
    requires Local(s, pc, a).Some? && !s.fdValid
    ensures var (t, to) := Local(s, pc, a).value;
            !t.fdValid && t.activeOps <= s.activeOps && t.wake <= s.wake && (W(Holders, to) <= W(Holders, pc))
  {
  }

  lemma LocalPlaced(s: Shared, pc: Pc, a: Action)
    requires Local(s, pc, a).Some? && Placed(s, pc) && s.activeOps >= 0
    ensures var (t, to) := Local(s, pc, a).value;
            && Placed(t, to)
            && (t.activeOps > s.activeOps ==> s.fdValid)
            && (t.activeOps < s.activeOps ==> a.ReleaseFD? && Holds(pc))
            && (t.fdCloses > s.fdCloses ==> pc.ClosingFd? && t.activeOps == s.activeOps)
            && (t.wakeCloses > s.wakeCloses ==> pc.ClosingWake?)
            && s.fdCloses <= t.fdCloses && s.wakeCloses <= t.wakeCloses
  {
  }

  /** The counts of all threads after a step. */
  lemma StepSum(s: State, i: nat, a: Action, w: Weight)
    requires i < |s.threads| && Step(s, i, a).Some? && !w.Rank?
    ensures var to := Local(s.shared, s.threads[i], a).value.1;
            Sum(w, Step(s, i, a).value.threads) == Sum(w, s.threads) - W(w, s.threads[i]) + W(w, to)
  {
    hide W, Local, Sum, Awake;
    var to := Local(s.shared, s.threads[i], a).value.1;
    SumMoved(w, s.threads, i, to);
    SumAwake(w, s.threads[i := to]);
  }

  lemma InvHolds(n: nat)
    ensures Inv(Initial(n))
  {
    NobodyCounts(Holders, n);
    NobodyCounts(Pollers, n);
    NobodyCounts(FdDue, n);
    NobodyCounts(WakeDue, n);
  }

  /** Every step of every thread keeps the invariant. */
  lemma StepKeepsInv(s: State, i: nat, a: Action)
    requires Inv(s) && i < |s.threads| && Step(s, i, a).Some?
    ensures Inv(Step(s, i, a).value)
  {
    hide Local, Sum, Awake, W;
    var next := Step(s, i, a).value;
    var pc := s.threads[i];
    var (t, to) := Local(s.shared, pc, a).value;
    LocalCounts(s.shared, pc, a);
    LocalDue(s.shared, pc, a);
    LocalPlaced(s.shared, pc, a);
    StepSum(s, i, a, Holders);
    StepSum(s, i, a, Pollers);
    StepSum(s, i, a, FdDue);
    StepSum(s, i, a, WakeDue);
    OpsWhileClosing(s, i, a);
    forall j | 0 <= j < |s.threads| ensures Placed(t, next.threads[j]) {
      OtherPlaced(s, i, a, j);
    }
  }

  /** Nobody acquires or releases while a thread closes a descriptor, or after. */
  lemma OpsWhileClosing(s: State, i: nat, a: Action)
    requires Inv(s) && i < |s.threads| && Step(s, i, a).Some?
    ensures var t := Local(s.shared, s.threads[i], a).value.0;
            && (t.fdCloses > 0 ==> t.activeOps == 0)
            && (forall j :: 0 <= j < |s.threads| && (s.threads[j].ClosingFd? || s.threads[j].ClosingWake?) ==>
               t.activeOps == 0)
  {
    hide Local, Sum;
    var pc := s.threads[i];
    var (t, to) := Local(s.shared, pc, a).value;
    LocalPlaced(s.shared, pc, a);
    LocalDue(s.shared, pc, a);
    SumAtLeast(Holders, s.threads, i);
    if s.shared.fdCloses == 0 {
      forall j | 0 <= j < |s.threads| && (s.threads[j].ClosingFd? || s.threads[j].ClosingWake?)
        ensures t.activeOps == 0
      {
        assert Placed(s.shared, s.threads[j]);
        SumAtLeast(WakeDue, s.threads, j);
      }
    }
  }

  lemma OtherPlaced(s: State, i: nat, a: Action, j: nat)
    requires Inv(s) && i < |s.threads| && j < |s.threads| && Step(s, i, a).Some?
    ensures Placed(Step(s, i, a).value.shared, Step(s, i, a).value.threads[j])
  {
    hide Local, Sum;
    var pc := s.threads[i];
    var (t, to) := Local(s.shared, pc, a).value;
    assert Placed(s.shared, pc) && Placed(s.shared, s.threads[j]);
    LocalPlaced(s.shared, pc, a);
    LocalCounts(s.shared, pc, a);
    SumAtLeast(Holders, s.threads, i);
    OpsWhileClosing(s, i, a);
  }

  /** In every reachable state, whatever the threads and the environment do. */
  lemma {:induction false} InvAlways(s: State, trace: Trace)
    requires Inv(s) && Run(s, trace).Some?
    ensures Inv(Run(s, trace).value)
    decreases |trace|
  {
    hide Inv, Step;
    if trace != [] {
      StepKeepsInv(s, trace[0].0, trace[0].1);
      InvAlways(Step(s, trace[0].0, trace[0].1).value, trace[1..]);
    }
  }
}
