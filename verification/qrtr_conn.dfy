/** driver/qmi/qrtr/conn.go: the fields a connection guards with its mutex, and each region that runs
    while the mutex is held. */
module QrtrConn {
  import opened Bytes

  /** A read deadline; the zero time is none. */
  type Deadline = Option<int>

  /** The largest count an eventfd holds; a write that would exceed it gives EAGAIN. */
  const MAX_WAKE: nat := U64 - 2

  /** The connection's fields, the eventfd's counter, and how often each descriptor was closed. */
  datatype Shared = Shared(
    activeOps: int,
    fdValid: bool,
    wakeValid: bool,
    deadline: Deadline,
    deadlineSeq: nat,
    pollWaiters: int,
    wake: nat,
    fdCloses: nat,
    wakeCloses: nat)

  /** newConnWithFDs (conn.go:59-63) */
  const FRESH: Shared := Shared(0, true, true, None, 0, 0, 0, 0, 0)

  /** notifyWakeFD (conn.go:436-449); a counter that is full counts as notified. */
  function Notify(s: Shared): Shared {
    if s.wakeValid && s.wake < MAX_WAKE then s.(wake := s.wake + 1) else s
  }

  /** acquireFD and acquireFDs (conn.go:368-386); None is net.ErrClosed. */
  function Acquire(s: Shared): (t: Option<Shared>) {
    if s.fdValid then Some(s.(activeOps := s.activeOps + 1)) else None
  }

  /** releaseFD (conn.go:400-407) */
  function Release(s: Shared): Shared { s.(activeOps := s.activeOps - 1) }

  /** currentReadDeadline (conn.go:388-392) */
  function Current(s: Shared): (Deadline, nat) { (s.deadline, s.deadlineSeq) }

  datatype Registered = Registered(s: Shared) | Closed | DeadlineChanged

  /** registerPoll (conn.go:417-428) */
  function Register(s: Shared, deadlineSeq: nat): (r: Registered) {
    if !s.fdValid then Closed
    else if s.deadlineSeq != deadlineSeq then DeadlineChanged
    else Registered(s.(pollWaiters := s.pollWaiters + 1))
  }

  /** unregisterPoll (conn.go:430-434) */
  function Unregister(s: Shared): Shared { s.(pollWaiters := s.pollWaiters - 1) }

  /** SetReadDeadline (conn.go:283-295); notified says whether the eventfd can be written. */
  function SetDeadline(s: Shared, t: Deadline, notified: bool): (next: Shared) {
    if !s.fdValid then s
    else
      var u := s.(deadline := t, deadlineSeq := s.deadlineSeq + 1);
      if u.pollWaiters > 0 && notified then Notify(u) else u
  }

  /** The first region of Close (conn.go:309-327): None is ErrClosed or a failed notification. */
  function BeginClose(s: Shared, notified: bool): (next: Option<Shared>) {
    if !s.fdValid || (s.pollWaiters > 0 && s.wakeValid && !notified) then None
    else Some((if s.pollWaiters > 0 then Notify(s) else s).(fdValid := false, wakeValid := false))
  }

  class Conn {
    var activeOps: int
    var fdValid: bool
    var wakeValid: bool
    var deadline: Deadline
    var deadlineSeq: nat
    var pollWaiters: int
    /** The eventfd's counter, and the closes of either descriptor. */
    var wake: nat
    var fdCloses: nat
    var wakeCloses: nat

    function State(): Shared
      reads this
    {
      Shared(activeOps, fdValid, wakeValid, deadline, deadlineSeq, pollWaiters, wake, fdCloses, wakeCloses)
    }

    constructor ()
      ensures State() == FRESH
    {
      activeOps, fdValid, wakeValid, deadline, deadlineSeq, pollWaiters := 0, true, true, None, 0, 0;
      wake, fdCloses, wakeCloses := 0, 0, 0;
    }

    method NotifyWakeFD(notified: bool) returns (ok: bool)
      modifies this`wake
      ensures ok == (notified || !wakeValid)
      ensures State() == if notified then Notify(old(State())) else old(State())
    {
      if !wakeValid { return true; }
      if notified && wake < MAX_WAKE { wake := wake + 1; }
      return notified;
    }

    method AcquireFD() returns (ok: bool)
      modifies this`activeOps
      ensures ok == Acquire(old(State())).Some?
      ensures State() == if ok then Acquire(old(State())).value else old(State())
    {
      if !fdValid { return false; }
      activeOps := activeOps + 1;
      return true;
    }

    /** Whether sleepers on the condition are woken comes back. */
    method ReleaseFD() returns (broadcast: bool)
      modifies this`activeOps
      ensures State() == Release(old(State())) && broadcast == (activeOps == 0)
    {
      activeOps := activeOps - 1;
      return activeOps == 0;
    }

    method CurrentReadDeadline() returns (d: Deadline, seqNo: nat)
      ensures (d, seqNo) == Current(State())
    {
      return deadline, deadlineSeq;
    }

    method RegisterPoll(seqNo: nat) returns (r: Registered)
      modifies this`pollWaiters
      ensures r == Register(old(State()), seqNo)
      ensures State() == if r.Registered? then r.s else old(State())
    {
      if !fdValid { return Closed; }
      if deadlineSeq != seqNo { return DeadlineChanged; }
      pollWaiters := pollWaiters + 1;
      return Registered(State());
    }

    method UnregisterPoll()
      modifies this`pollWaiters
      ensures State() == Unregister(old(State()))
    {
      pollWaiters := pollWaiters - 1;
    }

    method SetReadDeadline(t: Deadline, notified: bool) returns (ok: bool)
      modifies this`deadline, this`deadlineSeq, this`wake
      ensures State() == SetDeadline(old(State()), t, notified)
      ensures ok == (old(fdValid) && (old(pollWaiters) > 0 && old(wakeValid) ==> notified))
    {
      if !fdValid { return false; }
      deadline := t;
      deadlineSeq := deadlineSeq + 1;
      if pollWaiters > 0 {
        ok := NotifyWakeFD(notified);
        return;
      }
      return true;
    }

    /** The first region of Close. */
    method StartClose(notified: bool) returns (started: bool)
      modifies this`fdValid, this`wakeValid, this`wake
      ensures started == BeginClose(old(State()), notified).Some?
      ensures State() == if started then BeginClose(old(State()), notified).value else old(State())
    {
      if !fdValid { return false; }
      if pollWaiters > 0 {
        var ok := NotifyWakeFD(notified);
        if !ok { return false; }
      }
      fdValid := false;
      wakeValid := false;
      return true;
    }
  }
}
