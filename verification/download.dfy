/** lpa/download.go: a profile download as the commands it gives the card and the calls it makes to the server. */
module Download {
  import opened Bytes
  import opened BerTlv
  import BoundProfilePackage
  import TlvIO

  datatype Reason = Postponed | MetadataMismatch | LoadBppExecutionError

  datatype Command =
    | GetChallenge
    | GetInfo1
    | AuthenticateServer
    | PrepareDownload
    | LoadSegment(data: seq<byte>)
    | CancelSession(transaction: seq<byte>, reason: Reason)

  datatype Call = InitiateAuthentication | AuthenticateClient | GetBoundProfilePackage | ReportCancel

  datatype Event = ToCard(command: Command) | ToServer(call: Call)

  /** What the server answers to AuthenticateClient: success, or an error that may still carry the status of a
      success (a reply whose body could not be read to its end). */
  datatype Authentication = Accepted | Rejected(executed: bool)

  /** What the result of an installation says. */
  datatype Verdict = Installed | Unsuccessful | Undecodable

  /** What the user, the card and the server say when they are asked. */
  datatype World = World(
    codeValid: bool,
    challenge: bool,
    info1: bool,
    initiated: bool,
    imei: bool,
    serverAuthenticated: bool,
    client: Authentication,
    metadata: bool,
    clientTransaction: seq<byte>,
    canceled: bool,
    confirmed: bool,
    codeRequired: bool,
    hasCode: bool,
    entersCode: bool,
    canceledBeforePrepare: bool,
    prepared: bool,
    packaged: bool,
    serverTransaction: seq<byte>,
    canceledBeforeInstall: bool,
    package: Tlv,
    replies: seq<Option<seq<byte>>>,
    verdict: Tlv -> Verdict,
    cancelAnswered: bool,
    cancelReported: bool)

  /** How DownloadProfile returns: a result without error, an error, or neither. */
  datatype Outcome = Success | Error | NoResult

  // The run, as a function of the answers

  /** How authenticateClient returns: no response, one with an error, or success. */
  datatype Auth = NoResponse | BadResponse(executed: bool) | Passed

  function AuthLog(w: World): seq<Event> {
    var all := [ToCard(GetChallenge), ToCard(GetInfo1), ToServer(InitiateAuthentication), ToCard(AuthenticateServer),
                ToServer(AuthenticateClient)];
    if !w.challenge then all[..1]
    else if !w.info1 then all[..2]
    else if !w.initiated || !w.imei then all[..3]
    else if !w.serverAuthenticated then all[..4]
    else all
  }

  function AuthResult(w: World): Auth {
    if !(w.challenge && w.info1 && w.initiated && w.imei && w.serverAuthenticated) then NoResponse
    else if w.client.Rejected? then BadResponse(w.client.executed)
    else if !w.metadata then BadResponse(true)
    else Passed
  }

  function PrepareLog(w: World): seq<Event> {
    [ToCard(PrepareDownload)] + if w.prepared then [ToServer(GetBoundProfilePackage)] else []
  }

  function CancelLog(w: World, transaction: seq<byte>, reason: Reason): seq<Event> {
    [ToCard(CancelSession(transaction, reason))] + if w.cancelAnswered then [ToServer(ReportCancel)] else []
  }

  function CancelOutcome(w: World): Outcome {
    if w.cancelAnswered && w.cancelReported then NoResult else Error
  }

  /** The segment loop: how many segments are sent, and the last reply unless the card failed. */
  datatype Loading = Loading(sent: nat, reply: Option<seq<byte>>)

  function Load(segments: seq<seq<byte>>, replies: seq<Option<seq<byte>>>, reply: seq<byte>): (l: Loading)
    ensures l.sent <= |segments|
  {
    if segments == [] then Loading(0, Some(reply))
    else if replies == [] || replies[0].None? then Loading(1, None)
    else if replies[0].value != [] then Loading(1, replies[0])
    else var l := Load(segments[1..], replies[1..], []); l.(sent := l.sent + 1)
  }

  function LoadLog(segments: seq<seq<byte>>): (log: seq<Event>)
    ensures |log| == |segments|
  {
    seq(|segments|, i requires 0 <= i < |segments| => ToCard(LoadSegment(segments[i])))
  }

  /** Cutting the package does not panic, and neither does reading a reply. */
  predicate Cuttable(w: World) {
    && (BoundProfilePackage.Valid(w.package) ==> BoundProfilePackage.Ready(w.package))
    && forall r :: r in w.replies && r.Some? ==> !Parse(r.value).Crash?
  }

  /** What install makes of the last reply (download.go:189-197). */
  function Decide(w: World, reply: seq<byte>): (v: Verdict) {
    var p := Parse(reply);
    if p.Parsed? then w.verdict(p.tlv) else Undecodable
  }

  function SegmentsOf(w: World): seq<seq<byte>>
    requires Cuttable(w)
  {
    if BoundProfilePackage.Valid(w.package) then BoundProfilePackage.Segments(w.package) else []
  }

  function InstallLog(w: World): seq<Event>
    requires Cuttable(w)
  {
    LoadLog(SegmentsOf(w)[..Load(SegmentsOf(w), w.replies, []).sent])
  }

  function InstallOk(w: World): bool
    requires Cuttable(w)
  {
    BoundProfilePackage.Valid(w.package)
    && (var l := Load(SegmentsOf(w), w.replies, []); l.reply.Some? && Decide(w, l.reply.value) == Installed)
  }

  /** A run: everything sent, in order, and how it returned. */
  datatype Played = Played(log: seq<Event>, outcome: Outcome)

  /** DownloadProfile (download.go:112-172) */
  function Run(w: World): (run: Played)
    requires Cuttable(w)
  {
    if !w.codeValid then Played([], Error)
    else
      var auth := AuthLog(w);
      match AuthResult(w)
      case NoResponse => Played(auth, Error)
      case BadResponse(executed) =>
        Played(if executed then auth + CancelLog(w, w.clientTransaction, MetadataMismatch) else auth, Error)
      case Passed =>
        var stop := CancelLog(w, w.clientTransaction, Postponed);
        if w.canceled || !w.confirmed then Played(auth + stop, CancelOutcome(w))
        else if w.codeRequired && !w.hasCode && !w.entersCode then Played(auth + stop, Error)
        else if w.canceledBeforePrepare then Played(auth + stop, CancelOutcome(w))
        else
          var prepare := auth + PrepareLog(w);
          if !w.prepared || !w.packaged then Played(prepare + stop, Error)
          else if w.canceledBeforeInstall then
            Played(prepare + CancelLog(w, w.serverTransaction, Postponed), CancelOutcome(w))
          else
            var install := prepare + InstallLog(w);
            if InstallOk(w) then Played(install, Success)
            else Played(install + CancelLog(w, w.serverTransaction, LoadBppExecutionError), Error)
  }

  lemma LoadTurn(segments: seq<seq<byte>>, replies: seq<Option<seq<byte>>>)
    ensures segments == [] ==> Load(segments, replies, []) == Loading(0, Some([]))
    ensures segments != [] ==>
              Load(segments, replies, [])
              == if replies == [] || replies[0].None? then Loading(1, None)
                 else if replies[0].value != [] then Loading(1, replies[0])
                 else var l := Load(segments[1..], replies[1..], []); l.(sent := l.sent + 1)
  {
  }

  lemma LoadMore(segments: seq<seq<byte>>, i: nat)
    requires i < |segments|
    ensures forall log ::
              log + LoadLog(segments[..i + 1]) == log + LoadLog(segments[..i]) + [ToCard(LoadSegment(segments[i]))]
  {
  }

  lemma NothingToLoad(w: World)
    requires Cuttable(w) && !BoundProfilePackage.Valid(w.package)
    ensures InstallLog(w) == [] && forall log: seq<Event> :: log + InstallLog(w) == log
  {
  }

  /** Whether there is a confirmation code after a run: one is asked for only when the server requires it and
      nobody has stopped before (download.go:134-137). */
  function CodeAfter(w: World): bool {
    if w.codeValid && AuthResult(w).Passed? && !w.canceled && w.confirmed && w.codeRequired && !w.hasCode then
      w.entersCode
    else w.hasCode
  }

  // The client

  class Client {
    const w: World
    var log: seq<Event>
    /** ac.ConfirmationCode is not empty. */
    var hasCode: bool

    constructor (w: World)
      ensures this.w == w && log == [] && hasCode == w.hasCode
    {
      this.w, this.log, this.hasCode := w, [], w.hasCode;
    }

    method Send(e: Event)
      modifies this`log
      ensures log == old(log) + [e]
    {
      log := log + [e];
    }

    /** authenticateClient (download.go:211-237), with InitiateAuthentication and AuthenticateClient inside */
    method Authenticate() returns (a: Auth)
      modifies this`log
      ensures a == AuthResult(w) && log == old(log) + AuthLog(w)
    {
      Send(ToCard(GetChallenge));
      if !w.challenge { return NoResponse; }
      Send(ToCard(GetInfo1));
      if !w.info1 { return NoResponse; }
      Send(ToServer(InitiateAuthentication));
      if !w.initiated { return NoResponse; }
      if !w.imei { return NoResponse; }
      Send(ToCard(AuthenticateServer));
      if !w.serverAuthenticated { return NoResponse; }
      Send(ToServer(AuthenticateClient));
      if w.client.Rejected? { return BadResponse(w.client.executed); }
      if !w.metadata { return BadResponse(true); }
      return Passed;
    }

    /** cancelSession (download.go:270-279) */
    method Cancel(transaction: seq<byte>, reason: Reason) returns (ok: bool)
      modifies this`log
      ensures ok == (w.cancelAnswered && w.cancelReported)
      ensures log == old(log) + CancelLog(w, transaction, reason)
    {
      Send(ToCard(CancelSession(transaction, reason)));
      if !w.cancelAnswered { return false; }
      Send(ToServer(ReportCancel));
      return w.cancelReported;
    }

    /** The loop over the segments (download.go:179-188); None when the card fails. */
    method LoadSegments(segments: seq<seq<byte>>) returns (reply: Option<seq<byte>>)
      modifies this`log
      ensures var l := Load(segments, w.replies, []);
              reply == l.reply && log == old(log) + LoadLog(segments[..l.sent])
    {
      hide Load;
      var r: seq<byte> := [];
      var i := 0;
      assert segments[0..] == segments && w.replies[0..] == w.replies && log + LoadLog(segments[..0]) == log;
      while i < |segments|
        invariant 0 <= i <= |segments| && i <= |w.replies| && log == old(log) + LoadLog(segments[..i])
        invariant r == []
        invariant var l := Load(segments[i..], w.replies[i..], []);
                  Load(segments, w.replies, []) == l.(sent := i + l.sent)
      {
        LoadTurn(segments[i..], w.replies[i..]);
        LoadMore(segments, i);
        Send(ToCard(LoadSegment(segments[i])));
        if i >= |w.replies| || w.replies[i].None? { return None; }
        r := w.replies[i].value;
        assert segments[i..][1..] == segments[i + 1..] && w.replies[i..][1..] == w.replies[i + 1..];
        i := i + 1;
        if |r| > 0 { return Some(r); }
      }
      LoadTurn(segments[i..], w.replies[i..]);
      return Some(r);
    }

    /** install (download.go:174-198) */
    method Install() returns (ok: bool)
      requires Cuttable(w)
      modifies this`log
      ensures ok == InstallOk(w) && log == old(log) + InstallLog(w)
    {
      hide BoundProfilePackage.Valid, BoundProfilePackage.Ready, Load, LoadLog, Parse;
      var cut := BoundProfilePackage.Segment(w.package);
      if cut.None? {
        NothingToLoad(w);
        return false;
      }
      var reply := LoadSegments(cut.value);
      if reply.None? { return false; }
      var reader := new Reader(reply.value);
      var tlv := TlvIO.ReadFrom(reader);
      return tlv.Parsed? && w.verdict(tlv.tlv) == Installed;
    }

    /** abort (download.go:262-268); the error it returns is the one it is given. */
    method Abort(transaction: seq<byte>, reason: Reason)
      modifies this`log
      ensures log == old(log) + CancelLog(w, transaction, reason)
    {
      var ok := Cancel(transaction, reason);
    }

    /** What DownloadProfile does when it is stopped (download.go:130-131, 152-153, 164-165). */
    method Stop(transaction: seq<byte>) returns (outcome: Outcome)
      modifies this`log
      ensures outcome == CancelOutcome(w) && log == old(log) + CancelLog(w, transaction, Postponed)
    {
      var ok := Cancel(transaction, Postponed);
      return if ok then NoResult else Error;
    }

    /** DownloadProfile (download.go:112-172) */
    method DownloadProfile() returns (outcome: Outcome)
      requires Cuttable(w) && log == [] && hasCode == w.hasCode
      modifies this
      ensures Played(log, outcome) == Run(w) && hasCode == CodeAfter(w)
    {
      hide AuthLog, AuthResult, CancelLog, CancelOutcome, InstallLog, InstallOk, Cuttable;
      if !w.codeValid { return Error; }
      var auth := Authenticate();
      if auth != Passed {
        if auth.BadResponse? && auth.executed {
          Abort(w.clientTransaction, MetadataMismatch);
        }
        return Error;
      }
      if w.canceled || !w.confirmed {
        outcome := Stop(w.clientTransaction);
        return;
      }
      if w.codeRequired && !hasCode {
        hasCode := w.entersCode;
        if !hasCode {
          Abort(w.clientTransaction, Postponed);
          return Error;
        }
      }
      if w.canceledBeforePrepare {
        outcome := Stop(w.clientTransaction);
        return;
      }
      Send(ToCard(PrepareDownload));
      if w.prepared { Send(ToServer(GetBoundProfilePackage)); }
      if !w.prepared || !w.packaged {
        Abort(w.clientTransaction, Postponed);
        return Error;
      }
      if w.canceledBeforeInstall {
        outcome := Stop(w.serverTransaction);
        return;
      }
      var installed := Install();
      if !installed {
        Abort(w.serverTransaction, LoadBppExecutionError);
        return Error;
      }
      return Success;
    }
  }

  // The laws

  predicate IsCancel(e: Event) { e.ToCard? && e.command.CancelSession? }

  predicate IsLoad(e: Event) { e.ToCard? && e.command.LoadSegment? }

  function CancelsIn(log: seq<Event>): nat {
    if log == [] then 0 else (if IsCancel(log[0]) then 1 else 0) + CancelsIn(log[1..])
  }

  lemma {:induction false} CancelsAdd(a: seq<Event>, b: seq<Event>)
    ensures CancelsIn(a + b) == CancelsIn(a) + CancelsIn(b)
  {
    if a == [] {
      assert a + b == b;
    } else {
      HeadApart(a, b);
      CancelsAdd(a[1..], b);
    }
  }

  /** Nothing goes to the card behind a cancellation. */
  predicate CancelIsLast(log: seq<Event>) {
    forall i, j :: 0 <= i < j < |log| && IsCancel(log[i]) ==> log[j].ToServer?
  }

  /** The server accepted the client, or reported the status of having accepted it. */
  predicate ClientPassed(w: World, log: seq<Event>) {
    ToServer(AuthenticateClient) in log && (w.client.Accepted? || w.client.executed)
  }

  lemma {:induction false} NoCancels(log: seq<Event>)
    requires forall e :: e in log ==> !IsCancel(e)
    ensures CancelsIn(log) == 0
  {
    if log != [] {
      assert log[0] in log;
      NoCancels(log[1..]);
    }
  }

  /** A log is work without a cancellation, and then nothing or one cancellation. */
  lemma RunShape(w: World) returns (work: seq<Event>, transaction: seq<byte>, reason: Reason, cancels: bool)
    requires Cuttable(w)
    ensures Run(w).log == work + if cancels then CancelLog(w, transaction, reason) else []
    ensures forall e :: e in work ==> !IsCancel(e)
    ensures cancels <==> ClientPassed(w, work) && Run(w).outcome != Success
    ensures cancels ==>
              transaction == if ToServer(GetBoundProfilePackage) in work && w.packaged then w.serverTransaction
                             else w.clientTransaction
    ensures cancels ==> reason == (if Installing(w) then LoadBppExecutionError
                                   else if AuthResult(w).Passed? then Postponed else MetadataMismatch)
  {
    hide InstallLog, InstallOk, CancelLog;
    var auth := if w.codeValid then AuthLog(w) else [];
    var prepare := auth + PrepareLog(w);
    var a := AuthResult(w);
    InstallsOnly(w);
    transaction, reason := w.clientTransaction, Postponed;
    if !w.codeValid || a.NoResponse? {
      work, cancels := auth, false;
    } else if a.BadResponse? {
      work, reason, cancels := auth, MetadataMismatch, a.executed;
    } else if w.canceled || !w.confirmed || (w.codeRequired && !w.hasCode && !w.entersCode) || w.canceledBeforePrepare {
      work, cancels := auth, true;
    } else if !w.prepared || !w.packaged {
      work, cancels := prepare, true;
    } else if w.canceledBeforeInstall {
      work, transaction, cancels := prepare, w.serverTransaction, true;
    } else {
      work, transaction, reason, cancels := prepare + InstallLog(w), w.serverTransaction, LoadBppExecutionError,
        !InstallOk(w);
    }
  }

  lemma InstallsOnly(w: World)
    requires Cuttable(w)
    ensures forall e :: e in InstallLog(w) ==> IsLoad(e)
  {
  }

  /** Exactly one cancellation is sent to the card when the client was accepted and no profile installed, and
      none otherwise; and nothing is sent to the card behind it. */
  lemma OneCancellation(w: World)
    requires Cuttable(w)
    ensures var run := Run(w);
            && CancelsIn(run.log) == (if ClientPassed(w, run.log) && run.outcome != Success then 1 else 0)
            && CancelIsLast(run.log)
  {
    hide Run;
    var work, transaction, reason, cancels := RunShape(w);
    var tail := if cancels then CancelLog(w, transaction, reason) else [];
    CancelsAdd(work, tail);
    NoCancels(work);
    if cancels { CancelCounts(w, transaction, reason); }
    assert ToServer(AuthenticateClient) !in tail;
    LastInTail(work, tail);
  }

  lemma CancelCounts(w: World, transaction: seq<byte>, reason: Reason)
    ensures CancelsIn(CancelLog(w, transaction, reason)) == 1
  {
    var log := CancelLog(w, transaction, reason);
    assert log[1..] == if w.cancelAnswered then [ToServer(ReportCancel)] else [];
    NoCancels(log[1..]);
  }

  lemma LastInTail(work: seq<Event>, tail: seq<Event>)
    requires forall e :: e in work ==> !IsCancel(e)
    requires forall j :: 0 < j < |tail| ==> tail[j].ToServer?
    ensures CancelIsLast(work + tail)
  {
  }

  // Segments

  function LoadsIn(log: seq<Event>): seq<seq<byte>> {
    if log == [] then []
    else (if IsLoad(log[0]) then [log[0].command.data] else []) + LoadsIn(log[1..])
  }

  lemma {:induction false} LoadsAdd(a: seq<Event>, b: seq<Event>)
    ensures LoadsIn(a + b) == LoadsIn(a) + LoadsIn(b)
  {
    if a == [] {
      assert a + b == b;
    } else {
      HeadApart(a, b);
      LoadsAdd(a[1..], b);
      LoadsCons(a[0], a[1..] + b);
    }
  }

  lemma LoadsCons(e: Event, log: seq<Event>)
    ensures LoadsIn([e] + log) == (if IsLoad(e) then [e.command.data] else []) + LoadsIn(log)
  {
  }

  lemma {:induction false} NoLoads(log: seq<Event>)
    requires forall e :: e in log ==> !IsLoad(e)
    ensures LoadsIn(log) == []
  {
    if log != [] {
      assert log[0] in log;
      NoLoads(log[1..]);
    }
  }

  lemma {:induction false} LoadsLogged(segments: seq<seq<byte>>)
    ensures LoadsIn(LoadLog(segments)) == segments
  {
    if segments != [] {
      LoadsLogged(segments[1..]);
      assert LoadLog(segments) == [ToCard(LoadSegment(segments[0]))] + LoadLog(segments[1..]);
      LoadsCons(ToCard(LoadSegment(segments[0])), LoadLog(segments[1..]));
    }
  }

  /** The card took segment i and said nothing. */
  predicate Quiet(replies: seq<Option<seq<byte>>>, i: nat) { i < |replies| && replies[i] == Some([]) }

  /** The segments sent are the first k: all before the last of them were answered with nothing, and what
      follows them, if anything, is not sent because the last was answered with something, or with an error. */
  predicate EndsAt(segments: seq<seq<byte>>, replies: seq<Option<seq<byte>>>, k: nat) {
    && k <= |segments|
    && (forall i :: 0 <= i < k - 1 ==> Quiet(replies, i))
    && (k < |segments| ==> k > 0 && !Quiet(replies, k - 1))
  }

  lemma {:induction false} LoadMeaning(segments: seq<seq<byte>>, replies: seq<Option<seq<byte>>>)
    ensures var l := Load(segments, replies, []);
            && EndsAt(segments, replies, l.sent)
            && l.reply == (if l.sent == 0 then Some([]) else if l.sent > |replies| then None else replies[l.sent - 1])
    decreases |segments|
  {
    if segments != [] && Quiet(replies, 0) {
      LoadMeaning(segments[1..], replies[1..]);
      var k := Load(segments, replies, []).sent;
      assert forall i :: 0 <= i < k - 1 ==> Quiet(replies[1..], i) == Quiet(replies, i + 1);
      forall i | 0 <= i < k - 1 ensures Quiet(replies, i) {
        assert i > 0 ==> Quiet(replies[1..], i - 1);
      }
    }
  }

  /** Whether the run gets as far as installing. */
  predicate Installing(w: World) {
    && w.codeValid && AuthResult(w).Passed? && !w.canceled && w.confirmed
    && !(w.codeRequired && !w.hasCode && !w.entersCode)
    && !w.canceledBeforePrepare && w.prepared && w.packaged && !w.canceledBeforeInstall
  }

  /** The segments loaded are a prefix of the package's segments, in order, that ends at the first reply that
      is not empty; and a run succeeds exactly when that reply is a result that says so. */
  lemma LoadsArePrefix(w: World)
    requires Cuttable(w)
    ensures var run, segments := Run(w), SegmentsOf(w);
            var k := |LoadsIn(run.log)|;
            && k <= |segments| && LoadsIn(run.log) == segments[..k]
            && (if Installing(w) then EndsAt(segments, w.replies, k) else k == 0)
            && (run.outcome == Success <==>
                Installing(w) && 0 < k <= |w.replies| && w.replies[k - 1].Some? && w.replies[k - 1].value != []
                && Decide(w, w.replies[k - 1].value) == Installed)
  {
    hide Run, Load, Decide, BoundProfilePackage.Segments, BoundProfilePackage.Valid, BoundProfilePackage.Ready;
    var segments := SegmentsOf(w);
    var l := Load(segments, w.replies, []);
    LoadMeaning(segments, w.replies);
    LoadsOfRun(w);
    assert segments[..0] == [];
    Outcomes(w);
    EmptyUndecided(w);
  }

  lemma EmptyUndecided(w: World)
    ensures Decide(w, []) == Undecodable
  {
  }

  lemma Outcomes(w: World)
    requires Cuttable(w)
    ensures Run(w).outcome == Success <==> Installing(w) && InstallOk(w)
    ensures !BoundProfilePackage.Valid(w.package) ==> SegmentsOf(w) == []
  {
    hide InstallOk, BoundProfilePackage.Segments, BoundProfilePackage.Valid, BoundProfilePackage.Ready;
  }

  lemma LoadsOfRun(w: World)
    requires Cuttable(w)
    ensures LoadsIn(Run(w).log)
            == if Installing(w) then SegmentsOf(w)[..Load(SegmentsOf(w), w.replies, []).sent] else []
  {
    hide Load, LoadsIn, InstallOk, SegmentsOf, Cuttable, LoadLog;
    var prepare := AuthLog(w) + PrepareLog(w);
    if Installing(w) {
      var tail := if InstallOk(w) then [] else CancelLog(w, w.serverTransaction, LoadBppExecutionError);
      NoLoads(prepare);
      NoLoads(tail);
      LoadsAdd(prepare, InstallLog(w));
      LoadsAdd(prepare + InstallLog(w), tail);
      assert prepare + InstallLog(w) + [] == prepare + InstallLog(w);
      LoadsLogged(SegmentsOf(w)[..Load(SegmentsOf(w), w.replies, []).sent]);
    } else {
      NoLoads(Run(w).log);
    }
  }

  /** A package laid out as SGP.22 has it, installed to its last segment, was sent to the card whole: the
      segments, put together, are its encoding. */
  lemma WholePackageIsSent(w: World)
    requires Cuttable(w) && BoundProfilePackage.Standard(w.package)
    requires |LoadsIn(Run(w).log)| == |SegmentsOf(w)|
    ensures Concat(LoadsIn(Run(w).log)) == Print(w.package)
  {
    hide Run, LoadsIn, Print, Concat, BoundProfilePackage.Segments, Writable, ReadableTags;
    LoadsArePrefix(w);
    BoundProfilePackage.StandardPackage(w.package);
    assert SegmentsOf(w)[..|SegmentsOf(w)|] == SegmentsOf(w);
  }

  // Order

  /** The place of an event in a download. */
  function Rank(e: Event): nat {
    match e
    case ToCard(GetChallenge) => 0
    case ToCard(GetInfo1) => 1
    case ToServer(InitiateAuthentication) => 2
    case ToCard(AuthenticateServer) => 3
    case ToServer(AuthenticateClient) => 4
    case ToCard(PrepareDownload) => 5
    case ToServer(GetBoundProfilePackage) => 6
    case ToCard(LoadSegment(_)) => 7
    case ToCard(CancelSession(_, _)) => 8
    case ToServer(ReportCancel) => 9
  }

  /** Events come in that order, none twice but loading segments. */
  predicate InOrder(log: seq<Event>) {
    forall i, j :: 0 <= i < j < |log| ==> Rank(log[i]) < Rank(log[j]) || (IsLoad(log[i]) && IsLoad(log[j]))
  }

  predicate Below(log: seq<Event>, k: nat) { forall e :: e in log ==> Rank(e) < k }

  predicate AtLeast(log: seq<Event>, k: nat) { forall e :: e in log ==> Rank(e) >= k }

  lemma JoinOrder(a: seq<Event>, b: seq<Event>, k: nat, n: nat)
    requires InOrder(a) && InOrder(b) && Below(a, k) && AtLeast(b, k) && Below(b, n) && k <= n
    ensures InOrder(a + b) && Below(a + b, n)
  {
  }

  lemma AuthOrder(w: World)
    ensures InOrder([]) && Below([], 5) && InOrder(AuthLog(w)) && Below(AuthLog(w), 5)
  {
    var all := [ToCard(GetChallenge), ToCard(GetInfo1), ToServer(InitiateAuthentication), ToCard(AuthenticateServer),
                ToServer(AuthenticateClient)];
    assert forall i :: 0 <= i < 5 ==> Rank(all[i]) == i;
    hide Rank;
    forall k | 0 <= k <= 5 ensures InOrder(all[..k]) && Below(all[..k], 5) {
    }
    assert all[..5] == all && all[..0] == [];
  }

  lemma PrepareOrder(w: World)
    ensures var prepare := AuthLog(w) + PrepareLog(w);
            InOrder(prepare) && Below(prepare, 7)
  {
    hide AuthLog;
    AuthOrder(w);
    JoinOrder(AuthLog(w), PrepareLog(w), 5, 7);
  }

  lemma InstallOrder(w: World)
    requires Cuttable(w)
    ensures InOrder(InstallLog(w)) && AtLeast(InstallLog(w), 7) && Below(InstallLog(w), 8)
  {
    hide Load, SegmentsOf, Cuttable;
  }

  lemma Widen(log: seq<Event>, k: nat, n: nat)
    requires Below(log, k) && k <= n
    ensures Below(log, n)
  {
  }

  /** Every run keeps the order: the package is asked for only once the card has prepared the download, and
      loaded only once it has arrived. */
  lemma RunsInOrder(w: World)
    requires Cuttable(w)
    ensures InOrder(Run(w).log)
  {
    hide Cuttable, InstallOk, InstallLog, AuthLog, AuthResult, CancelLog, CancelOutcome, InOrder, Below, AtLeast;
    var auth, install := AuthLog(w), InstallLog(w);
    var prepare := AuthLog(w) + PrepareLog(w);
    AuthOrder(w);
    PrepareOrder(w);
    InstallOrder(w);
    JoinOrder(prepare, install, 7, 8);
    Widen(auth, 5, 8);
    Widen(prepare, 7, 8);
    JoinCancel(w, auth);
    JoinCancel(w, prepare);
    JoinCancel(w, prepare + install);
  }

  lemma JoinCancel(w: World, a: seq<Event>)
    requires InOrder(a) && Below(a, 8)
    ensures forall transaction, reason :: InOrder(a + CancelLog(w, transaction, reason))
  {
  }

  // Which events there are

  /** The server was sent the card's authentication. */
  predicate Asked(w: World) {
    w.codeValid && w.challenge && w.info1 && w.initiated && w.imei && w.serverAuthenticated
  }

  /** The server accepted it and the profile is the one that was announced. */
  predicate Welcome(w: World) { Asked(w) && w.client.Accepted? && w.metadata }

  /** The user went on as far as preparing, with a confirmation code if one is needed. */
  predicate Preparing(w: World) {
    && Welcome(w) && !w.canceled && w.confirmed && (w.codeRequired ==> w.hasCode || w.entersCode)
    && !w.canceledBeforePrepare
  }

  /** The user said no, at one of the three times when that is asked. */
  predicate Declined(w: World) {
    && Welcome(w)
    && (w.canceled || !w.confirmed
        || ((w.codeRequired ==> w.hasCode || w.entersCode) && w.canceledBeforePrepare)
        || (Preparing(w) && w.prepared && w.packaged && w.canceledBeforeInstall))
  }

  /** There is a session to cancel, and no profile. */
  predicate Abandoned(w: World)
    requires Cuttable(w)
  {
    Asked(w) && (w.client.Accepted? || w.client.executed) && Run(w).outcome != Success
  }

  lemma AuthEvents(w: World)
    ensures var log := AuthLog(w);
            && ToCard(GetChallenge) in log
            && (ToCard(GetInfo1) in log <==> w.challenge)
            && (ToServer(InitiateAuthentication) in log <==> w.challenge && w.info1)
            && (ToCard(AuthenticateServer) in log <==> w.challenge && w.info1 && w.initiated && w.imei)
            && (w.codeValid ==> (ToServer(AuthenticateClient) in log <==> Asked(w)))
    ensures forall e :: e in AuthLog(w) ==> Rank(e) < 5
  {
    var all := [ToCard(GetChallenge), ToCard(GetInfo1), ToServer(InitiateAuthentication), ToCard(AuthenticateServer),
                ToServer(AuthenticateClient)];
    assert all[..1] == [all[0]] && all[..2] == [all[0], all[1]] && all[..3] == [all[0], all[1], all[2]];
    assert all[..4] == [all[0], all[1], all[2], all[3]];
  }

  lemma PrepareEvents(w: World)
    ensures forall e :: e in PrepareLog(w) <==> e == ToCard(PrepareDownload)
                                                || (w.prepared && e == ToServer(GetBoundProfilePackage))
  {
  }

  /** What a run sends before any cancellation. */
  function Work(w: World): seq<Event>
    requires Cuttable(w)
  {
    if !w.codeValid then []
    else if !Preparing(w) then AuthLog(w)
    else if !w.prepared || !w.packaged || w.canceledBeforeInstall then AuthLog(w) + PrepareLog(w)
    else AuthLog(w) + PrepareLog(w) + InstallLog(w)
  }

  /** The session a cancellation names. */
  function Session(w: World): seq<byte> {
    if Preparing(w) && w.prepared && w.packaged then w.serverTransaction else w.clientTransaction
  }

  function Why(w: World): Reason {
    if Preparing(w) && w.prepared && w.packaged && !w.canceledBeforeInstall then LoadBppExecutionError
    else if Welcome(w) then Postponed
    else MetadataMismatch
  }

  lemma RunParts(w: World)
    requires Cuttable(w)
    ensures Run(w).log == Work(w) + if Abandoned(w) then CancelLog(w, Session(w), Why(w)) else []
  {
    hide AuthLog, AuthResult, PrepareLog, CancelLog, CancelOutcome, InstallLog, InstallOk, Cuttable;
    NoSuccess(w);
    AuthMeans(w);
    assert Work(w) + [] == Work(w);
  }

  lemma WorkEvents(w: World)
    requires Cuttable(w)
    ensures var log := Work(w);
            && (ToCard(GetChallenge) in log <==> w.codeValid)
            && (ToCard(GetInfo1) in log <==> w.codeValid && w.challenge)
            && (ToServer(InitiateAuthentication) in log <==> w.codeValid && w.challenge && w.info1)
            && (ToCard(AuthenticateServer) in log <==>
                w.codeValid && w.challenge && w.info1 && w.initiated && w.imei)
            && (ToServer(AuthenticateClient) in log <==> Asked(w))
            && (ToCard(PrepareDownload) in log <==> Preparing(w))
            && (ToServer(GetBoundProfilePackage) in log <==> Preparing(w) && w.prepared)
    ensures forall e :: e in Work(w) ==> Rank(e) < 8
  {
    hide AuthLog, PrepareLog, InstallLog, Cuttable;
    AuthEvents(w);
    PrepareEvents(w);
    InstallsOnly(w);
  }

  /** Each event is in a run exactly when what was answered before leads there. */
  lemma EventsExactly(w: World)
    requires Cuttable(w)
    ensures var log := Run(w).log;
            && (ToCard(GetChallenge) in log <==> w.codeValid)
            && (ToCard(GetInfo1) in log <==> w.codeValid && w.challenge)
            && (ToServer(InitiateAuthentication) in log <==> w.codeValid && w.challenge && w.info1)
            && (ToCard(AuthenticateServer) in log <==>
                w.codeValid && w.challenge && w.info1 && w.initiated && w.imei)
            && (ToServer(AuthenticateClient) in log <==> Asked(w))
            && (ToCard(PrepareDownload) in log <==> Preparing(w))
            && (ToServer(GetBoundProfilePackage) in log <==> Preparing(w) && w.prepared)
            && (ToServer(ReportCancel) in log <==> Abandoned(w) && w.cancelAnswered)
  {
    hide Run, Work, Cuttable, Preparing, Welcome, Asked, CancelLog;
    WorkEvents(w);
    RunParts(w);
    CancelEvents(w);
  }

  lemma AuthMeans(w: World)
    ensures w.codeValid ==> (AuthResult(w).NoResponse? <==> !Asked(w)) && (AuthResult(w).Passed? <==> Welcome(w))
    ensures Asked(w) && AuthResult(w).BadResponse? ==>
              (AuthResult(w).executed <==> w.client.Accepted? || w.client.executed)
  {
  }

  lemma NoSuccess(w: World)
    ensures CancelOutcome(w) != Success
  {
  }

  lemma CancelEvents(w: World)
    ensures forall t, reason, e ::
              e in CancelLog(w, t, reason)
              <==> e == ToCard(CancelSession(t, reason)) || (w.cancelAnswered && e == ToServer(ReportCancel))
  {
  }

  /** Which session a cancellation names, and why. */
  lemma CancelsExactly(w: World, transaction: seq<byte>, reason: Reason)
    requires Cuttable(w)
    ensures ToCard(CancelSession(transaction, reason)) in Run(w).log
            <==> && Abandoned(w)
                 && transaction == (if Preparing(w) && w.prepared && w.packaged then w.serverTransaction
                                    else w.clientTransaction)
                 && reason == if Preparing(w) && w.prepared && w.packaged && !w.canceledBeforeInstall then
                                LoadBppExecutionError
                              else if Welcome(w) then Postponed else MetadataMismatch
  {
    hide Run, Work, Cuttable, Preparing, Welcome, Asked, CancelLog;
    WorkEvents(w);
    RunParts(w);
    CancelEvents(w);
  }

  /** A run that does not succeed reports an error, but for one that the user declined and whose cancellation went
      through to the server. */
  lemma NoResultExactly(w: World)
    requires Cuttable(w)
    ensures Run(w).outcome == NoResult <==> Declined(w) && w.cancelAnswered && w.cancelReported
  {
    hide InstallOk, Cuttable;
    AuthMeans(w);
  }
}
