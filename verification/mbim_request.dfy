/** driver/mbim/types.go: MBIM requests written as control transfers, and the loop that reads the reply,
    skipping other traffic and reassembling fragments. */
module MbimRequest {
  import opened Bytes
  import opened Streams
  import opened MbimFragment

  const OPEN: u32 := 0x0000_0001
  const CLOSE: u32 := 0x0000_0002
  const OPEN_DONE: u32 := 0x8000_0001
  const CLOSE_DONE: u32 := 0x8000_0002
  const FUNCTION_ERROR: u32 := 0x8000_0004

  /** maxControlTransfer (types.go:13) */
  const MAX_TRANSFER: nat := 4096

  datatype Request = Request(messageType: u32, transactionID: u32)

  // Writing

  datatype Command = Command(total: u32, current: u32, service: seq<byte>, id: u32, kind: u32, data: seq<byte>)

  /** Command.MarshalBinary (types.go:200-213) */
  function CommandBytes(c: Command): seq<byte> {
    Le32(c.total) + Le32(c.current) + c.service + Le32(c.id) + Le32(c.kind) + Le32(Wrap32(|c.data|)) + c.data
  }

  /** Request.MarshalBinary (types.go:159-173) */
  function RequestBytes(r: Request, command: seq<byte>): (s: seq<byte>)
    ensures |s| == 12 + |command|
  {
    Le32(r.messageType) + Le32(Wrap32(12 + |command|)) + Le32(r.transactionID) + command
  }

  /** WriteTo (types.go:25-46): nothing gets out of a message that cannot be cut into frames. */
  method WriteTo(r: Request, command: seq<byte>, conn: Conn) returns (n: nat, ok: bool)
    modifies conn
    ensures var cut := CutMessage(RequestBytes(r, command), MAX_TRANSFER);
            if !cut.Frames? then !ok && n == 0 && conn.written == old(conn.written)
            else
              var d := DeliverAll(old(conn.takes), cut.frames);
              && n == d.n && ok == d.ok && n <= |Concat(cut.frames)|
              && conn.written == old(conn.written) + Concat(cut.frames)[..n]
              && (ok ==> n == |Concat(cut.frames)|)
  {
    hide DeliverAll, CutMessage;
    var data := RequestBytes(r, command);
    var cut := CutIntoFrames(data, MAX_TRANSFER);
    if !cut.Frames? { return 0, false; }
    n, ok := conn.WriteFrames(cut.frames);
  }

  // Reading

  /** responseMessageType (types.go:175-186) */
  function ResponseType(requestType: u32): (t: Option<u32>) {
    if requestType == OPEN then Some(OPEN_DONE)
    else if requestType == CLOSE then Some(CLOSE_DONE)
    else if requestType == COMMAND then Some(COMMAND_DONE)
    else None
  }

  /** What the loop makes of one frame: it goes on with a collector, or it is over. */
  datatype Step = Waiting(collector: Option<Fragment>) | Message(frame: seq<byte>) | Refused | Crashed

  /** One fragment more: the reassembled message, or waiting for the rest (types.go:95-105, 108-118). */
  function Collected(c: Option<Fragment>): (s: Step)
    ensures s.Message? ==> |s.frame| < U32
  {
    if c.None? then Refused
    else
      match Reassembled(c.value)
      case Incomplete => Waiting(c)
      case Panic => Crashed
      case Whole(message) => Message(message)
  }

  /** The body of the loop (types.go:80-120) on a frame that was read in full. */
  function Consider(r: Request, collector: Option<Fragment>, frame: seq<byte>): (s: Step)
    requires 12 <= |frame| <= MAX_TRANSFER
    ensures s.Message? ==> |s.frame| < U32
  {
    var messageType, expected := Get32(frame, 0), ResponseType(r.messageType);
    if Get32(frame, 8) != r.transactionID then Waiting(collector)
    else if expected.None? then Refused
    else if messageType != expected.value && messageType != FUNCTION_ERROR then Waiting(collector)
    else if !Fragmentable(messageType) then Message(frame)
    else if collector.Some? then Collected(Accept(collector.value, frame))
    else if |frame| >= 20 && Get32(frame, 12) > 1 then Collected(Begin(frame))
    else Message(frame)
  }

  datatype Got = Got(frame: seq<byte>) | Error | Expired | Panicked

  /** What a read comes to, and the octets and rounds it leaves. */
  datatype Reading = Reading(got: Got, incoming: seq<byte>, clock: seq<Tick>)

  /** The read loop (types.go:53-128) from a round on, on the octets and rounds still to come. */
  function Read(r: Request, collector: Option<Fragment>, incoming: seq<byte>, clock: seq<Tick>): (res: Reading)
    ensures res.got.Got? ==> |res.got.frame| < U32
    decreases |clock|, 0
  {
    if clock == [] then Reading(Expired, incoming, [])
    else if clock[0].Quiet? then Read(r, collector, incoming, clock[1..])
    else if clock[0].Broken? then Reading(Error, incoming, clock[1..])
    else if |incoming| < 12 then Reading(Error, [], clock[1..])
    else
      var length := Get32(incoming, 4);
      if length < 12 || length > MAX_TRANSFER then Reading(Error, incoming[12..], clock[1..])
      else if length > |incoming| then Reading(Error, [], clock[1..])
      else Outcome(r, Consider(r, collector, incoming[..length]), incoming[length..], clock[1..])
  }

  /** What the loop comes to after a step. */
  function Outcome(r: Request, s: Step, incoming: seq<byte>, clock: seq<Tick>): (res: Reading)
    requires s.Message? ==> |s.frame| < U32
    ensures res.got.Got? ==> |res.got.frame| < U32
    decreases |clock|, 1
  {
    match s
    case Waiting(c) => Read(r, c, incoming, clock)
    case Message(m) => Reading(Got(m), incoming, clock)
    case Refused => Reading(Error, incoming, clock)
    case Crashed => Reading(Panicked, incoming, clock)
  }

  datatype Decoded = Answer(data: seq<byte>) | Status(code: u32) | ProtocolError(code: u32) | Undecodable

  /** CommandResponse.UnmarshalBinary (types.go:231-299), up to handing the information buffer on. */
  function Decode(data: seq<byte>): (d: Decoded)
    requires |data| < U32
  {
    if |data| < 12 || Get32(data, 4) != |data| then Undecodable
    else
      var messageType := Get32(data, 0);
      if messageType == OPEN_DONE || messageType == CLOSE_DONE then
        if |data| != 16 then Undecodable
        else if Get32(data, 12) != 0 then Status(Get32(data, 12))
        else Answer([])
      else if messageType == COMMAND_DONE then
        if |data| < 48 then Undecodable
        else if Get32(data, 40) != 0 then Status(Get32(data, 40))
        else if Get32(data, 12) != 1 || Get32(data, 16) != 0 then Undecodable
        else if Get32(data, 44) > |data| - 48 then Undecodable
        else Answer(data[48..48 + Get32(data, 44)])
      else if messageType == FUNCTION_ERROR then
        if |data| != 16 then Undecodable else ProtocolError(Get32(data, 12))
      else Undecodable
  }

  /** ReadFrom (types.go:48-129); the decoded message is what Request's response is filled from. */
  method ReadFrom(r: Request, conn: Conn) returns (got: Got, decoded: Decoded)
    modifies conn`incoming, conn`clock
    ensures Reading(got, conn.incoming, conn.clock) == Read(r, None, old(conn.incoming), old(conn.clock))
    ensures decoded == if got.Got? then Decode(got.frame) else Undecodable
  {
    hide Decode, Accept, Begin, Reassembled, Get32, Header, Complete;
    decoded := Undecodable;
    var collector: FragmentCollector? := null;
    while true
      invariant collector != null ==> fresh(collector)
      invariant Read(r, None, old(conn.incoming), old(conn.clock))
          == Read(r, Holding(collector), conn.incoming, conn.clock)
      decreases |conn.clock|
    {
      ghost var incoming := conn.incoming;
      var tick := conn.Await();
      if tick.None? { return Expired, decoded; }
      if tick.value.Quiet? { continue; }
      if tick.value.Broken? { return Error, decoded; }
      var header := conn.ReadFull(12);
      if header.None? { return Error, decoded; }
      assert Get32(header.value, 4) == Get32(incoming, 4) by { SameWord(incoming, 12, 4); }
      var length := Get32(header.value, 4);
      if length < 12 { return Error, decoded; }
      if length > MAX_TRANSFER { return Error, decoded; }
      var body := conn.ReadFull(length - 12);
      if body.None? { return Error, decoded; }
      var buf := header.value + body.value;
      assert buf == incoming[..length] && conn.incoming == incoming[length..];
      ghost var held := Holding(collector);
      var step;
      collector, step := Take(r, collector, buf);
      match step {
        case Waiting(_) => continue;
        case Message(frame) => return Got(frame), Decode(frame);
        case Refused => return Error, decoded;
        case Crashed => return Panicked, decoded;
      }
    }
  }

  lemma SameWord(s: seq<byte>, n: nat, i: nat)
    requires i + 4 <= n <= |s|
    ensures Get32(s[..n], i) == Get32(s, i)
  {
  }

  function Holding(c: FragmentCollector?): Option<Fragment>
    reads c
  {
    if c == null then None else Some(c.State())
  }

  /** The body of the loop on a frame (types.go:80-120). */
  method Take(r: Request, collector: FragmentCollector?, buf: seq<byte>) returns (next: FragmentCollector?, step: Step)
    requires 12 <= |buf| <= MAX_TRANSFER
    modifies collector
    ensures step == Consider(r, old(Holding(collector)), buf)
    ensures step.Waiting? ==> Holding(next) == step.collector && (next == collector || fresh(next))
  {
    hide Accept, Begin, Get32, Header, Complete;
    next := collector;
    var messageType, transactionID := Get32(buf, 0), Get32(buf, 8);
    if transactionID != r.transactionID { return next, Waiting(Holding(collector)); }
    var expected := ResponseType(r.messageType);
    if expected.None? { return next, Refused; }
    if messageType != expected.value && messageType != FUNCTION_ERROR { return next, Waiting(Holding(collector)); }
    if !Fragmentable(messageType) { return next, Message(buf); }
    if collector != null {
      var ok := collector.Add(buf);
      if !ok { return next, Refused; }
    } else if |buf| >= 20 && Get32(buf, 12) > 1 {
      next := NewFragmentCollector(buf);
      if next == null { return next, Refused; }
    } else {
      return next, Message(buf);
    }
    var whole := next.MarshalBinary();
    match whole {
      case Incomplete => return next, Waiting(Some(next.State()));
      case Panic => return next, Crashed;
      case Whole(message) => return next, Message(message);
    }
  }
}
