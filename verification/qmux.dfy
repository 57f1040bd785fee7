/** driver/qmi/transport/qmi: QMI messages inside QMUX frames, for the control service and the others. */
module Qmux {
  import opened Bytes
  import opened Streams
  import opened QmiTlv

  const CONTROL: byte := 0x00
  const IF_TYPE: byte := 0x01
  const REQUEST: byte := 0x00
  const RESPONSE: byte := 0x02
  const MAX_ENCODED: nat := 0xFFFF
  const MUX_HEADER: nat := 1 + 5
  const CONTROL_HEADER: nat := 6
  const SERVICE_HEADER: nat := 7
  const MAX_CONTROL_TLVS: nat := MAX_ENCODED - MUX_HEADER - CONTROL_HEADER
  const MAX_SERVICE_TLVS: nat := MAX_ENCODED - MUX_HEADER - SERVICE_HEADER

  /** A QMI message in a frame; a request has kind and flags zero. */
  datatype Message = Message(flags: byte, service: byte, client: byte, kind: byte, transaction: u16, id: u16,
      value: seq<Tlv>)

  function Limit(service: byte): nat { if service == CONTROL then MAX_CONTROL_TLVS else MAX_SERVICE_TLVS }

  /** The QMI header; the control service has one octet of transaction. */
  function Head(m: Message, len: nat): seq<byte> {
    (if m.service == CONTROL then [m.kind, m.transaction % 256] else [m.kind] + Le16(m.transaction))
    + Le16(m.id) + Le16(Wrap16(len))
  }

  function MuxHead(m: Message, len: nat): seq<byte> {
    [IF_TYPE] + Le16(Wrap16(len)) + [m.flags, m.service, m.client]
  }

  function Frame(m: Message): seq<byte> {
    var sdu := Head(m, |Fields(m.value)|) + Fields(m.value);
    MuxHead(m, |sdu| + 5) + sdu
  }

  /** The guards of bytes: every TLV's length is its value's, and all of them fit. */
  predicate Sendable(m: Message) { AllTruthful(m.value) && |Fields(m.value)| <= Limit(m.service) }

  /** bytes (transport.go:38-86) on a request; None where it reports an error. */
  method Serialize(r: Message) returns (frame: Option<seq<byte>>)
    requires r.kind == REQUEST && r.flags == 0
    ensures frame == if Sendable(r) then Some(Frame(r)) else None
  {
    var value := new Sink();
    var written, ok := WriteTo(r.value, value);
    if !ok { return None; }
    assert value.data == Fields(r.value);
    hide Fields, MuxHead, Head;
    var maxValueLength := MAX_SERVICE_TLVS;
    if r.service == CONTROL { maxValueLength := MAX_CONTROL_TLVS; }
    if |value.data| > maxValueLength { return None; }
    var header := new Sink();
    WriteHead(r, |value.data|, header);
    assert [] + Head(r, |value.data|) == Head(r, |value.data|);
    header.Write(value.data);
    var sdu := header.data;
    var request := new Sink();
    WriteMuxHead(r, |sdu| + 5, request);
    assert [] + MuxHead(r, |sdu| + 5) == MuxHead(r, |sdu| + 5);
    request.Write(sdu);
    return Some(request.data);
  }

  /** The QMI header (transport.go:51-70) */
  method WriteHead(m: Message, len: nat, w: Sink)
    modifies w
    ensures w.data == old(w.data) + Head(m, len)
  {
    hide Le16;
    if m.service == CONTROL {
      w.Write([m.kind, m.transaction % 256]);
    } else {
      w.Write([m.kind]);
      w.Write(Le16(m.transaction));
    }
    w.Write(Le16(m.id));
    w.Write(Le16(Wrap16(len)));
  }

  /** The QMUX header (transport.go:74-83) */
  method WriteMuxHead(m: Message, len: nat, w: Sink)
    modifies w
    ensures w.data == old(w.data) + MuxHead(m, len)
  {
    hide Le16;
    w.Write([IF_TYPE]);
    w.Write(Le16(Wrap16(len)));
    w.Write([m.flags, m.service, m.client]);
  }

  // Reading one frame

  datatype Reading = Parsed(message: Message) | Malformed | Rejected(result: Result)

  /** The TLVs behind the headers (response.go:59-70). */
  function ParseValue(m: Message, len: u16, tlvs: seq<byte>): (r: Reading) {
    if |tlvs| != len then Malformed
    else if len == 0 then Parsed(m)
    else
      var ts := ParseFields(tlvs);
      if ts.None? then Malformed
      else if ResultOf(ts.value) != Success then Rejected(ResultOf(ts.value))
      else Parsed(m.(value := ts.value))
  }

  /** Response.UnmarshalBinary (response.go:23-72) */
  function ParseFrame(data: seq<byte>): (r: Reading)
  {
    if |data| < 12 || data[0] != IF_TYPE || |data| != Get16(data, 1) + 1 then Malformed
    else if data[4] == CONTROL then
      ParseValue(Message(data[3], data[4], data[5], data[6], data[7], Get16(data, 8), []), Get16(data, 10), data[12..])
    else if |data| < 13 then Malformed
    else
      ParseValue(Message(data[3], data[4], data[5], data[6], Get16(data, 7), Get16(data, 9), []), Get16(data, 11),
        data[13..])
  }

  method Unmarshal(data: seq<byte>) returns (res: Reading)
    ensures res == ParseFrame(data)
  {
    if |data| < 12 { return Malformed; }
    hide Get16;
    var reader := new Reader(data);
    var mux := reader.ReadFull(6);
    assert reader.rest == data[6..];
    if mux[0] != IF_TYPE { return Malformed; }
    SameField(data, 0, 6, 1);
    if |data| != Get16(mux, 1) + 1 { return Malformed; }
    var m, len;
    if mux[4] == CONTROL {
      var h := reader.ReadFull(6);
      assert reader.rest == data[12..];
      SameField(data, 6, 6, 2);
      SameField(data, 6, 6, 4);
      m, len := Message(mux[3], mux[4], mux[5], h[0], h[1], Get16(h, 2), []), Get16(h, 4);
    } else {
      var h := reader.ReadFull(7);
      if |h| < 7 { return Malformed; }
      assert reader.rest == data[13..];
      SameField(data, 6, 7, 1);
      SameField(data, 6, 7, 3);
      SameField(data, 6, 7, 5);
      m, len := Message(mux[3], mux[4], mux[5], h[0], Get16(h, 1), Get16(h, 3), []), Get16(h, 5);
    }
    if |reader.rest| != len { return Malformed; }
    if len > 0 {
      var ts, read, cut, result := ReadFrom(reader);
      if cut { return Malformed; }
      if result != Success { return Rejected(result); }
      m := m.(value := ts);
    }
    return Parsed(m);
  }

  lemma SameField(s: seq<byte>, at: nat, n: nat, i: nat)
    requires at + n <= |s| && i + 2 <= n
    ensures s[at..][..n] == s[at..at + n]
    ensures Get16(s[at..at + n], i) == Get16(s, at + i)
    ensures at == 0 ==> s[..n] == s[at..at + n]
  {
  }

  // Frames there and back

  /** A message as the other side knows it: the control service has only the low octet of a transaction. */
  function Seen(m: Message): Message { if m.service == CONTROL then m.(transaction := m.transaction % 256) else m }

  /** What a frame of a sendable message reads as: all of it, exactly when it has no TLVs or its result is
      success. */
  function Heard(m: Message): Reading {
    if m.value == [] || ResultOf(m.value) == Success then Parsed(Seen(m)) else Rejected(ResultOf(m.value))
  }

  lemma HeadFields(m: Message, len: nat, tlvs: seq<byte>)
    requires |tlvs| == len <= Limit(m.service)
    ensures var sdu := Head(m, len) + tlvs;
            var s := MuxHead(m, |sdu| + 5) + sdu;
            && |s| == |sdu| + 6 && |s| <= MAX_ENCODED
            && s[0] == IF_TYPE && Get16(s, 1) == |s| - 1 && s[3] == m.flags && s[4] == m.service && s[5] == m.client
            && s[6] == m.kind
            && if m.service == CONTROL then
                 |s| >= 12 && s[7] == m.transaction % 256 && Get16(s, 8) == m.id && Get16(s, 10) == len
                   && s[12..] == tlvs
               else
                 |s| >= 13 && Get16(s, 7) == m.transaction && Get16(s, 9) == m.id && Get16(s, 11) == len
                   && s[13..] == tlvs
  {
    hide Get16, Le16;
    var sdu := Head(m, len) + tlvs;
    var n := |sdu| + 5;
    var mux := MuxHead(m, n);
    var s := mux + sdu;
    assert s == [IF_TYPE] + Le16(n) + ([m.flags, m.service, m.client] + sdu);
    Read16([IF_TYPE], n, [m.flags, m.service, m.client] + sdu);
    if m.service == CONTROL {
      assert s == (mux + [m.kind, m.transaction % 256]) + Le16(m.id) + (Le16(len) + tlvs);
      Read16(mux + [m.kind, m.transaction % 256], m.id, Le16(len) + tlvs);
      assert s == (mux + [m.kind, m.transaction % 256] + Le16(m.id)) + Le16(len) + tlvs;
      Read16(mux + [m.kind, m.transaction % 256] + Le16(m.id), len, tlvs);
    } else {
      assert s == (mux + [m.kind]) + Le16(m.transaction) + (Le16(m.id) + Le16(len) + tlvs);
      Read16(mux + [m.kind], m.transaction, Le16(m.id) + Le16(len) + tlvs);
      assert s == (mux + [m.kind] + Le16(m.transaction)) + Le16(m.id) + (Le16(len) + tlvs);
      Read16(mux + [m.kind] + Le16(m.transaction), m.id, Le16(len) + tlvs);
      assert s == (mux + [m.kind] + Le16(m.transaction) + Le16(m.id)) + Le16(len) + tlvs;
      Read16(mux + [m.kind] + Le16(m.transaction) + Le16(m.id), len, tlvs);
    }
  }

  /** A frame that passes the guards is at most 65535 octets, declares its own length, and reads as Heard says. */
  lemma FrameComesBack(m: Message)
    requires Sendable(m)
    ensures var s := Frame(m);
            && 12 <= |s| <= MAX_ENCODED && Get16(s, 1) == |s| - 1
            && ParseFrame(s) == Heard(m)
  {
    hide Get16, MuxHead, Head, ResultOf;
    HeadFields(m, |Fields(m.value)|, Fields(m.value));
    ParseWritten(m.value);
    NoFields(m.value);
  }

  lemma NoFields(ts: seq<Tlv>)
    ensures Fields(ts) == [] <==> ts == []
  {
  }

  lemma MuxHeadWas(s: seq<byte>, m: Message)
    requires |s| >= 6 && s[0] == IF_TYPE && m.flags == s[3] && m.service == s[4] && m.client == s[5]
    ensures MuxHead(m, Get16(s, 1)) == s[..6]
  {
    Field16(s, 1, Get16(s, 1));
    hide Get16, Le16;
    assert s[..6] == [s[0]] + s[1..3] + [s[3], s[4], s[5]];
  }

  lemma ControlHeadWas(s: seq<byte>, m: Message)
    requires |s| >= 12 && m.service == CONTROL && m.kind == s[6] && m.transaction == s[7] && m.id == Get16(s, 8)
    ensures Head(m, Get16(s, 10)) == s[6..12]
  {
    Field16(s, 8, Get16(s, 8));
    Field16(s, 10, Get16(s, 10));
    hide Get16, Le16;
    assert s[6..12] == [s[6], s[7]] + s[8..10] + s[10..12];
  }

  lemma ServiceHeadWas(s: seq<byte>, m: Message)
    requires |s| >= 13 && m.service != CONTROL && m.kind == s[6] && m.transaction == Get16(s, 7) && m.id == Get16(s, 9)
    ensures Head(m, Get16(s, 11)) == s[6..13]
  {
    Field16(s, 7, Get16(s, 7));
    Field16(s, 9, Get16(s, 9));
    Field16(s, 11, Get16(s, 11));
    hide Get16, Le16;
    assert s[6..13] == [s[6]] + s[7..9] + s[9..11] + s[11..13];
  }

  /** Only a message's own frame reads as that message. */
  lemma ParsedWasFrame(data: seq<byte>)
    requires ParseFrame(data).Parsed?
    ensures var m := ParseFrame(data).message; Seen(m) == m && Frame(m) == data
  {
    hide Get16, Head, MuxHead, ResultOf;
    var m := ParseFrame(data).message;
    var k := if m.service == CONTROL then 12 else 13;
    var tlvs := data[k..];
    ValueWas(m, tlvs);
    MuxHeadWas(data, m);
    if m.service == CONTROL { ControlHeadWas(data, m); } else { ServiceHeadWas(data, m); }
    assert data == data[..6] + (data[6..k] + tlvs);
  }

  lemma ValueWas(m: Message, tlvs: seq<byte>)
    requires if tlvs == [] then m.value == [] else ParseFields(tlvs) == Some(m.value)
    ensures Fields(m.value) == tlvs
  {
    if tlvs != [] { WriteParsed(tlvs); }
  }

  // The read loop

  /** The TLVs of the answer and the length of its frame, an error, or the deadline. */
  datatype Got = Got(value: seq<Tlv>, n: nat) | Error | Expired

  /** What a read comes to, and the octets and rounds it leaves. */
  datatype Left = Left(got: Got, incoming: seq<byte>, clock: seq<Tick>)

  /** The loop goes on only when all three differ (transport.go:133). */
  predicate PassedOver(r: Message, m: Message) {
    m.kind != RESPONSE && m.client != r.client && m.transaction != r.transaction
  }

  /** Read (transport.go:102-141) from a round on. */
  function Read(r: Message, incoming: seq<byte>, clock: seq<Tick>): (res: Left)
    decreases |clock|
  {
    if clock == [] then Left(Expired, incoming, [])
    else if clock[0].Quiet? then Read(r, incoming, clock[1..])
    else if clock[0].Broken? then Left(Error, incoming, clock[1..])
    else if |incoming| < 3 then Left(Error, [], clock[1..])
    else
      var length := Get16(incoming, 1) + 1;
      if length < 3 then Left(Error, incoming[3..], clock[1..])
      else if length > |incoming| then Left(Error, [], clock[1..])
      else
        match ParseFrame(incoming[..length])
        case Parsed(m) =>
          if PassedOver(r, m) then Read(r, incoming[length..], clock[1..])
          else Left(Got(m.value, length), incoming[length..], clock[1..])
        case _ => Left(Error, incoming[length..], clock[1..])
  }

  method ReadResponse(r: Message, conn: Conn) returns (got: Got)
    modifies conn`incoming, conn`clock
    ensures Left(got, conn.incoming, conn.clock) == Read(r, old(conn.incoming), old(conn.clock))
  {
    hide Get16, ParseFrame, Read;
    while true
      invariant Read(r, old(conn.incoming), old(conn.clock)) == Read(r, conn.incoming, conn.clock)
      decreases |conn.clock|
    {
      ghost var incoming := conn.incoming;
      ReadTurn(r, incoming, conn.clock);
      var tick := conn.Await();
      if tick.None? { return Expired; }
      if tick.value.Quiet? { continue; }
      if tick.value.Broken? { return Error; }
      var header := conn.ReadFull(3);
      if header.None? { return Error; }
      SameField(incoming, 0, 3, 1);
      var length := Get16(header.value, 1) + 1;
      if length < 3 { return Error; }
      var body := conn.ReadFull(length - 3);
      if body.None? { return Error; }
      var buf := header.value + body.value;
      Rejoined(incoming, 3, length);
      var response := Unmarshal(buf);
      if !response.Parsed? { return Error; }
      var m := response.message;
      if m.kind != RESPONSE && r.client != m.client && m.transaction != r.transaction { continue; }
      return Got(m.value, length);
    }
  }

  /** A round of the loop. */
  lemma ReadTurn(r: Message, incoming: seq<byte>, clock: seq<Tick>)
    ensures clock == [] ==> Read(r, incoming, clock) == Left(Expired, incoming, [])
    ensures clock != [] && clock[0].Quiet? ==> Read(r, incoming, clock) == Read(r, incoming, clock[1..])
    ensures clock != [] && clock[0].Broken? ==> Read(r, incoming, clock) == Left(Error, incoming, clock[1..])
    ensures clock != [] && clock[0].Ready? ==>
              if |incoming| < 3 then Read(r, incoming, clock) == Left(Error, [], clock[1..])
              else
                var length := Get16(incoming, 1) + 1;
                if length < 3 then Read(r, incoming, clock) == Left(Error, incoming[3..], clock[1..])
                else if length > |incoming| then Read(r, incoming, clock) == Left(Error, [], clock[1..])
                else
                  var p, rest := ParseFrame(incoming[..length]), incoming[length..];
                  Read(r, incoming, clock)
                  == if !p.Parsed? then Left(Error, rest, clock[1..])
                     else if PassedOver(r, p.message) then Read(r, rest, clock[1..])
                     else Left(Got(p.message.value, length), rest, clock[1..])
  {
    hide Get16, ParseFrame, PassedOver;
  }

  /** Two reads, one after the other. */
  lemma Rejoined(s: seq<byte>, i: nat, n: nat)
    requires i <= n && i <= |s|
    ensures n <= |s| ==> s[..i] + s[i..][..n - i] == s[..n] && s[i..][n - i..] == s[n..]
  {
  }

  /** A frame that the loop can cut from the stream: its length field is truthful. */
  predicate Framed(frame: seq<byte>) { |frame| >= 3 && |frame| == Get16(frame, 1) + 1 }

  /** What the loop makes of a frame, whatever is in it. */
  function Taken(r: Message, frame: seq<byte>, tail: seq<byte>, clock: seq<Tick>): (res: Left) {
    match ParseFrame(frame)
    case Parsed(m) => if PassedOver(r, m) then Read(r, tail, clock) else Left(Got(m.value, |frame|), tail, clock)
    case _ => Left(Error, tail, clock)
  }

  lemma {:induction false} ReadOne(r: Message, frame: seq<byte>, tail: seq<byte>, clock: seq<Tick>)
    requires Framed(frame) && Broken !in clock && Readies(clock) > 0
    ensures Broken !in ClockAfter(clock, 1) && Readies(ClockAfter(clock, 1)) == Readies(clock) - 1
    ensures Read(r, frame + tail, clock) == Taken(r, frame, tail, ClockAfter(clock, 1))
    decreases |clock|
  {
    hide Get16, ParseFrame;
    if clock[0].Ready? {
      var s := frame + tail;
      assert s[..|frame|] == frame && s[|frame|..] == tail;
      assert s[..3] == frame[..3];
      SameField(s, 0, 3, 1);
      SameField(frame, 0, 3, 1);
      assert ClockAfter(clock[1..], 0) == clock[1..];
    } else {
      ReadOne(r, frame, tail, clock[1..]);
    }
  }

  lemma ParsedIsFramed(frame: seq<byte>)
    requires ParseFrame(frame).Parsed?
    ensures Framed(frame)
  {
  }

  /** Frames that parse and are passed over. */
  predicate AllPassedOver(r: Message, frames: seq<seq<byte>>) {
    forall i :: 0 <= i < |frames| ==> ParseFrame(frames[i]).Parsed? && PassedOver(r, ParseFrame(frames[i]).message)
  }

  /** What the loop returns is the first frame that is a response, or has the request's client, or has its
      transaction; what follows is left to be read. In particular it takes a response to any client and any
      transaction. */
  lemma {:induction false} FirstIsTaken(r: Message, passed: seq<seq<byte>>, frame: seq<byte>, tail: seq<byte>,
      clock: seq<Tick>)
    requires AllPassedOver(r, passed) && ParseFrame(frame).Parsed? && !PassedOver(r, ParseFrame(frame).message)
    requires Broken !in clock && Readies(clock) > |passed|
    ensures Read(r, Concat(passed) + (frame + tail), clock)
            == Left(Got(ParseFrame(frame).message.value, |frame|), tail, ClockAfter(clock, |passed| + 1))
    decreases |passed|
  {
    hide ParseFrame, Read, PassedOver, Framed;
    if passed == [] {
      ParsedIsFramed(frame);
      assert Concat(passed) + (frame + tail) == frame + tail;
      ReadOne(r, frame, tail, clock);
    } else {
      var rest := Concat(passed[1..]) + (frame + tail);
      ParsedIsFramed(passed[0]);
      assert Concat(passed) + (frame + tail) == passed[0] + rest;
      ReadOne(r, passed[0], rest, clock);
      FirstIsTaken(r, passed[1..], frame, tail, ClockAfter(clock, 1));
      ClockOnce(clock, |passed|);
    }
  }

  /** A frame that does not parse, or whose result is an error, ends the loop, whoever it is for. */
  lemma BadFrameEnds(r: Message, frame: seq<byte>, tail: seq<byte>, clock: seq<Tick>)
    requires Framed(frame) && !ParseFrame(frame).Parsed? && Broken !in clock && Readies(clock) > 0
    ensures Read(r, frame + tail, clock) == Left(Error, tail, ClockAfter(clock, 1))
  {
    hide Framed, ParseFrame, Read;
    ReadOne(r, frame, tail, clock);
  }

  /** In particular every message with TLVs but no successful result among them. */
  lemma NoResultEnds(r: Message, m: Message, tail: seq<byte>, clock: seq<Tick>)
    requires Sendable(m) && m.value != [] && ResultOf(m.value) != Success
    requires Broken !in clock && Readies(clock) > 0
    ensures Read(r, Frame(m) + tail, clock) == Left(Error, tail, ClockAfter(clock, 1))
  {
    hide Frame, ResultOf, ParseFrame, Read;
    FrameComesBack(m);
    BadFrameEnds(r, Frame(m), tail, clock);
  }

  /** A successful response reads back from its frame, and is never passed over. */
  lemma ResponseFrame(r: Message, m: Message)
    requires Sendable(m) && m.kind == RESPONSE && (m.value == [] || ResultOf(m.value) == Success)
    ensures ParseFrame(Frame(m)).Parsed? && ParseFrame(Frame(m)).message.value == m.value
    ensures !PassedOver(r, ParseFrame(Frame(m)).message) && Framed(Frame(m))
  {
    hide Frame, ResultOf, ParseFrame;
    FrameComesBack(m);
  }

  /** A successful response comes back behind frames, whatever is in them, and what follows it is left to be read,
      exactly when each of them parses and is passed over. */
  lemma {:induction false} AnswerComesBack(r: Message, frames: seq<seq<byte>>, m: Message, tail: seq<byte>,
      clock: seq<Tick>)
    requires Sendable(m) && m.kind == RESPONSE && (m.value == [] || ResultOf(m.value) == Success)
    requires forall i :: 0 <= i < |frames| ==> Framed(frames[i])
    requires Broken !in clock && Readies(clock) > |frames|
    ensures Read(r, Concat(frames) + (Frame(m) + tail), clock)
            == Left(Got(m.value, |Frame(m)|), tail, ClockAfter(clock, |frames| + 1))
            <==> AllPassedOver(r, frames)
    decreases |frames|
  {
    hide Frame, ResultOf, ParseFrame, Read, PassedOver, Sendable, Framed;
    ResponseFrame(r, m);
    if frames == [] {
      assert Concat(frames) + (Frame(m) + tail) == Frame(m) + tail;
      ReadOne(r, Frame(m), tail, clock);
    } else {
      var rest := Concat(frames[1..]) + (Frame(m) + tail);
      assert Concat(frames) + (Frame(m) + tail) == frames[0] + rest;
      ReadOne(r, frames[0], rest, clock);
      AnswerComesBack(r, frames[1..], m, tail, ClockAfter(clock, 1));
      ClockOnce(clock, |frames|);
      FrameHasOctets(m);
      PassedOverRest(r, frames);
    }
  }

  lemma FrameHasOctets(m: Message)
    ensures |Frame(m)| > 0
  {
  }

  lemma PassedOverRest(r: Message, frames: seq<seq<byte>>)
    requires frames != []
    ensures AllPassedOver(r, frames) <==>
              && ParseFrame(frames[0]).Parsed? && PassedOver(r, ParseFrame(frames[0]).message)
              && AllPassedOver(r, frames[1..])
  {
    hide ParseFrame, PassedOver;
    var rest := frames[1..];
    assert forall i :: 1 <= i < |frames| ==> frames[i] == rest[i - 1];
  }

  /** A response to another client and another transaction is taken for the answer. */
  lemma ForeignResponseIsTaken(r: Message, m: Message, tail: seq<byte>, clock: seq<Tick>)
    requires Sendable(m) && m.kind == RESPONSE && (m.value == [] || ResultOf(m.value) == Success)
    requires m.service != CONTROL && m.client != r.client && m.transaction != r.transaction
    requires Broken !in clock && Readies(clock) > 0
    ensures Read(r, Frame(m) + tail, clock) == Left(Got(m.value, |Frame(m)|), tail, ClockAfter(clock, 1))
    ensures ParseFrame(Frame(m)) == Parsed(m)
  {
    hide Frame, ResultOf, ParseFrame, Read;
    FrameComesBack(m);
    AnswerComesBack(r, [], m, tail, clock);
    assert Concat([]) + (Frame(m) + tail) == Frame(m) + tail;
  }
}
