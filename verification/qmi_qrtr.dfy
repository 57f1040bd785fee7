/** driver/qmi/transport/qrtr: QMI service messages as QRTR packets, and the loop that matches the response. */
module QmiQrtr {
  import opened Bytes
  import opened QmiTlv

  const REQUEST: byte := 0x00
  const RESPONSE: byte := 0x02
  const SERVICE_HEADER: nat := 7
  const MAX_TLVS: nat := 0xFFFF - (1 + 5) - SERVICE_HEADER
  const MAX_MESSAGE: nat := SERVICE_HEADER + MAX_TLVS

  datatype Message = Message(kind: byte, transaction: u16, id: u16, value: seq<Tlv>)

  function Head(m: Message, len: nat): (h: seq<byte>)
    ensures |h| == 7
  {
    [m.kind] + Le16(m.transaction) + Le16(m.id) + Le16(Wrap16(len))
  }

  function Packet(m: Message): (s: seq<byte>)
    ensures |s| == 7 + |Fields(m.value)|
  {
    Head(m, |Fields(m.value)|) + Fields(m.value)
  }

  predicate Sendable(m: Message) { AllTruthful(m.value) && |Fields(m.value)| <= MAX_TLVS }

  /** bytes (transport.go:36-56) on a request; None where it reports an error. */
  method Serialize(r: Message) returns (packet: Option<seq<byte>>)
    requires r.kind == REQUEST
    ensures packet == if Sendable(r) then Some(Packet(r)) else None
  {
    var value := new Sink();
    var written, ok := WriteTo(r.value, value);
    if !ok { return None; }
    assert value.data == Fields(r.value);
    hide Fields, Le16;
    if |value.data| > MAX_TLVS { return None; }
    var buf := new Sink();
    buf.Write([REQUEST]);
    buf.Write(Le16(r.transaction));
    buf.Write(Le16(r.id));
    buf.Write(Le16(Wrap16(|value.data|)));
    assert buf.data == Head(r, |value.data|);
    buf.Write(value.data);
    return Some(buf.data);
  }

  // Reading one packet

  datatype Reading = Parsed(message: Message) | Malformed | Rejected(result: Result)

  /** Response.UnmarshalBinary (response.go:22-51) */
  function ParsePacket(data: seq<byte>): (r: Reading) {
    if |data| < 7 || |data| - 7 != Get16(data, 5) then Malformed
    else
      var m := Message(data[0], Get16(data, 1), Get16(data, 3), []);
      if |data| == 7 then Parsed(m)
      else
        var ts := ParseFields(data[7..]);
        if ts.None? then Malformed
        else if ResultOf(ts.value) != Success then Rejected(ResultOf(ts.value))
        else Parsed(m.(value := ts.value))
  }

  method Unmarshal(data: seq<byte>) returns (res: Reading)
    ensures res == ParsePacket(data)
  {
    if |data| < 7 { return Malformed; }
    hide Get16;
    var reader := new Reader(data);
    var h := reader.ReadFull(7);
    PrefixField(data, 7, 1);
    PrefixField(data, 7, 3);
    PrefixField(data, 7, 5);
    var m := Message(h[0], Get16(h, 1), Get16(h, 3), []);
    if |reader.rest| != Get16(h, 5) { return Malformed; }
    if Get16(h, 5) > 0 {
      var ts, read, cut, result := ReadFrom(reader);
      if cut { return Malformed; }
      if result != Success { return Rejected(result); }
      m := m.(value := ts);
    }
    return Parsed(m);
  }

  lemma PrefixField(s: seq<byte>, n: nat, i: nat)
    requires i + 2 <= n <= |s|
    ensures Get16(s[..n], i) == Get16(s, i)
  {
  }

  // Packets there and back

  lemma HeadFields(m: Message, len: u16, tlvs: seq<byte>)
    ensures var s := Head(m, len) + tlvs;
            && s[0] == m.kind && Get16(s, 1) == m.transaction && Get16(s, 3) == m.id && Get16(s, 5) == len
               && s[7..] == tlvs
  {
  }

  /** A packet that passes the guard fits the read buffer, and reads back in full exactly when it has no TLVs
      or its result is success. */
  lemma PacketComesBack(m: Message)
    requires Sendable(m)
    ensures |Packet(m)| <= MAX_MESSAGE
    ensures ParsePacket(Packet(m))
            == if m.value == [] || ResultOf(m.value) == Success then Parsed(m) else Rejected(ResultOf(m.value))
  {
    hide Get16, Head, ResultOf;
    HeadFields(m, |Fields(m.value)|, Fields(m.value));
    ParseWritten(m.value);
    assert m.value != [] ==> |Fields(m.value)| > 0;
  }

  lemma HeadWas(data: seq<byte>, m: Message)
    requires |data| >= 7 && m.kind == data[0] && m.transaction == Get16(data, 1) && m.id == Get16(data, 3)
    ensures Head(m, Get16(data, 5)) == data[..7]
  {
    Field16(data, 1, m.transaction);
    Field16(data, 3, m.id);
    Field16(data, 5, Get16(data, 5));
    hide Get16, Le16;
    assert data[..7] == [data[0]] + data[1..3] + data[3..5] + data[5..7];
  }

  /** Only a message's own packet reads as that message. */
  lemma ParsedWasPacket(data: seq<byte>)
    requires ParsePacket(data).Parsed?
    ensures Packet(ParsePacket(data).message) == data
  {
    hide Get16, Head, ResultOf;
    var m := ParsePacket(data).message;
    HeadWas(data, m);
    if |data| > 7 { WriteParsed(data[7..]); } else { assert data[7..] == []; }
    assert data == data[..7] + data[7..];
  }

  // The read loop

  /** What one Read of the connection gives: a packet, the deadline, or another error. */
  datatype Event = Arrived(packet: seq<byte>) | Late | Fault

  datatype Got = Got(value: seq<Tlv>, n: nat) | Error | Expired

  /** What a read comes to, and the events it leaves. */
  datatype Left = Left(got: Got, events: seq<Event>)

  /** What does not answer a request (transport.go:89). */
  predicate PassedOver(r: Message, m: Message) { m.kind != RESPONSE || m.transaction != r.transaction }

  /** Read (transport.go:75-97) on the events before the deadline. A packet larger than the buffer is an error
      of the connection (driver/qmi/qrtr/conn.go:111-124). */
  function Read(r: Message, events: seq<Event>): (res: Left)
    decreases |events|
  {
    if events == [] then Left(Expired, [])
    else
      var later := events[1..];
      if events[0].Late? then Left(Expired, later)
      else if events[0].Fault? || |events[0].packet| > MAX_MESSAGE then Left(Error, later)
      else
        match ParsePacket(events[0].packet)
        case Parsed(m) => if PassedOver(r, m) then Read(r, later) else Left(Got(m.value, |events[0].packet|), later)
        case _ => Left(Error, later)
  }

  class PacketConn {
    var events: seq<Event>

    constructor (events: seq<Event>)
      ensures this.events == events
    {
      this.events := events;
    }

    /** The test of the clock and a Read; None when the time is over first. */
    method Next() returns (e: Option<Event>)
      modifies this
      ensures old(events) == [] ==> e.None? && events == []
      ensures old(events) != [] ==> e == Some(old(events)[0]) && events == old(events)[1..]
    {
      if events == [] { return None; }
      e, events := Some(events[0]), events[1..];
    }
  }

  method ReadResponse(r: Message, conn: PacketConn) returns (got: Got)
    modifies conn
    ensures Left(got, conn.events) == Read(r, old(conn.events))
  {
    while true
      invariant Read(r, old(conn.events)) == Read(r, conn.events)
      decreases |conn.events|
    {
      var e := conn.Next();
      if e.None? { return Expired; }
      match e.value {
        case Late => return Expired;
        case Fault => return Error;
        case Arrived(packet) =>
          if |packet| > MAX_MESSAGE { return Error; }
          var response := Unmarshal(packet);
          if !response.Parsed? { return Error; }
          var m := response.message;
          if m.kind != RESPONSE || m.transaction != r.transaction { continue; }
          return Got(m.value, |packet|);
      }
    }
  }

  /** A packet of other traffic that the loop can read. */
  predicate Skipped(r: Message, e: Event) {
    && e.Arrived? && |e.packet| <= MAX_MESSAGE && ParsePacket(e.packet).Parsed?
    && PassedOver(r, ParsePacket(e.packet).message)
  }

  function Kept(r: Message, events: seq<Event>): (kept: seq<Event>) {
    if events == [] then []
    else (if Skipped(r, events[0]) then [] else [events[0]]) + Kept(r, events[1..])
  }

  /** Other traffic, wherever it comes, changes nothing. */
  lemma {:induction false} OtherTrafficIsSkipped(r: Message, events: seq<Event>)
    ensures Read(r, events).got == Read(r, Kept(r, events)).got
    ensures Kept(r, Read(r, events).events) == Read(r, Kept(r, events)).events
    decreases |events|
  {
    hide ParsePacket, PassedOver;
    if events != [] {
      OtherTrafficIsSkipped(r, events[1..]);
      var later := Kept(r, events[1..]);
      assert [] + later == later && ([events[0]] + later)[1..] == later;
    }
  }

  /** The response to a request comes back, whatever other traffic arrives before it. */
  lemma ResponseComesBack(r: Message, events: seq<Event>, m: Message, later: seq<Event>)
    requires Sendable(m) && m.kind == RESPONSE && m.transaction == r.transaction
    requires m.value == [] || ResultOf(m.value) == Success
    requires Kept(r, events) == [Arrived(Packet(m))] + later
    ensures Read(r, events).got == Got(m.value, |Packet(m)|) && Kept(r, Read(r, events).events) == later
  {
    hide Packet, ResultOf, ParsePacket, Kept;
    OtherTrafficIsSkipped(r, events);
    PacketComesBack(m);
  }

  lemma ReadResponseNext(r: Message, m: Message, later: seq<Event>)
    requires Sendable(m) && m.kind == RESPONSE && m.transaction == r.transaction
    requires m.value == [] || ResultOf(m.value) == Success
    ensures Read(r, [Arrived(Packet(m))] + later) == Left(Got(m.value, |Packet(m)|), later)
  {
    hide Packet, ResultOf, ParsePacket;
    PacketComesBack(m);
  }

  /** One event: skipped, or the end of the loop just behind it. */
  lemma ReadOne(r: Message, events: seq<Event>)
    requires events != []
    ensures if Skipped(r, events[0]) then Read(r, events) == Read(r, events[1..])
            else Read(r, events).events == events[1..]
  {
    hide ParsePacket, PassedOver;
  }

  /** It comes back, and what follows it is left, exactly when everything before it is traffic that the loop can
      read and skips. */
  lemma {:induction false} ResponseComesBackExactly(r: Message, before: seq<Event>, m: Message, later: seq<Event>)
    requires Sendable(m) && m.kind == RESPONSE && m.transaction == r.transaction
    requires m.value == [] || ResultOf(m.value) == Success
    ensures Read(r, before + ([Arrived(Packet(m))] + later)) == Left(Got(m.value, |Packet(m)|), later)
            <==> forall i :: 0 <= i < |before| ==> Skipped(r, before[i])
    decreases |before|
  {
    hide Packet, ResultOf, ParsePacket, Sendable, Skipped, Read, Kept;
    var events := [Arrived(Packet(m))] + later;
    if before == [] {
      ReadResponseNext(r, m, later);
      assert before + events == events;
    } else {
      ResponseComesBackExactly(r, before[1..], m, later);
      HeadApart(before, events);
      ReadOne(r, before + events);
      assert forall i :: 1 <= i < |before| ==> before[i] == before[1..][i - 1];
      assert forall i :: 0 <= i < |before| - 1 ==> before[1..][i] == before[i + 1];
    }
  }

  /** Traffic the loop cannot read ends it: any packet with TLVs but no successful result among them,
      a response or not, whosever transaction it is. */
  lemma NoResultEnds(r: Message, m: Message, later: seq<Event>)
    requires Sendable(m) && m.value != [] && ResultOf(m.value) != Success
    ensures Read(r, [Arrived(Packet(m))] + later) == Left(Error, later)
  {
    hide Packet, ResultOf, ParsePacket;
    PacketComesBack(m);
  }
}

/** driver/qmi/uim: APDUs as QMI messages, and the guard on their length. */
module QmiUim {
  import opened Bytes
  import opened QmiTlv
  import Qmux
  import QmiQrtr

  const UIM: byte := 0x0B
  const SEND_APDU: u16 := 0x003B
  const FIXED_TLVS: nat := 4 + 5 + 4
  const MAX_COMMAND: nat := Qmux.MAX_SERVICE_TLVS - FIXED_TLVS

  /** TransmitAPDURequest.Request's TLVs (messages.go:319-335) */
  function ApduTlvs(slot: byte, channel: byte, command: seq<byte>): seq<Tlv> {
    var value := Le16(Wrap16(|command|)) + command;
    [Tlv(0x10, 1, [channel]), Tlv(0x02, Wrap16(|value|), value), Tlv(0x01, 1, [slot])]
  }

  /** The client's guard lets a command through exactly when the transport's guards do, on either transport. */
  lemma GuardIsExact(slot: byte, channel: byte, command: seq<byte>, client: byte, transaction: u16)
    ensures var ts := ApduTlvs(slot, channel, command);
            && (|command| <= MAX_COMMAND
                <==> Qmux.Sendable(Qmux.Message(0, UIM, client, Qmux.REQUEST, transaction, SEND_APDU, ts)))
            && (|command| <= MAX_COMMAND
                <==> QmiQrtr.Sendable(QmiQrtr.Message(QmiQrtr.REQUEST, transaction, SEND_APDU, ts)))
  {
    hide Le16;
    var ts := ApduTlvs(slot, channel, command);
    FieldsCons(ts[2], []);
    FieldsCons(ts[1], [ts[2]]);
    FieldsCons(ts[0], [ts[1]] + [ts[2]]);
    assert ts == [ts[0]] + ([ts[1]] + [ts[2]]) && [ts[2]] + [] == [ts[2]];
    assert |Fields(ts)| == FIXED_TLVS + |command|;
    assert ts[0] in ts && ts[1] in ts && ts[2] in ts;
  }

  /** The APDU inside the request is the command, its length before it. */
  lemma RequestCarriesCommand(slot: byte, channel: byte, command: seq<byte>)
    requires |command| <= MAX_COMMAND
    ensures var t := Find(ApduTlvs(slot, channel, command), 0x02);
            t.Some? && Apdu(t.value) == Some(command)
  {
    var ts := ApduTlvs(slot, channel, command);
    assert ts[1..][0] == ts[1];
    Prefixed(command, []);
    assert Le16(|command|) + command + [] == ts[1].value;
  }

  /** An APDU behind its length; octets after it are let pass. */
  function Apdu(t: Tlv): (apdu: Option<seq<byte>>) {
    if |t.value| < 2 || |t.value| < 2 + Get16(t.value, 0) then None else Some(t.value[2..2 + Get16(t.value, 0)])
  }

  /** TransmitAPDUResponse.UnmarshalResponse (messages.go:341-350) */
  function ApduAnswer(ts: seq<Tlv>): (apdu: Option<seq<byte>>) {
    var t := Find(ts, 0x10);
    if t.Some? then Apdu(t.value) else None
  }

  lemma Prefixed(data: seq<byte>, more: seq<byte>)
    requires |data| < U16
    ensures var s := Le16(|data|) + data + more; Get16(s, 0) == |data| && s[2..2 + |data|] == data
  {
  }

  /** A modem's successful answer, with the APDU in it. */
  function AnswerTlvs(data: seq<byte>): seq<Tlv>
    requires |data| < U16 - 2
  {
    [Tlv(RESULT, 4, [0, 0, 0, 0]), Tlv(0x10, 2 + |data|, Le16(|data|) + data)]
  }

  /** It comes back through the QRTR loop behind any other traffic, and holds the APDU. */
  lemma AnswerHoldsApdu(r: QmiQrtr.Message, data: seq<byte>, events: seq<QmiQrtr.Event>, later: seq<QmiQrtr.Event>)
    requires |data| <= QmiQrtr.MAX_TLVS - 12
    requires var m := QmiQrtr.Message(QmiQrtr.RESPONSE, r.transaction, SEND_APDU, AnswerTlvs(data));
             QmiQrtr.Kept(r, events) == [QmiQrtr.Arrived(QmiQrtr.Packet(m))] + later
    ensures QmiQrtr.Read(r, events).got.Got? && ApduAnswer(QmiQrtr.Read(r, events).got.value) == Some(data)
  {
    var ts := AnswerTlvs(data);
    var m := QmiQrtr.Message(QmiQrtr.RESPONSE, r.transaction, SEND_APDU, ts);
    AnswerFields(data);
    QmiQrtr.ResponseComesBack(r, events, m, later);
  }

  lemma AnswerFields(data: seq<byte>)
    requires |data| < U16 - 2
    ensures var ts := AnswerTlvs(data);
            AllTruthful(ts) && |Fields(ts)| == 12 + |data| && ResultOf(ts) == Success && ApduAnswer(ts) == Some(data)
  {
    var ts := AnswerTlvs(data);
    FieldsCons(ts[1], []);
    FieldsCons(ts[0], [ts[1]]);
    assert ts == [ts[0]] + [ts[1]] && [ts[1]] + [] == [ts[1]] && ts[1..] == [ts[1]];
    Prefixed(data, []);
    assert Le16(|data|) + data + [] == ts[1].value;
  }
}
