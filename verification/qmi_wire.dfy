/** What QMI requests and answers are on the wire, octet by octet, and which of them end or pass the read loops. */
module QmiWire {
  import opened Bytes
  import opened QmiTlv
  import Streams
  import Qmux
  import QmiQrtr
  import QmiUim

  // A field

  /** Type, length, value. */
  lemma FieldOctets(t: Tlv)
    ensures var s := Field(t);
            |s| == 3 + |t.value| && s[0] == t.kind && Get16(s, 1) == t.len && s[3..] == t.value
  {
  }

  // QMUX

  /** A frame: 01, its length less one, flags, service and client; kind, transaction (one octet of it for service 0),
      message and the length of the TLVs; the TLVs. */
  lemma FrameOctets(m: Qmux.Message)
    requires Qmux.Sendable(m)
    ensures var s, n := Qmux.Frame(m), |Fields(m.value)|;
            && |s| == n + (if m.service == 0x00 then 12 else 13) && |s| <= 0xFFFF
            && s[0] == 0x01 && Get16(s, 1) == |s| - 1 && s[3] == m.flags && s[4] == m.service && s[5] == m.client
            && s[6] == m.kind
            && if m.service == 0x00 then
                 s[7] == m.transaction % 256 && Get16(s, 8) == m.id && Get16(s, 10) == n && s[12..] == Fields(m.value)
               else
                 Get16(s, 7) == m.transaction && Get16(s, 9) == m.id && Get16(s, 11) == n && s[13..] == Fields(m.value)
  {
    hide Get16, Le16, Fields;
    Qmux.HeadFields(m, |Fields(m.value)|, Fields(m.value));
  }

  /** What can be sent: TLVs whose lengths are their values', in a frame of at most 65535 octets. */
  lemma FrameFits(m: Qmux.Message)
    ensures Qmux.Sendable(m)
            <==> (forall t :: t in m.value ==> t.len == |t.value|)
                 && |Fields(m.value)| + (if m.service == 0x00 then 12 else 13) <= 0xFFFF
  {
  }

  /** A message whose TLVs bring a result ends the loop with an error exactly when that result is none, too short or
      no success. */
  lemma FrameWithResult(r: Qmux.Message, m: Qmux.Message, tail: seq<byte>, clock: seq<Streams.Tick>)
    requires Qmux.Sendable(m) && m.value != [] && Streams.Broken !in clock && Streams.Readies(clock) > 0
    ensures (forall k :: 0 <= k < |m.value| ==> m.value[k].kind != 0x02) ==>
              && Qmux.ParseFrame(Qmux.Frame(m)) == Qmux.Rejected(Missing)
              && Qmux.Read(r, Qmux.Frame(m) + tail, clock)
                 == Qmux.Left(Qmux.Error, tail, Streams.ClockAfter(clock, 1))
    ensures forall k :: IsFirst(m.value, 0x02, k) && !ZeroWord(m.value[k].value) ==>
              && Qmux.ParseFrame(Qmux.Frame(m)).Rejected?
              && Qmux.Read(r, Qmux.Frame(m) + tail, clock)
                 == Qmux.Left(Qmux.Error, tail, Streams.ClockAfter(clock, 1))
    ensures forall k :: IsFirst(m.value, 0x02, k) && ZeroWord(m.value[k].value) ==>
              Qmux.ParseFrame(Qmux.Frame(m)).Parsed?
  {
    hide Qmux.Frame, Qmux.ParseFrame, Qmux.Read, Qmux.Sendable, ResultOf, IsFirst;
    Qmux.FrameComesBack(m);
    ResultExactly(m.value);
    if ResultOf(m.value) != Success { Qmux.NoResultEnds(r, m, tail, clock); }
    FirstInside(m.value, 0x02);
  }

  /** Four octets or more, the first two of them zero. */
  predicate ZeroWord(v: seq<byte>) { |v| >= 4 && v[0] == 0 && v[1] == 0 }

  /** One message without TLVs, or with a successful result: the loop passes over it exactly when it is no response
      and has another client and another transaction, and returns its TLVs otherwise. */
  lemma FrameTaken(r: Qmux.Message, m: Qmux.Message, tail: seq<byte>, clock: seq<Streams.Tick>)
    requires Qmux.Sendable(m) && (m.value == [] || exists k :: IsFirst(m.value, 0x02, k) && ZeroWord(m.value[k].value))
    requires Streams.Broken !in clock && Streams.Readies(clock) > 0
    ensures var left, transaction := Streams.ClockAfter(clock, 1),
                                     if m.service == 0x00 then m.transaction % 256 else m.transaction;
            Qmux.Read(r, Qmux.Frame(m) + tail, clock)
            == if m.kind != 0x02 && m.client != r.client && transaction != r.transaction then Qmux.Read(r, tail, left)
               else Qmux.Left(Qmux.Got(m.value, |Qmux.Frame(m)|), tail, left)
  {
    hide Qmux.Frame, Qmux.ParseFrame, Qmux.Read, Qmux.Sendable, ResultOf, IsFirst;
    Qmux.FrameComesBack(m);
    ResultExactly(m.value);
    FirstInside(m.value, 0x02);
    Qmux.ParsedIsFramed(Qmux.Frame(m));
    Qmux.ReadOne(r, Qmux.Frame(m), tail, clock);
  }

  /** After any quiet rounds a read expires when none is left, and fails on a broken connection and on a frame that
      ends too soon or says a length below 3. */
  lemma {:induction false} FrameFails(r: Qmux.Message, incoming: seq<byte>, quiet: nat, clock: seq<Streams.Tick>)
    requires quiet <= |clock| && forall i :: 0 <= i < quiet ==> clock[i] == Streams.Quiet
    ensures quiet == |clock| ==> Qmux.Read(r, incoming, clock).got == Qmux.Expired
    ensures quiet < |clock| && clock[quiet] == Streams.Broken ==> Qmux.Read(r, incoming, clock).got == Qmux.Error
    ensures quiet < |clock| && clock[quiet] == Streams.Ready
            && (|incoming| < 3 || Get16(incoming, 1) < 2 || Get16(incoming, 1) + 1 > |incoming|) ==>
              Qmux.Read(r, incoming, clock).got == Qmux.Error
  {
    hide Get16, Qmux.ParseFrame, Qmux.PassedOver;
    if quiet > 0 { FrameFails(r, incoming, quiet - 1, clock[1..]); }
  }

  // QRTR

  /** A packet: kind, transaction, message, the length of the TLVs, and the TLVs. */
  lemma PacketOctets(m: QmiQrtr.Message)
    requires QmiQrtr.Sendable(m)
    ensures var s, n := QmiQrtr.Packet(m), |Fields(m.value)|;
            && |s| == 7 + n && |s| <= 65529
            && s[0] == m.kind && Get16(s, 1) == m.transaction && Get16(s, 3) == m.id && Get16(s, 5) == n
            && s[7..] == Fields(m.value)
  {
    hide Get16, Le16, Fields, QmiQrtr.Head;
    QmiQrtr.HeadFields(m, |Fields(m.value)|, Fields(m.value));
  }

  lemma PacketFits(m: QmiQrtr.Message)
    ensures QmiQrtr.Sendable(m)
            <==> (forall t :: t in m.value ==> t.len == |t.value|) && 7 + |Fields(m.value)| <= 65529
  {
  }

  /** A packet whose TLVs bring no successful result ends the loop, and only such a one. */
  lemma PacketWithResult(r: QmiQrtr.Message, m: QmiQrtr.Message, later: seq<QmiQrtr.Event>)
    requires QmiQrtr.Sendable(m) && m.value != []
    ensures (forall k :: 0 <= k < |m.value| ==> m.value[k].kind != 0x02) ==>
              && QmiQrtr.ParsePacket(QmiQrtr.Packet(m)) == QmiQrtr.Rejected(Missing)
              && QmiQrtr.Read(r, [QmiQrtr.Arrived(QmiQrtr.Packet(m))] + later) == QmiQrtr.Left(QmiQrtr.Error, later)
    ensures forall k :: IsFirst(m.value, 0x02, k) && !ZeroWord(m.value[k].value) ==>
              && QmiQrtr.ParsePacket(QmiQrtr.Packet(m)).Rejected?
              && QmiQrtr.Read(r, [QmiQrtr.Arrived(QmiQrtr.Packet(m))] + later) == QmiQrtr.Left(QmiQrtr.Error, later)
    ensures forall k :: IsFirst(m.value, 0x02, k) && ZeroWord(m.value[k].value) ==>
              QmiQrtr.ParsePacket(QmiQrtr.Packet(m)).Parsed?
  {
    hide QmiQrtr.Packet, QmiQrtr.ParsePacket, QmiQrtr.Read, QmiQrtr.Sendable, ResultOf, IsFirst;
    QmiQrtr.PacketComesBack(m);
    ResultExactly(m.value);
    if ResultOf(m.value) != Success { QmiQrtr.NoResultEnds(r, m, later); }
    FirstInside(m.value, 0x02);
  }

  /** One packet without TLVs, or with a successful result: the loop takes it exactly when it is a response with the
      request's transaction, and reads on otherwise. */
  lemma PacketTaken(r: QmiQrtr.Message, m: QmiQrtr.Message, later: seq<QmiQrtr.Event>)
    requires QmiQrtr.Sendable(m)
    requires m.value == [] || exists k :: IsFirst(m.value, 0x02, k) && ZeroWord(m.value[k].value)
    ensures QmiQrtr.Read(r, [QmiQrtr.Arrived(QmiQrtr.Packet(m))] + later)
            == if m.kind == 0x02 && m.transaction == r.transaction then
                 QmiQrtr.Left(QmiQrtr.Got(m.value, |QmiQrtr.Packet(m)|), later)
               else QmiQrtr.Read(r, later)
  {
    hide QmiQrtr.Packet, QmiQrtr.ParsePacket, QmiQrtr.Sendable, ResultOf, IsFirst;
    QmiQrtr.PacketComesBack(m);
    ResultExactly(m.value);
    FirstInside(m.value, 0x02);
    var e := QmiQrtr.Arrived(QmiQrtr.Packet(m));
    assert ([e] + later)[1..] == later;
  }

  /** The other events end it: the deadline, a fault, a packet too large for the buffer or too short for its head, and
      one whose TLVs are not as long as it says. */
  lemma EventEnds(r: QmiQrtr.Message, e: QmiQrtr.Event, later: seq<QmiQrtr.Event>)
    ensures QmiQrtr.Read(r, []).got == QmiQrtr.Expired
    ensures e.Late? ==> QmiQrtr.Read(r, [e] + later) == QmiQrtr.Left(QmiQrtr.Expired, later)
    ensures e.Fault?
            || (e.Arrived? && (|e.packet| > 65529 || |e.packet| < 7 || |e.packet| != 7 + Get16(e.packet, 5))) ==>
              QmiQrtr.Read(r, [e] + later) == QmiQrtr.Left(QmiQrtr.Error, later)
  {
    hide Get16;
    assert ([e] + later)[1..] == later;
  }

  // APDUs

  /** A request to transmit an APDU: the channel in TLV 10, the APDU behind its length in TLV 02, the slot in TLV 01,
      in this order on the wire. */
  lemma ApduRequest(slot: byte, channel: byte, command: seq<byte>)
    requires 2 + |command| <= 0xFFFF
    ensures var ts := QmiUim.ApduTlvs(slot, channel, command);
            && |ts| == 3 && AllTruthful(ts)
            && Fields(ts) == Field(ts[0]) + (Field(ts[1]) + Field(ts[2]))
            && (ts[0].kind, ts[1].kind, ts[2].kind) == (0x10, 0x02, 0x01)
            && ts[0].value == [channel] && ts[2].value == [slot]
            && |ts[1].value| == 2 + |command| && Get16(ts[1].value, 0) == |command| && ts[1].value[2..] == command
  {
    hide Le16, Get16, Field;
    var ts := QmiUim.ApduTlvs(slot, channel, command);
    FieldsCons(ts[2], []);
    FieldsCons(ts[1], [ts[2]]);
    FieldsCons(ts[0], [ts[1]] + [ts[2]]);
    assert ts == [ts[0]] + ([ts[1]] + [ts[2]]) && [ts[2]] + [] == [ts[2]] && Field(ts[2]) + [] == Field(ts[2]);
    QmiUim.Prefixed(command, []);
    assert Le16(|command|) + command + [] == ts[1].value;
  }

  /** Looked up by type, each is found. */
  lemma ApduRequestParts(slot: byte, channel: byte, command: seq<byte>)
    requires 2 + |command| <= 0xFFFF
    ensures var ts := QmiUim.ApduTlvs(slot, channel, command);
            && Find(ts, 0x01) == Some(Tlv(0x01, 1, [slot])) && Find(ts, 0x10) == Some(Tlv(0x10, 1, [channel]))
            && Find(ts, 0x02) == Some(Tlv(0x02, 2 + |command|, Le16(|command|) + command))
  {
    hide Le16, Find;
    var ts := QmiUim.ApduTlvs(slot, channel, command);
    FindIsFirst(ts, 0x01, 2);
    FindIsFirst(ts, 0x02, 1);
    FindIsFirst(ts, 0x10, 0);
  }

  /** A TLV holds an APDU exactly when it begins with it, behind its length. */
  lemma ApduExactly(t: Tlv, data: seq<byte>)
    ensures QmiUim.Apdu(t) == Some(data) <==> |data| < 0x1_0000 && Le16(|data|) + data <= t.value
  {
    if |data| < 0x1_0000 && Le16(|data|) + data <= t.value {
      QmiUim.Prefixed(data, t.value[2 + |data|..]);
      assert t.value == Le16(|data|) + data + t.value[2 + |data|..];
    }
  }
}
