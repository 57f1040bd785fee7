/** apdu/request.go, apdu/response.go and apdu/transmitter.go: short APDUs, the class octet's channel
    coding (section 10.1.1 of ETSI TS 102 221), and a command sent as STORE DATA blocks whose answer
    is drained with GET RESPONSE (section 5.7.2 of SGP.22 v2.5). */
module Apdu {
  import opened Bytes
  import opened Chunks

  const STORE_DATA: byte := 0xE2
  const GET_RESPONSE: byte := 0xC0
  const MORE_BLOCKS: byte := 0x11
  const LAST_BLOCK: byte := 0x91

  datatype Request = Request(cla: byte, ins: byte, p1: byte, p2: byte, data: seq<byte>, le: Option<byte>)

  // The short form

  /** What Request.WriteTo writes (request.go:25-39). */
  function Encode(r: Request): (s: seq<byte>)
  {
    [r.cla, r.ins, r.p1, r.p2]
    + (if r.data == [] then [] else [|r.data| % 256] + r.data)
    + (if r.le.None? then [] else [r.le.value])
  }

  method WriteTo(r: Request, w: Sink) returns (n: nat)
    modifies w
    ensures w.data == old(w.data) + Encode(r) && n == |Encode(r)|
  {
    var buf := [r.cla];
    buf := buf + [r.ins];
    buf := buf + [r.p1];
    buf := buf + [r.p2];
    if |r.data| > 0 {
      buf := buf + [|r.data| % 256];
      buf := buf + r.data;
    }
    if r.le.Some? {
      buf := buf + [r.le.value];
    }
    assert buf == Encode(r);
    w.Write(buf);
    n := |buf|;
  }

  /** The four cases of a short command APDU (section 5.1 of ISO/IEC 7816-3), as a card reads them. */
  function Decode(s: seq<byte>): (r: Option<Request>)
  {
    if |s| < 4 then None
    else if |s| == 4 then Some(Request(s[0], s[1], s[2], s[3], [], None))
    else if |s| == 5 then Some(Request(s[0], s[1], s[2], s[3], [], Some(s[4])))
    else if s[4] == 0 then None
    else if |s| == 5 + s[4] as int then Some(Request(s[0], s[1], s[2], s[3], s[5..], None))
    else if |s| == 6 + s[4] as int then Some(Request(s[0], s[1], s[2], s[3], s[5..|s| - 1], Some(s[|s| - 1])))
    else None
  }

  /** A card reads back what was written exactly when the data fits the one-octet length. */
  lemma DecodeEncoded(r: Request)
    ensures Decode(Encode(r)) == Some(r) <==> |r.data| < 256
  {
    if r.data != [] {
      var s, lc, tail := Encode(r), |r.data| % 256, if r.le.None? then [] else [r.le.value];
      assert s == [r.cla, r.ins, r.p1, r.p2, lc] + (r.data + tail);
      Layout(s, r, lc, tail);
      if |r.data| < 256 {
        assert lc > 0;
        assert r.le.None? ==> s[5..] == r.data;
        assert r.le.Some? ==> s[5..|s| - 1] == r.data && s[|s| - 1] == r.le.value;
      } else {
        assert lc as int <= |r.data| - 256;
      }
    }
  }

  lemma Layout(s: seq<byte>, r: Request, lc: byte, tail: seq<byte>)
    requires s == [r.cla, r.ins, r.p1, r.p2, lc] + (r.data + tail)
    ensures |s| == 5 + |r.data| + |tail| && s[5..] == r.data + tail
    ensures s[0] == r.cla && s[1] == r.ins && s[2] == r.p1 && s[3] == r.p2 && s[4] == lc
  {
  }

  lemma EncodeDecoded(s: seq<byte>)
    ensures Decode(s).Some? ==> Encode(Decode(s).value) == s
  {
    if |s| >= 6 && Decode(s).Some? {
      assert s == s[..4] + [s[4]] + s[5..];
      assert |s| == 6 + s[4] as int ==> s[5..] == s[5..|s| - 1] + [s[|s| - 1]];
    }
  }

  // The class octet

  /** setChannelToCLA (transmitter.go:80-86): 0x9C keeps bits 8, 5, 4 and 3; 0xB0 keeps 8, 6 and 5. */
  function SetChannel(cla: byte, channel: byte): (c: byte)
  {
    if channel < 4 then cla / 128 * 128 + cla / 4 % 8 * 4 + channel
    else if channel < 20 then cla / 128 * 128 + 64 + cla / 16 % 4 * 16 + (channel as int - 4)
    else cla
  }

  /** The channel a card reads in a class octet: bit 7 says which of the two codings it has. */
  function ChannelOf(cla: byte): (c: byte)
  {
    if cla / 64 % 2 == 0 then cla % 4 else cla % 16 + 4
  }

  /** Every channel up to 19 is read back, and stamping a stamped octet again changes nothing. */
  lemma ChannelStamp(cla: byte, channel: byte)
    ensures channel < 20 ==> ChannelOf(SetChannel(cla, channel)) == channel
    ensures SetChannel(SetChannel(cla, channel), channel) == SetChannel(cla, channel)
  {
    if channel < 4 {
      FirstStamp(cla / 128, cla / 4 % 8, channel);
    } else if channel < 20 {
      FurtherStamp(cla / 128, cla / 16 % 4, channel);
    }
  }

  lemma FirstStamp(high: nat, middle: nat, channel: byte)
    requires high < 2 && middle < 8 && channel < 4
    ensures var c := high * 128 + middle * 4 + channel as int;
            c < 256 && c / 128 == high && c / 4 % 8 == middle && c % 4 == channel && c / 64 % 2 == 0
  {
  }

  lemma FurtherStamp(high: nat, middle: nat, channel: byte)
    requires high < 2 && middle < 4 && 4 <= channel < 20
    ensures var c := high * 128 + 64 + middle * 16 + (channel as int - 4);
            c < 256 && c / 128 == high && c / 16 % 4 == middle && c % 16 == channel as int - 4 && c / 64 % 2 == 1
  {
  }

  /** The octet every request of a transmitter carries. */
  function ClassOctet(channel: byte): byte { SetChannel(0x80, channel) }

  /** The first stamp gives it, and later stamps keep it. */
  lemma ClassStays(channel: byte)
    ensures SetChannel(0x80, channel) == ClassOctet(channel) == SetChannel(ClassOctet(channel), channel)
  {
    ChannelStamp(0x80, channel);
  }

  type bit = x: int | 0 <= x < 2

  /** The octet with these bits, the lowest first. */
  function Octet(b1: bit, b2: bit, b3: bit, b4: bit, b5: bit, b6: bit, b7: bit, b8: bit): byte {
    b1 + 2 * b2 + 4 * b3 + 8 * b4 + 16 * b5 + 32 * b6 + 64 * b7 + 128 * b8
  }

  /** Bit by bit: a channel below 4 takes bits 1 and 2 and clears 6 and 7, and the others stay as they are. */
  lemma FirstClassBits(b1: bit, b2: bit, b3: bit, b4: bit, b5: bit, b6: bit, b7: bit, b8: bit, d1: bit, d2: bit)
    ensures SetChannel(Octet(b1, b2, b3, b4, b5, b6, b7, b8), Octet(d1, d2, 0, 0, 0, 0, 0, 0))
            == Octet(d1, d2, b3, b4, b5, 0, 0, b8)
  {
    hide SetChannel, Eighth, ThirdToFifth;
    var cla := Octet(b1, b2, b3, b4, b5, b6, b7, b8);
    Stamped(cla, Octet(d1, d2, 0, 0, 0, 0, 0, 0));
    Parts(cla, b1 + 2 * b2, b3 + 2 * b4 + 4 * b5, b6 + 2 * b7, b8);
  }

  /** One from 4 to 19, less 4, takes bits 1 to 4 and sets 7. */
  lemma FurtherClassBits(b1: bit, b2: bit, b3: bit, b4: bit, b5: bit, b6: bit, b7: bit, b8: bit,
      d1: bit, d2: bit, d3: bit, d4: bit)
    ensures SetChannel(Octet(b1, b2, b3, b4, b5, b6, b7, b8), 4 + Octet(d1, d2, d3, d4, 0, 0, 0, 0) as int)
            == Octet(d1, d2, d3, d4, b5, b6, 1, b8)
  {
    hide SetChannel, Eighth, FifthAndSixth;
    var cla, d := Octet(b1, b2, b3, b4, b5, b6, b7, b8), Octet(d1, d2, d3, d4, 0, 0, 0, 0);
    Stamped(cla, 4 + d);
    Parts(cla, b1 + 2 * b2, b3 + 2 * b4 + 4 * b5, b6 + 2 * b7, b8);
    Halves(cla, b1 + 2 * b2 + 4 * b3 + 8 * b4, b5 + 2 * b6, b7 + 2 * b8);
  }

  function Eighth(c: int): int { c / 128 }

  function ThirdToFifth(c: int): int { c / 4 % 8 }

  function FifthAndSixth(c: int): int { c / 16 % 4 }

  lemma Stamped(cla: byte, channel: byte)
    ensures SetChannel(cla, channel)
            == if channel < 4 then 128 * Eighth(cla) + 4 * ThirdToFifth(cla) + channel as int
               else if channel < 20 then 128 * Eighth(cla) + 64 + 16 * FifthAndSixth(cla) + (channel as int - 4)
               else cla as int
  {
  }

  lemma Parts(c: int, low: int, middle: int, high: int, top: int)
    requires 0 <= low < 4 && 0 <= middle < 8 && 0 <= high < 4 && 0 <= top < 2
    requires c == low + 4 * middle + 32 * high + 128 * top
    ensures ThirdToFifth(c) == middle && Eighth(c) == top
  {
    assert c / 4 == middle + 8 * (high + 4 * top);
  }

  lemma Halves(c: int, low: int, middle: int, high: int)
    requires 0 <= low < 16 && 0 <= middle < 4 && 0 <= high < 4
    requires c == low + 16 * middle + 64 * high
    ensures FifthAndSixth(c) == middle
  {
    assert c / 16 == middle + 4 * high;
  }

  // The card link

  datatype Reply = Octets(data: seq<byte>) | LinkDown

  /** What transmit makes of a reply: an error, a panic on less than a status word, or an answer. */
  datatype Heard = Heard(data: seq<byte>, more: bool, sw2: byte) | Failure | Short

  function Hear(reply: Reply): (h: Heard) {
    if reply.LinkDown? then Failure
    else
      var n := |reply.data|;
      if n < 2 then Short
      else if reply.data[n - 2] == 0x61 then Heard(reply.data[..n - 2], true, reply.data[n - 1])
      else if reply.data[n - 2] == 0x90 && reply.data[n - 1] == 0 then Heard(reply.data[..n - 2], false, 0)
      else Failure
  }

  /** The next reply of a link: a link that has none left is down. */
  function Next(script: seq<Reply>): Reply { if script == [] then LinkDown else script[0] }

  function Later(script: seq<Reply>): seq<Reply> { if script == [] then [] else script[1..] }

  /** The replies left after n exchanges. */
  function Left(script: seq<Reply>, n: nat): seq<Reply> { script[Min(n, |script|)..] }

  /** SmartCardChannel: the replies still to come, and the APDUs sent so far. */
  class Channel {
    var script: seq<Reply>
    var sent: seq<seq<byte>>

    constructor (replies: seq<Reply>)
      ensures script == replies && sent == []
    {
      script, sent := replies, [];
    }

    method Transmit(apdu: seq<byte>) returns (reply: Reply)
      modifies this
      ensures sent == old(sent) + [apdu]
      ensures reply == Next(old(script)) && script == Later(old(script))
    {
      sent := sent + [apdu];
      reply := Next(script);
      script := Later(script);
    }
  }

  // What a run does

  datatype Status = Done | Failed | Panicked

  /** How a run ends, the octets it counts, the response it collects and the requests it sends. */
  datatype Outcome = Outcome(status: Status, n: nat, response: seq<byte>, sent: seq<Request>)

  function Ended(status: Status): Outcome { Outcome(status, 0, [], []) }

  function After(n: nat, response: seq<byte>, sent: seq<Request>, rest: Outcome): Outcome {
    Outcome(rest.status, n + rest.n, response + rest.response, sent + rest.sent)
  }

  function Stop(h: Heard): Outcome { Ended(if h.Short? then Panicked else Failed) }

  function GetResponse(channel: byte, le: byte): Request {
    Request(ClassOctet(channel), GET_RESPONSE, 0, 0, [], Some(le))
  }

  /** readCommandResponse (transmitter.go:88-108) */
  function Drain(channel: byte, le: byte, script: seq<Reply>): (out: Outcome)
    ensures out.status.Done? ==> 1 <= |out.sent| <= |script|
    ensures out.n == 0
    decreases |script|
  {
    var r := GetResponse(channel, le);
    match Hear(Next(script))
    case Heard(data, more, sw2) =>
      After(0, data, [r], if more then Drain(channel, sw2, script[1..]) else Ended(Done))
    case h => After(0, [], [r], Stop(h))
  }

  lemma DrainTurn(channel: byte, le: byte, script: seq<Reply>)
    ensures var h, left := Hear(Next(script)), Left(script, 1);
            && (h.Heard? ==> |left| < |script|)
            && Drain(channel, le, script)
               == After(0, if h.Heard? then h.data else [], [GetResponse(channel, le)],
                        if !h.Heard? then Stop(h)
                        else if h.more then Drain(channel, h.sw2, left) else Ended(Done))
  {
  }

  /** One turn of the loop of Write (transmitter.go:49-60): a block, and the answer it may bring. */
  function Sent(channel: byte, r: Request, script: seq<Reply>): (out: Outcome)
    ensures out.status.Done? ==> 1 <= |out.sent| <= |script|
  {
    match Hear(Next(script))
    case Heard(data, more, le) =>
      if !more then Outcome(Done, |r.data|, data, [r])
      else After(|r.data|, [], [r], Drain(channel, le, script[1..]))
    case h => After(0, [], [r], Stop(h))
  }

  /** The loop of Write over the block requests. */
  function Run(channel: byte, requests: seq<Request>, script: seq<Reply>): (out: Outcome)
    decreases |requests|
  {
    if requests == [] then Ended(Done)
    else
      var o := Sent(channel, requests[0], script);
      After(o.n, o.response, o.sent,
            if o.status.Done? then Run(channel, requests[1..], Left(script, |o.sent|)) else Ended(o.status))
  }

  // Blocks

  /** The octet a block number becomes. */
  function Number(i: nat): byte { i % 256 }

  /** The number that Write flags as the last (transmitter.go:44). */
  function LastNumber(len: nat, mss: nat): byte
    requires mss > 0
  {
    len / mss % 256
  }

  function BlockOf(channel: byte, number: byte, chunks: byte, data: seq<byte>): Request {
    Request(ClassOctet(channel), STORE_DATA, if number == chunks then LAST_BLOCK else MORE_BLOCKS, number, data, None)
  }

  /** Request number i of Write. */
  function Block(channel: byte, command: seq<byte>, mss: nat, i: nat): Request
    requires mss > 0
  {
    BlockOf(channel, Number(i), LastNumber(|command|, mss), Piece(command, mss, i))
  }

  /** Every request of Write, in order. */
  function Blocks(channel: byte, command: seq<byte>, mss: nat): (rs: seq<Request>)
    requires mss > 0
    ensures |rs| == PieceCount(|command|, mss)
  {
    seq(PieceCount(|command|, mss), i requires 0 <= i < PieceCount(|command|, mss) => Block(channel, command, mss, i))
  }

  /** P2++ on an octet */
  function Increment(p: byte): byte { (p as int + 1) % 256 }

  lemma NumberNext(i: nat)
    ensures Number(0) == 0 && Increment(Number(i)) == Number(i + 1)
  {
  }

  // The transmitter

  function Encodings(rs: seq<Request>): (ss: seq<seq<byte>>)
    ensures |ss| == |rs|
  {
    seq(|rs|, i requires 0 <= i < |rs| => Encode(rs[i]))
  }

  /** What Write does. */
  function Written(channel: byte, mss: nat, command: seq<byte>, script: seq<Reply>): Outcome
    requires mss > 0
  {
    Run(channel, Blocks(channel, command, mss), script)
  }

  /** Where a run stands: octets counted, response collected, APDUs sent, replies to come. */
  datatype Tally = Tally(n: nat, response: seq<byte>, sent: seq<seq<byte>>, script: seq<Reply>)

  function Moved(t: Tally, n: nat, response: seq<byte>, sent: seq<Request>): Tally {
    Tally(t.n + n, t.response + response, t.sent + Encodings(sent), Left(t.script, |sent|))
  }

  /** Doing out from here ends where doing rest from there does. */
  ghost predicate Along(here: Tally, out: Outcome, there: Tally, rest: Outcome) {
    && out.status == rest.status
    && Moved(here, out.n, out.response, out.sent) == Moved(there, rest.n, rest.response, rest.sent)
  }

  lemma AtStart(here: Tally, out: Outcome)
    ensures Along(here, out, here, out)
  {
  }

  lemma Turn(here: Tally, out: Outcome, there: Tally, n: nat, response: seq<byte>, sent: seq<Request>, rest: Outcome)
    requires Along(here, out, there, After(n, response, sent, rest))
    ensures Along(here, out, Moved(there, n, response, sent), rest)
  {
    hide Encodings, Left;
    Regroup(there.response, response, rest.response);
    EncodingsJoin(sent, rest.sent);
    Regroup(there.sent, Encodings(sent), Encodings(rest.sent));
    LeftJoin(there.script, |sent|, |rest.sent|);
  }

  lemma EncodingsJoin(a: seq<Request>, b: seq<Request>)
    ensures Encodings(a + b) == Encodings(a) + Encodings(b)
  {
  }

  lemma LeftJoin(script: seq<Reply>, m: nat, n: nat)
    ensures Left(Left(script, m), n) == Left(script, m + n)
  {
  }

  lemma AtEnd(here: Tally, out: Outcome, there: Tally, status: Status)
    requires Along(here, out, there, Ended(status))
    ensures there == Moved(here, out.n, out.response, out.sent) && status == out.status
  {
  }

  lemma MovedTwice(t: Tally, n: nat, sent: seq<Request>, rest: Outcome)
    ensures var out := After(n, [], sent, rest);
            var once := Moved(t, n, [], sent);
            Moved(once, rest.n, rest.response, rest.sent) == Moved(t, out.n, out.response, out.sent)
  {
    assert Moved(t, n, [], sent).response == t.response;
    Turn(t, After(n, [], sent, rest), t, n, [], sent, rest);
  }

  lemma RunBlock(channel: byte, blocks: seq<Request>, i: nat, script: seq<Reply>)
    requires i < |blocks|
    ensures var o := Sent(channel, blocks[i], script);
            Run(channel, blocks[i..], script) ==
            After(o.n, o.response, o.sent,
                  if o.status.Done? then Run(channel, blocks[i + 1..], Left(script, |o.sent|)) else Ended(o.status))
  {
  }

  class Transmitter {
    const mss: int
    const logicalChannel: byte
    const channel: Channel
    /** The response buffer: none before the first Write. */
    var response: Option<seq<byte>>

    constructor (channel: Channel, logicalChannel: byte, mss: int)
      ensures this.channel == channel && this.logicalChannel == logicalChannel && this.mss == mss
      ensures response.None?
    {
      this.channel, this.logicalChannel, this.mss, this.response := channel, logicalChannel, mss, None;
    }

    ghost function Now(n: nat): Tally
      requires response.Some?
      reads this, channel
    {
      Tally(n, response.value, channel.sent, channel.script)
    }

    /** transmit (transmitter.go:65-78); the request comes back with its class octet stamped. */
    method Transmit(request: Request) returns (stamped: Request, heard: Heard)
      modifies channel
      ensures stamped == request.(cla := SetChannel(request.cla, logicalChannel))
      ensures heard == Hear(Next(old(channel.script)))
      ensures channel.sent == old(channel.sent) + Encodings([stamped])
      ensures channel.script == Left(old(channel.script), 1)
    {
      stamped := request.(cla := SetChannel(request.cla, logicalChannel));
      var apdu := new Sink();
      var n := WriteTo(stamped, apdu);
      assert apdu.data == Encode(stamped) == Encodings([stamped])[0];
      assert [apdu.data] == Encodings([stamped]);
      var reply := channel.Transmit(apdu.data);
      heard := Hear(reply);
    }

    /** readCommandResponse (transmitter.go:88-108), appending to the buffer. */
    method ReadCommandResponse(le: byte) returns (status: Status)
      requires response.Some?
      modifies this`response, channel
      ensures response.Some?
      ensures var out := Drain(logicalChannel, le, old(channel.script));
              status == out.status && Now(0) == Moved(old(Now(0)), 0, out.response, out.sent)
    {
      hide Along, Encode, Encodings, SetChannel, ClassOctet, Hear, Drain, Left, Next;
      ghost var here, out := Now(0), Drain(logicalChannel, le, channel.script);
      var request := Request(0x80, GET_RESPONSE, 0, 0, [], Some(le));
      AtStart(here, out);
      ClassStays(logicalChannel);
      while true
        invariant request.le.Some? && response.Some?
        invariant SetChannel(request.cla, logicalChannel) == ClassOctet(logicalChannel)
        invariant request == GetResponse(logicalChannel, request.le.value).(cla := request.cla)
        invariant Along(here, out, Now(0), Drain(logicalChannel, request.le.value, channel.script))
        decreases |channel.script|
      {
        ghost var before := Now(0);
        DrainTurn(logicalChannel, request.le.value, channel.script);
        var heard;
        request, heard := Transmit(request);
        if !heard.Heard? {
          assert response.value + [] == response.value;
          Turn(here, out, before, 0, [], [request], Stop(heard));
          AtEnd(here, out, Now(0), Stop(heard).status);
          return if heard.Short? then Panicked else Failed;
        }
        response := Some(response.value + heard.data);
        Turn(here, out, before, 0, heard.data, [request],
             if heard.more then Drain(logicalChannel, heard.sw2, channel.script) else Ended(Done));
        if !heard.more { break; }
        request := request.(le := Some(heard.sw2));
      }
      AtEnd(here, out, Now(0), Done);
      return Done;
    }

    /** One turn of the loop of Write (transmitter.go:49-60). */
    method SendBlock(request: Request, n: nat) returns (next: Request, status: Status, m: nat)
      requires response.Some?
      modifies this`response, channel
      ensures response.Some?
      ensures var block := request.(cla := SetChannel(request.cla, logicalChannel));
              var out := Sent(logicalChannel, block, old(channel.script));
              && status == out.status && Now(m) == Moved(old(Now(n)), out.n, out.response, out.sent)
              && (status.Done? ==> next == block.(p2 := Increment(block.p2)))
    {
      hide Drain, SetChannel, Encode;
      var heard;
      next, heard := Transmit(request);
      if !heard.Heard? { return next, if heard.Short? then Panicked else Failed, n; }
      ghost var block := next;
      next, m := next.(p2 := Increment(next.p2)), n + |next.data|;
      if !heard.more {
        response := Some(response.value + heard.data);
        return next, Done, m;
      }
      ghost var sent := Now(m);
      status := ReadCommandResponse(heard.sw2);
      MovedTwice(old(Now(n)), |block.data|, [block], Drain(logicalChannel, heard.sw2, sent.script));
    }

    /** Write (transmitter.go:38-63). A block size below one panics before anything is sent. */
    method Write(command: seq<byte>) returns (status: Status, n: nat)
      modifies this`response, channel
      ensures response.Some?
      ensures mss < 1 ==> status == Panicked && channel.sent == old(channel.sent)
      ensures mss >= 1 ==>
                var out := Written(logicalChannel, mss, command, old(channel.script));
                && status == out.status && n == out.n && response.value == out.response
                && channel.sent == old(channel.sent) + Encodings(out.sent)
                && channel.script == Left(old(channel.script), |out.sent|)
    {
      hide Sent, Drain, Left, SetChannel, Number, Increment, Start, PieceCount, LastNumber, Along;
      n := 0;
      response := Some([]);
      var request := Request(0x80, STORE_DATA, 0, 0, [], None);
      if mss < 1 { return Panicked, 0; }
      var chunks := LastNumber(|command|, mss);
      ghost var blocks := Blocks(logicalChannel, command, mss);
      ghost var here, out := Now(0), Run(logicalChannel, blocks, channel.script);
      var rest := command;
      ghost var i := 0;
      ClassStays(logicalChannel);
      StartNext(|command|, mss, 0);
      NumberNext(0);
      AtStart(here, out);
      assert blocks[0..] == blocks;
      while |rest| > 0
        invariant 0 <= i <= |blocks| && rest == command[Start(|command|, mss, i)..]
        invariant SetChannel(request.cla, logicalChannel) == ClassOctet(logicalChannel)
        invariant request.ins == STORE_DATA && request.le == None && request.p2 == Number(i)
        invariant response.Some?
        invariant Along(here, out, Now(n), Run(logicalChannel, blocks[i..], channel.script))
      {
        StartNext(|command|, mss, i);
        NumberNext(i);
        ghost var before, block := Now(n), Sent(logicalChannel, blocks[i], channel.script);
        RunBlock(logicalChannel, blocks, i, channel.script);
        request := request.(data := Front(rest, mss));
        request := request.(p1 := if request.p2 == chunks then LAST_BLOCK else MORE_BLOCKS);
        request, status, n := SendBlock(request, n);
        if status != Done {
          Turn(here, out, before, block.n, block.response, block.sent, Ended(status));
          AtEnd(here, out, Now(n), status);
          return status, n;
        }
        rest := rest[Min(mss, |rest|)..];
        Turn(here, out, before, block.n, block.response, block.sent,
             Run(logicalChannel, blocks[i + 1..], channel.script));
        i := i + 1;
      }
      StartNext(|command|, mss, i);
      AtEnd(here, out, Now(n), Done);
      return Done, n;
    }

    /** Read (transmitter.go:34-36): bytes.Buffer hands over what fits, or reports that none is left. */
    method Read(room: nat) returns (got: seq<byte>, end: ReadEnd)
      modifies this`response
      ensures old(response).None? ==> end == Crashed && response == old(response)
      ensures old(response).Some? ==>
                && response.Some? && got + response.value == old(response).value
                && (end == if old(response).value == [] && room > 0 then AtEof else Fine)
                && |got| == Min(room, |old(response).value|)
    {
      if response.None? { return [], Crashed; }
      var buffered := response.value;
      if buffered == [] { return [], if room == 0 then Fine else AtEof; }
      var k := Min(room, |buffered|);
      response := Some(buffered[k..]);
      return buffered[..k], Fine;
    }

    /** TransmitRaw (driver/transmitter.go:47-58): a write, then io.ReadAll in reads of some size. */
    method TransmitRaw(command: seq<byte>, room: nat) returns (status: Status, bs: seq<byte>)
      requires room > 0 && mss >= 1
      modifies this`response, channel
      ensures var out := Written(logicalChannel, mss, command, old(channel.script));
              && status == out.status
              && bs == (if status.Done? then out.response else [])
              && channel.sent == old(channel.sent) + Encodings(out.sent)
              && channel.script == Left(old(channel.script), |out.sent|)
    {
      hide Written, Encodings, Left;
      var n;
      status, n := Write(command);
      bs := [];
      if status != Done { return; }
      ghost var all := response.value;
      while true
        invariant response.Some? && bs + response.value == all
        decreases |response.value|
        modifies this`response
      {
        var got, end := Read(room);
        if end == AtEof { break; }
        bs := bs + got;
      }
    }
  }

  datatype ReadEnd = Fine | AtEof | Crashed
}
