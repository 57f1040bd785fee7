/** What an MBIM device sees of a request and the loop of its answer, octet by octet (sections 9.1 and 9.3 of
    USB-IF MBIM 1.0), and that the one meets the other. */
module MbimWire {
  import opened Bytes
  import opened Chunks
  import opened Streams
  import opened MbimFragment
  import opened MbimRequest
  import opened MbimReply

  // Messages, place by place

  /** Every message type, and the one that answers it. */
  lemma MessageTypes(t: u32)
    ensures ResponseType(t)
            == if t == 0x0000_0001 then Some(0x8000_0001) else if t == 0x0000_0002 then Some(0x8000_0002)
               else if t == 0x0000_0003 then Some(0x8000_0003) else None
    ensures Fragmentable(t) <==> t == 0x0000_0003 || t == 0x8000_0003 || t == 0x8000_0007
    ensures FUNCTION_ERROR == 0x8000_0004 && MAX_TRANSFER == 4096
  {
  }

  /** A request: type, length, transaction, and the command. */
  lemma RequestFields(r: Request, command: seq<byte>)
    ensures var m := RequestBytes(r, command);
            && |m| == 12 + |command|
            && Get32(m, 0) == r.messageType && Get32(m, 4) == |m| % 0x1_0000_0000
            && Get32(m, 8) == r.transactionID && m[12..] == command
  {
    hide Get32, Le32;
    var m := RequestBytes(r, command);
    var a, b, c := Le32(r.messageType), Le32(Wrap32(12 + |command|)), Le32(r.transactionID);
    assert m == [] + a + (b + c + command) == a + b + (c + command) == (a + b) + c + command;
    Read32([], r.messageType, b + c + command);
    Read32(a, Wrap32(12 + |command|), c + command);
    Read32(a + b, r.transactionID, command);
  }

  /** A command in its request: fragment words at 12 and 16, service at 20, command at 36, its kind at 40, the
      length of its data at 44, and the data. */
  lemma CommandFields(r: Request, c: Command)
    requires |c.service| == 16
    ensures var m := RequestBytes(r, CommandBytes(c));
            && |m| == 48 + |c.data|
            && Get32(m, 0) == r.messageType && Get32(m, 8) == r.transactionID
            && Get32(m, 4) == |m| % 0x1_0000_0000
            && Get32(m, 12) == c.total && Get32(m, 16) == c.current && m[20..36] == c.service
            && Get32(m, 36) == c.id && Get32(m, 40) == c.kind && Get32(m, 44) == |c.data| % 0x1_0000_0000
            && m[48..] == c.data
  {
    hide Get32, Le32;
    var body := CommandBytes(c);
    var m := RequestBytes(r, body);
    RequestFields(r, body);
    BodyFields(c);
    Inside(m, body, 0);
    Inside(m, body, 4);
    Inside(m, body, 24);
    Inside(m, body, 28);
    Inside(m, body, 32);
    assert m[20..36] == body[8..24] && m[48..] == body[36..];
  }

  lemma Inside(m: seq<byte>, body: seq<byte>, at: nat)
    requires |m| >= 12 && m[12..] == body && at + 4 <= |body|
    ensures Get32(m, 12 + at) == Get32(body, at)
  {
  }

  lemma BodyFields(c: Command)
    requires |c.service| == 16
    ensures var s := CommandBytes(c);
            && |s| == 36 + |c.data|
            && Get32(s, 0) == c.total && Get32(s, 4) == c.current && s[8..24] == c.service
            && Get32(s, 24) == c.id && Get32(s, 28) == c.kind && Get32(s, 32) == |c.data| % 0x1_0000_0000
            && s[36..] == c.data
  {
    hide Get32, Le32;
    var s := CommandBytes(c);
    var a, b, i, k, n := Le32(c.total), Le32(c.current), Le32(c.id), Le32(c.kind), Le32(Wrap32(|c.data|));
    Placed(a, b, c.service, i, k, n, c.data, s);
    var front, tail := a + b + c.service, k + n + c.data;
    Read32([], c.total, b + (c.service + (i + tail)));
    Read32(a, c.current, c.service + (i + tail));
    Read32(front, c.id, tail);
    Read32(front + i, c.kind, n + c.data);
    Read32(front + i + k, Wrap32(|c.data|), c.data);
  }

  lemma Placed(a: seq<byte>, b: seq<byte>, v: seq<byte>, i: seq<byte>, k: seq<byte>, n: seq<byte>, d: seq<byte>,
      s: seq<byte>)
    requires s == a + b + v + i + k + n + d
    requires |a| == 4 && |b| == 4 && |v| == 16 && |i| == 4 && |k| == 4 && |n| == 4
    ensures s == [] + a + (b + (v + (i + (k + n + d)))) == a + b + (v + (i + (k + n + d)))
    ensures s == (a + b + v) + i + (k + n + d) == (a + b + v + i) + k + (n + d)
    ensures s[8..24] == v && s[36..] == d
  {
  }

  /** Frame i of a message cut at size octets: the message's type and transaction, its own length, how many frames
      there are, its number, and its share of the message behind the header. */
  lemma FrameFields(m: seq<byte>, size: int, i: nat)
    requires Cuttable(m, size) && i < |AllFrames(m, size)|
    ensures var frames, at := AllFrames(m, size), 20 + i * (size - 20);
            var f := frames[i];
            && 20 < |f| <= size && at < |m|
            && Get32(f, 0) == Get32(m, 0) && Get32(f, 4) == |f| && Get32(f, 8) == Get32(m, 8)
            && Get32(f, 12) == |frames| && Get32(f, 16) == i
            && f[20..] == m[at..Min(at + (size - 20), |m|)]
            && (i == |frames| - 1 <==> at + (size - 20) >= |m|)
  {
    hide Get32, PieceCount, ParseFragment, AllFrames;
    var f, step := AllFrames(m, size)[i], size - 20;
    FramesFit(m, size);
    ParsedFields(f);
    FrameShare(m, size, i);
    Unwrapped(|f|);
  }

  lemma ParsedFields(f: seq<byte>)
    ensures var p := ParseFragment(f);
            p.Some? ==>
              && |f| >= 20 && Get32(f, 0) == p.value.messageType && Get32(f, 4) == Wrap32(|f|)
              && Get32(f, 8) == p.value.transactionID && Get32(f, 12) == p.value.total
              && Get32(f, 16) == p.value.current && f[20..] == p.value.payload
  {
    hide Get32;
  }

  lemma FrameShare(m: seq<byte>, size: int, i: nat)
    requires 20 < size < |m| && i < PieceCount(|m| - 20, size - 20)
    ensures var at := 20 + i * (size - 20);
            && at < |m| && Piece(m[20..], size - 20, i) == m[at..Min(at + (size - 20), |m|)]
            && (i + 1 == PieceCount(|m| - 20, size - 20) <==> at + (size - 20) >= |m|)
  {
    hide PieceCount, Piece;
    var len: nat, step: nat := |m| - 20, size - 20;
    Multiples(len, step, i);
    Multiples(len, step, i + 1);
    NextMultiple(i, step);
    Share(m[20..], step, i, i * step);
    Middle(m, 20, i * step, Min(i * step + step, len));
  }

  lemma NextMultiple(i: nat, step: nat)
    ensures (i + 1) * step == i * step + step
  {
  }

  lemma Share(s: seq<byte>, size: nat, i: nat, off: nat)
    requires off == i * size < |s|
    ensures Piece(s, size, i) == s[off..Min(off + size, |s|)]
  {
  }

  lemma Middle(m: seq<byte>, at: nat, i: nat, j: nat)
    requires i <= j <= |m| - at
    ensures m[at..][i..j] == m[at + i..at + j]
  {
  }

  /** A modem's answer: status at 40, length of the information buffer at 44, and the buffer. */
  lemma DoneFields(transactionID: u32, service: seq<byte>, id: u32, status: u32, data: seq<byte>)
    requires |service| == 16
    ensures var m := DoneBytes(transactionID, service, id, status, data);
            && |m| == 48 + |data|
            && Get32(m, 0) == 0x8000_0003 && Get32(m, 4) == |m| % 0x1_0000_0000 && Get32(m, 8) == transactionID
            && Get32(m, 12) == 1 && Get32(m, 16) == 0 && m[20..36] == service
            && Get32(m, 36) == id && Get32(m, 40) == status && Get32(m, 44) == |data| % 0x1_0000_0000
            && m[48..] == data
  {
    hide Get32, Le32;
    var r, c := Request(COMMAND_DONE, transactionID), Command(1, 0, service, id, status, data);
    CommandFields(r, c);
    assert DoneBytes(transactionID, service, id, status, data) == RequestBytes(r, CommandBytes(c));
  }

  /** A message of some type that says its own length. */
  predicate Says(m: seq<byte>, messageType: u32) { |m| >= 12 && Get32(m, 4) == |m| && Get32(m, 0) == messageType }

  /** A message that answers an opening or a closing with a status. */
  predicate SaysStatus(m: seq<byte>) { |m| == 16 && (Says(m, 0x8000_0001) || Says(m, 0x8000_0002)) }

  /** What a message decodes to, whatever it is: an information buffer exactly for a status of zero, when a command's
      comes in one fragment, 0 of 1, and holds the buffer; a status or a protocol error exactly when it says so. */
  lemma DecodeExactly(m: seq<byte>, data: seq<byte>, code: u32)
    requires |m| < U32
    ensures Decode(m) == Answer(data)
            <==> (SaysStatus(m) && Get32(m, 12) == 0 && data == [])
                 || (Says(m, 0x8000_0003) && |m| >= 48 && Get32(m, 40) == 0 && Get32(m, 12) == 1 && Get32(m, 16) == 0
                     && |m| >= 48 + Get32(m, 44) && data == m[48..48 + Get32(m, 44)])
    ensures Decode(m) == Status(code)
            <==> code != 0 && ((SaysStatus(m) && Get32(m, 12) == code)
                               || (Says(m, 0x8000_0003) && |m| >= 48 && Get32(m, 40) == code))
    ensures Decode(m) == ProtocolError(code) <==> Says(m, 0x8000_0004) && |m| == 16 && Get32(m, 12) == code
  {
    hide Get32;
  }

  // A request meets its answer

  /** What is written of a request. */
  function Sent(r: Request, command: seq<byte>): (frames: seq<seq<byte>>) {
    var cut := CutMessage(RequestBytes(r, command), MAX_TRANSFER);
    if cut.Frames? then cut.frames else []
  }

  /** Every frame of a command that is written is a control transfer that says its own length, the type 3 and the
      transaction of the request. */
  lemma SentFrames(r: Request, c: Command, k: nat)
    requires r.messageType == 3 && |c.service| == 16 && |c.data| + 48 < U32
    requires c.total == 1 && c.current == 0
    ensures Sent(r, CommandBytes(c)) != []
    ensures k < |Sent(r, CommandBytes(c))| ==>
              var f := Sent(r, CommandBytes(c))[k];
              && 20 <= |f| <= 4096 && Get32(f, 0) == 3 && Get32(f, 4) == |f| && Get32(f, 8) == r.transactionID
              && Get32(f, 12) == |Sent(r, CommandBytes(c))| && Get32(f, 16) == k
  {
    hide Get32, Le32, AllFrames, CommandBytes, RequestBytes;
    var m := RequestBytes(r, CommandBytes(c));
    CommandFields(r, c);
    Unwrapped(|m|);
    if |m| > MAX_TRANSFER {
      FramesFit(m, MAX_TRANSFER);
      if k < |AllFrames(m, MAX_TRANSFER)| { FrameFields(m, MAX_TRANSFER, k); }
    }
  }

  /** The device reads the transaction in any frame of the command and puts it in its answer, cut up as it likes;
      the read loop of the same request takes that answer, past any frames that do not answer the request, and
      decodes it. */
  lemma AnswerFound(r: Request, c: Command, k: nat, service: seq<byte>, id: u32, status: u32, data: seq<byte>,
      size: int, frames: seq<seq<byte>>, tail: seq<byte>, clock: seq<Tick>)
    requires r.messageType == 3 && |c.service| == 16 && |c.data| + 48 < U32 && c.total == 1 && c.current == 0
    requires k < |Sent(r, CommandBytes(c))| && |service| == 16 && 48 + |data| < U32 && 20 < size <= 4096
    requires |Sent(r, CommandBytes(c))[k]| >= 12
    requires var m := DoneBytes(Get32(Sent(r, CommandBytes(c))[k], 8), service, id, status, data);
             && AllTruthful(frames) && Related(r, frames) == FramesOf(m, size)
             && (frames != [] ==> !Unrelated(r, frames[|frames| - 1]))
    requires Broken !in clock && Readies(clock) >= |frames|
    ensures var m := DoneBytes(Get32(Sent(r, CommandBytes(c))[k], 8), service, id, status, data);
            && Read(r, None, Concat(frames) + tail, clock) == Reading(Got(m), tail, ClockAfter(clock, |frames|))
            && Decode(m) == if status == 0 then Answer(data) else Status(status)
  {
    hide Read, Related, AllFrames, Unrelated, CutMessage, Get32, DoneBytes, Decode, Sent, FramesOf, AllTruthful;
    SentFrames(r, c, k);
    DecodeDone(r, service, id, status, data);
    ReplyComesBack(r, DoneBytes(r.transactionID, service, id, status, data), size, frames, tail, clock);
  }

  /** So it is for opening and closing: the one frame written says the type and the transaction, and the status
      with that transaction is taken for the answer. */
  lemma StatusFound(r: Request, command: seq<byte>, code: u32, frames: seq<seq<byte>>, tail: seq<byte>,
      clock: seq<Tick>)
    requires (r.messageType == 1 || r.messageType == 2) && 12 + |command| <= 4096
    ensures var sent := Sent(r, command);
            && |sent| == 1 && |sent[0]| == 12 + |command| && sent[0][12..] == command
            && Get32(sent[0], 0) == r.messageType && Get32(sent[0], 4) == |sent[0]|
    ensures var m := ShortBytes(0x8000_0000 + r.messageType, Get32(Sent(r, command)[0], 8), code);
            AllTruthful(frames) && Related(r, frames) == [m] && Broken !in clock && Readies(clock) >= |frames|
            && (frames != [] ==> !Unrelated(r, frames[|frames| - 1])) ==>
              && Read(r, None, Concat(frames) + tail, clock) == Reading(Got(m), tail, ClockAfter(clock, |frames|))
              && Decode(m) == if code == 0 then Answer([]) else Status(code)
  {
    hide Read, Related, Unrelated, Get32, ShortBytes, Decode, Truthful, Readies, ClockAfter;
    RequestFields(r, command);
    var m := ShortBytes(0x8000_0000 + r.messageType, r.transactionID, code);
    if AllTruthful(frames) && Related(r, frames) == [m] && Broken !in clock && Readies(clock) >= |frames|
       && (frames != [] ==> !Unrelated(r, frames[|frames| - 1])) {
      ShortReplyComesBack(r, 0x8000_0000 + r.messageType, code, frames, tail, clock);
    }
  }

  // How a read ends otherwise

  /** A header or a frame that ends too soon, a length below 12 or above 4096, or the request's own transaction when
      its type has no answer. */
  predicate Unreadable(r: Request, incoming: seq<byte>) {
    || |incoming| < 12 || Get32(incoming, 4) < 12 || Get32(incoming, 4) > 4096 || Get32(incoming, 4) > |incoming|
    || (Get32(incoming, 8) == r.transactionID && !(1 <= r.messageType <= 3))
  }

  /** After any quiet rounds: a read expires when no rounds are left, and fails on a broken connection and on what it
      cannot read. */
  lemma {:induction false} ReadFails(r: Request, c: Option<Fragment>, incoming: seq<byte>, quiet: nat, clock: seq<Tick>)
    requires quiet <= |clock| && forall i :: 0 <= i < quiet ==> clock[i] == Quiet
    ensures quiet == |clock| ==> Read(r, c, incoming, clock).got == Expired
    ensures quiet < |clock| && clock[quiet] == Broken ==> Read(r, c, incoming, clock).got == Error
    ensures quiet < |clock| && clock[quiet] == Ready && Unreadable(r, incoming) ==>
              Read(r, c, incoming, clock).got == Error
  {
    hide Get32;
    if quiet > 0 {
      ReadFails(r, c, incoming, quiet - 1, clock[1..]);
    } else if clock != [] && |incoming| >= 12 && 12 <= Get32(incoming, 4) <= Min(4096, |incoming|) {
      SameWord(incoming, Get32(incoming, 4), 8);
    }
  }

  /** A frame answers a request of type 1, 2 or 3 exactly when it has the request's transaction and is of that type with
      its top bit set, or a function error. Any other is passed over. */
  lemma WhichAnswer(r: Request, c: Option<Fragment>, frame: seq<byte>)
    requires Truthful(frame) && 1 <= r.messageType <= 3
    ensures !Unrelated(r, frame)
            <==> Get32(frame, 8) == r.transactionID
                 && Get32(frame, 0) in {0x8000_0000 + r.messageType as int, 0x8000_0004}
    ensures Unrelated(r, frame) ==> Consider(r, c, frame) == Waiting(c)
  {
    hide Get32;
  }

  /** One that answers is the message as it is, unless it is a fragment: of a command's answer, and there is one
      before it or it says that there are more. */
  lemma TakenWhole(r: Request, c: Option<Fragment>, frame: seq<byte>)
    requires Truthful(frame) && 1 <= r.messageType <= 3 && !Unrelated(r, frame)
    requires Get32(frame, 0) != 0x8000_0003 || (c.None? && (|frame| < 20 || Get32(frame, 12) <= 1))
    ensures Consider(r, c, frame) == Message(frame)
  {
    hide Get32, Collected, Accept, Begin;
  }

  /** A fragment out of its place ends the read, whether it is the first or comes after others. */
  lemma MisplacedEnds(r: Request, before: seq<seq<byte>>, frame: seq<byte>)
    requires r.messageType == 3 && AllTruthful(before) && Truthful(frame) && AllTruthful(before + [frame])
    requires Fold(r, before).Waiting? && !Unrelated(r, frame) && Get32(frame, 0) == 0x8000_0003
    requires Related(r, before) != [] || (|frame| >= 20 && Get32(frame, 12) > 1)
    requires var kept := Related(r, before); !InPlace(kept + [frame], |kept|)
    ensures Fold(r, before + [frame]) == Refused
  {
    hide Fold, Related, Get32, ParseFragment, Unrelated, Truthful, Begin, Accept, InPlace, Complete, AmountsTo;
    var kept := Related(r, before);
    FoldMore(r, before, frame);
    WaitingCollects(r, before);
    CollectMore(kept, frame);
    CollectMeaning(kept + [frame]);
    RelatedHere(r, frame);
  }

  lemma RelatedHere(r: Request, frame: seq<byte>)
    requires Truthful(frame) && !Unrelated(r, frame) && r.messageType == 3
    ensures Get32(frame, 8) == r.transactionID
  {
  }
}
