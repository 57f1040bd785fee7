/** What a reply is to the read loop: its fragments in order, whatever traffic comes between them. */
module MbimReply {
  import opened Bytes
  import opened Chunks
  import opened Streams
  import opened MbimFragment
  import opened MbimRequest

  // Frames

  /** A frame the loop can read: its length is truthful and within a control transfer. */
  predicate Truthful(frame: seq<byte>) { 12 <= |frame| <= MAX_TRANSFER && Get32(frame, 4) == |frame| }

  predicate AllTruthful(frames: seq<seq<byte>>) { forall i :: 0 <= i < |frames| ==> Truthful(frames[i]) }

  /** Another transaction, or a type that does not answer the request. */
  predicate Unrelated(r: Request, frame: seq<byte>)
    requires Truthful(frame)
  {
    var messageType, expected := Get32(frame, 0), ResponseType(r.messageType);
    Get32(frame, 8) != r.transactionID
    || (expected.Some? && messageType != expected.value && messageType != FUNCTION_ERROR)
  }

  function Related(r: Request, frames: seq<seq<byte>>): (kept: seq<seq<byte>>)
    requires AllTruthful(frames)
    ensures AllTruthful(kept)
  {
    if frames == [] then []
    else
      var last := |frames| - 1;
      Related(r, frames[..last]) + if Unrelated(r, frames[last]) then [] else [frames[last]]
  }

  /** The loop's body over frames, one after another, while it waits. */
  function Fold(r: Request, frames: seq<seq<byte>>): (s: Step)
    requires AllTruthful(frames)
    ensures s.Message? ==> |s.frame| < U32
  {
    if frames == [] then Waiting(None)
    else
      var last := |frames| - 1;
      match Fold(r, frames[..last])
      case Waiting(c) => Consider(r, c, frames[last])
      case s => s
  }

  lemma FoldMore(r: Request, frames: seq<seq<byte>>, frame: seq<byte>)
    requires AllTruthful(frames) && Truthful(frame)
    ensures AllTruthful(frames + [frame])
    ensures Fold(r, frames + [frame])
            == if Fold(r, frames).Waiting? then Consider(r, Fold(r, frames).collector, frame) else Fold(r, frames)
    ensures Related(r, frames + [frame]) == Related(r, frames) + if Unrelated(r, frame) then [] else [frame]
  {
  }

  lemma UnrelatedIsSkipped(r: Request, c: Option<Fragment>, frame: seq<byte>)
    requires Truthful(frame) && Unrelated(r, frame)
    ensures Consider(r, c, frame) == Waiting(c)
  {
  }

  /** Unrelated frames, wherever they come, change nothing. */
  lemma {:induction false} UnrelatedAreSkipped(r: Request, frames: seq<seq<byte>>)
    requires AllTruthful(frames)
    ensures Fold(r, frames) == Fold(r, Related(r, frames))
  {
    hide Consider, Unrelated, Truthful;
    if frames != [] {
      var before, frame := frames[..|frames| - 1], frames[|frames| - 1];
      UnrelatedAreSkipped(r, before);
      assert frames == before + [frame];
      FoldMore(r, before, frame);
      FoldMore(r, Related(r, before), frame);
      assert Related(r, before) + [] == Related(r, before);
      if Unrelated(r, frame) && Fold(r, before).Waiting? {
        UnrelatedIsSkipped(r, Fold(r, before).collector, frame);
      }
    }
  }

  /** What a frame that leaves the loop waiting has done. */
  lemma StillWaiting(r: Request, c: Option<Fragment>, frame: seq<byte>)
    requires Truthful(frame) && Consider(r, c, frame).Waiting?
    ensures var next := Consider(r, c, frame).collector;
            if Unrelated(r, frame) then next == c
            else next.Some? && !Complete(next.value) && next == if c.None? then Begin(frame) else Accept(c.value, frame)
  {
  }

  lemma {:induction false} WaitingCollects(r: Request, frames: seq<seq<byte>>)
    requires AllTruthful(frames) && Fold(r, frames).Waiting?
    ensures var c, kept := Fold(r, frames).collector, Related(r, frames);
            && (c.None? <==> kept == [])
            && (c.Some? ==> Collect(kept) == c && !Complete(c.value))
  {
    hide Accept, Begin, Complete, Get32, Consider, Unrelated, Truthful;
    if frames != [] {
      var before, frame := frames[..|frames| - 1], frames[|frames| - 1];
      assert frames == before + [frame];
      FoldMore(r, before, frame);
      WaitingCollects(r, before);
      StillWaiting(r, Fold(r, before).collector, frame);
      CollectMore(Related(r, before), frame);
      assert Related(r, before) + [] == Related(r, before);
    }
  }

  lemma CollectMore(frames: seq<seq<byte>>, frame: seq<byte>)
    ensures Collect(frames + [frame])
            == if frames == [] then Begin(frame)
               else if Collect(frames).None? then None else Accept(Collect(frames).value, frame)
  {
  }

  /** While the loop waits, its collector holds exactly the related frames so far: each in its place, their
      payloads in order, the number below the total, and some still missing. */
  lemma WaitingHolds(r: Request, frames: seq<seq<byte>>)
    requires AllTruthful(frames) && Fold(r, frames).Waiting?
    ensures var c, kept := Fold(r, frames).collector, Related(r, frames);
            && (c.None? <==> kept == [])
            && (c.Some? ==> AmountsTo(kept, c.value) && |kept| < c.value.total
                            && forall i :: 0 <= i < |kept| ==> InPlace(kept, i))
  {
    hide Fold, Related, Complete, InPlace;
    WaitingCollects(r, frames);
    if Related(r, frames) != [] { CollectMeaning(Related(r, frames)); }
  }

  // The stream

  /** Quiet rounds before a frame's own make no difference. */
  lemma {:induction false} ReadOne(r: Request, c: Option<Fragment>, frame: seq<byte>, tail: seq<byte>, clock: seq<Tick>)
    requires Truthful(frame) && Broken !in clock && Readies(clock) > 0
    ensures Broken !in ClockAfter(clock, 1) && Readies(ClockAfter(clock, 1)) == Readies(clock) - 1
    ensures Read(r, c, frame + tail, clock) == Outcome(r, Consider(r, c, frame), tail, ClockAfter(clock, 1))
    decreases |clock|
  {
    hide Consider, Get32;
    if clock[0].Ready? {
      var s := frame + tail;
      assert s[..|frame|] == frame && s[|frame|..] == tail;
      SameWord(s, |frame|, 4);
      assert ClockAfter(clock[1..], 0) == clock[1..];
    } else {
      ReadOne(r, c, frame, tail, clock[1..]);
    }
  }

  /** The loop reads a run of frames as Fold says, as far as it waits for more; and then it goes on behind them,
      or ends there. */
  lemma {:induction false} ReadFrames(r: Request, frames: seq<seq<byte>>, tail: seq<byte>, clock: seq<Tick>)
    requires AllTruthful(frames) && Broken !in clock && Readies(clock) >= |frames|
    requires frames != [] ==> Fold(r, frames[..|frames| - 1]).Waiting?
    ensures var left := ClockAfter(clock, |frames|);
            && Broken !in left && Readies(left) == Readies(clock) - |frames|
            && Read(r, None, Concat(frames) + tail, clock) == Outcome(r, Fold(r, frames), tail, left)
    decreases |frames|
  {
    hide Consider, Truthful, Unrelated, Read;
    if frames == [] {
      assert Concat(frames) + tail == tail;
    } else {
      var last := |frames| - 1;
      var before, frame := frames[..last], frames[last];
      assert frames == before + [frame];
      ConcatAppend(before, [frame]);
      ConcatOne(frame);
      assert Concat(frames) + tail == Concat(before) + (frame + tail);
      if before != [] { WaitingBefore(r, before); }
      ReadFrames(r, before, frame + tail, clock);
      FoldMore(r, before, frame);
      ClockTwice(clock, last);
      ReadOne(r, Fold(r, before).collector, frame, tail, ClockAfter(clock, last));
    }
  }

  lemma WaitingBefore(r: Request, frames: seq<seq<byte>>)
    requires AllTruthful(frames) && frames != [] && Fold(r, frames).Waiting?
    ensures Fold(r, frames[..|frames| - 1]).Waiting?
  {
    hide Consider, Truthful;
  }

  // A whole reply

  /** All the fragments of a reply to a command, in order: as many as they say, each of any size. */
  ghost predicate Fragments(r: Request, kept: seq<seq<byte>>) {
    && r.messageType == COMMAND && kept != [] && AllTruthful(kept)
    && (forall i :: 0 <= i < |kept| ==> !Unrelated(r, kept[i]) && InPlace(kept, i))
    && |kept| == ParseFragment(kept[0]).value.total
  }

  /** The message they make. */
  function Joined(r: Request, kept: seq<seq<byte>>): seq<byte> {
    Header(COMMAND_DONE, Wrap32(20 + |Payloads(kept)|), r.transactionID, 1, 0) + Payloads(kept)
  }

  /** What the loop does with a fragment of a reply in several. */
  lemma ConsiderFragment(r: Request, c: Option<Fragment>, frame: seq<byte>)
    requires Truthful(frame) && !Unrelated(r, frame) && r.messageType == COMMAND
    requires ParseFragment(frame).Some? && ParseFragment(frame).value.total > 1
    ensures Consider(r, c, frame) == Collected(if c.None? then Begin(frame) else Accept(c.value, frame))
  {
    hide Collected, Begin, Accept;
  }

  /** A collector that has taken the first k of them. */
  lemma GathersSome(r: Request, kept: seq<seq<byte>>, k: nat)
    requires Fragments(r, kept) && 0 < k <= |kept|
    ensures var c := Collect(kept[..k]);
            c.Some? && AmountsTo(kept[..k], c.value) && (k < |kept| ==> Collected(c) == Waiting(c))
  {
    hide ParseFragment, Accept, Begin, Unrelated, Truthful, Collect;
    forall i | 0 <= i < k ensures InPlace(kept[..k], i) { assert InPlace(kept, i); }
    CollectMeaning(kept[..k]);
  }

  /** Every fragment but the last leaves the loop waiting with those before. */
  lemma {:induction false} Gathers(r: Request, kept: seq<seq<byte>>, k: nat)
    requires Fragments(r, kept) && |kept| > 1 && k <= |kept|
    ensures AllTruthful(kept[..k])
    ensures Fold(r, kept[..k]) == if k == 0 then Waiting(None) else Collected(Collect(kept[..k]))
  {
    hide ParseFragment, Accept, Begin, Unrelated, Truthful, Collect, Consider, Collected, Fold, AmountsTo;
    if k == 0 {
      NothingYet(r);
    } else {
      var before, frame := kept[..k - 1], kept[k - 1];
      assert before + [frame] == kept[..k];
      Gathers(r, kept, k - 1);
      if k > 1 { GathersSome(r, kept, k - 1); }
      FoldMore(r, before, frame);
      assert InPlace(kept, k - 1);
      ConsiderFragment(r, if k == 1 then None else Collect(before), frame);
      CollectMore(before, frame);
    }
  }

  lemma NothingYet(r: Request)
    ensures Fold(r, []) == Waiting(None)
  {
  }

  /** A fragment that is the only one is the message. */
  lemma OnlyFragment(r: Request, frame: seq<byte>)
    requires Truthful(frame) && !Unrelated(r, frame) && r.messageType == COMMAND
    requires ParseFragment(frame).Some? && ParseFragment(frame).value.total == 1
    ensures Consider(r, None, frame) == Message(frame) && frame == Joined(r, [frame])
  {
    BytesParsed(frame);
    var f := ParseFragment(frame).value;
    hide Get32, Header;
    assert Payloads([frame]) == [] + f.payload == f.payload;
  }

  /** The fragments fold to the message they make, and to nothing before the last. */
  lemma FoldsWhole(r: Request, kept: seq<seq<byte>>)
    requires Fragments(r, kept) && 20 + |Payloads(kept)| < U32
    ensures Fold(r, kept) == Message(Joined(r, kept))
    ensures Fold(r, kept[..|kept| - 1]).Waiting?
  {
    hide Fold, Consider, Unrelated, Truthful, ParseFragment, Header, Collect, InPlace;
    var last := |kept| - 1;
    assert kept[..|kept|] == kept;
    assert InPlace(kept, 0);
    if last == 0 {
      assert kept == [kept[0]] && kept[..0] == [];
      PlacedParses(kept, 0);
      ReadsAlone(r, kept[0]);
      OnlyFragment(r, kept[0]);
      NothingYet(r);
    } else {
      Gathers(r, kept, |kept|);
      Gathers(r, kept, last);
      GathersSome(r, kept, last);
      GathersSome(r, kept, |kept|);
      WholeOf(r, kept, Collect(kept).value);
    }
  }

  lemma PlacedParses(frames: seq<seq<byte>>, i: nat)
    requires i < |frames| && InPlace(frames, i)
    ensures ParseFragment(frames[i]).Some?
  {
    hide ParseFragment;
  }

  lemma WholeOf(r: Request, kept: seq<seq<byte>>, c: Fragment)
    requires Fragments(r, kept) && AmountsTo(kept, c) && 20 + |Payloads(kept)| < U32
    ensures Reassembled(c) == Whole(Joined(r, kept))
  {
    hide Header, Payloads, InPlace, Get32;
    Unwrapped(20 + |c.payload|);
    Unwrapped(c.total - 1);
    assert c.payload[..|c.payload|] == c.payload;
    FragmentAnswers(r, kept[0]);
  }

  lemma FragmentAnswers(r: Request, frame: seq<byte>)
    requires Truthful(frame) && !Unrelated(r, frame) && r.messageType == COMMAND && ParseFragment(frame).Some?
    ensures var f := ParseFragment(frame).value; f.messageType == COMMAND_DONE && f.transactionID == r.transactionID
  {
    hide Get32;
  }

  /** A reply that arrives in fragments comes back whole, whatever sizes they have, whatever unrelated frames
      arrive between them, whatever quiet rounds, and whatever follows: that is left to be read. */
  lemma FragmentsComeBack(r: Request, frames: seq<seq<byte>>, tail: seq<byte>, clock: seq<Tick>)
    requires AllTruthful(frames) && Fragments(r, Related(r, frames)) && !Unrelated(r, frames[|frames| - 1])
    requires 20 + |Payloads(Related(r, frames))| < U32
    requires Broken !in clock && Readies(clock) >= |frames|
    ensures Read(r, None, Concat(frames) + tail, clock)
            == Reading(Got(Joined(r, Related(r, frames))), tail, ClockAfter(clock, |frames|))
  {
    hide Read, Related, Fold, Unrelated, Payloads, Joined;
    FoldsWhole(r, Related(r, frames));
    UnrelatedAreSkipped(r, frames);
    LastOfRelated(r, frames);
    UnrelatedAreSkipped(r, frames[..|frames| - 1]);
    ReadFrames(r, frames, tail, clock);
  }

  /** A reply to a command, as it would be in one piece. */
  ghost predicate Reply(r: Request, m: seq<byte>) {
    && r.messageType == COMMAND && 20 <= |m| < U32
    && Get32(m, 0) == COMMAND_DONE && Get32(m, 4) == |m| && Get32(m, 8) == r.transactionID
    && Get32(m, 12) == 1 && Get32(m, 16) == 0
  }

  /** The frames it is sent as. */
  function FramesOf(m: seq<byte>, size: int): seq<seq<byte>> {
    if |m| <= size then [m] else if 20 < size then AllFrames(m, size) else []
  }

  /** In particular a reply that the sender cut into frames of at most size octets comes back. */
  lemma ReplyComesBack(r: Request, m: seq<byte>, size: int, frames: seq<seq<byte>>, tail: seq<byte>, clock: seq<Tick>)
    requires Reply(r, m) && 20 < size <= MAX_TRANSFER
    requires AllTruthful(frames) && Related(r, frames) == FramesOf(m, size)
    requires frames != [] ==> !Unrelated(r, frames[|frames| - 1])
    requires Broken !in clock && Readies(clock) >= |frames|
    ensures CutMessage(m, size) == Frames(FramesOf(m, size))
    ensures Read(r, None, Concat(frames) + tail, clock) == Reading(Got(m), tail, ClockAfter(clock, |frames|))
  {
    hide Read, Related, AllFrames, Unrelated, Fragments, Joined, CutMessage, Payloads, Get32;
    if |m| <= size { OneFrame(r, m, size); } else { ManyFrames(r, m, size); }
    LastOfRelated(r, frames);
    FragmentsComeBack(r, frames, tail, clock);
  }

  lemma OneFrame(r: Request, m: seq<byte>, size: int)
    requires Reply(r, m) && |m| <= size <= MAX_TRANSFER
    ensures CutMessage(m, size) == Frames([m]) && Fragments(r, [m])
    ensures 20 + |Payloads([m])| < U32 && Joined(r, [m]) == m
  {
    Unwrapped(|m|);
    hide Get32;
    OnlyFragment(r, m);
  }

  lemma ManyFrames(r: Request, m: seq<byte>, size: int)
    requires Reply(r, m) && 20 < size <= MAX_TRANSFER && size < |m|
    ensures CutMessage(m, size) == Frames(AllFrames(m, size)) && Fragments(r, AllFrames(m, size))
    ensures 20 + |Payloads(AllFrames(m, size))| < U32 && Joined(r, AllFrames(m, size)) == m
  {
    hide Get32, AllFrames, Collect, Payloads, Header, Unrelated, Truthful, PieceCount, Piece, Held, ParseFragment;
    var frames := AllFrames(m, size);
    FramesFit(m, size);
    forall i | 0 <= i < |frames| ensures Truthful(frames[i]) && !Unrelated(r, frames[i]) && InPlace(frames, i) {
      FrameIsRelated(r, m, size, i);
    }
    CollectsFrames(m, size, |frames|);
    assert frames[..|frames|] == frames;
    CollectMeaning(frames);
    HeldIsAll(m, size);
    HeaderOf(m);
    Unwrapped(|m|);
  }

  lemma HeldIsAll(m: seq<byte>, size: int)
    requires Cuttable(m, size)
    ensures 0 < |AllFrames(m, size)| && Held(m, size, |AllFrames(m, size)|).payload == m[20..]
  {
    var payload, n := m[20..], |AllFrames(m, size)|;
    FramesFit(m, size);
    StartNext(|payload|, size - 20, n);
    hide Get32, PieceCount, Start, AllFrames;
    assert payload[..|payload|] == payload;
  }

  /** A fragment of the reply is a frame to read and related to the request. */
  lemma FrameIsRelated(r: Request, m: seq<byte>, size: int, i: nat)
    requires Reply(r, m) && 20 < size <= MAX_TRANSFER && size < |m| && i < |AllFrames(m, size)|
    ensures Truthful(AllFrames(m, size)[i]) && !Unrelated(r, AllFrames(m, size)[i])
  {
    hide Get32, PieceCount, Piece, Wrap32, AllFrames;
    FramesFit(m, size);
    Unwrapped(|AllFrames(m, size)[i]|);
  }

  lemma LastOfRelated(r: Request, frames: seq<seq<byte>>)
    requires AllTruthful(frames) && Related(r, frames) != []
    requires frames != [] ==> !Unrelated(r, frames[|frames| - 1])
    ensures frames != []
    ensures var kept := Related(r, frames); Related(r, frames[..|frames| - 1]) == kept[..|kept| - 1]
  {
    hide Unrelated;
  }

  /** A modem's answer to a command, as the standard lays it out. */
  function DoneBytes(transactionID: u32, service: seq<byte>, id: u32, status: u32, data: seq<byte>): (m: seq<byte>)
    requires |service| == 16
    ensures |m| == 48 + |data|
  {
    Header(COMMAND_DONE, Wrap32(48 + |data|), transactionID, 1, 0)
    + (service + Le32(id) + Le32(status) + Le32(Wrap32(|data|)) + data)
  }

  /** It is a reply, and decoding it gives the information buffer exactly when the status is zero, and the
      status otherwise. */
  lemma DecodeDone(r: Request, service: seq<byte>, id: u32, status: u32, data: seq<byte>)
    requires r.messageType == COMMAND && |service| == 16 && 48 + |data| < U32
    ensures var m := DoneBytes(r.transactionID, service, id, status, data);
            Reply(r, m) && Decode(m) == if status == 0 then Answer(data) else Status(status)
  {
    hide Get32, Le32, Header;
    var m := DoneBytes(r.transactionID, service, id, status, data);
    var body := service + Le32(id) + Le32(status) + Le32(|data|) + data;
    var h := Header(COMMAND_DONE, 48 + |data|, r.transactionID, 1, 0);
    Unwrapped(48 + |data|);
    Unwrapped(|data|);
    HeaderFields(COMMAND_DONE, 48 + |data|, r.transactionID, 1, 0, body);
    assert m == (h + service + Le32(id)) + Le32(status) + (Le32(|data|) + data);
    Read32(h + service + Le32(id), status, Le32(|data|) + data);
    assert m == (h + service + Le32(id) + Le32(status)) + Le32(|data|) + data;
    Read32(h + service + Le32(id) + Le32(status), |data|, data);
    assert m[48..48 + |data|] == data;
  }

  /** The host's own commands can always be sent: the frames reassemble to the message. */
  lemma CommandIsCuttable(r: Request, c: Command)
    requires r.messageType == COMMAND && c.total == 1 && c.current == 0 && |c.service| == 16 && |c.data| + 48 < U32
    ensures var m := RequestBytes(r, CommandBytes(c));
            && CutMessage(m, MAX_TRANSFER).Frames?
            && (if |m| <= MAX_TRANSFER then CutMessage(m, MAX_TRANSFER).frames == [m]
                else var held := Collect(CutMessage(m, MAX_TRANSFER).frames);
                  held.Some? && Reassembled(held.value) == Whole(m))
  {
    hide Get32, Le32, AllFrames, Collect, Reassembled;
    var m, command := RequestBytes(r, CommandBytes(c)), CommandBytes(c);
    Unwrapped(12 + |command|);
    var body := c.service + Le32(c.id) + Le32(c.kind) + Le32(Wrap32(|c.data|)) + c.data;
    assert m == Header(COMMAND, |m|, r.transactionID, 1, 0) + body;
    HeaderFields(COMMAND, |m|, r.transactionID, 1, 0, body);
    if |m| > MAX_TRANSFER { CutAndCollect(m, MAX_TRANSFER); }
  }

  /** A message of one word behind the header, as a status or a protocol error comes. */
  function ShortBytes(messageType: u32, transactionID: u32, code: u32): (m: seq<byte>)
    ensures |m| == 16
  {
    Le32(messageType) + Le32(16) + Le32(transactionID) + Le32(code)
  }

  lemma ShortFields(messageType: u32, transactionID: u32, code: u32)
    ensures var m := ShortBytes(messageType, transactionID, code);
            Get32(m, 0) == messageType && Get32(m, 4) == 16 && Get32(m, 8) == transactionID && Get32(m, 12) == code
  {
    hide Get32, Le32;
    var m := ShortBytes(messageType, transactionID, code);
    var a, b, c, d := Le32(messageType), Le32(16), Le32(transactionID), Le32(code);
    assert m == [] + a + (b + c + d) == a + b + (c + d) == (a + b) + c + d == (a + b + c) + d + [];
    Read32([], messageType, b + c + d);
    Read32(a, 16, c + d);
    Read32(a + b, transactionID, d);
    Read32(a + b + c, code, []);
  }

  /** The other answers come back too: opening and closing are answered by a status, anything by a protocol
      error, and the code decides what they decode to. */
  lemma ShortReplyComesBack(r: Request, messageType: u32, code: u32, frames: seq<seq<byte>>, tail: seq<byte>,
      clock: seq<Tick>)
    requires || (messageType == FUNCTION_ERROR && r.messageType in {OPEN, CLOSE, COMMAND})
             || (messageType == OPEN_DONE && r.messageType == OPEN)
             || (messageType == CLOSE_DONE && r.messageType == CLOSE)
    requires AllTruthful(frames) && Related(r, frames) == [ShortBytes(messageType, r.transactionID, code)]
    requires frames != [] ==> !Unrelated(r, frames[|frames| - 1])
    requires Broken !in clock && Readies(clock) >= |frames|
    ensures var m := ShortBytes(messageType, r.transactionID, code);
            && Read(r, None, Concat(frames) + tail, clock) == Reading(Got(m), tail, ClockAfter(clock, |frames|))
            && Decode(m) == (if messageType == FUNCTION_ERROR then ProtocolError(code)
                             else if code == 0 then Answer([]) else Status(code))
  {
    hide Read, Related, ShortBytes, Get32, Unrelated;
    var m := ShortBytes(messageType, r.transactionID, code);
    ShortFields(messageType, r.transactionID, code);
    ReadsAlone(r, m);
    NothingYet(r);
    UnrelatedAreSkipped(r, frames);
    LastOfRelated(r, frames);
    var none: seq<seq<byte>> := [m][..0];
    assert none == [];
    UnrelatedAreSkipped(r, frames[..|frames| - 1]);
    ReadFrames(r, frames, tail, clock);
  }

  lemma ReadsAlone(r: Request, frame: seq<byte>)
    requires Truthful(frame)
    ensures AllTruthful([frame]) && Fold(r, [frame]) == Consider(r, None, frame)
  {
    hide Consider, Truthful;
    FoldMore(r, [], frame);
    assert [] + [frame] == [frame];
  }
}
