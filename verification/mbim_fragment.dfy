/** driver/mbim/fragment.go: cutting an MBIM message into fragments and putting fragments together
    (section 9 of USB-IF MBIM 1.0). */
module MbimFragment {
  import opened Bytes
  import opened Chunks

  const COMMAND: u32 := 0x0000_0003
  const COMMAND_DONE: u32 := 0x8000_0003
  const INDICATE_STATUS: u32 := 0x8000_0007

  /** isFragmentMessage (fragment.go:9-13) */
  predicate Fragmentable(messageType: u32) {
    messageType == COMMAND || messageType == COMMAND_DONE || messageType == INDICATE_STATUS
  }

  /** A fragment; also what a collector holds, its payload being that of the fragments so far. */
  datatype Fragment = Fragment(messageType: u32, transactionID: u32, total: u32, current: u32, payload: seq<byte>)

  // One fragment

  /** The five words of a fragment message's header. */
  function Header(messageType: u32, length: u32, transactionID: u32, total: u32, current: u32): (h: seq<byte>)
    ensures |h| == 20
  {
    Le32(messageType) + Le32(length) + Le32(transactionID) + Le32(total) + Le32(current)
  }

  function FragmentBytes(f: Fragment): (s: seq<byte>)
    ensures |s| == 20 + |f.payload|
  {
    Header(f.messageType, Wrap32(20 + |f.payload|), f.transactionID, f.total, f.current) + f.payload
  }

  /** fragment.UnmarshalBinary (fragment.go:137-166) */
  function ParseFragment(frame: seq<byte>): (f: Option<Fragment>)
    ensures f.Some? ==> f.value.current < f.value.total && Fragmentable(f.value.messageType)
  {
    if |frame| < 20 || !Fragmentable(Get32(frame, 0)) || Get32(frame, 4) != Wrap32(|frame|) then None
    else
      var total, current := Get32(frame, 12), Get32(frame, 16);
      if total == 0 || current >= total then None
      else Some(Fragment(Get32(frame, 0), Get32(frame, 8), total, current, frame[20..]))
  }

  lemma HeaderFields(a: u32, b: u32, c: u32, d: u32, e: u32, payload: seq<byte>)
    ensures var s := Header(a, b, c, d, e) + payload;
            && Get32(s, 0) == a && Get32(s, 4) == b && Get32(s, 8) == c && Get32(s, 12) == d && Get32(s, 16) == e
            && s[20..] == payload
  {
    hide Le32, Get32;
    var s, tail := Header(a, b, c, d, e) + payload, Le32(e) + payload;
    assert s == [] + Le32(a) + (Le32(b) + Le32(c) + Le32(d) + tail);
    Read32([], a, Le32(b) + Le32(c) + Le32(d) + tail);
    assert s == Le32(a) + Le32(b) + (Le32(c) + Le32(d) + tail);
    Read32(Le32(a), b, Le32(c) + Le32(d) + tail);
    assert s == (Le32(a) + Le32(b)) + Le32(c) + (Le32(d) + tail);
    Read32(Le32(a) + Le32(b), c, Le32(d) + tail);
    assert s == (Le32(a) + Le32(b) + Le32(c)) + Le32(d) + tail;
    Read32(Le32(a) + Le32(b) + Le32(c), d, tail);
    assert s == (Le32(a) + Le32(b) + Le32(c) + Le32(d)) + Le32(e) + payload;
    Read32(Le32(a) + Le32(b) + Le32(c) + Le32(d), e, payload);
  }

  lemma HeaderOf(s: seq<byte>)
    requires |s| >= 20
    ensures s == Header(Get32(s, 0), Get32(s, 4), Get32(s, 8), Get32(s, 12), Get32(s, 16)) + s[20..]
  {
    Field32(s, 0, Get32(s, 0));
    Field32(s, 4, Get32(s, 4));
    Field32(s, 8, Get32(s, 8));
    Field32(s, 12, Get32(s, 12));
    Field32(s, 16, Get32(s, 16));
    hide Le32, Get32;
    assert s == s[0..4] + s[4..8] + s[8..12] + s[12..16] + s[16..20] + s[20..];
  }

  /** A fragment reads back exactly when its type may be fragmented and its number is below its total. */
  lemma ParseBytes(f: Fragment)
    ensures ParseFragment(FragmentBytes(f)) == Some(f) <==> Fragmentable(f.messageType) && f.current < f.total
    ensures !(Fragmentable(f.messageType) && f.current < f.total) ==> ParseFragment(FragmentBytes(f)) == None
  {
    hide Header, Get32;
    HeaderFields(f.messageType, Wrap32(20 + |f.payload|), f.transactionID, f.total, f.current, f.payload);
  }

  /** Only its own octets read back as a fragment. */
  lemma BytesParsed(frame: seq<byte>)
    requires ParseFragment(frame).Some?
    ensures FragmentBytes(ParseFragment(frame).value) == frame
  {
    hide Header, Get32;
    HeaderOf(frame);
  }

  /** Writing the header into a fresh buffer and copying the payload behind it, as at fragment.go:50-56
      and 119-125; a buffer shorter than payload and header takes what fits. */
  method FillFrame(messageType: u32, length: nat, transactionID: u32, total: u32, current: u32, payload: seq<byte>)
    returns (frame: seq<byte>)
    requires 20 <= length <= 20 + |payload|
    ensures frame == Header(messageType, Wrap32(length), transactionID, total, current) + payload[..length - 20]
  {
    hide Le32;
    var buf := new byte[length];
    PutUint32(buf, 0, messageType);
    assert buf[..4] == Le32(messageType);
    PutUint32(buf, 4, Wrap32(length));
    assert buf[..8] == buf[..4] + buf[4..8];
    PutUint32(buf, 8, transactionID);
    assert buf[..12] == buf[..8] + buf[8..12];
    PutUint32(buf, 12, total);
    assert buf[..16] == buf[..12] + buf[12..16];
    PutUint32(buf, 16, current);
    assert buf[..20] == buf[..16] + buf[16..20];
    assert buf[..20] == Header(messageType, Wrap32(length), transactionID, total, current);
    for i := 20 to length
      invariant buf[..20] == Header(messageType, Wrap32(length), transactionID, total, current)
      invariant buf[20..i] == payload[..i - 20]
    {
      ghost var done := buf[20..i];
      buf[i] := payload[i - 20];
      assert buf[20..i] == done && buf[20..i + 1] == done + [payload[i - 20]];
      assert payload[..i + 1 - 20] == payload[..i - 20] + [payload[i - 20]];
    }
    frame := buf[..];
    assert frame == buf[..20] + buf[20..length];
  }

  /** binary.LittleEndian.PutUint32(buf[at:at+4], n) */
  method PutUint32(buf: array<byte>, at: nat, n: u32)
    requires at + 4 <= buf.Length
    modifies buf
    ensures buf[at..at + 4] == Le32(n)
    ensures buf[..at] == old(buf[..at]) && buf[at + 4..] == old(buf[at + 4..])
  {
    var le := Le32(n);
    buf[at], buf[at + 1], buf[at + 2], buf[at + 3] := le[0], le[1], le[2], le[3];
  }

  // Cutting

  datatype Cut = Frames(frames: seq<seq<byte>>) | TooShort | NotFragmentable | WrongLength | FrameTooSmall

  /** Frame number i of a message cut into frames of size octets. */
  function FrameAt(data: seq<byte>, size: nat, i: nat): (frame: seq<byte>)
    requires |data| >= 20 && size > 20
  {
    var payload := data[20..];
    FragmentBytes(Fragment(Get32(data, 0), Get32(data, 8), Wrap32(PieceCount(|payload|, size - 20)), Wrap32(i),
                           Piece(payload, size - 20, i)))
  }

  function AllFrames(data: seq<byte>, size: nat): (frames: seq<seq<byte>>)
    requires |data| >= 20 && size > 20
    ensures |frames| == PieceCount(|data| - 20, size - 20)
  {
    seq(PieceCount(|data| - 20, size - 20),
      i requires 0 <= i < PieceCount(|data| - 20, size - 20) => FrameAt(data, size, i))
  }

  /** fragmentedMessage.Frames (fragment.go:20-61) */
  function CutMessage(data: seq<byte>, maxFrameSize: int): Cut {
    if |data| <= maxFrameSize then Frames([data])
    else if |data| < 20 then TooShort
    else if !Fragmentable(Get32(data, 0)) then NotFragmentable
    else if Get32(data, 4) != Wrap32(|data|) then WrongLength
    else if maxFrameSize <= 20 then FrameTooSmall
    else Frames(AllFrames(data, maxFrameSize))
  }

  method CutIntoFrames(data: seq<byte>, maxFrameSize: int) returns (cut: Cut)
    ensures cut == CutMessage(data, maxFrameSize)
  {
    if |data| <= maxFrameSize { return Frames([data]); }
    if |data| < 20 { return TooShort; }
    var messageType := Get32(data, 0);
    if !Fragmentable(messageType) { return NotFragmentable; }
    if Get32(data, 4) != Wrap32(|data|) { return WrongLength; }
    if maxFrameSize <= 20 { return FrameTooSmall; }
    var frames := FillFrames(data, maxFrameSize);
    return Frames(frames);
  }

  /** The loop over the payload (fragment.go:38-60). */
  method FillFrames(data: seq<byte>, maxFrameSize: nat) returns (frames: seq<seq<byte>>)
    requires 20 < maxFrameSize < |data|
    ensures frames == AllFrames(data, maxFrameSize)
  {
    hide Get32, Header, PieceCount, Start, Wrap32, FrameAt, AllFrames;
    var messageType, transactionID := Get32(data, 0), Get32(data, 8);
    var payload := data[20..];
    var maxPayloadSize := maxFrameSize - 20;
    CountRoundsUp(|payload|, maxPayloadSize);
    var total := (|payload| + maxPayloadSize - 1) / maxPayloadSize;
    if total == 0 { total := 1; }
    ghost var all := AllFrames(data, maxFrameSize);
    frames := [];
    var current, offset := 0, 0;
    StartNext(|payload|, maxPayloadSize, 0);
    while offset < |payload|
      invariant 0 <= current <= |all| && offset == Start(|payload|, maxPayloadSize, current)
      invariant frames == all[..current]
      decreases |payload| - offset
    {
      StartNext(|payload|, maxPayloadSize, current);
      var end := Min(offset + maxPayloadSize, |payload|);
      var piece := payload[offset..end];
      var frame := FillFrame(messageType, 20 + |piece|, transactionID, Wrap32(total), Wrap32(current), piece);
      FrameFilled(data, maxFrameSize, current, payload, offset, end);
      frames := frames + [frame];
      offset := end;
      current := current + 1;
    }
    StartNext(|payload|, maxPayloadSize, current);
    assert all[..|all|] == all;
  }

  lemma FrameFilled(data: seq<byte>, size: nat, i: nat, payload: seq<byte>, at: nat, end: nat)
    requires |data| >= 20 && size > 20 && i < |AllFrames(data, size)| && payload == data[20..]
    requires at == Start(|payload|, size - 20, i) && end == Min(at + size - 20, |payload|)
    ensures var piece, frames := payload[at..end], AllFrames(data, size);
            && frames[i] == Header(Get32(data, 0), Wrap32(20 + |piece|), Get32(data, 8), Wrap32(|frames|), Wrap32(i))
               + piece
            && piece[..|piece|] == piece && frames[..i + 1] == frames[..i] + [frames[i]]
  {
    hide Get32, Header, PieceCount, Start, Wrap32;
    assert payload[at..end] == Piece(payload, size - 20, i);
  }

  // Putting together

  /** newFragmentCollector (fragment.go:71-86) */
  function Begin(frame: seq<byte>): (c: Option<Fragment>) {
    var f := ParseFragment(frame);
    if f.Some? && f.value.current == 0 then f else None
  }

  /** add (fragment.go:88-108) */
  function Accept(c: Fragment, frame: seq<byte>): (next: Option<Fragment>)
  {
    var parsed := ParseFragment(frame);
    if parsed.None? then None
    else
      var f := parsed.value;
      if f.messageType != c.messageType || f.transactionID != c.transactionID
         || f.current != Wrap32(c.current + 1) || f.total != c.total then None
      else Some(c.(current := f.current, payload := c.payload + f.payload))
  }

  /** complete (fragment.go:110-112) */
  predicate Complete(c: Fragment) { c.current == Wrap32(c.total - 1) }

  /** What MarshalBinary gives; it panics when a wrapped length leaves no room for the header. */
  datatype Whole = Whole(message: seq<byte>) | Incomplete | Panic

  /** MarshalBinary (fragment.go:114-127) */
  function Reassembled(c: Fragment): (w: Whole)
    ensures w.Whole? ==> 20 <= |w.message| < U32
  {
    if !Complete(c) then Incomplete
    else
      var length := Wrap32(20 + |c.payload|);
      if length < 20 then Panic
      else Whole(Header(c.messageType, length, c.transactionID, 1, 0) + c.payload[..length - 20])
  }

  class FragmentCollector {
    var messageType: u32
    var transactionID: u32
    var total: u32
    var current: u32
    var payload: seq<byte>

    function State(): Fragment reads this {
      Fragment(messageType, transactionID, total, current, payload)
    }

    constructor (f: Fragment)
      ensures State() == f
    {
      messageType, transactionID, total, current, payload :=
        f.messageType, f.transactionID, f.total, f.current, f.payload;
    }

    /** add (fragment.go:88-108); a frame that does not fit leaves the collector as it was. */
    method Add(frame: seq<byte>) returns (ok: bool)
      modifies this
      ensures ok <==> Accept(old(State()), frame).Some?
      ensures State() == if ok then Accept(old(State()), frame).value else old(State())
    {
      var parsed := ParseFragment(frame);
      if parsed.None? { return false; }
      var f := parsed.value;
      if f.messageType != messageType { return false; }
      if f.transactionID != transactionID { return false; }
      if f.current != Wrap32(current + 1) { return false; }
      if f.total != total { return false; }
      current := f.current;
      payload := payload + f.payload;
      return true;
    }

    method IsComplete() returns (complete: bool)
      ensures complete <==> Complete(State())
    {
      complete := current == Wrap32(total - 1);
    }

    method MarshalBinary() returns (w: Whole)
      ensures w == Reassembled(State())
    {
      var complete := IsComplete();
      if !complete { return Incomplete; }
      var length := Wrap32(20 + |payload|);
      if length < 20 { return Panic; }
      var buf := FillFrame(messageType, length, transactionID, 1, 0, payload);
      return Whole(buf);
    }
  }

  /** newFragmentCollector (fragment.go:71-86); null where it reports an error. */
  method NewFragmentCollector(frame: seq<byte>) returns (c: FragmentCollector?)
    ensures c != null <==> Begin(frame).Some?
    ensures c != null ==> fresh(c) && c.State() == Begin(frame).value
  {
    var f := ParseFragment(frame);
    if f.None? || f.value.current != 0 { return null; }
    c := new FragmentCollector(f.value);
  }

  // The laws

  /** A collector fed frames one after another. */
  function Collect(frames: seq<seq<byte>>): (c: Option<Fragment>)
  {
    if frames == [] then None
    else if |frames| == 1 then Begin(frames[0])
    else
      var last := |frames| - 1;
      var c := Collect(frames[..last]);
      if c.None? then None else Accept(c.value, frames[last])
  }

  /** The payloads of frames that all parse, in order. */
  function Payloads(frames: seq<seq<byte>>): seq<byte> {
    if frames == [] then []
    else
      var last := |frames| - 1;
      var f := ParseFragment(frames[last]);
      Payloads(frames[..last]) + if f.Some? then f.value.payload else []
  }

  /** Frame i carries number i of the message that the first frame starts. */
  predicate InPlace(frames: seq<seq<byte>>, i: nat)
    requires i < |frames|
  {
    var f, first := ParseFragment(frames[i]), ParseFragment(frames[0]);
    && f.Some? && first.Some? && f.value.current == i && f.value.total == first.value.total
    && f.value.messageType == first.value.messageType && f.value.transactionID == first.value.transactionID
  }

  /** What accepted frames amount to: the number of the last one, below the total, and all the payloads. */
  predicate AmountsTo(frames: seq<seq<byte>>, c: Fragment) {
    && frames != []
    && var first := ParseFragment(frames[0]);
       && first.Some? && c.messageType == first.value.messageType && c.transactionID == first.value.transactionID
       && c.total == first.value.total && c.payload == Payloads(frames)
       && c.current == |frames| - 1 && c.current < c.total
  }

  /** A collector accepts frames exactly when each is in its place, and holds what they amount to; it is
      complete exactly when they are as many as the total says. */
  lemma {:induction false} CollectMeaning(frames: seq<seq<byte>>)
    requires frames != []
    ensures Collect(frames).Some? <==> forall i :: 0 <= i < |frames| ==> InPlace(frames, i)
    ensures Collect(frames).Some? ==>
              && AmountsTo(frames, Collect(frames).value)
              && (Complete(Collect(frames).value) <==> |frames| == Collect(frames).value.total)
  {
    hide ParseFragment;
    var last := |frames| - 1;
    var before := frames[..last];
    if last > 0 {
      hide InPlace, AmountsTo;
      CollectMeaning(before);
      CollectStep(frames, last);
      PlacesBefore(frames, last);
      CompleteAt(frames);
    } else {
      assert before == [] && Payloads(before) == [];
      assert InPlace(frames, 0) <==> Begin(frames[0]).Some?;
    }
  }

  lemma CompleteAt(frames: seq<seq<byte>>)
    ensures forall c :: AmountsTo(frames, c) ==> (Complete(c) <==> |frames| == c.total)
  {
  }

  lemma PlacesBefore(frames: seq<seq<byte>>, last: nat)
    requires 0 < last == |frames| - 1
    ensures (forall i :: 0 <= i < last ==> InPlace(frames[..last], i))
        <==> (forall i :: 0 <= i < last ==> InPlace(frames, i))
  {
    hide ParseFragment;
    var before := frames[..last];
    assert before[0] == frames[0];
    assert forall i :: 0 <= i < last ==> before[i] == frames[i] && (InPlace(before, i) <==> InPlace(frames, i));
  }

  /** One more frame, for a collector that has accepted those before. */
  lemma CollectStep(frames: seq<seq<byte>>, last: nat)
    requires 0 < last == |frames| - 1
    requires Collect(frames[..last]).Some? ==> AmountsTo(frames[..last], Collect(frames[..last]).value)
    ensures Collect(frames).Some? <==> Collect(frames[..last]).Some? && InPlace(frames, last)
    ensures Collect(frames).Some? ==> AmountsTo(frames, Collect(frames).value)
  {
    hide ParseFragment;
    assert frames[..last][0] == frames[0];
    var c, f := Collect(frames[..last]), ParseFragment(frames[last]);
    if c.Some? && f.Some? { NextNumber(c.value); }
  }

  lemma NextNumber(c: Fragment)
    ensures c.current < c.total ==> Wrap32(c.current + 1) == c.current + 1
  {
  }

  /** A message that Frames cuts up; which fragment its own header says it is does not matter. */
  ghost predicate Cuttable(data: seq<byte>, size: int) {
    && 20 < size < |data| < U32 && Fragmentable(Get32(data, 0)) && Get32(data, 4) == |data|
  }

  /** What a collector holds after the first k frames of a message. */
  function Held(data: seq<byte>, size: nat, k: nat): Fragment
    requires |data| >= 20 && size > 20 && 0 < k
  {
    var payload := data[20..];
    Fragment(Get32(data, 0), Get32(data, 8), Wrap32(PieceCount(|payload|, size - 20)), Wrap32(k - 1),
             payload[..Start(|payload|, size - 20, k)])
  }

  /** Every frame of a cut message is at most the given size, and is a fragment in its place. */
  lemma FramesFit(data: seq<byte>, size: int)
    requires Cuttable(data, size)
    ensures var frames := AllFrames(data, size);
            && CutMessage(data, size) == Frames(frames) && 1 < |frames| < U32
            && forall i :: 0 <= i < |frames| ==>
                 && |frames[i]| <= size
                 && ParseFragment(frames[i]) == Some(Fragment(Get32(data, 0), Get32(data, 8), |frames|, i,
                                                              Piece(data[20..], size - 20, i)))
  {
    hide ParseFragment, FragmentBytes, Fragmentable, Get32, PieceCount, Piece;
    var frames, payload := AllFrames(data, size), data[20..];
    PieceCountBounds(|payload|, size - 20);
    forall i | 0 <= i < |frames|
      ensures |frames[i]| <= size
      ensures ParseFragment(frames[i]) == Some(Fragment(Get32(data, 0), Get32(data, 8), |frames|, i,
          Piece(payload, size - 20, i)))
    {
      ParseBytes(Fragment(Get32(data, 0), Get32(data, 8), |frames|, i, Piece(payload, size - 20, i)));
    }
  }

  lemma PieceCountBounds(len: nat, size: nat)
    requires 0 < size < len
    ensures 1 < PieceCount(len, size) <= len
  {
    Multiples(len, size, 1);
    hide PieceCount;
    if PieceCount(len, size) > len { Multiples(len, size, len); Scaled(1, size, len); }
  }

  /** After k frames the collector holds the first k pieces, and is complete after the last, not before. */
  lemma {:induction false} CollectsFrames(data: seq<byte>, size: int, k: nat)
    requires Cuttable(data, size) && 0 < k <= |AllFrames(data, size)|
    ensures Collect(AllFrames(data, size)[..k]) == Some(Held(data, size, k))
    ensures Complete(Held(data, size, k)) <==> k == |AllFrames(data, size)|
  {
    hide ParseFragment, Get32, PieceCount, Start, Piece, Fragmentable, Held, AllFrames, Complete, Accept;
    var frames := AllFrames(data, size);
    FramesFit(data, size);
    HeldComplete(data, size, k);
    if k == 1 {
      HeldFirst(data, size);
      assert frames[..1] == [frames[0]];
    } else {
      CollectsFrames(data, size, k - 1);
      HeldNext(data, size, k - 1);
      assert frames[..k][..k - 1] == frames[..k - 1];
    }
  }

  lemma HeldComplete(data: seq<byte>, size: int, k: nat)
    requires Cuttable(data, size) && 0 < k <= |AllFrames(data, size)|
    ensures Complete(Held(data, size, k)) <==> k == |AllFrames(data, size)|
  {
    hide PieceCount, Start, Get32, Wrap32, Piece, ParseFragment;
    FramesFit(data, size);
    Unwrapped(k - 1);
    Unwrapped(|AllFrames(data, size)|);
    Unwrapped(|AllFrames(data, size)| - 1);
  }

  lemma Unwrapped(n: int)
    requires 0 <= n < U32
    ensures Wrap32(n) == n
  {
  }

  lemma HeldFirst(data: seq<byte>, size: int)
    requires Cuttable(data, size)
    ensures 1 < |AllFrames(data, size)| && Begin(AllFrames(data, size)[0]) == Some(Held(data, size, 1))
  {
    hide ParseFragment, Get32, PieceCount, Start, Piece, Fragmentable;
    FramesFit(data, size);
    StartNext(|data[20..]|, size - 20, 0);
    PrefixGrows(data[20..], size - 20, 0);
    assert [] + Piece(data[20..], size - 20, 0) == Piece(data[20..], size - 20, 0);
  }

  lemma HeldNext(data: seq<byte>, size: int, k: nat)
    requires Cuttable(data, size) && 0 < k < |AllFrames(data, size)|
    ensures Accept(Held(data, size, k), AllFrames(data, size)[k]) == Some(Held(data, size, k + 1))
  {
    hide ParseFragment, Get32, PieceCount, Start, Piece, Fragmentable, Wrap32, AllFrames;
    FramesFit(data, size);
    Unwrapped(k - 1);
    Unwrapped(k);
    Unwrapped(|AllFrames(data, size)|);
    PrefixGrows(data[20..], size - 20, k);
  }

  /** Cutting and putting together gives the message back, byte for byte, exactly when its own header says
      fragment 0 of 1; whatever it says, only those two words change. */
  lemma CutAndCollect(data: seq<byte>, size: int)
    requires Cuttable(data, size)
    ensures var c := Collect(AllFrames(data, size));
            && c.Some?
            && Reassembled(c.value) == Whole(data[..12] + Le32(1) + Le32(0) + data[20..])
            && (Reassembled(c.value) == Whole(data) <==> Get32(data, 12) == 1 && Get32(data, 16) == 0)
  {
    hide Get32, Le32, PieceCount, Start, Fragmentable, AllFrames, Collect, Held;
    var frames := AllFrames(data, size);
    FramesFit(data, size);
    CollectsFrames(data, size, |frames|);
    assert frames[..|frames|] == frames;
    HeldAll(data, size);
    Renumbered(data);
  }

  lemma HeldAll(data: seq<byte>, size: int)
    requires Cuttable(data, size)
    ensures 0 < |AllFrames(data, size)|
    ensures Reassembled(Held(data, size, |AllFrames(data, size)|))
            == Whole(Header(Get32(data, 0), Get32(data, 4), Get32(data, 8), 1, 0) + data[20..])
  {
    var payload, k := data[20..], |AllFrames(data, size)|;
    FramesFit(data, size);
    HeldComplete(data, size, k);
    StartNext(|payload|, size - 20, k);
    hide Get32, PieceCount, Start, Fragmentable, AllFrames, Header, Complete;
    assert payload[..|payload|] == payload;
  }

  /** The words 0 of 1 in place of the message's own. */
  lemma Renumbered(data: seq<byte>)
    requires |data| >= 20
    ensures var s := Header(Get32(data, 0), Get32(data, 4), Get32(data, 8), 1, 0) + data[20..];
            && s == data[..12] + Le32(1) + Le32(0) + data[20..]
            && (s == data <==> Get32(data, 12) == 1 && Get32(data, 16) == 0)
  {
    HeaderOf(data);
    Field32(data, 12, 1);
    Field32(data, 16, 0);
    hide Get32, Le32;
    var a, s := data[..12], data[..12] + Le32(1) + Le32(0) + data[20..];
    assert a == Le32(Get32(data, 0)) + Le32(Get32(data, 4)) + Le32(Get32(data, 8));
    assert s[12..16] == Le32(1) && s[16..20] == Le32(0) && data == a + data[12..16] + data[16..20] + data[20..];
  }
}
