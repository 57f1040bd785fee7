/** v2/bpp.go: cutting a Bound Profile Package into segments (section 2.5.5 of SGP.22 v2.5). */
module BoundProfilePackage {
  import opened Bytes
  import opened Tags
  import opened Lengths
  import opened BerTlv
  import TlvIO

  /** bertlv.Constructed.ContextSpecific(n) */
  function ContextTag(n: nat): Tag
    requires n < 128
  {
    NewTag(2, 1, n)
  }

  /** TLV.First (tlv_selector.go:13-20) over the children */
  function First(ts: seq<Tlv>, tag: Tag): (t: Tlv)
    ensures t.Node? ==> t.tag == tag && t in ts
    ensures t.Nil? ==> forall c :: c in ts && c.Node? ==> c.tag != tag
  {
    if ts == [] then Nil
    else if ts[0].Node? && ts[0].tag == tag then ts[0]
    else
      assert forall c :: c in ts ==> c == ts[0] || c in ts[1..];
      First(ts[1..], tag)
  }

  /** ValidBoundProfilePackage (bpp.go:73-99) */
  predicate Valid(bpp: Tlv) {
    && bpp.Node? && bpp.tag == ContextTag(54)
    && First(bpp.children, ContextTag(35)).Node?
    && First(bpp.children, ContextTag(0)).Node?
    && First(bpp.children, ContextTag(1)).Node?
    && First(bpp.children, ContextTag(3)).Node?
  }

  predicate NoNil(ts: seq<Tlv>) { forall t :: t in ts ==> t.Node? }

  /** marshalHeader (bpp.go:16-36) does not panic: it measures every child, nil or not. */
  predicate HeaderReady(t: Tlv) {
    t.Node? && NoNil(t.children) && MeasurableAll(t.children) && SizeAll(t.children) < U24
  }

  function HeaderOf(t: Tlv): seq<byte>
    requires t.Node? && SizeAll(t.children) < U24
  {
    t.tag + LengthOctets(SizeAll(t.children))
  }

  /** Nothing panics while a valid package is being cut. */
  predicate Ready(bpp: Tlv)
    requires Valid(bpp)
  {
    && HeaderReady(bpp)
    && Writable(First(bpp.children, ContextTag(35)))
    && Writable(First(bpp.children, ContextTag(0)))
    && Writable(First(bpp.children, ContextTag(2)))
    && (var t := First(bpp.children, ContextTag(1)); HeaderReady(t) && WritableAll(t.children))
    && (var t := First(bpp.children, ContextTag(3)); HeaderReady(t) && WritableAll(t.children))
  }

  /** One segment a child. */
  function Prints(ts: seq<Tlv>): (ss: seq<seq<byte>>)
    requires WritableAll(ts)
    ensures |ss| == |ts|
  {
    if ts == [] then [] else [Print(ts[0])] + Prints(ts[1..])
  }

  /** The header, then each child. */
  function Spread(t: Tlv): seq<seq<byte>>
    requires t.Node? && SizeAll(t.children) < U24 && WritableAll(t.children)
  {
    [HeaderOf(t)] + Prints(t.children)
  }

  /** The segment of a part that may be missing. */
  function Optional(t: Tlv): (ss: seq<seq<byte>>)
    requires Writable(t)
    ensures Concat(ss) == Print(t)
  {
    if t.Node? then [Print(t)] else []
  }

  function Segments(bpp: Tlv): seq<seq<byte>>
    requires Valid(bpp) && Ready(bpp)
  {
    var second := First(bpp.children, ContextTag(2));
    [HeaderOf(bpp) + Print(First(bpp.children, ContextTag(35)))]
    + [Print(First(bpp.children, ContextTag(0)))]
    + Spread(First(bpp.children, ContextTag(1)))
    + Optional(second)
    + Spread(First(bpp.children, ContextTag(3)))
  }

  /** TLV.Bytes (tlv_writer.go:100-106) */
  method TlvBytes(t: Tlv) returns (b: seq<byte>)
    requires t.Node? && Writable(t)
    ensures b == Print(t)
  {
    var buf := new Sink();
    var written := TlvIO.WriteTo(t, buf);
    b := buf.data;
  }

  method MarshalHeader(t: Tlv) returns (b: seq<byte>)
    requires HeaderReady(t)
    ensures b == HeaderOf(t)
  {
    var n, i := 0, 0;
    while i < |t.children|
      invariant 0 <= i <= |t.children| && 0 <= n
      invariant n + SizeAll(t.children[i..]) == SizeAll(t.children)
      invariant MeasurableAll(t.children[i..])
    {
      assert t.children[i..][0] == t.children[i] && t.children[i..][1..] == t.children[i + 1..];
      var size := TlvIO.Len(t.children[i]);
      n := n + size.value;
      i := i + 1;
    }
    b := t.tag + LengthOctets(n);
  }

  /** SegmentedBoundProfilePackage (bpp.go:12-71); None where it reports missing parts. */
  method Segment(bpp: Tlv) returns (res: Option<seq<seq<byte>>>)
    requires Valid(bpp) ==> Ready(bpp)
    ensures res == if Valid(bpp) then Some(Segments(bpp)) else None
  {
    if !Valid(bpp) { return None; }
    var initialise := First(bpp.children, ContextTag(35));
    var first87 := First(bpp.children, ContextTag(0));
    var all88 := First(bpp.children, ContextTag(1));
    var second87 := First(bpp.children, ContextTag(2));
    var all86 := First(bpp.children, ContextTag(3));
    var header := MarshalHeader(bpp);
    var bytes := TlvBytes(initialise);
    var segments := [header + bytes];
    bytes := TlvBytes(first87);
    segments := segments + [bytes];
    segments := AppendSpread(segments, all88);
    if second87.Node? {
      bytes := TlvBytes(second87);
      segments := segments + [bytes];
    } else {
      assert segments + [] == segments;
    }
    segments := AppendSpread(segments, all86);
    return Some(segments);
  }

  /** The bare header and the loop over children, as at bpp.go:54-59 and 64-68. */
  method AppendSpread(segments: seq<seq<byte>>, t: Tlv) returns (out: seq<seq<byte>>)
    requires HeaderReady(t) && WritableAll(t.children)
    ensures out == segments + Spread(t)
  {
    var header := MarshalHeader(t);
    out := segments + [header];
    var i := 0;
    while i < |t.children|
      invariant 0 <= i <= |t.children| && WritableAll(t.children[i..])
      invariant out + Prints(t.children[i..]) == segments + Spread(t)
    {
      assert t.children[i..][0] == t.children[i] && t.children[i..][1..] == t.children[i + 1..];
      var bytes := TlvBytes(t.children[i]);
      out := out + [bytes];
      i := i + 1;
    }
    assert out + Prints(t.children[i..]) == out;
  }

  // The laws

  lemma {:induction false} ConcatPrints(ts: seq<Tlv>)
    requires WritableAll(ts)
    ensures Concat(Prints(ts)) == PrintAll(ts)
  {
    if ts != [] {
      ConcatPrints(ts[1..]);
      assert Prints(ts)[1..] == Prints(ts[1..]);
    }
  }

  /** A spread constructed node is its own encoding, cut. */
  lemma ConcatSpread(t: Tlv)
    requires t.Node? && Constructed(t.tag) && Writable(t)
    ensures Concat(Spread(t)) == Print(t)
  {
    ConcatPrints(t.children);
    assert Spread(t)[1..] == Prints(t.children);
  }

  /** The bare header declares the size of exactly the segments that follow it. */
  lemma HeaderTruth(t: Tlv, rest: seq<byte>)
    requires t.Node? && WellFormed(t.tag) && Constructed(t.tag) && Writable(t)
    ensures var after := Concat(Prints(t.children));
            ReadHeader(HeaderOf(t) + (after + rest)) == Header(|t.tag|, |after|, |HeaderOf(t)| - |t.tag|)
  {
    ConcatPrints(t.children);
    ReadPrintedHeader(t.tag, Content(t), Concat(Prints(t.children)) + rest);
  }

  lemma SegmentCount(bpp: Tlv)
    requires Valid(bpp) && Ready(bpp)
    ensures |Segments(bpp)| == 4 + |First(bpp.children, ContextTag(1)).children|
                               + |First(bpp.children, ContextTag(3)).children|
                               + if First(bpp.children, ContextTag(2)).Node? then 1 else 0
  {
  }

  /** The parts the segments are taken from, in the order they are sent. */
  function Picked(bpp: Tlv): (ts: seq<Tlv>)
    requires bpp.Node?
  {
    [First(bpp.children, ContextTag(35)), First(bpp.children, ContextTag(0)),
     First(bpp.children, ContextTag(1)), First(bpp.children, ContextTag(2)),
     First(bpp.children, ContextTag(3))]
  }

  lemma {:induction false} MemberShape(ts: seq<Tlv>, t: Tlv)
    requires WritableAll(ts) && ReadableTagsAll(ts) && t in ts
    ensures Writable(t) && ReadableTags(t)
  {
    if t != ts[0] { MemberShape(ts[1..], t); }
  }

  lemma {:induction false} ShapeOfMembers(ts: seq<Tlv>)
    requires forall t :: t in ts ==> Writable(t) && ReadableTags(t)
    ensures WritableAll(ts) && ReadableTagsAll(ts)
  {
    if ts != [] { ShapeOfMembers(ts[1..]); }
  }

  lemma PickedShape(bpp: Tlv)
    requires bpp.Node? && Writable(bpp) && Constructed(bpp.tag) && ReadableTags(bpp)
    ensures WritableAll(Picked(bpp)) && ReadableTagsAll(Picked(bpp))
    ensures forall t :: t in Picked(bpp) ==> Writable(t)
  {
    forall t | t in Picked(bpp) ensures Writable(t) && ReadableTags(t) {
      if t.Node? { MemberShape(bpp.children, t); }
    }
    ShapeOfMembers(Picked(bpp));
  }

  lemma {:induction false} PrintAllAppend(a: seq<Tlv>, b: seq<Tlv>)
    requires WritableAll(a) && WritableAll(b)
    ensures WritableAll(a + b) && PrintAll(a + b) == PrintAll(a) + PrintAll(b)
  {
    hide Print, Writable, Clone, Size, Content, SizeAll;
    if a == [] {
      assert a + b == b;
    } else {
      HeadApart(a, b);
      PrintAllAppend(a[1..], b);
      PrintAllCons(a[0], a[1..] + b);
    }
  }

  lemma PrintAllCons(t: Tlv, ts: seq<Tlv>)
    requires Writable(t) && WritableAll(ts)
    ensures WritableAll([t] + ts) && PrintAll([t] + ts) == Print(t) + PrintAll(ts)
  {
  }

  lemma PrintOne(t: Tlv)
    requires Writable(t)
    ensures WritableAll([t]) && PrintAll([t]) == Print(t)
  {
  }

  lemma PrintFive(a: Tlv, b: Tlv, c: Tlv, d: Tlv, e: Tlv)
    requires Writable(a) && Writable(b) && Writable(c) && Writable(d) && Writable(e)
    ensures WritableAll([a, b, c, d, e])
    ensures PrintAll([a, b, c, d, e]) == Print(a) + Print(b) + Print(c) + Print(d) + Print(e)
  {
    hide Print, Writable, WritableAll, PrintAll, Size, Content, SizeAll;
    PrintOne(a);
    PrintOne(b);
    PrintOne(c);
    PrintOne(d);
    PrintOne(e);
    PrintAllAppend([a], [b]);
    PrintAllAppend([a] + [b], [c]);
    PrintAllAppend([a] + [b] + [c], [d]);
    PrintAllAppend([a] + [b] + [c] + [d], [e]);
    assert [a] + [b] + [c] + [d] + [e] == [a, b, c, d, e];
  }

  /** What the segments add up to. */
  lemma ConcatSegments(bpp: Tlv)
    requires Valid(bpp) && Ready(bpp) && Writable(bpp) && ReadableTags(bpp)
    ensures WritableAll(Picked(bpp))
    ensures Concat(Segments(bpp)) == HeaderOf(bpp) + PrintAll(Picked(bpp))
  {
    hide Print, Writable, WritableAll, PrintAll, Size, Content, SizeAll, Spread, Concat;
    hide HeaderOf, First, ContextTag, Tags.Constructed, ReadableTags;
    var ts := Picked(bpp);
    ContextTags();
    assert Tags.Constructed(bpp.tag);
    PickedShape(bpp);
    PrintFive(ts[0], ts[1], ts[2], ts[3], ts[4]);
    ConcatSpread(ts[2]);
    ConcatSpread(ts[4]);
    var opt := Optional(ts[3]);
    ConcatFive(HeaderOf(bpp) + Print(ts[0]), Print(ts[1]), Spread(ts[2]), opt, Spread(ts[4]));
  }

  lemma ConcatFive(a: seq<byte>, b: seq<byte>, c: seq<seq<byte>>, d: seq<seq<byte>>, e: seq<seq<byte>>)
    ensures Concat([a] + [b] + c + d + e) == a + b + Concat(c) + Concat(d) + Concat(e)
  {
    ConcatAppend([a] + [b] + c + d, e);
    ConcatAppend([a] + [b] + c, d);
    ConcatAppend([a] + [b], c);
    ConcatAppend([a], [b]);
  }

  /** The segments, put together, are the package's own encoding exactly when its children, nil
      pointers aside, are the parts that were picked, in that order. */
  lemma SegmentsReassemble(bpp: Tlv)
    requires Valid(bpp) && Ready(bpp) && Writable(bpp) && ReadableTags(bpp)
    ensures Concat(Segments(bpp)) == Print(bpp) <==> CloneAll(bpp.children) == CloneAll(Picked(bpp))
  {
    ContextTags();
    ConcatSegments(bpp);
    PickedShape(bpp);
    var ts, picked := bpp.children, Picked(bpp);
    assert Print(bpp) == HeaderOf(bpp) + PrintAll(ts);
    PrintCloneAll(ts);
    PrintCloneAll(picked);
    if Concat(Segments(bpp)) == Print(bpp) {
      assert PrintAll(picked) == (HeaderOf(bpp) + PrintAll(picked))[|HeaderOf(bpp)|..];
      assert PrintAll(ts) == (HeaderOf(bpp) + PrintAll(ts))[|HeaderOf(bpp)|..];
      PrintAllInjective(ts, picked);
    }
  }

  /** The children's tags, when none is nil. */
  function TagsOf(ts: seq<Tlv>): (tags: seq<seq<byte>>)
    requires NoNil(ts)
    ensures |tags| == |ts|
  {
    seq(|ts|, i requires 0 <= i < |ts| => ts[i].tag)
  }

  /** The children of a package as SGP.22 lays it out. */
  function StandardTags(second87: bool): seq<seq<byte>> {
    if second87 then [ContextTag(35), ContextTag(0), ContextTag(1), ContextTag(2), ContextTag(3)]
    else [ContextTag(35), ContextTag(0), ContextTag(1), ContextTag(3)]
  }

  /** A package laid out as SGP.22 section 2.5.5 has it. */
  ghost predicate Standard(bpp: Tlv) {
    && bpp.Node? && bpp.tag == ContextTag(54) && NoNil(bpp.children) && Writable(bpp) && ReadableTags(bpp)
    && (TagsOf(bpp.children) == StandardTags(false) || TagsOf(bpp.children) == StandardTags(true))
    && forall t :: t in bpp.children ==> NoNil(t.children)
  }

  /** It is valid, can be cut without a panic, and reassembles. */
  lemma StandardPackage(bpp: Tlv)
    requires Standard(bpp)
    ensures Valid(bpp) && Ready(bpp) && Concat(Segments(bpp)) == Print(bpp)
  {
    StandardPicked(bpp);
    StandardReady(bpp);
    SegmentsReassemble(bpp);
  }

  /** The tags of the five parts differ. */
  lemma PartTags()
    ensures ContextTag(0) != ContextTag(35)
    ensures ContextTag(1) != ContextTag(35) && ContextTag(1) != ContextTag(0)
    ensures ContextTag(2) != ContextTag(35) && ContextTag(2) != ContextTag(0) && ContextTag(2) != ContextTag(1)
    ensures ContextTag(3) != ContextTag(35) && ContextTag(3) != ContextTag(0) && ContextTag(3) != ContextTag(1)
    ensures ContextTag(3) != ContextTag(2)
  {
  }

  /** First finds the first child with a tag, whatever nil children and other tags come before it. */
  lemma {:induction false} FirstAt(ts: seq<Tlv>, tag: Tag, k: nat)
    requires k < |ts| && ts[k].Node? && ts[k].tag == tag
    requires forall i :: 0 <= i < k ==> ts[i].Nil? || ts[i].tag != tag
    ensures First(ts, tag) == ts[k]
  {
    if k > 0 { FirstAt(ts[1..], tag, k - 1); }
  }

  lemma StandardPicked(bpp: Tlv)
    requires bpp.Node? && bpp.tag == ContextTag(54) && NoNil(bpp.children)
    requires TagsOf(bpp.children) == StandardTags(false) || TagsOf(bpp.children) == StandardTags(true)
    ensures Valid(bpp) && CloneAll(Picked(bpp)) == CloneAll(bpp.children)
  {
    hide First, ContextTag, Clone, CloneAll;
    var ts := bpp.children;
    StandardFirsts(bpp);
    if |ts| == 5 {
      assert Picked(bpp) == ts;
    } else {
      CloneSkipsNil(ts[0], ts[1], ts[2], ts[3]);
      assert ts == [ts[0], ts[1], ts[2], ts[3]];
    }
  }

  /** The parts picked are the children in their places. */
  lemma StandardFirsts(bpp: Tlv)
    requires bpp.Node? && NoNil(bpp.children)
    requires TagsOf(bpp.children) == StandardTags(false) || TagsOf(bpp.children) == StandardTags(true)
    ensures var ts := bpp.children;
            && (|ts| == 4 || |ts| == 5)
            && First(ts, ContextTag(35)) == ts[0] && First(ts, ContextTag(0)) == ts[1]
            && First(ts, ContextTag(1)) == ts[2] && First(ts, ContextTag(3)) == ts[|ts| - 1]
            && First(ts, ContextTag(2)) == if |ts| == 5 then ts[3] else Nil
  {
    hide First, ContextTag;
    var ts, last := bpp.children, |bpp.children| - 1;
    PartTags();
    assert forall i :: 0 <= i < |ts| ==> ts[i].tag == TagsOf(ts)[i];
    FirstAt(ts, ContextTag(35), 0);
    FirstAt(ts, ContextTag(0), 1);
    FirstAt(ts, ContextTag(1), 2);
    FirstAt(ts, ContextTag(3), last);
    if |ts| == 5 {
      FirstAt(ts, ContextTag(2), 3);
    } else {
      assert First(ts, ContextTag(2)).Nil?;
    }
  }

  lemma CloneSkipsNil(a: Tlv, b: Tlv, c: Tlv, d: Tlv)
    ensures CloneAll([a, b, c, Nil, d]) == CloneAll([a, b, c, d])
  {
    hide Clone, CloneAll;
    CloneAllAppend([a, b, c], [Nil] + [d]);
    CloneAllAppend([Nil], [d]);
    CloneAllAppend([a, b, c], [d]);
    assert [a, b, c] + ([Nil] + [d]) == [a, b, c, Nil, d];
    assert [a, b, c] + [d] == [a, b, c, d];
    CloneOfNil();
  }

  lemma CloneOfNil()
    ensures CloneAll([Nil]) == []
  {
  }

  lemma StandardReady(bpp: Tlv)
    requires Valid(bpp) && NoNil(bpp.children) && Writable(bpp) && ReadableTags(bpp)
    requires forall t :: t in bpp.children ==> NoNil(t.children)
    ensures Ready(bpp)
  {
    ContextTags();
    PickedShape(bpp);
    HeaderReadyOf(bpp);
    HeaderReadyOf(First(bpp.children, ContextTag(1)));
    HeaderReadyOf(First(bpp.children, ContextTag(3)));
    hide Writable, HeaderReady, First, WritableAll, ContextTag;
  }

  lemma HeaderReadyOf(t: Tlv)
    requires t.Node? && Constructed(t.tag) && Writable(t) && NoNil(t.children)
    ensures HeaderReady(t) && WritableAll(t.children)
  {
    TlvIO.WritableMeasurable(t);
  }

  lemma ContextTags()
    ensures forall n :: 0 <= n < 128 ==> Constructed(ContextTag(n))
  {
  }
}
