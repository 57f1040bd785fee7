/** Which octets of a package each of its segments is. */
module SegmentPlaces {
  import opened Bytes
  import opened Tags
  import opened BerTlv
  import opened BoundProfilePackage

  // The parts, by their octets

  /** The tags of a package and of its parts (section 2.5.5 of SGP.22 v2.5): BF36, BF23, A0, A1, A2, A3. */
  lemma PartOctets()
    ensures ContextTag(54) == [0xBF, 0x36] && ContextTag(35) == [0xBF, 0x23]
    ensures ContextTag(0) == [0xA0] && ContextTag(1) == [0xA1] && ContextTag(2) == [0xA2] && ContextTag(3) == [0xA3]
  {
  }

  // The places of the segments

  /** From segment at on: one that ReadHeader reads as the size of the ones that follow, and these are the
      children's encodings, one each. */
  ghost predicate SpreadAt(ss: seq<seq<byte>>, at: nat, t: Tlv)
    requires t.Node?
  {
    var n := |t.children|;
    && at + n < |ss| && |ss[at]| >= 1
    && (forall i :: 0 <= i < n ==> Writable(t.children[i]) && ss[at + 1 + i] == Print(t.children[i]))
    && var body := Concat(ss[at + 1..at + 1 + n]);
       forall rest :: ReadHeader(ss[at] + (body + rest)) == Header(1, |body|, |ss[at]| - 1)
  }

  lemma {:induction false} PrintsAt(ts: seq<Tlv>, i: nat)
    requires WritableAll(ts) && i < |ts|
    ensures Writable(ts[i]) && Prints(ts)[i] == Print(ts[i])
  {
    if i > 0 { PrintsAt(ts[1..], i - 1); }
  }

  lemma SpreadInPlace(before: seq<seq<byte>>, t: Tlv, after: seq<seq<byte>>)
    requires t.Node? && |t.tag| == 1 && WellFormed(t.tag) && Constructed(t.tag) && Writable(t)
    ensures SpreadAt(before + Spread(t) + after, |before|, t)
  {
    hide Print, ReadHeader, Prints, Concat, Writable, HeaderOf, SizeAll, WritableAll;
    WritableInside(t);
    HeaderLong(t);
    var ss, at, ps := before + Spread(t) + after, |before|, Prints(t.children);
    assert ss[at] == HeaderOf(t);
    assert ss[at + 1..at + 1 + |ps|] == ps;
    forall i | 0 <= i < |ps| ensures Writable(t.children[i]) && ss[at + 1 + i] == Print(t.children[i]) {
      PrintsAt(t.children, i);
      assert ss[at + 1 + i] == ps[i];
    }
    forall rest ensures ReadHeader(HeaderOf(t) + (Concat(ps) + rest)) == Header(1, |Concat(ps)|, |HeaderOf(t)| - 1) {
      HeaderTruth(t, rest);
    }
  }

  lemma HeaderLong(t: Tlv)
    requires t.Node? && SizeAll(t.children) < U24
    ensures |HeaderOf(t)| >= 1
  {
  }

  lemma WritableInside(t: Tlv)
    requires t.Node? && Constructed(t.tag) && Writable(t)
    ensures WritableAll(t.children) && SizeAll(t.children) < U24
  {
  }

  /** The five parts of a cut, whatever else the package holds. */
  lemma CutInPlace(first: seq<byte>, second: seq<byte>, a: Tlv, opt: Tlv, b: Tlv)
    requires a.Node? && |a.tag| == 1 && WellFormed(a.tag) && Constructed(a.tag) && Writable(a)
    requires b.Node? && |b.tag| == 1 && WellFormed(b.tag) && Constructed(b.tag) && Writable(b)
    requires Writable(opt)
    requires SizeAll(a.children) < U24 && WritableAll(a.children)
    requires SizeAll(b.children) < U24 && WritableAll(b.children)
    ensures var ss := [first] + [second] + Spread(a) + Optional(opt) + Spread(b);
            var at := 3 + |a.children|;
            && ss[0] == first && ss[1] == second && SpreadAt(ss, 2, a)
            && if opt.Node? then at < |ss| && ss[at] == Print(opt) && SpreadAt(ss, at + 1, b) else SpreadAt(ss, at, b)
  {
    hide SpreadAt, Prints, HeaderOf, Print, Writable, WritableAll, SizeAll;
    var front, s, o, l := [first] + [second], Spread(a), Optional(opt), Spread(b);
    var ss := front + s + o + l;
    assert ss == front + s + (o + l);
    SpreadInPlace(front, a, o + l);
    assert ss == (front + s + o) + l + [];
    SpreadInPlace(front + s + o, b, []);
  }

  lemma StandardShape(bpp: Tlv)
    requires Standard(bpp)
    ensures var ts := bpp.children;
            && 4 <= |ts| <= 5 && WritableAll(ts) && WritableAll(ts[1..]) && (forall t :: t in ts ==> Writable(t))
            && forall i :: i == 2 || i == |ts| - 1 ==>
                 |ts[i].tag| == 1 && WellFormed(ts[i].tag) && Constructed(ts[i].tag)
  {
    hide Print, ReadableTags, ReadableTagsAll, WritableAll, SizeAll;
    var ts, last := bpp.children, |bpp.children| - 1;
    PartOctets();
    ContextTags();
    assert forall i :: 0 <= i < |ts| ==> ts[i].tag == TagsOf(ts)[i];
    WritableInside(bpp);
    EachReadable(bpp);
    forall t | t in ts ensures Writable(t) { MemberShape(ts, t); }
    AllButFirst(ts);
  }

  lemma EachReadable(bpp: Tlv)
    requires bpp.Node? && ReadableTags(bpp) && Constructed(bpp.tag)
    ensures ReadableTagsAll(bpp.children)
  {
  }

  lemma AllButFirst(ts: seq<Tlv>)
    requires ts != [] && WritableAll(ts)
    ensures Writable(ts[0]) && WritableAll(ts[1..]) && PrintAll(ts) == Print(ts[0]) + PrintAll(ts[1..])
  {
  }

  lemma HeadPrinted(bpp: Tlv)
    requires bpp.Node? && Constructed(bpp.tag) && Writable(bpp) && bpp.children != []
    ensures var ts := bpp.children;
            && SizeAll(ts) < U24 && Writable(ts[0]) && WritableAll(ts[1..])
            && Print(bpp) == HeaderOf(bpp) + Print(ts[0]) + PrintAll(ts[1..])
  {
    var ts := bpp.children;
    Regroup(HeaderOf(bpp), Print(ts[0]), PrintAll(ts[1..]));
  }

  /** A package as SGP.22 lays it out, cut: the first segment ends where the first child ends; the second is the
      second child; then the third child, spread; the fourth, if there are five; and the last child, spread. */
  lemma StandardCut(bpp: Tlv)
    requires Standard(bpp)
    ensures Valid(bpp) && Ready(bpp)
    ensures var ts, ss := bpp.children, Segments(bpp);
            var at := 3 + |ts[2].children|;
            && (forall t :: t in ts ==> Writable(t)) && WritableAll(ts[1..])
            && Print(bpp) == ss[0] + PrintAll(ts[1..])
            && ss[1] == Print(ts[1]) && SpreadAt(ss, 2, ts[2])
            && if |ts| == 5 then at < |ss| && ss[at] == Print(ts[3]) && SpreadAt(ss, at + 1, ts[4])
               else |ts| == 4 && SpreadAt(ss, at, ts[3])
  {
    hide SpreadAt, Prints, HeaderOf, Print, PrintAll, Writable, WritableAll, SizeAll, First, ContextTag, CloneAll,
      Tags.Constructed, Spread, ReadableTags, WellFormed, HeaderReady;
    StandardPackage(bpp);
    StandardFirsts(bpp);
    StandardShape(bpp);
    var ts := bpp.children;
    ContextTags();
    WritableInside(ts[2]);
    WritableInside(ts[|ts| - 1]);
    HeadPrinted(bpp);
    CutInPlace(HeaderOf(bpp) + Print(ts[0]), Print(ts[1]), ts[2], First(ts, ContextTag(2)), ts[|ts| - 1]);
  }
}
