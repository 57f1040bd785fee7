/** bertlv/tlv.go, tlv_writer.go, tlv_reader.go: the BER-TLV tree, what printing it gives and what
    parsing octets gives, as functions; the laws that connect the two. */
module BerTlv {
  import opened Bytes
  import opened Tags
  import opened Lengths

  /** A *TLV: nil, or a node. */
  datatype Tlv = Nil | Node(tag: Tag, value: seq<byte>, children: seq<Tlv>)

  // Sizes

  /** contentLength (length.go:55-67) */
  function Content(t: Tlv): nat
    requires t.Node?
    decreases t, 0
  {
    if Constructed(t.tag) then SizeAll(t.children) else |t.value|
  }

  function SizeAll(ts: seq<Tlv>): nat {
    if ts == [] then 0 else Size(ts[0]) + SizeAll(ts[1..])
  }

  /** Len (tlv_writer.go:11-27), where it does not panic; a nil child takes no room. */
  function Size(t: Tlv): nat
    decreases t, 1
  {
    if t.Nil? then 0 else |t.tag| + LengthSize(Content(t)) + Content(t)
  }

  /** No panic in Len: every content length here and below fits three octets. */
  predicate Measurable(t: Tlv) {
    t.Node? ==> (Constructed(t.tag) ==> MeasurableAll(t.children)) && Content(t) < U24
  }

  predicate MeasurableAll(ts: seq<Tlv>) {
    ts != [] ==> Measurable(ts[0]) && MeasurableAll(ts[1..])
  }

  // Printing

  /** The checks of WriteTo (tlv_writer.go:34-41), here and below. */
  predicate Writable(t: Tlv) {
    t.Node? ==>
      && (if Constructed(t.tag) then t.value == [] && WritableAll(t.children) else t.children == [])
      && Content(t) < U24
  }

  predicate WritableAll(ts: seq<Tlv>) {
    ts != [] ==> Writable(ts[0]) && WritableAll(ts[1..])
  }

  /** The octets of a tree. */
  function Print(t: Tlv): (s: seq<byte>)
    requires Writable(t)
    ensures |s| == Size(t)
  {
    if t.Nil? then []
    else t.tag + LengthOctets(Content(t)) + if Constructed(t.tag) then PrintAll(t.children) else t.value
  }

  function PrintAll(ts: seq<Tlv>): (s: seq<byte>)
    requires WritableAll(ts)
    ensures |s| == SizeAll(ts)
  {
    if ts == [] then [] else Print(ts[0]) + PrintAll(ts[1..])
  }

  /** Clone (tlv_writer.go:81-98): nil children are dropped, and so are a primitive's children. */
  function Clone(t: Tlv): Tlv {
    if t.Nil? then Nil
    else if Constructed(t.tag) then Node(t.tag, [], CloneAll(t.children))
    else Node(t.tag, t.value, [])
  }

  function CloneAll(ts: seq<Tlv>): seq<Tlv> {
    if ts == [] then []
    else (if ts[0].Nil? then [] else [Clone(ts[0])]) + CloneAll(ts[1..])
  }

  // Parsing

  datatype Parsed = Parsed(tlv: Tlv, n: nat) | Malformed | Crash

  datatype ParsedAll = ParsedAll(children: seq<Tlv>, n: nat) | MalformedAll | CrashAll

  /** Identifier and length octets: the tag's size, the length, and how many octets that took. */
  datatype Header = Header(k: nat, length: nat, m: nat) | BadHeader | CrashHeader

  function ReadHeader(s: seq<byte>): (r: Header)
    ensures r.Header? ==> r.k >= 1 && r.m >= 1 && r.k + r.m <= |s| && r.length < U24
  {
    match ReadTag(s)
    case TagError => BadHeader
    case TagPanic => CrashHeader
    case TagOf(k) =>
      match ReadLength(s[k..])
      case None => BadHeader
      case Some((length, m)) => Header(k, length, m)
  }

  /** ReadFrom (tlv_reader.go:10-40) on the octets s. */
  function Parse(s: seq<byte>): (r: Parsed)
    ensures r.Parsed? ==> 2 <= r.n <= |s|
    decreases |s|, 0
  {
    match ReadHeader(s)
    case BadHeader => Malformed
    case CrashHeader => Crash
    case Header(k, length, m) =>
      var tag, body := s[..k], s[k + m..];
      if Constructed(tag) then
        match ParseAll(body, length, 0)
        case MalformedAll => Malformed
        case CrashAll => Crash
        case ParsedAll(children, n) => Parsed(Node(tag, [], children), k + m + n)
      else if |body| < length then Malformed
      else Parsed(Node(tag, body[..length], []), k + m + length)
  }

  /** uint32 addition */
  function Add32(a: nat, b: nat): nat { (a + b) % U32 }

  /** The child loop (tlv_reader.go:22-31): index is a uint32. */
  function ParseAll(s: seq<byte>, length: nat, index: nat): (r: ParsedAll)
    ensures r.ParsedAll? ==> r.n <= |s|
    decreases |s|, 1
  {
    if index >= length then ParsedAll([], 0)
    else
      match Parse(s)
      case Malformed => MalformedAll
      case Crash => CrashAll
      case Parsed(t, n) =>
        match ParseAll(s[n..], length, Add32(index, n))
        case MalformedAll => MalformedAll
        case CrashAll => CrashAll
        case ParsedAll(rest, m) => ParsedAll([t] + rest, n + m)
  }

  // Parse after print

  /** Tags the reader can give back, here and below. */
  ghost predicate ReadableTags(t: Tlv) {
    t.Node? ==> WellFormed(t.tag) && (Constructed(t.tag) ==> ReadableTagsAll(t.children))
  }

  ghost predicate ReadableTagsAll(ts: seq<Tlv>) {
    ts != [] ==> ReadableTags(ts[0]) && ReadableTagsAll(ts[1..])
  }

  lemma NoWrap(a: nat, b: nat)
    requires a + b < U32
    ensures Add32(a, b) == a + b
  {
  }

  lemma ReadPrintedHeader(tag: Tag, n: nat, content: seq<byte>)
    requires WellFormed(tag) && n < U24
    ensures var s := tag + LengthOctets(n) + content;
            && ReadHeader(s) == Header(|tag|, n, LengthSize(n))
            && s[..|tag|] == tag && s[|tag| + LengthSize(n)..] == content
  {
    var s := tag + LengthOctets(n) + content;
    assert s[..|tag|] == tag;
    ReadTagExact(s, |tag|);
    assert s[|tag|..] == LengthOctets(n) + content;
    ReadWritten(n, content);
  }

  /** Unfolding the parser at a constructed node whose children parse. */
  lemma ParseConstructed(s: seq<byte>, k: nat, n: nat, m: nat, children: seq<Tlv>, size: nat)
    requires ReadHeader(s) == Header(k, n, m) && Constructed(s[..k])
    requires ParseAll(s[k + m..], n, 0) == ParsedAll(children, size)
    ensures Parse(s) == Parsed(Node(s[..k], [], children), k + m + size)
  {
    hide ReadHeader, ParseAll, Constructed;
  }

  /** One turn of the child loop: a child p, and a run that follows it. */
  lemma ParseAllStep(p: seq<byte>, tail: seq<byte>, length: nat, index: nat, t: Tlv, rest: seq<Tlv>, m: nat)
    requires Parse(p + tail) == Parsed(t, |p|) && index < length && index + |p| < U32
    requires ParseAll(tail, length, index + |p|) == ParsedAll(rest, m)
    ensures ParseAll(p + tail, length, index) == ParsedAll([t] + rest, |p| + m)
  {
    hide Parse, Add32;
    assert (p + tail)[|p|..] == tail;
    NoWrap(index, |p|);
  }

  /** Parsing a printed tree, whatever follows it, takes exactly its octets and gives its clone. */
  lemma {:induction false} ParsePrinted(t: Tlv, rest: seq<byte>)
    requires t.Node? && Writable(t) && ReadableTags(t)
    ensures Parse(Print(t) + rest) == Parsed(Clone(t), Size(t))
    decreases t, 0
  {
    var n := Content(t);
    if Constructed(t.tag) {
      var content := PrintAll(t.children) + rest;
      assert Print(t) + rest == t.tag + LengthOctets(n) + content;
      ReadPrintedHeader(t.tag, n, content);
      ParsePrintedAll(t.children, rest, n, 0);
      ParseConstructed(Print(t) + rest, |t.tag|, n, LengthSize(n), CloneAll(t.children), n);
    } else {
      assert Print(t) + rest == t.tag + LengthOctets(n) + (t.value + rest);
      ReadPrintedHeader(t.tag, n, t.value + rest);
    }
  }

  lemma {:induction false} ParsePrintedAll(ts: seq<Tlv>, rest: seq<byte>, length: nat, index: nat)
    requires WritableAll(ts) && ReadableTagsAll(ts)
    requires index + SizeAll(ts) == length < U24
    ensures ParseAll(PrintAll(ts) + rest, length, index) == ParsedAll(CloneAll(ts), SizeAll(ts))
    decreases ts, 1
  {
    hide Parse, Print, Content, Writable, ReadableTags;
    if ts != [] {
      hide ParseAll, PrintAll;
      var tail := PrintAll(ts[1..]) + rest;
      PrintSplit(ts, rest);
      ParsePrintedAll(ts[1..], rest, length, index + Size(ts[0]));
      if ts[0].Node? {
        ParsePrinted(ts[0], tail);
        ParsePrintedCons(ts, tail, length, index);
      }
    }
  }

  lemma PrintSplit(ts: seq<Tlv>, rest: seq<byte>)
    requires ts != [] && WritableAll(ts)
    ensures PrintAll(ts) + rest == Print(ts[0]) + (PrintAll(ts[1..]) + rest)
    ensures ts[0].Nil? ==> PrintAll(ts) + rest == PrintAll(ts[1..]) + rest
  {
    Regroup(Print(ts[0]), PrintAll(ts[1..]), rest);
    if ts[0].Nil? {
      assert Print(ts[0]) == [] && [] + PrintAll(ts[1..]) == PrintAll(ts[1..]);
    }
    hide Print, Writable, Size, SizeAll, Content;
  }

  lemma ParsePrintedCons(ts: seq<Tlv>, tail: seq<byte>, length: nat, index: nat)
    requires ts != [] && ts[0].Node? && Writable(ts[0])
    requires index + SizeAll(ts) == length < U24
    requires Parse(Print(ts[0]) + tail) == Parsed(Clone(ts[0]), Size(ts[0]))
    requires ParseAll(tail, length, index + Size(ts[0])) == ParsedAll(CloneAll(ts[1..]), SizeAll(ts[1..]))
    ensures ParseAll(Print(ts[0]) + tail, length, index) == ParsedAll(CloneAll(ts), SizeAll(ts))
  {
    hide Parse, ParseAll, Print, Clone, CloneAll, Size, SizeAll, Content, Writable;
    var t, later, n := ts[0], CloneAll(ts[1..]), SizeAll(ts[1..]);
    ConsOfNode(ts);
    ParseAllStep(Print(t), tail, length, index, Clone(t), later, n);
  }

  lemma ConsOfNode(ts: seq<Tlv>)
    requires ts != [] && ts[0].Node?
    ensures CloneAll(ts) == [Clone(ts[0])] + CloneAll(ts[1..])
    ensures SizeAll(ts) == Size(ts[0]) + SizeAll(ts[1..]) && Size(ts[0]) > 0
  {
  }

  /** The encoding is injective on clones and prefix-free. */
  lemma PrintInjective(a: Tlv, b: Tlv, x: seq<byte>, y: seq<byte>)
    requires a.Node? && Writable(a) && ReadableTags(a)
    requires b.Node? && Writable(b) && ReadableTags(b)
    requires Print(a) + x == Print(b) + y
    ensures Clone(a) == Clone(b) && x == y
  {
    ParsePrinted(a, x);
    ParsePrinted(b, y);
    assert x == (Print(a) + x)[Size(a)..] && y == (Print(b) + y)[Size(b)..];
  }

  /** The same for runs of children. */
  lemma PrintAllInjective(a: seq<Tlv>, b: seq<Tlv>)
    requires WritableAll(a) && ReadableTagsAll(a) && WritableAll(b) && ReadableTagsAll(b)
    requires PrintAll(a) == PrintAll(b) && SizeAll(a) < U24
    ensures CloneAll(a) == CloneAll(b)
  {
    ParsePrintedAll(a, [], SizeAll(a), 0);
    ParsePrintedAll(b, [], SizeAll(b), 0);
  }

  /** Printing does not see the nil children that cloning drops. */
  lemma {:induction false} PrintClone(t: Tlv)
    requires Writable(t)
    ensures Writable(Clone(t)) && Print(Clone(t)) == Print(t)
    decreases t, 0
  {
    if t.Node? && Constructed(t.tag) { PrintCloneAll(t.children); }
  }

  lemma {:induction false} PrintCloneAll(ts: seq<Tlv>)
    requires WritableAll(ts)
    ensures WritableAll(CloneAll(ts)) && PrintAll(CloneAll(ts)) == PrintAll(ts)
    decreases ts, 1
  {
    if ts != [] {
      PrintClone(ts[0]);
      PrintCloneAll(ts[1..]);
      if ts[0].Nil? {
        assert CloneAll(ts) == CloneAll(ts[1..]) && PrintAll(ts) == PrintAll(ts[1..]);
      } else {
        assert CloneAll(ts)[1..] == CloneAll(ts[1..]);
      }
    }
  }

  lemma {:induction false} CloneAllAppend(a: seq<Tlv>, b: seq<Tlv>)
    ensures CloneAll(a + b) == CloneAll(a) + CloneAll(b)
  {
    hide Clone;
    if a == [] {
      assert a + b == b;
    } else {
      HeadApart(a, b);
      CloneAllAppend(a[1..], b);
      CloneAllCons(a[0], a[1..] + b);
    }
  }

  lemma CloneAllCons(t: Tlv, ts: seq<Tlv>)
    ensures CloneAll([t] + ts) == (if t.Nil? then [] else [Clone(t)]) + CloneAll(ts)
  {
  }
}
