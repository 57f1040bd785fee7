/** The reading and writing methods of bertlv, proved against the functions of module BerTlv. */
module TlvIO {
  import opened Bytes
  import opened Lengths
  import opened BerTlv
  import Tags

  /** What a child loop has collected, in front of what the rest of the run gives. */
  ghost function Prepend(children: seq<Tlv>, n: nat, rest: ParsedAll): ParsedAll {
    match rest
    case ParsedAll(more, m) => ParsedAll(children + more, n + m)
    case _ => rest
  }

  /** How many octets reading a node takes, whether it is accepted or not (where it does not panic). */
  ghost function Taken(s: seq<byte>): (n: nat)
    requires !Parse(s).Crash?
    ensures n <= |s|
    decreases |s|, 0
  {
    var k := Tags.TagTaken(s);
    var h := ReadHeader(s);
    if Parse(s).Parsed? then Parse(s).n
    else if Tags.ReadTag(s).TagError? then k
    else if h.BadHeader? then k + LengthTaken(s[k..])
    else if Tags.Constructed(s[..h.k]) then h.k + h.m + TakenAll(s[h.k + h.m..], h.length, 0)
    else |s|
  }

  ghost function TakenAll(s: seq<byte>, length: nat, index: nat): (n: nat)
    requires !ParseAll(s, length, index).CrashAll?
    ensures n <= |s| && (ParseAll(s, length, index).ParsedAll? ==> n == ParseAll(s, length, index).n)
    decreases |s|, 1
  {
    if index >= length then 0
    else if !Parse(s).Parsed? then Taken(s)
    else Parse(s).n + TakenAll(s[Parse(s).n..], length, Add32(index, Parse(s).n))
  }

  /** The child loop over body has read n octets, as children, and index says where it is. */
  ghost predicate Progress(body: seq<byte>, length: nat, children: seq<Tlv>, n: nat, index: nat) {
    && n <= |body| && ParseAll(body, length, 0) == Prepend(children, n, ParseAll(body[n..], length, index))
    && (!ParseAll(body, length, 0).CrashAll? ==>
          TakenAll(body, length, 0) == n + TakenAll(body[n..], length, index))
  }

  lemma ProgressStart(body: seq<byte>, length: nat)
    ensures Progress(body, length, [], 0, 0)
  {
    hide ParseAll;
    var r := ParseAll(body, length, 0);
    assert body[0..] == body;
    if r.ParsedAll? { assert [] + r.children == r.children; }
  }

  lemma ProgressTurn(body: seq<byte>, length: nat, children: seq<Tlv>, n: nat, index: nat)
    requires Progress(body, length, children, n, index) && index < length
    ensures Parse(body[n..]).Malformed? ==>
              ParseAll(body, length, 0).MalformedAll? && TakenAll(body, length, 0) == n + Taken(body[n..])
    ensures Parse(body[n..]).Crash? ==> ParseAll(body, length, 0).CrashAll?
    ensures Parse(body[n..]).Parsed? ==>
              var Parsed(t, k) := Parse(body[n..]);
              Progress(body, length, children + [t], n + k, Add32(index, k))
  {
    hide Parse, Add32, Taken;
    if Parse(body[n..]).Parsed? {
      var Parsed(t, k) := Parse(body[n..]);
      Drop(body, n, k);
      match ParseAll(body[n + k..], length, Add32(index, k))
      case ParsedAll(more, m) => assert children + ([t] + more) == children + [t] + more;
      case _ =>
    }
  }

  lemma ProgressEnd(body: seq<byte>, length: nat, children: seq<Tlv>, n: nat, index: nat)
    requires Progress(body, length, children, n, index) && index >= length
    ensures ParseAll(body, length, 0) == ParsedAll(children, n) && TakenAll(body, length, 0) == n
  {
    assert children + [] == children;
  }

  /** What a node's contents octets come to, behind its tag and length. */
  ghost function Contents(tag: Tags.Tag, length: nat, body: seq<byte>): Parsed {
    if Tags.Constructed(tag) then
      match ParseAll(body, length, 0)
      case MalformedAll => Malformed
      case CrashAll => Crash
      case ParsedAll(children, n) => Parsed(Node(tag, [], children), n)
    else if |body| < length then Malformed
    else Parsed(Node(tag, body[..length], []), length)
  }

  ghost function ContentsTaken(tag: Tags.Tag, length: nat, body: seq<byte>): (n: nat)
    requires !Contents(tag, length, body).Crash?
    ensures n <= |body|
  {
    if Tags.Constructed(tag) then TakenAll(body, length, 0) else Min(length, |body|)
  }

  /** The same with k octets before it. */
  ghost function Behind(k: nat, p: Parsed): Parsed { if p.Parsed? then p.(n := k + p.n) else p }

  /** TLV.ReadFrom (tlv_reader.go:10-40): the tree that Parse gives, and the reader left just after the
      octets that were read, accepted or not. */
  method ReadFrom(r: Reader) returns (res: Parsed)
    modifies r
    ensures res == Parse(old(r.rest))
    ensures !res.Crash? ==> r.rest == old(r.rest)[Taken(old(r.rest))..] && r.taken == old(r.taken) + Taken(old(r.rest))
    ensures res.Parsed? ==> Taken(old(r.rest)) == res.n
    decreases |r.rest|, 0
  {
    hide Parse, Taken, Contents, ContentsTaken, Tags.ReadTag, ReadLength, LengthTaken, Tags.TagTaken;
    ghost var s := r.rest;
    var start := r.taken;
    Unread(s);
    var tagRead, tag := Tags.ReadFrom(r);
    if tagRead.TagError? { return Malformed; }
    if tagRead.TagPanic? { return Crash; }
    ghost var k := tagRead.n;
    NodeOf(s, k);
    var length := Read(r);
    Drop(s, k, LengthTaken(s[k..]));
    if length.None? { return Malformed; }
    ghost var h := k + LengthTaken(s[k..]);
    res := ReadContents(r, tag, length.value);
    if res.Crash? { return; }
    Drop(s, h, ContentsTaken(tag, length.value, s[h..]));
    if res.Parsed? { res := res.(n := r.taken - start); }
  }

  /** What follows the length in it (tlv_reader.go:22-37). */
  method ReadContents(r: Reader, tag: Tags.Tag, length: nat) returns (res: Parsed)
    modifies r
    ensures res == Contents(tag, length, old(r.rest))
    ensures !res.Crash? ==>
              var n := ContentsTaken(tag, length, old(r.rest));
              r.rest == old(r.rest)[n..] && r.taken == old(r.taken) + n
    decreases |r.rest|, 2
  {
    hide ParseAll, TakenAll;
    if Tags.Constructed(tag) {
      var children := ReadChildren(r, length);
      match children {
        case MalformedAll => return Malformed;
        case CrashAll => return Crash;
        case ParsedAll(ts, n) => return Parsed(Node(tag, [], ts), n);
      }
    }
    var value := r.ReadFull(length);
    if |value| < length { return Malformed; }
    return Parsed(Node(tag, value, []), length);
  }

  /** Octets without a tag that can be read. */
  lemma Unread(s: seq<byte>)
    ensures Tags.ReadTag(s).TagError? ==> Parse(s) == Malformed && Taken(s) == Tags.TagTaken(s) == |s|
    ensures Tags.ReadTag(s).TagPanic? ==> Parse(s) == Crash
    ensures Tags.ReadTag(s).TagOf? ==> Tags.TagTaken(s) == Tags.ReadTag(s).n
  {
    hide Tags.ReadTag;
  }

  /** A node whose tag takes k octets. */
  lemma NodeOf(s: seq<byte>, k: nat)
    requires Tags.ReadTag(s) == Tags.TagOf(k)
    ensures 1 <= k <= |s|
    ensures ReadLength(s[k..]).None? ==> Parse(s) == Malformed && Taken(s) == k + LengthTaken(s[k..])
    ensures ReadLength(s[k..]).Some? ==>
              var n, h := ReadLength(s[k..]).value.0, k + LengthTaken(s[k..]);
              && Parse(s) == Behind(h, Contents(s[..k], n, s[h..]))
              && (!Parse(s).Crash? ==> Taken(s) == h + ContentsTaken(s[..k], n, s[h..]))
              && (Parse(s).Parsed? ==> Taken(s) == Parse(s).n)
  {
    hide Parse, Taken, Contents, ContentsTaken, LengthTaken, Tags.ReadTag, ReadLength;
    HeaderAt(s, k);
    if ReadLength(s[k..]).Some? {
      var (n, m) := ReadLength(s[k..]).value;
      NodeBehind(s, k, n, m);
    }
  }

  lemma HeaderAt(s: seq<byte>, k: nat)
    requires Tags.ReadTag(s) == Tags.TagOf(k)
    ensures 1 <= k <= |s|
    ensures var r := ReadLength(s[k..]);
            if r.None? then Parse(s) == Malformed && Taken(s) == k + LengthTaken(s[k..])
            else ReadHeader(s) == Header(k, r.value.0, r.value.1) && r.value.1 == LengthTaken(s[k..])
  {
    hide Tags.ReadTag, ReadLength, ParseAll, TakenAll, Tags.Constructed;
  }

  lemma NodeBehind(s: seq<byte>, k: nat, n: nat, m: nat)
    requires ReadHeader(s) == Header(k, n, m) && Tags.ReadTag(s) == Tags.TagOf(k)
    ensures Parse(s) == Behind(k + m, Contents(s[..k], n, s[k + m..]))
    ensures !Parse(s).Crash? ==> Taken(s) == k + m + ContentsTaken(s[..k], n, s[k + m..])
    ensures Parse(s).Parsed? ==> Taken(s) == Parse(s).n
  {
    hide Tags.ReadTag, ReadHeader, ParseAll, TakenAll, LengthTaken, Tags.TagTaken, Tags.Constructed;
  }

  /** The loop over children inside it (tlv_reader.go:22-31). */
  method ReadChildren(r: Reader, length: nat) returns (res: ParsedAll)
    modifies r
    ensures res == ParseAll(old(r.rest), length, 0)
    ensures !res.CrashAll? ==>
              var n := TakenAll(old(r.rest), length, 0); r.rest == old(r.rest)[n..] && r.taken == old(r.taken) + n
    ensures res.ParsedAll? ==> TakenAll(old(r.rest), length, 0) == res.n
    decreases |r.rest|, 1
  {
    hide Parse, ParseAll, Progress, Add32, Taken, TakenAll;
    ghost var body, n := r.rest, 0;
    var start := r.taken;
    var index, children := 0, [];
    ProgressStart(body, length);
    while index < length
      invariant 0 <= index && n <= |body| && r.taken == start + n && r.rest == body[n..]
      invariant Progress(body, length, children, n, index)
      decreases |r.rest|
    {
      ProgressTurn(body, length, children, n, index);
      var child := ReadFrom(r);
      match child {
        case Malformed =>
          Drop(body, n, Taken(body[n..]));
          return MalformedAll;
        case Crash => return CrashAll;
        case Parsed(t, k) =>
          Drop(body, n, k);
          n := n + k;
          index, children := Add32(index, k), children + [t];
      }
    }
    ProgressEnd(body, length, children, n, index);
    return ParsedAll(children, r.taken - start);
  }

  /** How the writers end, and how many octets they have written; before a panic there are none. */
  datatype Written = Done(n: nat) | Refused(n: nat) | Panic

  /** TLV.Len (tlv_writer.go:11-27) and contentLength (length.go:55-67): a size, or a panic exactly
      when some content at or below the node needs more than three length octets. */
  method Len(t: Tlv) returns (n: Option<nat>)
    requires t.Node?
    ensures n == if Measurable(t) then Some(Size(t)) else None
    decreases t, 1
  {
    var content := ContentLength(t);
    if content.None? || content.value >= U24 { return None; }
    return Some(content.value + LengthSize(content.value) + |t.tag|);
  }

  method ContentLength(t: Tlv) returns (n: Option<nat>)
    requires t.Node?
    ensures n == if Tags.Constructed(t.tag) && !MeasurableAll(t.children) then None else Some(Content(t))
    decreases t, 0
  {
    if !Tags.Constructed(t.tag) { return Some(|t.value|); }
    var total, i := 0, 0;
    while i < |t.children|
      invariant 0 <= i <= |t.children|
      invariant total + SizeAll(t.children[i..]) == SizeAll(t.children)
      invariant MeasurableAll(t.children[i..]) <==> MeasurableAll(t.children)
    {
      assert t.children[i..][1..] == t.children[i + 1..];
      if t.children[i].Node? {
        var size := Len(t.children[i]);
        if size.None? { return None; }
        total := total + size.value;
      }
      i := i + 1;
    }
    return Some(total);
  }

  /** What WriteTo accepts can be measured without a panic. */
  lemma {:induction false} WritableMeasurable(t: Tlv)
    requires Writable(t)
    ensures Measurable(t)
    decreases t, 0
  {
    if t.Node? && Tags.Constructed(t.tag) { WritableMeasurableAll(t.children); }
  }

  lemma {:induction false} WritableMeasurableAll(ts: seq<Tlv>)
    requires WritableAll(ts)
    ensures MeasurableAll(ts)
    decreases ts, 1
  {
    if ts != [] {
      WritableMeasurable(ts[0]);
      WritableMeasurableAll(ts[1..]);
    }
  }

  /** A node that WriteTo refuses before it writes anything (tlv_writer.go:34-41). */
  predicate BadNode(t: Tlv)
    requires t.Node?
  {
    || (t.value != [] && Tags.Constructed(t.tag))
    || (t.children != [] && !Tags.Constructed(t.tag))
    || Content(t) >= U24
  }

  /** What gets out in any case: a tree in full, or up to the first node in it that is refused. */
  function Emitted(t: Tlv): (s: seq<byte>)
    decreases t, 0
  {
    if t.Nil? || BadNode(t) then []
    else t.tag + LengthOctets(Content(t)) + if Tags.Constructed(t.tag) then EmittedAll(t.children) else t.value
  }

  function EmittedAll(ts: seq<Tlv>): (s: seq<byte>)
    decreases ts, 1
  {
    if ts == [] then [] else Emitted(ts[0]) + if Writable(ts[0]) then EmittedAll(ts[1..]) else []
  }

  /** A writable tree gets out in full. */
  lemma {:induction false} EmittedWritable(t: Tlv)
    requires Writable(t)
    ensures Emitted(t) == Print(t)
    decreases t, 0
  {
    if t.Node? && Tags.Constructed(t.tag) { EmittedWritableAll(t.children); }
  }

  lemma {:induction false} EmittedWritableAll(ts: seq<Tlv>)
    requires WritableAll(ts)
    ensures EmittedAll(ts) == PrintAll(ts)
    decreases ts, 1
  {
    if ts != [] {
      EmittedWritable(ts[0]);
      EmittedWritableAll(ts[1..]);
    }
  }

  /** Of a run with a child that is not writable, the children before it go out in full, and it as far as it can; of
      a node that is itself refused nothing goes out. */
  lemma {:induction false} EmittedUpTo(good: seq<Tlv>, bad: Tlv, rest: seq<Tlv>)
    requires WritableAll(good) && !Writable(bad)
    ensures EmittedAll(good + [bad] + rest) == PrintAll(good) + Emitted(bad)
    ensures bad.Node?
            && (Emitted(bad) == [] || (Tags.Constructed(bad.tag) && bad.value == [] && Content(bad) <= 0xFFFFFF))
    decreases |good|
  {
    hide Emitted, Print, Writable, Content;
    var ts := good + [bad] + rest;
    if good == [] {
      assert ts[0] == bad;
    } else {
      EmittedUpTo(good[1..], bad, rest);
      EmittedWritable(good[0]);
      assert ts[0] == good[0] && ts[1..] == good[1..] + [bad] + rest;
      Regroup(Print(good[0]), PrintAll(good[1..]), Emitted(bad));
    }
    RefusedNode(bad);
  }

  lemma RefusedNode(t: Tlv)
    requires !Writable(t)
    ensures t.Node?
            && (Emitted(t) == [] || (Tags.Constructed(t.tag) && t.value == [] && Content(t) <= 0xFFFFFF))
  {
  }

  /** TLV.WriteTo (tlv_writer.go:29-60): a writable tree goes out octet for octet and is counted;
      a node that breaks the form rules or is too long is refused, what is before it having gone out;
      and an oversized descendant panics while its ancestors are being measured. */
  method WriteTo(t: Tlv, w: Sink) returns (res: Written)
    requires t.Node?
    modifies w
    ensures res.Done? <==> Writable(t)
    ensures res.Done? ==> w.data == old(w.data) + Print(t) && res.n == Size(t)
    ensures res.Panic? <==> Tags.Constructed(t.tag) && !MeasurableAll(t.children)
    ensures w.data == old(w.data) + (if res.Panic? then [] else Emitted(t))
    ensures !res.Panic? ==> res.n == |Emitted(t)|
    decreases t, 0
  {
    hide WritableAll, MeasurableAll, PrintAll, SizeAll, EmittedAll;
    if Writable(t) { EmittedWritable(t); }
    var length := ContentLength(t);
    if length.None? {
      if Writable(t) { WritableMeasurableAll(t.children); }
      return Panic;
    }
    if |t.value| > 0 && Tags.Constructed(t.tag) { return Refused(0); }
    if |t.children| > 0 && !Tags.Constructed(t.tag) { return Refused(0); }
    if length.value > 0xffffff { return Refused(0); }
    w.Write(t.tag);
    w.Write(LengthOctets(length.value));
    var n := |t.tag| + LengthSize(length.value);
    if !Tags.Constructed(t.tag) {
      w.Write(t.value);
      return Done(n + |t.value|);
    }
    var children := WriteChildren(t.children, w);
    return if children.Done? then Done(n + children.n) else Refused(n + children.n);
  }

  /** The loop over children inside it (tlv_writer.go:51-58). */
  method WriteChildren(ts: seq<Tlv>, w: Sink) returns (res: Written)
    requires MeasurableAll(ts)
    modifies w
    ensures res.Done? <==> WritableAll(ts)
    ensures !res.Panic? && w.data == old(w.data) + EmittedAll(ts) && res.n == |EmittedAll(ts)|
    decreases ts, 1
  {
    hide Print, Size, Writable, Content, Emitted, MeasurableAll, WritableAll, EmittedAll;
    var n, i := 0, 0;
    assert ts[0..] == ts;
    while i < |ts|
      invariant 0 <= i <= |ts| && MeasurableAll(ts[i..])
      invariant WritableAll(ts[i..]) <==> WritableAll(ts)
      invariant w.data + EmittedAll(ts[i..]) == old(w.data) + EmittedAll(ts)
      invariant n + |EmittedAll(ts[i..])| == |EmittedAll(ts)|
    {
      ghost var rest := EmittedAll(ts[i + 1..]);
      WriteTurn(ts, i);
      if ts[i].Node? {
        ghost var before := w.data;
        var child := WriteTo(ts[i], w);
        if !child.Done? { return Refused(n + child.n); }
        Regroup(before, Emitted(ts[i]), rest);
        n := n + child.n;
      }
      i := i + 1;
    }
    NothingLeft(ts[i..]);
    assert w.data + EmittedAll(ts[i..]) == w.data;
    return Done(n);
  }

  lemma WriteTurn(ts: seq<Tlv>, i: nat)
    requires i < |ts| && MeasurableAll(ts[i..])
    ensures Measurable(ts[i]) && MeasurableAll(ts[i + 1..])
    ensures WritableAll(ts[i..]) <==> Writable(ts[i]) && WritableAll(ts[i + 1..])
    ensures EmittedAll(ts[i..]) == Emitted(ts[i]) + if Writable(ts[i]) then EmittedAll(ts[i + 1..]) else []
    ensures !Writable(ts[i]) ==> EmittedAll(ts[i..]) == Emitted(ts[i])
    ensures ts[i].Nil? ==> Writable(ts[i]) && Emitted(ts[i]) == [] && EmittedAll(ts[i..]) == EmittedAll(ts[i + 1..])
    ensures ts[i].Node? ==> !Tags.Constructed(ts[i].tag) || MeasurableAll(ts[i].children)
  {
    assert ts[i..][0] == ts[i] && ts[i..][1..] == ts[i + 1..];
  }

  lemma NothingLeft(ts: seq<Tlv>)
    requires ts == []
    ensures EmittedAll(ts) == [] && WritableAll(ts)
  {
  }

  // What can be measured, and what can be written

  lemma EachOf(ts: seq<Tlv>)
    requires ts != []
    ensures ts[0] in ts && (forall t :: t in ts[1..] ==> t in ts) && forall t :: t in ts ==> t == ts[0] || t in ts[1..]
  {
  }

  lemma {:induction false} MeasurableEach(ts: seq<Tlv>)
    ensures MeasurableAll(ts) <==> forall t :: t in ts ==> Measurable(t)
  {
    hide Measurable;
    if ts != [] {
      MeasurableEach(ts[1..]);
      EachOf(ts);
    }
  }

  lemma {:induction false} WritableEach(ts: seq<Tlv>)
    ensures WritableAll(ts) <==> forall t :: t in ts ==> Writable(t)
  {
    hide Writable;
    if ts != [] {
      WritableEach(ts[1..]);
      EachOf(ts);
    }
  }

  /** A node can be measured exactly when its contents are no longer than FFFFFF octets and its children, if it is
      constructed, can be; and written exactly when, besides, it has a value or children as its form says. */
  lemma NodeLimits(t: Tlv)
    requires t.Node?
    ensures var inside := if Tags.Constructed(t.tag) then t.children else [];
            && (Measurable(t) <==> Content(t) <= 0xFFFFFF && forall c :: c in inside ==> Measurable(c))
            && (Writable(t) <==> && Content(t) <= 0xFFFFFF && (forall c :: c in inside ==> Writable(c))
                                 && if Tags.Constructed(t.tag) then t.value == [] else t.children == [])
  {
    MeasurableEach(t.children);
    WritableEach(t.children);
  }
}
