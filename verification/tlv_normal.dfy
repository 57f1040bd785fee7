/** Printing what was parsed: bertlv/tlv_reader.go followed by bertlv/tlv_writer.go. */
module Normalise {
  import opened Bytes
  import opened Tags
  import opened Lengths
  import opened BerTlv

  // What the parser accepts

  /** A parsed tree has no nil child, readable tags, and a value or children as its form says. */
  lemma {:induction false} ParsedShape(s: seq<byte>)
    requires Parse(s).Parsed?
    ensures var t := Parse(s).tlv;
            && t.Node? && ReadableTags(t) && Clone(t) == t
            && (if Constructed(t.tag) then t.value == [] else t.children == [] && |t.value| < U24)
    decreases |s|, 0
  {
    var h := ReadHeader(s);
    ReadTagExact(s, h.k);
    if Constructed(s[..h.k]) {
      ParsedAllShape(s[h.k + h.m..], h.length, 0);
    }
  }

  lemma {:induction false} ParsedAllShape(s: seq<byte>, length: nat, index: nat)
    requires ParseAll(s, length, index).ParsedAll?
    ensures var ts := ParseAll(s, length, index).children;
            ReadableTagsAll(ts) && CloneAll(ts) == ts
    decreases |s|, 1
  {
    if index < length {
      var Parsed(t, n) := Parse(s);
      ParsedShape(s);
      ParsedAllShape(s[n..], length, Add32(index, n));
      var rest := ParseAll(s[n..], length, Add32(index, n)).children;
      assert ([t] + rest)[1..] == rest;
    }
  }

  /** What an accepted node is made of. */
  lemma ParseInverted(s: seq<byte>)
    requires Parse(s).Parsed?
    ensures var h, r := ReadHeader(s), Parse(s);
            && h.Header? && r.tlv.Node? && r.tlv.tag == s[..h.k]
            && if Constructed(s[..h.k]) then
                 var c := ParseAll(s[h.k + h.m..], h.length, 0);
                 c.ParsedAll? && r.tlv.value == [] && r.tlv.children == c.children && r.n == h.k + h.m + c.n
               else
                 && r.tlv.children == [] && r.n == h.k + h.m + h.length <= |s|
                 && r.tlv.value == s[h.k + h.m..][..h.length]
  {
  }

  // How much printing adds or saves

  /** What the octets read say about the size of the re-encoding: octets that printing adds (or, if negative,
      saves). A node's content is what its run of children took, plus what printing them adds; the length
      octets that content needs replace the ones that were read. */
  ghost function Growth(s: seq<byte>): int
    requires Parse(s).Parsed?
    decreases |s|, 0
  {
    var h := ReadHeader(s);
    if Constructed(s[..h.k]) then
      var body := s[h.k + h.m..];
      var g := GrowthAll(body, h.length, 0);
      LengthSize(ParseAll(body, h.length, 0).n + g) - h.m + g
    else LengthSize(h.length) - h.m
  }

  ghost function GrowthAll(s: seq<byte>, length: nat, index: nat): int
    requires ParseAll(s, length, index).ParsedAll?
    decreases |s|, 1
  {
    if index >= length then 0
    else Growth(s) + GrowthAll(s[Parse(s).n..], length, Add32(index, Parse(s).n))
  }

  /** The size of the re-encoding is the number of octets consumed plus the growth. */
  lemma {:induction false} SizeGrowth(s: seq<byte>)
    requires Parse(s).Parsed?
    ensures Size(Parse(s).tlv) == Parse(s).n + Growth(s)
    decreases |s|, 0
  {
    hide Parse, ReadHeader, ReadLength, LengthSize, ParseAll, SizeAll, GrowthAll;
    var h := ReadHeader(s);
    ParseInverted(s);
    if Constructed(s[..h.k]) {
      SizeGrowthAll(s[h.k + h.m..], h.length, 0);
    }
  }

  lemma {:induction false} SizeGrowthAll(s: seq<byte>, length: nat, index: nat)
    requires ParseAll(s, length, index).ParsedAll?
    ensures var r := ParseAll(s, length, index);
            SizeAll(r.children) == r.n + GrowthAll(s, length, index)
    decreases |s|, 1
  {
    if index < length {
      var Parsed(t, n) := Parse(s);
      SizeGrowth(s);
      SizeGrowthAll(s[n..], length, Add32(index, n));
      var rest := ParseAll(s[n..], length, Add32(index, n)).children;
      assert ([t] + rest)[1..] == rest;
    }
  }

  // Runs of children that end where their parent's length says

  /** No last child runs over the declared length, here or below. */
  ghost predicate NoOverrun(s: seq<byte>)
    requires Parse(s).Parsed?
    decreases |s|, 0
  {
    var h := ReadHeader(s);
    Constructed(s[..h.k]) ==> NoOverrunAll(s[h.k + h.m..], h.length, 0)
  }

  ghost predicate NoOverrunAll(s: seq<byte>, length: nat, index: nat)
    requires ParseAll(s, length, index).ParsedAll?
    decreases |s|, 1
  {
    if index >= length then index == length
    else NoOverrun(s) && NoOverrunAll(s[Parse(s).n..], length, Add32(index, Parse(s).n))
  }

  lemma HeaderShortest(s: seq<byte>)
    requires ReadHeader(s).Header?
    ensures LengthSize(ReadHeader(s).length) <= ReadHeader(s).m
  {
  }

  lemma ShorterLength(a: int, b: int)
    requires a <= b
    ensures LengthSize(a) <= LengthSize(b)
  {
  }

  /** Without an overrun the contents fit and the re-encoding is never longer. */
  lemma {:induction false} NoOverrunShrinks(s: seq<byte>)
    requires |s| < U32 && Parse(s).Parsed? && NoOverrun(s)
    ensures Writable(Parse(s).tlv) && Growth(s) <= 0
    decreases |s|, 0
  {
    hide Parse, ReadHeader, ParseAll, WritableAll, SizeAll, NoOverrunAll, GrowthAll, LengthSize, Clone, ReadableTags;
    var h := ReadHeader(s);
    ParseInverted(s);
    ParsedShape(s);
    HeaderShortest(s);
    if Constructed(s[..h.k]) {
      var body := s[h.k + h.m..];
      NoOverrunShrinksAll(body, h.length, 0);
      SizeGrowthAll(body, h.length, 0);
    }
    ShorterLength(Content(Parse(s).tlv), h.length);
  }

  lemma {:induction false} NoOverrunShrinksAll(s: seq<byte>, length: nat, index: nat)
    requires index + |s| < U32 && ParseAll(s, length, index).ParsedAll? && NoOverrunAll(s, length, index)
    ensures var r := ParseAll(s, length, index);
            WritableAll(r.children) && GrowthAll(s, length, index) <= 0 && index + r.n == length
    decreases |s|, 1
  {
    hide Parse, NoOverrun, Growth, Writable;
    if index < length {
      var Parsed(t, n) := Parse(s);
      NoWrap(index, n);
      NoOverrunShrinks(s);
      NoOverrunShrinksAll(s[n..], length, index + n);
      PrintCons(t, ParseAll(s[n..], length, index + n).children);
    }
  }

  // Exactly when the re-encoding is longer

  /** Here and below, every length was read in its shortest form. */
  ghost predicate Shortest(s: seq<byte>)
    requires Parse(s).Parsed?
    decreases |s|, 0
  {
    var h := ReadHeader(s);
    && LengthSize(h.length) == h.m
    && (Constructed(s[..h.k]) ==> ShortestAll(s[h.k + h.m..], h.length, 0))
  }

  ghost predicate ShortestAll(s: seq<byte>, length: nat, index: nat)
    requires ParseAll(s, length, index).ParsedAll?
    decreases |s|, 1
  {
    index < length ==> Shortest(s) && ShortestAll(s[Parse(s).n..], length, Add32(index, Parse(s).n))
  }

  /** Here and below, where every run of children ends can still be said in the length octets that were read. */
  ghost predicate Fits(s: seq<byte>)
    requires Parse(s).Parsed?
    decreases |s|, 0
  {
    var h := ReadHeader(s);
    Constructed(s[..h.k]) ==>
      var body := s[h.k + h.m..];
      LengthSize(ParseAll(body, h.length, 0).n) <= h.m && FitsAll(body, h.length, 0)
  }

  ghost predicate FitsAll(s: seq<byte>, length: nat, index: nat)
    requires ParseAll(s, length, index).ParsedAll?
    decreases |s|, 1
  {
    index < length ==> Fits(s) && FitsAll(s[Parse(s).n..], length, Add32(index, Parse(s).n))
  }

  lemma FitsNode(s: seq<byte>, h: Header)
    requires Parse(s).Parsed? && h == ReadHeader(s) && Constructed(s[..h.k])
    ensures h.Header? && ParseAll(s[h.k + h.m..], h.length, 0).ParsedAll?
    ensures var body := s[h.k + h.m..];
            var n, g := ParseAll(body, h.length, 0).n, GrowthAll(body, h.length, 0);
            && Growth(s) == LengthSize(n + g) - h.m + g
            && (Fits(s) <==> LengthSize(n) <= h.m && FitsAll(body, h.length, 0))
            && (Shortest(s) <==> LengthSize(h.length) == h.m && ShortestAll(body, h.length, 0))
  {
    hide ReadHeader, ParseAll, LengthSize, GrowthAll, FitsAll, ShortestAll, Parse;
    ParseInverted(s);
  }

  /** Whatever the lengths, as long as every run fits, the re-encoding is not longer. */
  lemma {:induction false} FittingShrinks(s: seq<byte>)
    requires Parse(s).Parsed? && Fits(s)
    ensures Growth(s) <= 0
    decreases |s|, 0
  {
    hide Parse, ParseAll, ReadHeader, LengthSize, GrowthAll, FitsAll, Fits, Shortest;
    var h := ReadHeader(s);
    ParseInverted(s);
    HeaderShortest(s);
    if Constructed(s[..h.k]) {
      var body := s[h.k + h.m..];
      FitsNode(s, h);
      FittingShrinksAll(body, h.length, 0);
      ShorterLength(ParseAll(body, h.length, 0).n + GrowthAll(body, h.length, 0), ParseAll(body, h.length, 0).n);
    }
  }

  lemma {:induction false} FittingShrinksAll(s: seq<byte>, length: nat, index: nat)
    requires ParseAll(s, length, index).ParsedAll? && FitsAll(s, length, index)
    ensures GrowthAll(s, length, index) <= 0
    decreases |s|, 1
  {
    hide Fits, Growth;
    if index < length {
      FittingShrinks(s);
      FittingShrinksAll(s[Parse(s).n..], length, Add32(index, Parse(s).n));
    }
  }

  /** With shortest lengths nothing is saved, and something is added exactly when a run does not fit. */
  lemma {:induction false} ShortestGrows(s: seq<byte>)
    requires |s| < U32 && Parse(s).Parsed? && Shortest(s)
    ensures Growth(s) >= 0 && (Growth(s) == 0 <==> Fits(s))
    decreases |s|, 0
  {
    hide Parse, ParseAll, ReadHeader, LengthSize, GrowthAll, FitsAll, ShortestAll;
    var h := ReadHeader(s);
    ParseInverted(s);
    if Constructed(s[..h.k]) {
      hide Growth, Fits, Shortest;
      var body := s[h.k + h.m..];
      FitsNode(s, h);
      ShortestGrowsAll(body, h.length, 0);
      var n, g := ParseAll(body, h.length, 0).n, GrowthAll(body, h.length, 0);
      ShorterLength(h.length, n);
      ShorterLength(n, n + g);
    }
  }

  lemma {:induction false} ShortestGrowsAll(s: seq<byte>, length: nat, index: nat)
    requires index + |s| < U32 && ParseAll(s, length, index).ParsedAll? && ShortestAll(s, length, index)
    ensures GrowthAll(s, length, index) >= 0 && (GrowthAll(s, length, index) == 0 <==> FitsAll(s, length, index))
    ensures index + ParseAll(s, length, index).n >= length
    decreases |s|, 1
  {
    hide Parse, Fits, Growth, Shortest;
    if index < length {
      var n := Parse(s).n;
      NoWrap(index, n);
      ShortestGrows(s);
      ShortestGrowsAll(s[n..], length, index + n);
    }
  }

  // Octets that printing leaves alone

  /** Every length is in its shortest form and every run of children ends exactly where its
      parent's length says. */
  ghost predicate Canonical(s: seq<byte>)
    requires Parse(s).Parsed?
  {
    Shortest(s) && NoOverrun(s)
  }

  ghost predicate CanonicalAll(s: seq<byte>, length: nat, index: nat)
    requires ParseAll(s, length, index).ParsedAll?
  {
    ShortestAll(s, length, index) && NoOverrunAll(s, length, index)
  }

  lemma CanonicalNode(s: seq<byte>, h: Header)
    requires Parse(s).Parsed? && h == ReadHeader(s)
    ensures h.Header? && (Constructed(s[..h.k]) ==> ParseAll(s[h.k + h.m..], h.length, 0).ParsedAll?)
    ensures Canonical(s) <==> && LengthSize(h.length) == h.m
                              && (Constructed(s[..h.k]) ==> CanonicalAll(s[h.k + h.m..], h.length, 0))
  {
    hide ReadHeader, ParseAll, LengthSize, Parse, ShortestAll, NoOverrunAll;
    ParseInverted(s);
  }

  lemma HeaderRewritten(s: seq<byte>)
    requires ReadHeader(s).Header? && LengthSize(ReadHeader(s).length) == ReadHeader(s).m
    ensures var h := ReadHeader(s); LengthOctets(h.length) == s[h.k..][..h.m]
  {
    WriteRead(s[ReadHeader(s).k..]);
  }

  lemma {:induction false} CanonicalReprints(s: seq<byte>)
    requires |s| < U32 && Parse(s).Parsed? && Canonical(s)
    ensures var r := Parse(s); Writable(r.tlv) && Print(r.tlv) == s[..r.n]
    decreases |s|, 0
  {
    hide Parse, ReadHeader, LengthOctets, LengthSize, ParseAll, PrintAll, WritableAll, SizeAll, Canonical, CanonicalAll;
    hide Clone, ReadableTags;
    var h := ReadHeader(s);
    var r := Parse(s);
    ParsedShape(s);
    ParseInverted(s);
    CanonicalNode(s, h);
    HeaderRewritten(s);
    if Constructed(s[..h.k]) {
      CanonicalReprintsAll(s[h.k + h.m..], h.length, 0);
    }
    Join(s, h.k, h.m);
    Join(s, h.k + h.m, h.length);
  }

  /** One turn of the child loop, read backwards. */
  lemma Turn(s: seq<byte>, length: nat, index: nat)
    requires index < length && index + |s| < U32 && ParseAll(s, length, index).ParsedAll?
    ensures Parse(s).Parsed?
    ensures var n := Parse(s).n;
            && ParseAll(s[n..], length, index + n).ParsedAll?
            && (CanonicalAll(s, length, index) <==> Canonical(s) && CanonicalAll(s[n..], length, index + n))
            && var rest := ParseAll(s[n..], length, index + n);
               ParseAll(s, length, index) == ParsedAll([Parse(s).tlv] + rest.children, n + rest.n)
  {
    hide Parse, Shortest, NoOverrun, Add32;
    var n := Parse(s).n;
    NoWrap(index, n);
  }

  /** The child loop when there is nothing left to read. */
  lemma NoTurn(s: seq<byte>, length: nat, index: nat)
    requires index >= length
    ensures ParseAll(s, length, index) == ParsedAll([], 0) && (CanonicalAll(s, length, index) <==> index == length)
    ensures WritableAll([]) && PrintAll([]) == []
  {
  }

  lemma PrintCons(t: Tlv, ts: seq<Tlv>)
    ensures WritableAll([t] + ts) <==> Writable(t) && WritableAll(ts)
    ensures WritableAll([t] + ts) ==> PrintAll([t] + ts) == Print(t) + PrintAll(ts)
  {
  }

  lemma {:induction false} CanonicalReprintsAll(s: seq<byte>, length: nat, index: nat)
    requires index + |s| < U32 && ParseAll(s, length, index).ParsedAll? && CanonicalAll(s, length, index)
    ensures var r := ParseAll(s, length, index);
            && index + r.n == length
            && WritableAll(r.children) && PrintAll(r.children) == s[..r.n]
    decreases |s|, 1
  {
    hide Parse, Canonical, Print, Writable, Size, ParseAll, CanonicalAll, PrintAll, WritableAll, SizeAll;
    if index >= length {
      NoTurn(s, length, index);
    } else {
      Turn(s, length, index);
      var Parsed(t, n) := Parse(s);
      CanonicalReprints(s);
      CanonicalReprintsAll(s[n..], length, index + n);
      var rest := ParseAll(s[n..], length, index + n);
      PrintCons(t, rest.children);
      Join(s, n, rest.n);
    }
  }

  lemma {:induction false} ReprintedCanonical(s: seq<byte>)
    requires |s| < U32 && Parse(s).Parsed? && Writable(Parse(s).tlv)
    requires Print(Parse(s).tlv) == s[..Parse(s).n]
    ensures Canonical(s)
    decreases |s|, 0
  {
    hide Parse, ParseAll, Print, PrintAll, Writable, WritableAll, ReadHeader, Content, Clone, LengthSize;
    hide Canonical, CanonicalAll;
    var t := Parse(s).tlv;
    ParsedShape(s);
    if Constructed(t.tag) { ReprintedShape(t); }
    ReprintedHeader(s, t);
    CanonicalNode(s, ReadHeader(s));
    if Constructed(t.tag) {
      var body := PrintAll(t.children) + s[Parse(s).n..];
      ReprintedBody(s, t);
      ReprintedCanonicalAll(body, Content(t), 0);
    }
  }

  lemma ReprintedShape(t: Tlv)
    requires t.Node? && Writable(t) && Constructed(t.tag)
    ensures WritableAll(t.children) && SizeAll(t.children) == Content(t)
  {
  }

  lemma ReprintedHeader(s: seq<byte>, t: Tlv)
    requires t.Node? && Writable(t) && WellFormed(t.tag) && Print(t) <= s
    ensures ReadHeader(s) == Header(|t.tag|, Content(t), LengthSize(Content(t)))
    ensures s[..|t.tag|] == t.tag
    ensures s[|t.tag| + LengthSize(Content(t))..]
            == (if Constructed(t.tag) then PrintAll(t.children) else t.value) + s[Size(t)..]
  {
    var content := (if Constructed(t.tag) then PrintAll(t.children) else t.value) + s[Size(t)..];
    assert s == t.tag + LengthOctets(Content(t)) + content;
    ReadPrintedHeader(t.tag, Content(t), content);
  }

  lemma ReprintedBody(s: seq<byte>, t: Tlv)
    requires Parse(s).Parsed? && t == Parse(s).tlv && t.Node? && Writable(t) && Constructed(t.tag)
    requires Print(t) == s[..Parse(s).n]
    requires ReadHeader(s) == Header(|t.tag|, Content(t), LengthSize(Content(t)))
    requires s[|t.tag| + LengthSize(Content(t))..] == PrintAll(t.children) + s[Size(t)..]
    ensures Size(t) == Parse(s).n
    ensures ParseAll(PrintAll(t.children) + s[Size(t)..], Content(t), 0) == ParsedAll(t.children, Content(t))
  {
    hide ParseAll, PrintAll, Content, LengthSize, LengthOctets, ReadHeader, WritableAll, SizeAll;
    ParseInverted(s);
  }

  lemma {:induction false} ReprintedCanonicalAll(s: seq<byte>, length: nat, index: nat)
    requires index + |s| < U32 && ParseAll(s, length, index).ParsedAll?
    requires var r := ParseAll(s, length, index);
             index + r.n == length && WritableAll(r.children) && PrintAll(r.children) == s[..r.n]
    ensures CanonicalAll(s, length, index)
    decreases |s|, 1
  {
    hide Parse, Canonical, Print, PrintAll, Writable, WritableAll;
    if index < length {
      Turn(s, length, index);
      ReprintedTurn(s, length, index);
      hide ParseAll, CanonicalAll;
      var n := Parse(s).n;
      ReprintedCanonical(s);
      ReprintedCanonicalAll(s[n..], length, index + n);
    }
  }

  lemma ReprintedTurn(s: seq<byte>, length: nat, index: nat)
    requires index < length && index + |s| < U32 && ParseAll(s, length, index).ParsedAll?
    requires var r := ParseAll(s, length, index);
             index + r.n == length && WritableAll(r.children) && PrintAll(r.children) == s[..r.n]
    ensures Parse(s).Parsed? && Writable(Parse(s).tlv) && Print(Parse(s).tlv) == s[..Parse(s).n]
    ensures ParseAll(s[Parse(s).n..], length, index + Parse(s).n).ParsedAll?
    ensures var r := ParseAll(s[Parse(s).n..], length, index + Parse(s).n);
            && index + Parse(s).n + r.n == length
            && WritableAll(r.children) && PrintAll(r.children) == s[Parse(s).n..][..r.n]
  {
    hide Parse, Canonical, Print, PrintAll, Writable, WritableAll, ParseAll, CanonicalAll, ReadHeader, Content, Size;
    Turn(s, length, index);
    var Parsed(t, n) := Parse(s);
    var rest := ParseAll(s[n..], length, index + n);
    ParsedShape(s);
    PrintCons(t, rest.children);
    ReprintedSplit(s, t, n, rest.children, rest.n);
  }

  lemma ReprintedSplit(s: seq<byte>, t: Tlv, n: nat, ts: seq<Tlv>, m: nat)
    requires Parse(s) == Parsed(t, n) && t.Node? && ReadableTags(t) && Clone(t) == t
    requires Writable(t) && WritableAll(ts) && n + m <= |s| && Print(t) + PrintAll(ts) == s[..n + m]
    ensures Print(t) == s[..n] && PrintAll(ts) == s[n..][..m]
  {
    hide Print, PrintAll, Writable, WritableAll, Clone, ReadableTags, Parse, Size;
    Cut(s, Print(t), PrintAll(ts), n + m);
    ParsePrinted(t, PrintAll(ts) + s[n + m..]);
  }

  // The laws

  /** Whatever was parsed, if its contents fit: the re-encoding has the size that the growth says,
      parses to the same tree whatever follows, and is the octets consumed exactly when those had
      shortest lengths and exact runs. */
  lemma PrintParsed(s: seq<byte>, rest: seq<byte>)
    requires |s| < U32 && Parse(s).Parsed? && Writable(Parse(s).tlv)
    ensures var r := Parse(s);
            && |Print(r.tlv)| == r.n + Growth(s)
            && Parse(Print(r.tlv) + rest) == Parsed(r.tlv, |Print(r.tlv)|)
            && (Print(r.tlv) == s[..r.n] <==> Canonical(s))
  {
    hide Parse, ParseAll, Canonical, Print, Writable, Clone, ReadableTags, Growth;
    var r := Parse(s);
    SizeGrowth(s);
    ParsedShape(s);
    ParsePrinted(r.tlv, rest);
    if Canonical(s) {
      CanonicalReprints(s);
    }
    if Print(r.tlv) == s[..r.n] {
      ReprintedCanonical(s);
    }
  }

  /** A re-encoding is longer than what was parsed only if some run of children, here or below, ends at a count
      that the length octets read for it cannot say; and when all lengths were read in shortest form, it is
      longer exactly then. Both can be told from the octets alone. */
  lemma LongerExactly(s: seq<byte>)
    requires |s| < U32 && Parse(s).Parsed? && Writable(Parse(s).tlv)
    ensures var longer := |Print(Parse(s).tlv)| > Parse(s).n;
            && (longer <==> Growth(s) > 0)
            && (longer ==> !Fits(s))
            && (Shortest(s) ==> (longer <==> !Fits(s)))
  {
    hide Parse, Growth, Fits, Shortest, Writable;
    SizeGrowth(s);
    if Fits(s) { FittingShrinks(s); }
    if Shortest(s) { ShortestGrows(s); }
  }

  function Zeros(n: nat): seq<byte> { seq(n, _ => 0) }

  function Leaf(n: nat): (t: Tlv) { Node([0x80], Zeros(n), []) }

  lemma ParseLeaf(n: nat, tail: seq<byte>)
    requires n < 128
    ensures Parse([0x80, n] + Zeros(n) + tail) == Parsed(Leaf(n), n + 2)
    ensures ([0x80, n] + Zeros(n) + tail)[n + 2..] == tail
  {
    assert [0x80] + LengthOctets(n) + (Zeros(n) + tail) == [0x80, n] + Zeros(n) + tail;
    ReadPrintedHeader([0x80], n, Zeros(n) + tail);
    assert (Zeros(n) + tail)[..n] == Zeros(n);
  }

  /** A container declaring 127 octets whose second child starts at 126 and runs to 130. */
  function Overrunning(): seq<byte> {
    [0xA0, 127] + ([0x80, 124] + Zeros(124) + ([0x80, 2] + Zeros(2) + []))
  }

  lemma ParseBody(body: seq<byte>)
    requires body == [0x80, 124] + Zeros(124) + ([0x80, 2] + Zeros(2) + [])
    ensures ParseAll(body, 127, 0) == ParsedAll([Leaf(124), Leaf(2)], 130)
  {
    var last := [0x80, 2] + Zeros(2) + [];
    ParseLeaf(124, last);
    ParseLeaf(2, []);
    assert ParseAll([], 127, 130) == ParsedAll([], 0);
    assert last == last + [];
    hide Parse, ParseAll, Zeros, Leaf;
    ParseAllStep(last, [], 127, 126, Leaf(2), [], 0);
    ParseAllStep([0x80, 124] + Zeros(124), last, 127, 0, Leaf(124), [Leaf(2)] + [], 4);
    assert [Leaf(124)] + ([Leaf(2)] + []) == [Leaf(124), Leaf(2)];
  }

  lemma TwoLeaves(ts: seq<Tlv>)
    requires ts == [Leaf(124), Leaf(2)]
    ensures SizeAll(ts) == 130 && WritableAll(ts)
  {
    assert ts[1..] == [Leaf(2)] && ts[1..][1..] == [];
    assert Size(Leaf(124)) == 126 && Size(Leaf(2)) == 4;
    assert SizeAll(ts[1..]) == 4;
  }

  /** Re-encoding can be longer than what was read: the overrun takes the content past 127 octets,
      and a second length octet is needed. */
  lemma OverrunGrows()
    ensures var s := Overrunning();
            && Parse(s).Parsed? && Parse(s).n == |s| == 132
            && Writable(Parse(s).tlv) && |Print(Parse(s).tlv)| == 133 && !NoOverrun(s)
  {
    var s := Overrunning();
    var body, ts := s[2..], [Leaf(124), Leaf(2)];
    ParseBody(body);
    assert [0xA0] + LengthOctets(127) + body == s;
    ReadPrintedHeader([0xA0], 127, body);
    hide Parse, ReadHeader, Zeros, Leaf, ReadTag, ReadLength;
    ParseConstructed(s, 1, 127, 1, ts, 130);
    TwoLeaves(ts);
    hide ParseAll, SizeAll, WritableAll, NoOverrunAll;
    if NoOverrun(s) {
      NoOverrunShrinks(s);
      SizeGrowth(s);
    }
  }
}
