/** bertlv/tag.go: identifier octets (ITU-T X.690 section 8.1.2). */
module Tags {
  import opened Bytes

  type Tag = t: seq<byte> | |t| > 0 witness [0]

  const MAX_TAG: nat := 11

  function Class(t: Tag): int { t[0] / 64 }

  function Form(t: Tag): int { t[0] / 32 % 2 }

  predicate Constructed(t: Tag) { Form(t) == 1 }

  predicate LongForm(first: byte) { first % 32 == 31 }

  /** What reading identifier octets gives: n octets, an error, or an index past the 11-octet array. */
  datatype TagRead = TagOf(n: nat) | TagError | TagPanic

  /** The end of a long-form tag, looking from octet n on. */
  function TagEnd(s: seq<byte>, n: nat): (r: TagRead)
    requires 1 <= n <= MAX_TAG
    ensures r.TagOf? ==> n < r.n <= |s| && r.n <= MAX_TAG
    decreases MAX_TAG - n
  {
    if n == MAX_TAG then TagPanic
    else if n >= |s| then TagError
    else if s[n] < 128 then TagOf(n + 1)
    else TagEnd(s, n + 1)
  }

  function ReadTag(s: seq<byte>): (r: TagRead)
    ensures r.TagOf? ==> 1 <= r.n <= |s|
  {
    if s == [] then TagError
    else if !LongForm(s[0]) then TagOf(1)
    else TagEnd(s, 1)
  }

  /** Identifier octets as section 8.1.2 shapes them, up to the 11 octets the reader has room for. */
  ghost predicate WellFormed(t: seq<byte>) {
    && |t| >= 1
    && if LongForm(t[0]) then
         2 <= |t| <= MAX_TAG && t[|t| - 1] < 128 && forall i :: 1 <= i < |t| - 1 ==> t[i] >= 128
       else |t| == 1
  }

  lemma {:induction false} TagEndScan(s: seq<byte>, n: nat, k: nat)
    requires 1 <= n <= k < MAX_TAG && k < |s|
    requires s[k] < 128 && forall i :: n <= i < k ==> s[i] >= 128
    ensures TagEnd(s, n) == TagOf(k + 1)
    decreases k - n
  {
    if n < k { TagEndScan(s, n + 1, k); }
  }

  lemma {:induction false} TagEndShape(s: seq<byte>, n: nat)
    requires 1 <= n <= MAX_TAG && TagEnd(s, n).TagOf?
    ensures var k := TagEnd(s, n).n; s[k - 1] < 128 && forall i :: n <= i < k - 1 ==> s[i] >= 128
    decreases MAX_TAG - n
  {
    if s[n] >= 128 { TagEndShape(s, n + 1); }
  }

  /** The reader accepts exactly the well-formed tags, whatever follows them. */
  lemma ReadTagExact(s: seq<byte>, n: nat)
    requires n <= |s|
    ensures ReadTag(s) == TagOf(n) <==> WellFormed(s[..n])
  {
    if WellFormed(s[..n]) && LongForm(s[0]) {
      assert forall i :: 1 <= i < n ==> s[..n][i] == s[i];
      TagEndScan(s, 1, n - 1);
    }
    if ReadTag(s) == TagOf(n) && LongForm(s[0]) { TagEndShape(s, 1); }
  }

  /** How many octets reading a tag takes; all there are when they end too soon. */
  function TagTaken(s: seq<byte>): (n: nat)
    ensures n <= |s|
  {
    match ReadTag(s)
    case TagOf(n) => n
    case TagError => |s|
    case TagPanic => Min(MAX_TAG, |s|)
  }

  /** Tag.ReadFrom (tag.go:28-47). */
  method ReadFrom(r: Reader) returns (res: TagRead, tag: seq<byte>)
    modifies r
    ensures res == ReadTag(old(r.rest))
    ensures res.TagOf? ==> tag == old(r.rest)[..res.n]
    ensures r.rest == old(r.rest)[TagTaken(old(r.rest))..] && r.taken == old(r.taken) + TagTaken(old(r.rest))
  {
    var got := r.ReadFull(1);
    if |got| < 1 { return TagError, []; }
    tag := got;
    if !LongForm(tag[0]) { return TagOf(1), tag; }
    var n := 1;
    while true
      invariant 1 <= n <= MAX_TAG && n == |tag| <= |old(r.rest)|
      invariant tag == old(r.rest)[..n] && r.rest == old(r.rest)[n..] && r.taken == old(r.taken) + n
      invariant ReadTag(old(r.rest)) == TagEnd(old(r.rest), n)
      decreases MAX_TAG - n
    {
      if n == MAX_TAG { return TagPanic, []; }
      got := r.ReadFull(1);
      if |got| < 1 { return TagError, []; }
      tag := tag + got;
      if got[0] < 128 { return TagOf(n + 1), tag; }
      n := n + 1;
    }
  }

  /** Subsequent octets up to and including the first without the continuation bit. */
  function Digits(s: seq<byte>): seq<byte> {
    if s == [] then [] else if s[0] < 128 then [s[0]] else [s[0]] + Digits(s[1..])
  }

  /** The base-128 big-endian number of section 8.1.2.4.2. */
  function Base128(s: seq<byte>): nat {
    if s == [] then 0 else Base128(s[..|s| - 1]) * 128 + s[|s| - 1] % 128
  }

  function Number(t: Tag): nat {
    if LongForm(t[0]) then Base128(Digits(t[1..])) else t[0] % 32
  }

  lemma {:induction false} DigitsPrefix(s: seq<byte>, k: nat)
    requires k <= |s| && forall i :: 0 <= i < k ==> s[i] >= 128
    ensures Digits(s) == s[..k] + Digits(s[k..])
  {
    if k > 0 {
      DigitsPrefix(s[1..], k - 1);
      assert s[1..][k - 1..] == s[k..];
    }
  }

  /** In a well-formed long tag every subsequent octet is a digit. */
  lemma NumberOfWellFormed(t: Tag)
    requires WellFormed(t) && LongForm(t[0])
    ensures Number(t) == Base128(t[1..])
  {
    DigitsPrefix(t[1..], |t| - 2);
    assert t[1..][|t| - 2..] == [t[|t| - 1]];
    assert t[1..] == t[1..][..|t| - 2] + [t[|t| - 1]];
  }

  /** uint64 arithmetic */
  function Wrap(n: nat): nat { n % U64 }

  /** value <<= 7; value |= octet & 0x7f */
  function ShiftIn(value: nat, octet: byte): nat { Wrap(value * 128) + octet % 128 }

  /** Tag.Value (tag.go:61-75): 64-bit arithmetic gives the number modulo 2^64. */
  method Value(t: Tag) returns (value: nat)
    ensures value == Wrap(Number(t))
  {
    value := t[0] % 32;
    if value != 31 { return; }
    value := 0;
    var index := 1;
    while index < |t|
      invariant 1 <= index <= |t|
      invariant forall i :: 1 <= i < index ==> t[i] >= 128
      invariant value == Wrap(Base128(t[1..index]))
    {
      Base128Next(t, index);
      value := ShiftIn(value, t[index]);
      if t[index] < 128 {
        DigitsEnd(t, index);
        return;
      }
      index := index + 1;
    }
    var s := t[1..];
    assert s == t[1..index] == s[..|s|] && s[|s|..] == [];
    DigitsPrefix(s, |s|);
    assert Digits(s) == s;
  }

  lemma Base128Next(t: Tag, k: nat)
    requires 1 <= k < |t|
    ensures ShiftIn(Wrap(Base128(t[1..k])), t[k]) == Wrap(Base128(t[1..k + 1]))
  {
    assert t[1..k + 1][..k - 1] == t[1..k];
    var n := Base128(t[1..k]);
    hide Base128;
    ShiftWraps(n, t[k] % 128);
  }

  /** Shifting a group in loses only what leaves the 64-bit word. */
  lemma ShiftWraps(n: nat, d: nat)
    requires d < 128
    ensures Wrap(Wrap(n) * 128) + d == Wrap(n * 128 + d)
  {
    var q, r := n / U64, n % U64;
    var q2, r2 := r / 0x200_0000_0000_0000, r % 0x200_0000_0000_0000;
    assert U64 == 128 * 0x200_0000_0000_0000;
    WrapUnique(r * 128, q2, r2 * 128);
    WrapUnique(n * 128 + d, q * 128 + q2, r2 * 128 + d);
  }

  lemma WrapUnique(n: nat, q: nat, r: nat)
    requires n == q * U64 + r && r < U64
    ensures Wrap(n) == r
  {
  }

  lemma DigitsEnd(t: Tag, k: nat)
    requires 1 <= k < |t| && t[k] < 128 && forall i :: 1 <= i < k ==> t[i] >= 128
    ensures Digits(t[1..]) == t[1..k + 1]
  {
    DigitsPrefix(t[1..], k - 1);
    assert t[1..][k - 1..][0] == t[k] && t[1..][..k - 1] == t[1..k];
  }

  /** The subsequent octets that NewTag appends: low-order groups first. */
  function Groups(value: nat, first: bool): (s: seq<byte>) {
    if value == 0 then []
    else [value % 128 + if !first || value / 128 > 0 then 128 else 0] + Groups(value / 128, false)
  }

  function NewTag(class_: int, form: int, value: nat): (t: Tag)
    requires 0 <= class_ < 4 && 0 <= form < 2 && value < U64
  {
    var mask := class_ * 64 + form * 32;
    if value < 31 then [mask + value] else [mask + 31] + Groups(value, true)
  }

  /** NewTag (tag.go:11-26). */
  method BuildTag(class_: int, form: int, value: nat) returns (tag: Tag)
    requires 0 <= class_ < 4 && 0 <= form < 2 && value < U64
    ensures tag == NewTag(class_, form, value)
  {
    var mask := class_ * 64 + form * 32;
    if value < 31 { return [mask + value]; }
    tag := [mask + 31];
    var v := value;
    while v > 0
      invariant |tag| >= 1
      invariant NewTag(class_, form, value) == tag + Groups(v, |tag| == 1)
      decreases v
    {
      var b := v % 128;
      var rest := v / 128;
      if |tag| > 1 || rest > 0 { b := b + 128; }
      assert Groups(v, |tag| == 1) == [b] + Groups(rest, false);
      tag, v := tag + [b], rest;
    }
  }

  lemma {:induction false} GroupsContinue(value: nat)
    ensures forall i :: 0 <= i < |Groups(value, false)| ==> Groups(value, false)[i] >= 128
  {
    if value > 0 { GroupsContinue(value / 128); }
  }

  lemma {:induction false} TagEndSkips(s: seq<byte>, n: nat, k: nat)
    requires 1 <= n <= MAX_TAG && n <= k <= |s|
    requires forall i :: n <= i < k ==> s[i] >= 128
    ensures TagEnd(s, n).TagOf? ==> TagEnd(s, n).n > k
    decreases MAX_TAG - n
  {
    if n < MAX_TAG && n < k { TagEndSkips(s, n + 1, k); }
  }

  /** NewTag is undone by the reader, Class, Form and Number exactly for numbers below 128;
      from 128 on the reader never stops inside the octets NewTag wrote. */
  lemma NewTagInverse(class_: int, form: int, value: nat, rest: seq<byte>)
    requires 0 <= class_ < 4 && 0 <= form < 2 && value < U64
    ensures var t := NewTag(class_, form, value);
            && Class(t) == class_ && Form(t) == form
            && (value < 128 ==> Number(t) == value)
            && (ReadTag(t + rest) == TagOf(|t|) <==> value < 128)
            && (value >= 128 && ReadTag(t + rest).TagOf? ==> ReadTag(t + rest).n > |t|)
  {
    if value < 31 {
      var t := NewTag(class_, form, value);
      assert (t + rest)[0] == t[0] && t[0] % 32 == value;
    } else if value < 128 {
      OneGroup(class_, form, value, rest);
    } else {
      ManyGroups(class_, form, value, rest);
    }
  }

  /** Groups of seven bits as a number, the first the least significant. */
  function LowFirst(s: seq<byte>): nat {
    if s == [] then 0 else s[0] % 128 + 128 * LowFirst(s[1..])
  }

  lemma {:induction false} GroupsSpell(value: nat, first: bool)
    ensures var s := Groups(value, first);
            LowFirst(s) == value && (s != [] ==> s[|s| - 1] % 128 != 0) && (value > 0 ==> s != [])
  {
    if value > 0 {
      var rest := Groups(value / 128, false);
      GroupsSpell(value / 128, false);
      assert Groups(value, first)[1..] == rest;
      var d := value % 128;
      assert (d + 128) % 128 == d && d % 128 == d;
    }
  }

  /** What NewTag writes for any number: below 31 it is in the one octet; from there on it is spelled in groups of
      seven bits, the least significant first and the last not zero, and all of them say that another follows
      unless there is only one. */
  lemma NewTagSpells(class_: int, form: int, value: nat)
    requires 0 <= class_ < 4 && 0 <= form < 2 && value < U64
    ensures var t := NewTag(class_, form, value);
            && t[0] == 0x40 * class_ + 0x20 * form + (if value < 31 then value else 31)
            && (value < 31 ==> |t| == 1)
            && (value >= 31 ==> |t| >= 2 && LowFirst(t[1..]) == value && t[|t| - 1] % 128 != 0)
            && (|t| == 2 ==> t[1] < 128)
            && (|t| > 2 ==> forall i :: 1 <= i < |t| ==> t[i] >= 128)
  {
    if value >= 31 {
      var t := NewTag(class_, form, value);
      assert t[1..] == Groups(value, true);
      assert value / 128 == 0 <==> Groups(value / 128, false) == [];
      GroupsSpell(value, true);
      GroupsContinue(value / 128);
    }
  }

  lemma OneGroup(class_: int, form: int, value: nat, rest: seq<byte>)
    requires 0 <= class_ < 4 && 0 <= form < 2 && 31 <= value < 128
    ensures var t := NewTag(class_, form, value);
            Class(t) == class_ && Form(t) == form && Number(t) == value && ReadTag(t + rest) == TagOf(|t|)
  {
    var t := NewTag(class_, form, value);
    assert Groups(value / 128, false) == [];
    assert t == [class_ * 64 + form * 32 + 31, value];
    assert (t + rest)[0] == t[0] && (t + rest)[1] == value;
    assert t[1..] == [value] && [value][..0] == [];
    assert Digits([value]) == [value] && Base128([]) == 0;
  }

  lemma ManyGroups(class_: int, form: int, value: nat, rest: seq<byte>)
    requires 0 <= class_ < 4 && 0 <= form < 2 && 128 <= value < U64
    ensures var t := NewTag(class_, form, value);
            && Class(t) == class_ && Form(t) == form
            && (ReadTag(t + rest).TagOf? ==> ReadTag(t + rest).n > |t|)
  {
    var t := NewTag(class_, form, value);
    assert Groups(value, true) == [value % 128 + 128] + Groups(value / 128, false);
    GroupsContinue(value / 128);
    hide Groups;
    forall i | 1 <= i < |t| ensures (t + rest)[i] >= 128 {
      assert (t + rest)[i] == t[i] == Groups(value, true)[i - 1];
    }
    assert (t + rest)[0] == t[0];
    TagEndSkips(t + rest, 1, |t|);
  }

  /** Section 8.1.2.4: the low-number form below 31, and no leading zero group. */
  ghost predicate Canonical(t: Tag) {
    WellFormed(t) && (LongForm(t[0]) ==> Number(t) >= 31 && t[1] != 128)
  }

  lemma {:induction false} Base128Positive(s: seq<byte>)
    requires s != [] && s[0] % 128 != 0
    ensures Base128(s) > 0
  {
    if |s| > 1 { Base128Positive(s[..|s| - 1]); }
    else { assert s[..0] == []; }
  }

  /** Digit groups without a leading zero are determined by the number they spell. */
  lemma {:induction false} Base128Unique(a: seq<byte>, b: seq<byte>)
    requires a != [] ==> a[0] % 128 != 0
    requires b != [] ==> b[0] % 128 != 0
    requires Base128(a) == Base128(b)
    ensures |a| == |b| && forall i :: 0 <= i < |a| ==> a[i] % 128 == b[i] % 128
    decreases |a|
  {
    if a == [] || b == [] {
      if a != [] { Base128Positive(a); }
      if b != [] { Base128Positive(b); }
    } else {
      var x, y := a[..|a| - 1], b[..|b| - 1];
      assert Base128(x) == Base128(y) && a[|a| - 1] % 128 == b[|b| - 1] % 128;
      Base128Unique(x, y);
      assert forall i :: 0 <= i < |x| ==> x[i] == a[i] && y[i] == b[i];
    }
  }

  lemma FirstOctet(a: Tag, b: Tag)
    requires Canonical(a) && Canonical(b)
    requires Class(a) == Class(b) && Form(a) == Form(b) && Number(a) == Number(b)
    ensures a[0] == b[0]
  {
    assert a[0] / 32 == Class(a) * 2 + Form(a);
    assert b[0] / 32 == Class(b) * 2 + Form(b);
  }

  /** Class, form and number determine a canonical tag. */
  lemma CanonicalUnique(a: Tag, b: Tag)
    requires Canonical(a) && Canonical(b)
    requires Class(a) == Class(b) && Form(a) == Form(b) && Number(a) == Number(b)
    ensures a == b
  {
    FirstOctet(a, b);
    if LongForm(a[0]) {
      NumberOfWellFormed(a);
      NumberOfWellFormed(b);
      LeadingGroup(a);
      LeadingGroup(b);
      Base128Unique(a[1..], b[1..]);
      forall i | 0 <= i < |a| ensures a[i] == b[i] {
        if i > 0 { SameOctet(a, b, i); }
      }
    }
  }

  lemma SameOctet(a: Tag, b: Tag, i: nat)
    requires WellFormed(a) && WellFormed(b) && LongForm(a[0]) && LongForm(b[0])
    requires 0 < i < |a| == |b| && a[1..][i - 1] % 128 == b[1..][i - 1] % 128
    ensures a[i] == b[i]
  {
  }

  lemma LeadingGroup(t: Tag)
    requires Canonical(t) && LongForm(t[0])
    ensures t[1] % 128 != 0
  {
    if |t| == 2 {
      NumberOfWellFormed(t);
      assert t[1..] == [t[1]] && [t[1]][..0] == [];
    }
  }
}
