/** driver/qmi/protocol/tlv.go: lists of type-length-value fields and the result among them. */
module QmiTlv {
  import opened Bytes

  /** A TLV as it is held: its length field is not tied to its value. */
  datatype Tlv = Tlv(kind: byte, len: u16, value: seq<byte>)

  const RESULT: byte := 0x02

  predicate Truthful(t: Tlv) { t.len == |t.value| }

  predicate AllTruthful(ts: seq<Tlv>) { forall t :: t in ts ==> Truthful(t) }

  function Field(t: Tlv): (s: seq<byte>)
    ensures |s| == 3 + |t.value|
  {
    [t.kind] + Le16(t.len) + t.value
  }

  function Fields(ts: seq<Tlv>): seq<byte> {
    if ts == [] then [] else Field(ts[0]) + Fields(ts[1..])
  }

  /** The TLVs before the first with a length that is not its value's. */
  function Good(ts: seq<Tlv>): (prefix: seq<Tlv>)
    ensures AllTruthful(prefix) && |prefix| <= |ts|
    ensures |prefix| == |ts| <==> AllTruthful(ts)
  {
    if ts == [] || !Truthful(ts[0]) then [] else [ts[0]] + Good(ts[1..])
  }

  /** They are all TLVs up to the first with a wrong length. */
  lemma {:induction false} GoodIsPrefix(ts: seq<Tlv>)
    ensures var n := |Good(ts)|;
            && Good(ts) == ts[..n] && (forall i :: 0 <= i < n ==> ts[i].len == |ts[i].value|)
            && (n < |ts| ==> ts[n].len != |ts[n].value|)
  {
    if ts != [] && Truthful(ts[0]) {
      GoodIsPrefix(ts[1..]);
      assert forall i :: 1 <= i < |ts| ==> ts[i] == ts[1..][i - 1];
    }
  }

  lemma FieldsCons(t: Tlv, ts: seq<Tlv>)
    ensures Fields([t] + ts) == Field(t) + Fields(ts)
  {
  }

  lemma {:induction false} FieldsMore(ts: seq<Tlv>, t: Tlv)
    ensures Fields(ts + [t]) == Fields(ts) + Field(t)
  {
    hide Field;
    if ts == [] {
      assert [t][1..] == [] && ts + [t] == [t];
    } else {
      FieldsMore(ts[1..], t);
      assert (ts + [t])[1..] == ts[1..] + [t];
    }
  }

  /** A turn of the write loop: done is written, and rest comes next. */
  lemma GoodTurn(ts: seq<Tlv>, done: seq<Tlv>, rest: seq<Tlv>)
    requires Good(ts) == done + Good(rest)
    ensures rest == [] || !Truthful(rest[0]) ==> Good(ts) == done
    ensures rest != [] && Truthful(rest[0]) ==> Good(ts) == (done + [rest[0]]) + Good(rest[1..])
  {
  }

  /** WriteTo (tlv.go:57-81) */
  method WriteTo(ts: seq<Tlv>, w: Sink) returns (written: nat, ok: bool)
    modifies w
    ensures ok <==> AllTruthful(ts)
    ensures w.data == old(w.data) + Fields(Good(ts)) && written == |Fields(Good(ts))|
    ensures ok ==> Good(ts) == ts
  {
    hide Field, Good, Fields, AllTruthful;
    written := 0;
    ghost var done: seq<Tlv>, before := [], w.data;
    var i := 0;
    NothingDone(ts, before);
    while i < |ts|
      invariant 0 <= i <= |ts| && done == ts[..i] && Good(ts) == done + Good(ts[i..])
      invariant w.data == before + Fields(done) && written == |Fields(done)|
    {
      var t := ts[i];
      assert ts[i..][0] == t && ts[i..][1..] == ts[i + 1..];
      GoodTurn(ts, done, ts[i..]);
      if t.len != |t.value| {
        return written, false;
      }
      FieldsMore(done, t);
      assert before + (Fields(done) + Field(t)) == before + Fields(done) + Field(t);
      WriteField(t, w);
      written := written + 3 + |t.value|;
      done := done + [t];
      i := i + 1;
    }
    GoodTurn(ts, done, ts[i..]);
    return written, true;
  }

  lemma NothingDone(ts: seq<Tlv>, before: seq<byte>)
    ensures Good(ts) == [] + Good(ts[0..]) && Fields([]) == [] && before + [] == before
  {
  }

  /** The three writes of one TLV (tlv.go:63-79). */
  method WriteField(t: Tlv, w: Sink)
    modifies w
    ensures w.data == old(w.data) + Field(t)
  {
    w.Write([t.kind]);
    w.Write(Le16(t.len));
    w.Write(t.value);
  }

  /** The fields of s, all of it; None when one is cut short. */
  function ParseFields(s: seq<byte>): (ts: Option<seq<Tlv>>)
    decreases |s|
  {
    if s == [] then Some([])
    else if |s| < 3 then None
    else
      var n := Get16(s, 1);
      if |s| < 3 + n then None
      else
        var later := ParseFields(s[3 + n..]);
        if later.None? then None else Some([Tlv(s[0], n, s[3..3 + n])] + later.value)
  }

  /** How many octets the reader counts: what is read of a field that is cut short in its header but for its
      length, and what there is of one that is cut short in its value. */
  function CountOf(s: seq<byte>): (n: nat)
    ensures n <= |s| && (ParseFields(s).Some? ==> n == |s|)
    decreases |s|
  {
    if s == [] then 0
    else if |s| < 3 then 1
    else
      var n := Get16(s, 1);
      if |s| < 3 + n then |s| else 3 + n + CountOf(s[3 + n..])
  }

  // The result

  /** What the result TLV says; TooShort and Missing are errors too. */
  datatype Result = Success | Failure(code: u16) | TooShort | Missing

  /** Find (tlv.go:83-90) */
  function Find(ts: seq<Tlv>, kind: byte): (t: Option<Tlv>)
    ensures t.Some? <==> exists x :: x in ts && x.kind == kind
    ensures t.Some? ==> t.value in ts && t.value.kind == kind
  {
    if ts == [] then None
    else if ts[0].kind == kind then Some(ts[0])
    else
      assert forall x :: x in ts ==> x == ts[0] || x in ts[1..];
      Find(ts[1..], kind)
  }

  /** Error of the list and of the TLV it finds (tlv.go:16-24, 92-98) */
  function ResultOf(ts: seq<Tlv>): (r: Result) {
    var t := Find(ts, RESULT);
    if t.None? then Missing
    else if |t.value.value| < 4 then TooShort
    else if Get16(t.value.value, 0) == 0 then Success
    else Failure(Get16(t.value.value, 2))
  }

  /** What reading on from rest adds to the TLVs read before. */
  ghost predicate Ahead(s: seq<byte>, ts: seq<Tlv>, read: nat, rest: seq<byte>) {
    && CountOf(s) == read + CountOf(rest)
    && (ParseFields(s).Some? <==> ParseFields(rest).Some?)
    && (ParseFields(s).Some? ==> ParseFields(s).value == ts + ParseFields(rest).value)
  }

  lemma AheadTurn(s: seq<byte>, ts: seq<Tlv>, read: nat, rest: seq<byte>)
    requires Ahead(s, ts, read, rest)
    ensures rest == [] ==> ParseFields(s) == Some(ts) && CountOf(s) == read
    ensures 0 < |rest| < 3 ==> ParseFields(s) == None && CountOf(s) == read + 1
    ensures |rest| >= 3 ==>
              var n := Get16(rest, 1);
              if |rest| < 3 + n then ParseFields(s) == None && CountOf(s) == read + |rest|
              else Ahead(s, ts + [Tlv(rest[0], n, rest[3..3 + n])], read + 3 + n, rest[3 + n..])
  {
    hide Get16;
    if rest == [] { assert ts + [] == ts; }
  }

  /** ReadFrom (tlv.go:28-55) on a list that is empty before: a field cut short is an error, and so is any
      result but success. */
  method ReadFrom(r: Reader) returns (ts: seq<Tlv>, read: nat, cut: bool, result: Result)
    modifies r
    ensures cut <==> ParseFields(old(r.rest)).None?
    ensures !cut ==> ts == ParseFields(old(r.rest)).value && result == ResultOf(ts)
    ensures read == CountOf(old(r.rest))
    ensures r.rest == [] && r.taken == old(r.taken) + |old(r.rest)|
  {
    hide Get16, ResultOf, ParseFields, CountOf, Ahead;
    ts, read, result := [], 0, Missing;
    ghost var s := r.rest;
    AheadStart(s);
    while true
      invariant r.taken + |r.rest| == old(r.taken) + |s|
      invariant Ahead(s, ts, read, r.rest)
      decreases |r.rest|
    {
      ghost var rest := r.rest;
      AheadTurn(s, ts, read, rest);
      var kind := r.ReadFull(1);
      if |kind| < 1 { break; }
      read := read + 1;
      var len := r.ReadFull(2);
      if |len| < 2 { return ts, read, true, result; }
      read := read + 2;
      SameHalf(len, rest);
      var n := Get16(len, 0);
      ThreeReads(rest, n);
      var value := r.ReadFull(n);
      read := read + |value|;
      if |value| < n { return ts, read, true, result; }
      ts := ts + [Tlv(kind[0], n, value)];
    }
    return ts, read, false, ResultOf(ts);
  }

  lemma AheadStart(s: seq<byte>)
    ensures Ahead(s, [], 0, s)
  {
  }

  /** One octet, two, and then n. */
  lemma ThreeReads(s: seq<byte>, n: nat)
    requires |s| >= 3
    ensures s[1..][2..] == s[3..]
    ensures 3 + n <= |s| ==> s[3..][..n] == s[3..3 + n] && s[3..][n..] == s[3 + n..]
  {
  }

  lemma SameHalf(a: seq<byte>, b: seq<byte>)
    requires |a| >= 2 && |b| >= 3 && a[0] == b[1] && a[1] == b[2]
    ensures Get16(a, 0) == Get16(b, 1)
  {
  }

  // The laws

  lemma FieldAhead(t: Tlv, later: seq<byte>)
    requires Truthful(t)
    ensures var s := Field(t) + later;
            && |s| >= 3 && s[0] == t.kind && Get16(s, 1) == t.len && |s| >= 3 + t.len
            && s[3..3 + t.len] == t.value && s[3 + t.len..] == later
  {
  }

  /** Reading back what was written. */
  lemma {:induction false} ParseWritten(ts: seq<Tlv>)
    requires AllTruthful(ts)
    ensures ParseFields(Fields(ts)) == Some(ts)
  {
    hide Field, Get16;
    if ts != [] {
      ParseWritten(ts[1..]);
      FieldAhead(ts[0], Fields(ts[1..]));
      assert ts == [ts[0]] + ts[1..];
    }
  }

  /** Only what would be written is read. */
  lemma {:induction false} WriteParsed(s: seq<byte>)
    requires ParseFields(s).Some?
    ensures AllTruthful(ParseFields(s).value) && Fields(ParseFields(s).value) == s
    decreases |s|
  {
    hide Field;
    if s != [] {
      var n := Get16(s, 1);
      var t, later := Tlv(s[0], n, s[3..3 + n]), s[3 + n..];
      WriteParsed(later);
      FieldWas(s, t, later);
      assert ParseFields(s).value[1..] == ParseFields(later).value;
    }
  }

  lemma FieldWas(s: seq<byte>, t: Tlv, later: seq<byte>)
    requires |s| >= 3 && |s| >= 3 + t.len && t == Tlv(s[0], Get16(s, 1), s[3..3 + t.len]) && later == s[3 + t.len..]
    ensures Field(t) + later == s
  {
  }

  /** Of several TLVs of a type the first is found. */
  lemma {:induction false} FindFirst(before: seq<Tlv>, t: Tlv, after: seq<Tlv>)
    requires forall x :: x in before ==> x.kind != t.kind
    ensures Find(before + [t] + after, t.kind) == Some(t)
  {
    var ts := before + [t] + after;
    if before != [] {
      assert before[0] in before && ts[0] == before[0] && ts[1..] == before[1..] + [t] + after;
      FindFirst(before[1..], t, after);
    }
  }

  /** The first result TLV decides: its first word says success, its second which error. */
  lemma FirstResultDecides(before: seq<Tlv>, result: u16, error: u16, more: seq<byte>, len: u16, after: seq<Tlv>)
    requires forall x :: x in before ==> x.kind != RESULT
    ensures ResultOf(before + [Tlv(RESULT, len, Le16(result) + Le16(error) + more)] + after)
            == if result == 0 then Success else Failure(error)
  {
    hide Le16, Get16;
    var value := Le16(result) + Le16(error) + more;
    FindFirst(before, Tlv(RESULT, len, value), after);
    Read16([], result, Le16(error) + more);
    assert [] + Le16(result) + (Le16(error) + more) == value;
    Read16(Le16(result), error, more);
  }

  /** TLV k is the first of its type. */
  ghost predicate IsFirst(ts: seq<Tlv>, kind: byte, k: int) {
    0 <= k < |ts| && ts[k].kind == kind && forall i :: 0 <= i < k ==> ts[i].kind != kind
  }

  lemma {:induction false} FindIsFirst(ts: seq<Tlv>, kind: byte, k: nat)
    requires IsFirst(ts, kind, k)
    ensures Find(ts, kind) == Some(ts[k])
  {
    if k > 0 {
      assert forall i :: 0 <= i < |ts| - 1 ==> ts[1..][i] == ts[i + 1];
      FindIsFirst(ts[1..], kind, k - 1);
    }
  }

  lemma {:induction false} FirstThere(ts: seq<Tlv>, kind: byte, k: nat) returns (first: nat)
    requires k < |ts| && ts[k].kind == kind
    ensures IsFirst(ts, kind, first)
    decreases k
  {
    first := k;
    if i :| 0 <= i < k && ts[i].kind == kind { first := FirstThere(ts, kind, i); }
  }

  predicate ResultSays(ts: seq<Tlv>, k: int)
    requires 0 <= k < |ts|
  {
    var v := ts[k].value;
    ResultOf(ts) == if |v| < 4 then TooShort
                    else if v[0] == 0 && v[1] == 0 then Success
                    else Failure(v[2] as int + 0x100 * v[3] as int)
  }

  /** The result is missing exactly when no TLV has type 2. It is too short exactly when the first that has it holds
      fewer than four octets; otherwise that one's first two octets say success exactly when both are zero, and
      the next two which error. */
  lemma ResultExactly(ts: seq<Tlv>)
    ensures ResultOf(ts) == Missing <==> forall k :: 0 <= k < |ts| ==> ts[k].kind != 0x02
    ensures ResultOf(ts) == TooShort <==> exists k :: IsFirst(ts, 0x02, k) && |ts[k].value| < 4
    ensures forall k :: IsFirst(ts, 0x02, k) ==> ResultSays(ts, k)
  {
    hide ResultOf, IsFirst;
    if k :| 0 <= k < |ts| && ts[k].kind == 0x02 {
      var first := FirstThere(ts, 0x02, k);
      ResultAt(ts, first);
    } else {
      NoResult(ts);
      assert forall k :: IsFirst(ts, 0x02, k) ==> 0 <= k < |ts| by { FirstInside(ts, 0x02); }
    }
    forall k | IsFirst(ts, 0x02, k) ensures 0 <= k < |ts| && ResultSays(ts, k) { ResultAt(ts, k); }
  }

  lemma FirstInside(ts: seq<Tlv>, kind: byte)
    ensures forall k :: IsFirst(ts, kind, k) ==> 0 <= k < |ts| && ts[k].kind == kind
  {
  }

  lemma NoResult(ts: seq<Tlv>)
    requires forall k :: 0 <= k < |ts| ==> ts[k].kind != 0x02
    ensures ResultOf(ts) == Missing
  {
  }

  lemma ResultAt(ts: seq<Tlv>, k: int)
    requires IsFirst(ts, 0x02, k)
    ensures 0 <= k < |ts| && ts[k].kind == 0x02 && ResultSays(ts, k)
  {
    FindIsFirst(ts, 0x02, k);
    hide IsFirst, Find;
  }

  /** How far reading gets behind whole fields: an octet of a header that is cut short, or all there is. */
  lemma {:induction false} CountBehind(ts: seq<Tlv>, cut: seq<byte>)
    requires AllTruthful(ts) && (|cut| >= 3 ==> |cut| < 3 + Get16(cut, 1))
    ensures ParseFields(Fields(ts) + cut).Some? <==> cut == []
    ensures CountOf(Fields(ts) + cut)
            == |Fields(ts)| + if cut == [] then 0 else if |cut| < 3 then 1 else |cut|
  {
    hide Field, Get16;
    if ts == [] {
      assert Fields(ts) + cut == cut;
    } else {
      Regroup(Field(ts[0]), Fields(ts[1..]), cut);
      FieldAhead(ts[0], Fields(ts[1..]) + cut);
      CountBehind(ts[1..], cut);
      assert ts[0] in ts;
    }
  }
}
