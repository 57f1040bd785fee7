/** The far end of a byte connection: what comes in and when, and how much of a write it takes. */
module Streams {
  import opened Bytes

  /** How one round of a read loop finds the connection. */
  datatype Tick = Ready | Quiet | Broken

  /** How a Write ends: it takes at most n octets, and may report an error. */
  datatype Taken = Taken(n: nat, ok: bool)

  /** What writing len octets in full comes to. */
  datatype Delivery = Delivery(n: nat, ok: bool, left: seq<Taken>)

  /** writeFull (driver/mbim/types.go:131-145): the octets that get out, and whether it succeeds. */
  function Deliver(takes: seq<Taken>, len: nat): (d: Delivery)
    ensures d.n <= len && (d.ok ==> d.n == len)
    decreases |takes|
  {
    if len == 0 then Delivery(0, true, takes)
    else if takes == [] then Delivery(0, false, [])
    else
      var k := Min(takes[0].n, len);
      if !takes[0].ok || k == 0 then Delivery(k, false, takes[1..])
      else var d := Deliver(takes[1..], len - k); d.(n := k + d.n)
  }

  /** The first k writes each take something and report no error. */
  ghost predicate AllTake(takes: seq<Taken>, k: nat) {
    k <= |takes| && forall i :: 0 <= i < k ==> takes[i].ok && takes[i].n > 0
  }

  /** What the first k writes would take. */
  function Room(takes: seq<Taken>, k: nat): nat
    requires k <= |takes|
  {
    if k == 0 then 0 else takes[0].n + Room(takes[1..], k - 1)
  }

  /** Delivery d of len octets goes on for k writes, no longer than until all is out, and succeeds exactly when that
      is enough; the write it stops at may still have taken some. */
  ghost predicate GoesOn(takes: seq<Taken>, len: nat, d: Delivery, k: nat)
    requires k <= |takes|
  {
    && (d.ok <==> Room(takes, k) >= len)
    && (d.ok ==> d.left == takes[k..] && (k > 0 ==> Room(takes, k - 1) < len))
    && (!d.ok && k == |takes| ==> d.n == Room(takes, k))
    && (!d.ok && k < |takes| ==>
          && (!takes[k].ok || takes[k].n == 0) && d.left == takes[k + 1..]
          && d.n == Min(Room(takes, k) + takes[k].n, len))
  }

  /** Writing in full goes on as long as writes take something without an error. */
  lemma {:induction false} DeliverExactly(takes: seq<Taken>, len: nat) returns (k: nat)
    ensures AllTake(takes, k) && GoesOn(takes, len, Deliver(takes, len), k)
    decreases |takes|
  {
    hide AllTake, Deliver, GoesOn;
    k := 0;
    if len == 0 || takes == [] || !takes[0].ok || takes[0].n == 0 {
      StopsAtOnce(takes, len);
    } else {
      var later, m := takes[1..], Min(takes[0].n, len);
      DeliverTurn(takes, len);
      k := DeliverExactly(later, len - m);
      TakeOneMore(takes, k);
      GoOneMore(takes, len, m, Deliver(later, len - m), k);
      k := k + 1;
    }
  }

  lemma StopsAtOnce(takes: seq<Taken>, len: nat)
    requires len == 0 || takes == [] || !takes[0].ok || takes[0].n == 0
    ensures AllTake(takes, 0) && GoesOn(takes, len, Deliver(takes, len), 0)
  {
  }

  lemma GoOneMore(takes: seq<Taken>, len: nat, m: nat, d: Delivery, k: nat)
    requires takes != [] && len > 0 && takes[0].n > 0 && m == Min(takes[0].n, len) && k < |takes|
    requires GoesOn(takes[1..], len - m, d, k)
    ensures GoesOn(takes, len, d.(n := m + d.n), k + 1)
  {
    var later := takes[1..];
    assert takes[k + 1..] == later[k..];
    assert Room(takes, k + 1) == takes[0].n + Room(later, k);
    assert k > 0 ==> Room(takes, k) == takes[0].n + Room(later, k - 1);
    assert k < |later| ==> later[k] == takes[k + 1] && takes[k + 2..] == later[k + 1..];
  }

  lemma DeliverTurn(takes: seq<Taken>, len: nat)
    requires len > 0 && takes != [] && takes[0].ok && takes[0].n > 0
    ensures var m := Min(takes[0].n, len);
            var d := Deliver(takes[1..], len - m);
            Deliver(takes, len) == d.(n := m + d.n) && d.n <= len - m
  {
  }

  lemma TakeOneMore(takes: seq<Taken>, k: nat)
    requires takes != [] && takes[0].ok && takes[0].n > 0
    ensures AllTake(takes[1..], k) ==> AllTake(takes, k + 1) && k < |takes|
  {
    var later := takes[1..];
    assert forall i :: 1 <= i < |takes| ==> takes[i] == later[i - 1];
  }

  /** Writing frames one after another, up to the first that fails. */
  function DeliverAll(takes: seq<Taken>, frames: seq<seq<byte>>): (d: Delivery)
    decreases |frames|
  {
    if frames == [] then Delivery(0, true, takes)
    else
      var first := Deliver(takes, |frames[0]|);
      if !first.ok then first
      else var d := DeliverAll(first.left, frames[1..]); d.(n := first.n + d.n)
  }

  /** Frames go out one at a time, the later ones only behind all before. */
  lemma {:induction false} DeliverAllSplit(takes: seq<Taken>, frames: seq<seq<byte>>, more: seq<seq<byte>>)
    ensures forall f :: DeliverAll(takes, [f]) == Deliver(takes, |f|)
    ensures var d := DeliverAll(takes, frames);
            var rest := DeliverAll(d.left, more);
            DeliverAll(takes, frames + more) == if d.ok then rest.(n := d.n + rest.n) else d
    decreases |frames|
  {
    hide Deliver;
    assert forall f: seq<byte> :: [f][1..] == [];
    if frames == [] {
      assert frames + more == more;
    } else {
      HeadApart(frames, more);
      DeliverAllSplit(Deliver(takes, |frames[0]|).left, frames[1..], more);
    }
  }

  /** How many rounds find octets to read. */
  function Readies(clock: seq<Tick>): (n: nat)
    ensures n <= |clock|
  {
    if clock == [] then 0 else (if clock[0].Ready? then 1 else 0) + Readies(clock[1..])
  }

  /** The rounds left after n that found octets. */
  function ClockAfter(clock: seq<Tick>, n: nat): (left: seq<Tick>)
    decreases |clock|
  {
    if n == 0 || clock == [] then clock
    else if clock[0].Ready? then ClockAfter(clock[1..], n - 1)
    else ClockAfter(clock[1..], n)
  }

  lemma {:induction false} ClockTwice(clock: seq<Tick>, n: nat)
    ensures ClockAfter(ClockAfter(clock, n), 1) == ClockAfter(clock, n + 1)
    decreases |clock|
  {
    if n > 0 && clock != [] { ClockTwice(clock[1..], if clock[0].Ready? then n - 1 else n); }
  }

  lemma {:induction false} ClockOnce(clock: seq<Tick>, n: nat)
    ensures ClockAfter(ClockAfter(clock, 1), n) == ClockAfter(clock, n + 1)
    decreases |clock|
  {
    if clock != [] {
      if clock[0].Ready? { assert ClockAfter(clock[1..], 0) == clock[1..]; } else { ClockOnce(clock[1..], n); }
    }
  }

  class Conn {
    /** Octets still to arrive, and the rounds still to come before the deadline. */
    var incoming: seq<byte>
    var clock: seq<Tick>
    /** Octets that got out, and how the writes to come are taken. */
    var written: seq<byte>
    var takes: seq<Taken>

    constructor (incoming: seq<byte>, clock: seq<Tick>, takes: seq<Taken>)
      ensures this.incoming == incoming && this.clock == clock && this.takes == takes && written == []
    {
      this.incoming, this.clock, this.takes, this.written := incoming, clock, takes, [];
    }

    /** The loop's test of the clock, and waiting for the next octets to read. */
    method Await() returns (tick: Option<Tick>)
      modifies this`clock
      ensures old(clock) == [] ==> tick.None? && clock == []
      ensures old(clock) != [] ==> tick == Some(old(clock)[0]) && clock == old(clock)[1..]
    {
      if clock == [] { return None; }
      tick, clock := Some(clock[0]), clock[1..];
    }

    /** io.ReadFull: n octets, or an error when the stream ends before. */
    method ReadFull(n: nat) returns (got: Option<seq<byte>>)
      modifies this`incoming
      ensures n <= |old(incoming)| ==> got == Some(old(incoming)[..n]) && incoming == old(incoming)[n..]
      ensures n > |old(incoming)| ==> got.None? && incoming == []
    {
      if n > |incoming| {
        incoming := [];
        return None;
      }
      got, incoming := Some(incoming[..n]), incoming[n..];
    }

    method Write(p: seq<byte>) returns (n: nat, ok: bool)
      modifies this`written, this`takes
      ensures old(takes) == [] ==> n == 0 && !ok && takes == []
      ensures old(takes) != [] ==> n == Min(old(takes)[0].n, |p|) && ok == old(takes)[0].ok && takes == old(takes)[1..]
      ensures n <= |p| && written == old(written) + p[..n]
    {
      if takes == [] { return 0, false; }
      n, ok := Min(takes[0].n, |p|), takes[0].ok;
      written, takes := written + p[..n], takes[1..];
    }

    /** writeFull (driver/mbim/types.go:131-145) */
    method WriteFull(data: seq<byte>) returns (n: nat, ok: bool)
      modifies this`written, this`takes
      ensures var d := Deliver(old(takes), |data|);
              && n == d.n && ok == d.ok && takes == d.left && written == old(written) + data[..n]
    {
      n, ok := 0, true;
      var rest := data;
      while |rest| > 0
        invariant n + |rest| == |data| && rest == data[n..] && ok
        invariant written == old(written) + data[..n]
        invariant var d := Deliver(old(takes), |data|); d == Deliver(takes, |rest|).(n := n + Deliver(takes, |rest|).n)
        decreases |rest|
      {
        var k;
        k, ok := Write(rest);
        Join(data, n, k);
        n := n + k;
        if !ok { return; }
        if k == 0 { return n, false; }
        rest := rest[k..];
      }
      assert data[..n] == data;
    }

    /** Frames written one after another (driver/mbim/types.go:37-45). */
    method WriteFrames(frames: seq<seq<byte>>) returns (n: nat, ok: bool)
      modifies this`written, this`takes
      ensures var d := DeliverAll(old(takes), frames);
              && n == d.n && ok == d.ok && takes == d.left
      ensures n <= |Concat(frames)| && written == old(written) + Concat(frames)[..n]
      ensures ok ==> n == |Concat(frames)|
    {
      hide Deliver;
      n, ok := 0, true;
      var i := 0;
      assert frames[0..] == frames;
      while i < |frames|
        invariant 0 <= i <= |frames| && ok
        invariant n + |Concat(frames[i..])| == |Concat(frames)| && Concat(frames[i..]) == Concat(frames)[n..]
        invariant written == old(written) + Concat(frames)[..n]
        invariant DeliverAll(old(takes), frames)
                  == DeliverAll(takes, frames[i..]).(n := n + DeliverAll(takes, frames[i..]).n)
      {
        assert frames[i..][0] == frames[i] && frames[i..][1..] == frames[i + 1..];
        var k;
        k, ok := WriteFull(frames[i]);
        assert Concat(frames[i..])[..k] == frames[i][..k];
        Join(Concat(frames), n, k);
        n := n + k;
        if !ok { return; }
        assert Concat(frames[i..])[k..] == Concat(frames[i + 1..]);
        i := i + 1;
      }
    }
  }
}
