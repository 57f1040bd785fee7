/** What one command amounts to at the card: the blocks against the whole command, and the transmitter
    against a card that collects blocks, executes commands and serves its answers in pieces. */
module ApduCard {
  import opened Bytes
  import opened Chunks
  import opened Apdu

  // Block arithmetic

  function DataOf(rs: seq<Request>): (ds: seq<seq<byte>>)
    ensures |ds| == |rs|
  {
    seq(|rs|, i requires 0 <= i < |rs| => rs[i].data)
  }

  /** The blocks carry the command, in order and in full. */
  lemma BlocksCarryCommand(channel: byte, command: seq<byte>, mss: nat)
    requires mss > 0
    ensures Concat(DataOf(Blocks(channel, command, mss))) == command
  {
    PiecesJoin(command, mss);
    assert DataOf(Blocks(channel, command, mss)) == Pieces(command, mss);
  }

  predicate Flagged(r: Request) { r.p1 == LAST_BLOCK }

  /** The last block is flagged as such exactly when the block size does not divide the length. */
  lemma LastIsFlagged(channel: byte, command: seq<byte>, mss: nat)
    requires mss > 0 && command != []
    ensures var rs := Blocks(channel, command, mss);
            && |rs| > 0
            && (Flagged(rs[|rs| - 1]) <==> |command| % mss != 0)
  {
    var q := |command| / mss;
    assert |command| == q * mss + |command| % mss;
    assert q == 0 ==> |command| % mss != 0;
    assert |command| % mss == 0 ==> (q - 1) % 256 != q % 256;
  }

  /** No other block is flagged as the last exactly when there are fewer than 256 whole ones. */
  lemma OnlyLastIsFlagged(channel: byte, command: seq<byte>, mss: nat)
    requires mss > 0 && command != []
    ensures var rs := Blocks(channel, command, mss);
            (forall i :: 0 <= i < |rs| ==> (Flagged(rs[i]) <==> i == |rs| - 1))
            <==> |command| % mss != 0 && |command| / mss < 256
  {
    LastIsFlagged(channel, command, mss);
    var rs, q := Blocks(channel, command, mss), |command| / mss;
    if q >= 256 {
      assert q % 256 < q <= |rs|;
      assert Flagged(rs[q % 256]);
    }
  }

  function FlagCount(rs: seq<Request>): nat {
    if rs == [] then 0 else FlagCount(rs[..|rs| - 1]) + if Flagged(rs[|rs| - 1]) then 1 else 0
  }

  /** How many blocks are flagged as the last. */
  lemma HowManyFlagged(channel: byte, command: seq<byte>, mss: nat)
    requires mss > 0
    ensures FlagCount(Blocks(channel, command, mss))
            == |command| / mss / 256 + if |command| % mss != 0 then 1 else 0
  {
    var rs, q := Blocks(channel, command, mss), |command| / mss;
    FlaggedBelow(channel, command, mss, |rs|);
    assert rs[..|rs|] == rs;
    FlagsUpTo(q);
  }

  /** How many i < k have the number q % 256 mod 256. */
  function Hits(q: nat, k: nat): nat
  {
    if k <= q % 256 then 0 else (k - 1 - q % 256) / 256 + 1
  }

  lemma FlagsUpTo(q: nat)
    ensures Hits(q, q) == q / 256 && Hits(q, q + 1) == q / 256 + 1
  {
  }

  lemma HitsNext(q: nat, k: nat)
    ensures Hits(q, k + 1) == Hits(q, k) + if k % 256 == q % 256 then 1 else 0
  {
  }

  lemma {:induction false} FlaggedBelow(channel: byte, command: seq<byte>, mss: nat, k: nat)
    requires mss > 0 && k <= PieceCount(|command|, mss)
    ensures FlagCount(Blocks(channel, command, mss)[..k]) == Hits(|command| / mss, k)
  {
    hide Blocks, Flagged, Hits, FlagCount;
    var rs, q := Blocks(channel, command, mss), |command| / mss;
    if k == 0 {
      NoHits(q);
    } else {
      var i := k - 1;
      FlaggedBelow(channel, command, mss, i);
      FlagCountMore(rs, i);
      FlaggedAt(channel, command, mss, i);
      HitsNext(q, i);
    }
  }

  lemma FlaggedAt(channel: byte, command: seq<byte>, mss: nat, i: nat)
    requires mss > 0 && i < PieceCount(|command|, mss)
    ensures Flagged(Blocks(channel, command, mss)[i]) <==> i % 256 == |command| / mss % 256
  {
    hide PieceCount, Piece, ClassOctet;
  }

  lemma NoHits(q: nat)
    ensures Hits(q, 0) == 0 && FlagCount([]) == 0
  {
  }

  lemma FlagCountMore(rs: seq<Request>, k: nat)
    requires k < |rs|
    ensures FlagCount(rs[..k + 1]) == FlagCount(rs[..k]) + if Flagged(rs[k]) then 1 else 0
  {
    assert rs[..k + 1][..k] == rs[..k];
  }

  // What is sent

  predicate Stores(rs: seq<Request>) { forall r :: r in rs ==> r.ins == STORE_DATA }

  function StoresIn(rs: seq<Request>): seq<Request> {
    if rs == [] then [] else (if rs[0].ins == STORE_DATA then [rs[0]] else []) + StoresIn(rs[1..])
  }

  lemma {:induction false} StoresInAppend(a: seq<Request>, b: seq<Request>)
    ensures StoresIn(a + b) == StoresIn(a) + StoresIn(b)
  {
    if a == [] {
      assert a + b == b;
    } else {
      HeadApart(a, b);
      StoresInAppend(a[1..], b);
      StoresInCons(a[0], a[1..] + b);
    }
  }

  lemma StoresInCons(r: Request, rs: seq<Request>)
    ensures StoresIn([r] + rs) == (if r.ins == STORE_DATA then [r] else []) + StoresIn(rs)
  {
  }

  lemma {:induction false} DrainStoresNothing(channel: byte, le: byte, script: seq<Reply>)
    ensures StoresIn(Drain(channel, le, script).sent) == []
    decreases |script|
  {
    var out, h := Drain(channel, le, script), Hear(Next(script));
    if h.Heard? && h.more {
      DrainStoresNothing(channel, h.sw2, script[1..]);
      StoresInAppend([GetResponse(channel, le)], Drain(channel, h.sw2, script[1..]).sent);
    }
  }

  lemma SentStores(channel: byte, r: Request, script: seq<Reply>)
    requires r.ins == STORE_DATA
    ensures StoresIn(Sent(channel, r, script).sent) == [r]
  {
    var h := Hear(Next(script));
    if h.Heard? && h.more {
      DrainStoresNothing(channel, h.sw2, script[1..]);
      StoresInAppend([r], Drain(channel, h.sw2, script[1..]).sent);
    }
  }

  /** Every STORE DATA a run sends is a block in its place; a run that succeeds sends them all and
      counts them all. */
  lemma {:induction false} RunSendsBlocks(channel: byte, rs: seq<Request>, script: seq<Reply>)
    requires Stores(rs)
    ensures var out := Run(channel, rs, script);
            && StoresIn(out.sent) <= rs
            && (out.status.Done? ==> StoresIn(out.sent) == rs && out.n == |Concat(DataOf(rs))|)
  {
    hide Sent, StoresIn, Concat, DataOf, Left;
    if rs == [] {
      NothingStored();
    } else {
      var r, later := rs[0], rs[1..];
      var o := Sent(channel, r, script);
      SentStores(channel, r, script);
      SentCounts(channel, r, script);
      var left := Left(script, |o.sent|);
      var rest := if o.status.Done? then Run(channel, later, left) else Ended(o.status);
      StoresInAppend(o.sent, rest.sent);
      NothingStored();
      if o.status.Done? { RunSendsBlocks(channel, later, left); }
      DataOfCons(r, later);
      assert rs == [r] + later;
      assert [r] + [] <= rs;
    }
  }

  lemma NothingStored()
    ensures StoresIn([]) == [] && Concat(DataOf([])) == []
  {
  }

  lemma DataOfCons(r: Request, rs: seq<Request>)
    ensures Concat(DataOf([r] + rs)) == r.data + Concat(DataOf(rs))
  {
    assert DataOf([r] + rs)[1..] == DataOf(rs);
  }

  lemma SentCounts(channel: byte, r: Request, script: seq<Reply>)
    ensures var o := Sent(channel, r, script); o.status.Done? ==> o.n == |r.data|
  {
  }

  /** A successful write: the blocks sent are exactly the command's, and all of it is counted. */
  lemma WrittenSendsBlocks(channel: byte, mss: nat, command: seq<byte>, script: seq<Reply>)
    requires mss > 0
    ensures var out := Written(channel, mss, command, script);
            out.status.Done? ==> StoresIn(out.sent) == Blocks(channel, command, mss) && out.n == |command|
  {
    RunSendsBlocks(channel, Blocks(channel, command, mss), script);
    BlocksCarryCommand(channel, command, mss);
  }

  // The card

  /** What a card makes of a whole command. */
  type Applet = seq<byte> -> seq<byte>

  /** Appending blocks; serving an answer, whose next piece it has announced with a length octet; or anything. */
  datatype Phase = Collecting(acc: seq<byte>, count: nat) | Answering(rest: seq<byte>, le: byte) | Unspecified

  /** A card, and the commands it has executed. */
  datatype Card = Card(phase: Phase, executed: seq<seq<byte>>)

  const READY: Phase := Collecting([], 0)

  /** A request of the card's own class, on its channel. */
  predicate Reads(r: Option<Request>, channel: byte, ins: byte) {
    r.Some? && r.value.cla / 128 == 1 && ChannelOf(r.value.cla) == channel && r.value.ins == ins
  }

  /** A bare 61xx. */
  predicate Announces(reply: Reply) { reply.Octets? && |reply.data| == 2 && reply.data[0] == 0x61 }

  /** Serving what rest is left of an answer: all of it and 9000, or a piece of it and 61xx. */
  function Served(rest: seq<byte>, reply: Reply): (p: Option<Phase>) {
    if reply.LinkDown? || |reply.data| <= 2 then None
    else
      var piece, sw1, sw2 := reply.data[..|reply.data| - 2], reply.data[|reply.data| - 2], reply.data[|reply.data| - 1];
      if piece == rest && sw1 == 0x90 && sw2 == 0x00 then Some(READY)
      else if piece < rest && sw1 == 0x61 then Some(Answering(rest[|piece|..], sw2))
      else None
  }

  /** The card after an APDU and its own reply to it; None when it may not reply so. It appends blocks
      in order and answers each with a bare 9000 until the one flagged as the last, then executes f and
      gives the answer at once or announces it with a bare 61xx; an announced answer is served by
      GET RESPONSE with the xx it announced, in non-empty pieces, each but the last with 61xx. What it does
      otherwise is open. */
  function CardNext(f: Applet, channel: byte, c: Card, r: Option<Request>, reply: Reply): (next: Option<Card>)
  {
    if c.phase.Collecting? && Reads(r, channel, 0xE2) && r.value.p2 == c.phase.count % 256
       && (r.value.p1 == 0x11 || r.value.p1 == 0x91) then
      var acc := c.phase.acc + r.value.data;
      if r.value.p1 == 0x11 then
        if reply == Octets([0x90, 0x00]) then Some(Card(Collecting(acc, c.phase.count + 1), c.executed)) else None
      else if reply == Octets(f(acc) + [0x90, 0x00]) then Some(Card(READY, c.executed + [acc]))
      else if Announces(reply) && f(acc) != [] then
        Some(Card(Answering(f(acc), reply.data[1]), c.executed + [acc]))
      else None
    else if c.phase.Answering? && Reads(r, channel, 0xC0) && r.value.p1 == 0 && r.value.p2 == 0
            && r.value.le == Some(c.phase.le) then
      var served := Served(c.phase.rest, reply);
      if served.Some? then Some(c.(phase := served.value)) else None
    else Some(c.(phase := Unspecified))
  }

  /** What the transmitter hears of such replies. */
  lemma HearEnds(x: seq<byte>, reply: Reply)
    ensures reply == Octets(x + [0x90, 0x00]) <==> Hear(reply) == Heard(x, false, 0)
    ensures Announces(reply) <==> Hear(reply).Heard? && Hear(reply).more && Hear(reply).data == []
    ensures Announces(reply) ==> Hear(reply).sw2 == reply.data[1]
    ensures var h := Hear(reply);
            Served(x, reply)
            == if h.Heard? && h.data != [] && h.data <= x && h.more == (|h.data| < |x|) then
                 Some(if h.more then Answering(x[|h.data|..], h.sw2) else READY)
               else None
  {
    if Hear(reply) == Heard(x, false, 0) { assert reply.data == x + [0x90, 0x00]; }
    if Hear(reply).Heard? && Hear(reply).data <= x && |Hear(reply).data| >= |x| { assert Hear(reply).data == x; }
  }

  lemma ClassIsOurs(channel: byte)
    requires channel < 20
    ensures ClassOctet(channel) / 128 == 1 && ChannelOf(ClassOctet(channel)) == channel
  {
    ChannelStamp(0x80, channel);
  }

  /** The card after a run of requests, read as the octets they are sent as. */
  function CardRun(f: Applet, channel: byte, c: Card, sent: seq<Request>, script: seq<Reply>): (end: Option<Card>)
    decreases |sent|
  {
    if sent == [] then Some(c)
    else
      var next := CardNext(f, channel, c, Decode(Encode(sent[0])), Next(script));
      if next.None? then None else CardRun(f, channel, next.value, sent[1..], Left(script, 1))
  }

  lemma {:induction false} CardRunAppend(f: Applet, channel: byte, c: Card, a: seq<Request>, b: seq<Request>,
      script: seq<Reply>)
    ensures var middle := CardRun(f, channel, c, a, script);
            CardRun(f, channel, c, a + b, script)
            == if middle.None? then None else CardRun(f, channel, middle.value, b, Left(script, |a|))
    decreases |a|
  {
    hide CardNext, Encode, Decode;
    if a == [] {
      assert a + b == b && Left(script, 0) == script;
    } else {
      assert (a + b)[1..] == a[1..] + b;
      var next := CardNext(f, channel, c, Decode(Encode(a[0])), Next(script));
      if next.Some? { CardRunAppend(f, channel, next.value, a[1..], b, Left(script, 1)); }
      assert Left(Left(script, 1), |a| - 1) == Left(script, |a|);
    }
  }

  /** What was executed stays executed. */
  lemma {:induction false} ExecutedStays(f: Applet, channel: byte, c: Card, sent: seq<Request>, script: seq<Reply>)
    requires CardRun(f, channel, c, sent, script).Some?
    ensures c.executed <= CardRun(f, channel, c, sent, script).value.executed
    decreases |sent|
  {
    hide Encode, Decode;
    if sent != [] {
      var next := CardNext(f, channel, c, Decode(Encode(sent[0])), Next(script));
      ExecutedStays(f, channel, next.value, sent[1..], Left(script, 1));
    }
  }

  /** Draining gets exactly what the card has left to say, in at most as many requests as octets. */
  lemma {:induction false} DrainGetsAnswer(f: Applet, channel: byte, c: Card, le: byte, script: seq<Reply>)
    requires channel < 20 && c.phase.Answering? && c.phase.le == le
    requires CardRun(f, channel, c, Drain(channel, le, script).sent, script).Some?
    ensures var out := Drain(channel, le, script);
            && out.status.Done? && out.response == c.phase.rest && |out.sent| <= |c.phase.rest|
            && CardRun(f, channel, c, out.sent, script) == Some(c.(phase := READY))
    decreases |script|
  {
    hide Encode, Decode, Hear, CardNext, CardRun, GetResponse, Drain;
    var r, h, left := GetResponse(channel, le), Hear(Next(script)), Left(script, 1);
    var next := CardNext(f, channel, c, Some(r), Next(script));
    var d := if h.Heard? && h.more then Drain(channel, h.sw2, left) else Ended(Done);
    NextOfGet(f, channel, c, le, Next(script));
    DrainTurn(channel, le, script);
    assert [r] + [] == [r];
    CardRunOne(f, channel, c, r, d.sent, script);
    if h.Heard? && h.more {
      if next.Some? { DrainGetsAnswer(f, channel, next.value, h.sw2, left); }
    } else if next.Some? {
      NothingLater(f, channel, next.value, left);
    }
  }

  /** How a card may reply to the request for what it announced. */
  lemma NextOfGet(f: Applet, channel: byte, c: Card, le: byte, reply: Reply)
    requires channel < 20 && c.phase.Answering? && c.phase.le == le
    ensures |GetResponse(channel, le).data| < 256
    ensures var h, next := Hear(reply), CardNext(f, channel, c, Some(GetResponse(channel, le)), reply);
            next == if h.Heard? && h.data != [] && h.data <= c.phase.rest && h.more == (|h.data| < |c.phase.rest|) then
                      Some(c.(phase := if h.more then Answering(c.phase.rest[|h.data|..], h.sw2) else READY))
                    else None
  {
    hide Hear, Served, ChannelOf, ClassOctet;
    ClassIsOurs(channel);
    HearEnds(c.phase.rest, reply);
  }

  lemma CardRunOne(f: Applet, channel: byte, c: Card, r: Request, later: seq<Request>, script: seq<Reply>)
    requires |r.data| < 256
    ensures var next := CardNext(f, channel, c, Some(r), Next(script));
            CardRun(f, channel, c, [r] + later, script)
            == if next.None? then None else CardRun(f, channel, next.value, later, Left(script, 1))
  {
    DecodeEncoded(r);
    hide CardNext, Encode, Decode;
    assert ([r] + later)[1..] == later;
  }

  // One command, end to end

  /** A block is answered; the card goes on as it should. */
  lemma BlockMeetsCard(f: Applet, channel: byte, c: Card, r: Request, script: seq<Reply>)
    requires channel < 20 && c.phase.Collecting?
    requires r.ins == STORE_DATA && r.cla == ClassOctet(channel) && r.p2 == Number(c.phase.count)
    requires r.p1 == MORE_BLOCKS || r.p1 == LAST_BLOCK
    requires |r.data| < 256
    requires CardRun(f, channel, c, Sent(channel, r, script).sent, script).Some?
    ensures var out, acc := Sent(channel, r, script), c.phase.acc + r.data;
            && out.status.Done? && out.n == |r.data|
            && out.response == (if Flagged(r) then f(acc) else [])
            && |out.sent| <= 1 + |out.response|
            && CardRun(f, channel, c, out.sent, script)
               == Some(if Flagged(r) then Card(READY, c.executed + [acc])
                       else Card(Collecting(acc, c.phase.count + 1), c.executed))
  {
    hide Encode, Decode, SetChannel, ChannelOf, Number, Drain, CardNext, CardRun, Hear, Next, Sent, Left;
    var h, next, left := Hear(Next(script)), CardNext(f, channel, c, Some(r), Next(script)), Left(script, 1);
    var d := if h.Heard? && h.more then Drain(channel, h.sw2, left) else Ended(Done);
    SentOf(channel, r, script);
    NextOfBlock(f, channel, c, r, Next(script));
    CardRunOne(f, channel, c, r, d.sent, script);
    assert [r] + [] == [r];
    if h.Heard? && h.more {
      DrainGetsAnswer(f, channel, next.value, h.sw2, left);
    } else if next.Some? {
      NothingLater(f, channel, next.value, left);
    }
  }

  lemma SentOf(channel: byte, r: Request, script: seq<Reply>)
    ensures var h, out := Hear(Next(script)), Sent(channel, r, script);
            if !h.Heard? then out.sent == [r]
            else if h.more then out == After(|r.data|, [], [r], Drain(channel, h.sw2, Left(script, 1)))
            else out == Outcome(Done, |r.data|, h.data, [r])
  {
    hide Drain;
  }

  /** How a card may reply to a block that is next, and where that leaves it. */
  lemma NextOfBlock(f: Applet, channel: byte, c: Card, r: Request, reply: Reply)
    requires channel < 20 && c.phase.Collecting?
    requires r.ins == STORE_DATA && r.cla == ClassOctet(channel) && r.p2 == Number(c.phase.count)
    requires r.p1 == MORE_BLOCKS || r.p1 == LAST_BLOCK
    ensures var h, acc := Hear(reply), c.phase.acc + r.data;
            var next := CardNext(f, channel, c, Some(r), reply);
            if h == Heard(if Flagged(r) then f(acc) else [], false, 0) then
              next == Some(if Flagged(r) then Card(READY, c.executed + [acc])
                           else Card(Collecting(acc, c.phase.count + 1), c.executed))
            else if Flagged(r) && h.Heard? && h.more && h.data == [] && f(acc) != [] then
              next == Some(Card(Answering(f(acc), h.sw2), c.executed + [acc]))
            else next == None
  {
    hide Hear, SetChannel, ChannelOf, ClassOctet, Announces;
    ClassIsOurs(channel);
    HearEnds(if Flagged(r) then f(c.phase.acc + r.data) else [], reply);
    assert [] + [0x90, 0x00] == [0x90, 0x00];
  }

  lemma NothingLater(f: Applet, channel: byte, c: Card, script: seq<Reply>)
    ensures CardRun(f, channel, c, [], script) == Some(c)
  {
  }

  /** How far the card has come before block i of a command. */
  ghost predicate Before(c: Card, command: seq<byte>, mss: nat, i: nat)
  {
    c.phase == Collecting(command[..Start(|command|, mss, i)], i)
  }

  /** One turn of the run: block i against a card that has the blocks before it. */
  lemma FeedOne(f: Applet, channel: byte, c: Card, command: seq<byte>, mss: nat, i: nat, script: seq<Reply>)
    requires channel < 20 && 1 <= mss <= 255 && i < PieceCount(|command|, mss) && Before(c, command, mss, i)
    requires CardRun(f, channel, c, Run(channel, Blocks(channel, command, mss)[i..], script).sent, script).Some?
    ensures var r, prefix := Block(channel, command, mss, i), command[..Start(|command|, mss, i + 1)];
            var o, out := Sent(channel, r, script), Run(channel, Blocks(channel, command, mss)[i..], script);
            var rest := Run(channel, Blocks(channel, command, mss)[i + 1..], Left(script, |o.sent|));
            && out == After(o.n, o.response, o.sent, rest)
            && o.response == (if Flagged(r) then f(prefix) else [])
            && o.n == Start(|command|, mss, i + 1) - Start(|command|, mss, i)
            && 1 <= |o.sent| <= 1 + |o.response|
            && var next := if Flagged(r) then Card(READY, c.executed + [prefix])
                           else Card(Collecting(prefix, i + 1), c.executed);
               CardRun(f, channel, c, out.sent, script)
               == CardRun(f, channel, next, rest.sent, Left(script, |o.sent|))
  {
    hide Encode, Decode, SetChannel, ChannelOf, Number, Drain, PieceCount, Start, Run, CardRun, CardNext, Sent,
      LastNumber;
    var r, at := Block(channel, command, mss, i), Start(|command|, mss, i);
    StartNext(|command|, mss, i);
    RunBlock(channel, Blocks(channel, command, mss), i, script);
    var o := Sent(channel, r, script);
    var rest := if o.status.Done? then Run(channel, Blocks(channel, command, mss)[i + 1..], Left(script, |o.sent|))
                else Ended(o.status);
    CardRunAppend(f, channel, c, o.sent, rest.sent, script);
    BlockMeetsCard(f, channel, c, r, script);
    assert command[..at] + r.data == command[..Min(at + mss, |command|)];
  }

  /** The blocks before the first flagged one only collect. */
  lemma {:induction false} FeedUnflagged(f: Applet, channel: byte, c: Card, command: seq<byte>, mss: nat, i: nat,
      k: nat, script: seq<Reply>)
    requires channel < 20 && 1 <= mss <= 255 && i <= k <= PieceCount(|command|, mss) && Before(c, command, mss, i)
    requires forall j :: i <= j < k ==> !Flagged(Block(channel, command, mss, j))
    requires CardRun(f, channel, c, Run(channel, Blocks(channel, command, mss)[i..], script).sent, script).Some?
    ensures var out := Run(channel, Blocks(channel, command, mss)[i..], script);
            var left := Left(script, k - i);
            var rest := Run(channel, Blocks(channel, command, mss)[k..], left);
            && out.status == rest.status && out.response == rest.response && |out.sent| == k - i + |rest.sent|
            && out.n == Start(|command|, mss, k) - Start(|command|, mss, i) + rest.n
            && CardRun(f, channel, c, out.sent, script)
               == CardRun(f, channel, Card(Collecting(command[..Start(|command|, mss, k)], k), c.executed),
                          rest.sent, left)
    decreases k - i
  {
    hide Block, Blocks, Start, Run, CardRun, CardNext, Sent, PieceCount, Left;
    var n := k - i;
    LeftTwice(script, 1, n - 1);
    if i < k {
      FeedOne(f, channel, c, command, mss, i, script);
      var next := Card(Collecting(command[..Start(|command|, mss, i + 1)], i + 1), c.executed);
      FeedUnflagged(f, channel, next, command, mss, i + 1, k, Left(script, 1));
    }
  }

  lemma LeftTwice(script: seq<Reply>, m: nat, n: int)
    ensures Left(script, 0) == script
    ensures n >= 0 ==> Left(Left(script, m), n) == Left(script, m + n)
  {
    if n >= 0 { LeftJoin(script, m, n); }
  }

  /** The replies a whole write gets are ones the card may give. */
  ghost predicate Conforms(f: Applet, channel: byte, mss: nat, command: seq<byte>, c: Card, script: seq<Reply>)
    requires mss > 0
  {
    CardRun(f, channel, c, Written(channel, mss, command, script).sent, script).Some?
  }

  /** The card after a whole write. */
  ghost function CardAfter(f: Applet, channel: byte, mss: nat, command: seq<byte>, c: Card, script: seq<Reply>): Card
    requires mss > 0 && Conforms(f, channel, mss, command, c, script)
  {
    CardRun(f, channel, c, Written(channel, mss, command, script).sent, script).value
  }

  lemma RunOver(f: Applet, channel: byte, c: Card, rs: seq<Request>, script: seq<Reply>)
    requires rs == []
    ensures Run(channel, rs, script) == Ended(Done) && CardRun(f, channel, c, [], script) == Some(c)
  {
  }

  /** Below block q % 256 nothing is flagged, and that block is, if there is one. */
  lemma FirstFlagged(channel: byte, command: seq<byte>, mss: nat)
    requires mss > 0
    ensures var q, count := |command| / mss, PieceCount(|command|, mss);
            && (forall i :: 0 <= i < q % 256 ==> !Flagged(Block(channel, command, mss, i)))
            && Flagged(Block(channel, command, mss, q % 256))
            && q % 256 <= count
            && (q % 256 == count <==> q < 256 && |command| % mss == 0)
            && (q % 256 + 1 == count <==> q < 256 && |command| % mss != 0)
  {
    hide Piece, ClassOctet;
    var q, count := |command| / mss, PieceCount(|command|, mss);
    assert q < 256 ==> q % 256 == q;
    assert q >= 256 ==> q % 256 + 1 < q <= count;
  }

  /** Up to the first flagged block the card collects; what it executes then is the blocks so far. */
  lemma FirstExecution(f: Applet, channel: byte, mss: nat, command: seq<byte>, c: Card, script: seq<Reply>)
    returns (left: seq<Reply>)
    requires channel < 20 && 1 <= mss <= 255 && c.phase == READY
    requires Conforms(f, channel, mss, command, c, script)
    ensures var k, count := |command| / mss % 256, PieceCount(|command|, mss);
            var out := Written(channel, mss, command, script);
            var after := CardRun(f, channel, c, out.sent, script);
            if k == count then
              && out.status.Done? && out.response == [] && out.n == |command|
              && after == Some(Card(Collecting(command, k), c.executed))
            else
              var prefix := command[..Start(|command|, mss, k + 1)];
              var rest := Run(channel, Blocks(channel, command, mss)[k + 1..], left);
              && out.status == rest.status && out.response == f(prefix) + rest.response && out.n == |prefix| + rest.n
              && |out.sent| <= k + 1 + |f(prefix)| + |rest.sent|
              && after == CardRun(f, channel, Card(READY, c.executed + [prefix]), rest.sent, left)
  {
    hide Block, CardNext, Sent, Run, CardRun, Start, PieceCount;
    ghost var k, blocks := |command| / mss % 256, Blocks(channel, command, mss);
    FirstFlagged(channel, command, mss);
    StartNext(|command|, mss, 0);
    StartNext(|command|, mss, k);
    assert blocks[0..] == blocks && command[..0] == [];
    FeedUnflagged(f, channel, c, command, mss, 0, k, script);
    left := Left(script, k);
    if k == |blocks| {
      assert command[..|command|] == command;
      RunOver(f, channel, Card(Collecting(command, k), c.executed), blocks[k..], left);
    } else {
      ghost var collected := Card(Collecting(command[..Start(|command|, mss, k)], k), c.executed);
      FeedOne(f, channel, collected, command, mss, k, left);
      left := Left(left, |Sent(channel, Block(channel, command, mss, k), left).sent|);
    }
  }

  /** A write whose last block alone is flagged is one call of the card's function on the whole command:
      the response is its result, every octet is counted, the card is ready for the next command, and no
      more requests were made than there are blocks and octets of response. */
  lemma WriteIsOneCall(f: Applet, channel: byte, mss: nat, command: seq<byte>, c: Card, script: seq<Reply>)
    requires channel < 20 && 1 <= mss <= 255 && c.phase == READY
    requires |command| % mss != 0 && |command| / mss < 256
    requires Conforms(f, channel, mss, command, c, script)
    ensures var out := Written(channel, mss, command, script);
            && out.status.Done? && out.response == f(command) && out.n == |command|
            && |out.sent| <= PieceCount(|command|, mss) + |f(command)|
            && CardAfter(f, channel, mss, command, c, script) == Card(READY, c.executed + [command])
  {
    hide Block, CardNext, Sent, Run, CardRun, Start, PieceCount;
    var k := |command| / mss % 256;
    var left := FirstExecution(f, channel, mss, command, c, script);
    FirstFlagged(channel, command, mss);
    StartNext(|command|, mss, k + 1);
    assert command[..|command|] == command;
    RunOver(f, channel, Card(READY, c.executed + [command]), Blocks(channel, command, mss)[k + 1..], left);
  }

  /** A write that flags no block: the card executes nothing, and the run succeeds with no response. */
  lemma NeverExecuted(f: Applet, channel: byte, mss: nat, command: seq<byte>, c: Card, script: seq<Reply>)
    requires channel < 20 && 1 <= mss <= 255 && c.phase == READY
    requires |command| % mss == 0 && |command| / mss < 256
    requires Conforms(f, channel, mss, command, c, script)
    ensures var out := Written(channel, mss, command, script);
            && out.status.Done? && out.response == [] && out.n == |command|
            && CardAfter(f, channel, mss, command, c, script)
               == Card(Collecting(command, PieceCount(|command|, mss)), c.executed)
  {
    hide Block, CardNext, Sent, Run, CardRun, Start, PieceCount;
    var left := FirstExecution(f, channel, mss, command, c, script);
    FirstFlagged(channel, command, mss);
  }

  /** A write of 256 whole blocks or more: what the card executes first is a proper prefix. */
  lemma PrefixExecuted(f: Applet, channel: byte, mss: nat, command: seq<byte>, c: Card, script: seq<Reply>)
    requires channel < 20 && 1 <= mss <= 255 && c.phase == READY
    requires |command| / mss >= 256
    requires Conforms(f, channel, mss, command, c, script)
    ensures var k := Start(|command|, mss, |command| / mss % 256 + 1);
            && k < |command|
            && c.executed + [command[..k]] <= CardAfter(f, channel, mss, command, c, script).executed
  {
    hide Block, CardNext, Sent, Run, CardRun, Start, PieceCount;
    var k := |command| / mss % 256;
    var left := FirstExecution(f, channel, mss, command, c, script);
    FirstFlagged(channel, command, mss);
    StartNext(|command|, mss, k + 1);
    var prefix := command[..Start(|command|, mss, k + 1)];
    ExecutedStays(f, channel, Card(READY, c.executed + [prefix]),
                  Run(channel, Blocks(channel, command, mss)[k + 1..], left).sent, left);
  }

  /** The card executes the command, and nothing else, exactly when the block size does not divide its
      length and there are fewer than 256 whole blocks. */
  lemma ExecutesExactlyTheCommand(f: Applet, channel: byte, mss: nat, command: seq<byte>, c: Card, script: seq<Reply>)
    requires channel < 20 && 1 <= mss <= 255 && c.phase == READY
    requires Conforms(f, channel, mss, command, c, script)
    ensures CardAfter(f, channel, mss, command, c, script).executed == c.executed + [command]
            <==> |command| % mss != 0 && |command| / mss < 256
  {
    hide CardAfter, Conforms, Start, PieceCount;
    if |command| / mss >= 256 {
      PrefixExecuted(f, channel, mss, command, c, script);
      var k := Start(|command|, mss, |command| / mss % 256 + 1);
      var after := CardAfter(f, channel, mss, command, c, script).executed;
      assert after[|c.executed|] == (c.executed + [command[..k]])[|c.executed|] == command[..k];
    } else if |command| % mss == 0 {
      NeverExecuted(f, channel, mss, command, c, script);
      assert |c.executed| != |c.executed + [command]|;
    } else {
      WriteIsOneCall(f, channel, mss, command, c, script);
    }
  }

  // Cards there are

  /** What an obliging card answers to a block: the result when the block is the next one and the last, and
      nothing otherwise. */
  function Result(f: Applet, channel: byte, c: Card, r: Request): seq<byte> {
    if c.phase.Collecting? && Reads(Some(r), channel, STORE_DATA) && r.p2 == Number(c.phase.count) && Flagged(r) then
      f(c.phase.acc + r.data)
    else []
  }

  function ObligingReply(f: Applet, channel: byte, c: Card, r: Request): Reply {
    Octets(Result(f, channel, c, r) + [0x90, 0x00])
  }

  /** A card that has no answer outstanding may always reply so, and has none then. */
  function Obliged(f: Applet, channel: byte, c: Card, r: Request): (next: Card)
    requires !c.phase.Answering?
    ensures !next.phase.Answering?
    ensures CardNext(f, channel, c, Some(r), ObligingReply(f, channel, c, r)) == Some(next)
  {
    HearFine(Result(f, channel, c, r), []);
    NextObliging(f, channel, c, r, ObligingReply(f, channel, c, r));
    CardNext(f, channel, c, Some(r), ObligingReply(f, channel, c, r)).value
  }

  lemma NextObliging(f: Applet, channel: byte, c: Card, r: Request, reply: Reply)
    requires !c.phase.Answering? && Hear(reply) == Heard(Result(f, channel, c, r), false, 0)
    ensures var next := CardNext(f, channel, c, Some(r), reply); next.Some? && !next.value.phase.Answering?
  {
    hide Hear, ChannelOf;
    HearEnds(Result(f, channel, c, r), reply);
    assert [] + [0x90, 0x00] == [0x90, 0x00];
  }

  /** Its replies to requests, one after another, and where it is then. */
  function Replies(f: Applet, channel: byte, rs: seq<Request>, c: Card): (script: seq<Reply>)
    requires !c.phase.Answering?
    decreases |rs|
  {
    if rs == [] then []
    else [ObligingReply(f, channel, c, rs[0])] + Replies(f, channel, rs[1..], Obliged(f, channel, c, rs[0]))
  }

  function CardAtEnd(f: Applet, channel: byte, rs: seq<Request>, c: Card): (end: Card)
    requires !c.phase.Answering?
    ensures !end.phase.Answering?
    decreases |rs|
  {
    if rs == [] then c else CardAtEnd(f, channel, rs[1..], Obliged(f, channel, c, rs[0]))
  }

  /** To any requests, in order or not, an obliging card replies as a card may; a run takes just its replies. */
  lemma {:induction false} Oblige(f: Applet, channel: byte, rs: seq<Request>, c: Card, tail: seq<Reply>)
    requires !c.phase.Answering? && forall r :: r in rs ==> |r.data| < 256
    ensures var script := Replies(f, channel, rs, c) + tail;
            var sent := Run(channel, rs, script).sent;
            && CardRun(f, channel, c, sent, script) == Some(CardAtEnd(f, channel, rs, c))
            && Left(script, |sent|) == tail
    decreases |rs|
  {
    hide Run, CardRun, CardNext, Sent, Hear, Next, Left, Obliged;
    var script := Replies(f, channel, rs, c) + tail;
    if rs == [] {
      assert script == tail;
      RunOver(f, channel, c, rs, script);
      LeftTwice(script, 0, 0);
    } else {
      var r, data := rs[0], Result(f, channel, c, rs[0]);
      var next := Obliged(f, channel, c, r);
      var later := Replies(f, channel, rs[1..], next) + tail;
      assert script == [ObligingReply(f, channel, c, r)] + later;
      Oblige(f, channel, rs[1..], next, tail);
      HearFine(data, later);
      SentFine(channel, r, script, data);
      RunBlock(channel, rs, 0, script);
      assert rs[0..] == rs;
      var sent := Run(channel, rs[1..], later).sent;
      CardRunOne(f, channel, c, r, sent, script);
      LeftTwice(script, 1, |sent|);
    }
  }

  /** To any command, whatever its length, there are replies that a card may give. */
  lemma ObligingCard(f: Applet, channel: byte, mss: nat, command: seq<byte>, c: Card, tail: seq<Reply>)
    requires 1 <= mss <= 255 && !c.phase.Answering?
    ensures var blocks := Blocks(channel, command, mss);
            var script := Replies(f, channel, blocks, c) + tail;
            && Conforms(f, channel, mss, command, c, script)
            && CardAfter(f, channel, mss, command, c, script) == CardAtEnd(f, channel, blocks, c)
            && Left(script, |Written(channel, mss, command, script).sent|) == tail
  {
    hide Run, CardRun, Block, Left, Replies, CardAtEnd;
    var blocks := Blocks(channel, command, mss);
    forall r | r in blocks ensures |r.data| < 256 {
      var i :| 0 <= i < |blocks| && blocks[i] == r;
      BlockFits(channel, command, mss, i);
    }
    Oblige(f, channel, blocks, c, tail);
  }

  lemma BlockFits(channel: byte, command: seq<byte>, mss: nat, i: nat)
    requires mss > 0
    ensures |Block(channel, command, mss, i).data| <= mss
  {
    hide ClassOctet;
  }

  /** So every command that a write does not deliver fails at some card: it replies as a card may, and has
      executed something else, or nothing. */
  lemma UndeliveredFails(f: Applet, channel: byte, mss: nat, command: seq<byte>) returns (script: seq<Reply>)
    requires channel < 20 && 1 <= mss <= 255 && (|command| % mss == 0 || |command| / mss >= 256)
    ensures var c := Card(READY, []);
            && Conforms(f, channel, mss, command, c, script)
            && CardAfter(f, channel, mss, command, c, script).executed != [command]
            && (|command| / mss < 256 ==> CardAfter(f, channel, mss, command, c, script).executed == []
                                          && Written(channel, mss, command, script).status == Done
                                          && Written(channel, mss, command, script).response == [])
  {
    hide Conforms, CardAfter, Written;
    ghost var c := Card(READY, []);
    script := Replies(f, channel, Blocks(channel, command, mss), c);
    assert script + [] == script;
    ObligingCard(f, channel, mss, command, c, []);
    ExecutesExactlyTheCommand(f, channel, mss, command, c, script);
    assert [] + [command] == [command];
    if |command| / mss < 256 { NeverExecuted(f, channel, mss, command, c, script); }
  }

  /** One block of 254 octets at a block size of 254: the write succeeds, and the card has executed nothing. */
  lemma FullBlockIsLost(f: Applet, channel: byte, command: seq<byte>) returns (script: seq<Reply>)
    requires channel < 20 && |command| == 254
    ensures var out, c := Written(channel, 254, command, script), Card(READY, []);
            && out.status == Done && out.n == 254 && out.response == []
            && Conforms(f, channel, 254, command, c, script)
            && CardAfter(f, channel, 254, command, c, script).executed == []
  {
    hide Conforms, CardAfter, Written;
    script := UndeliveredFails(f, channel, 254, command);
    NeverExecuted(f, channel, 254, command, Card(READY, []), script);
  }

  lemma HearFine(data: seq<byte>, later: seq<Reply>)
    ensures var script := [Octets(data + [0x90, 0x00])] + later;
            Next(script) == script[0] && Hear(script[0]) == Heard(data, false, 0) && Left(script, 1) == later
  {
  }

  lemma SentFine(channel: byte, r: Request, script: seq<Reply>, data: seq<byte>)
    requires Hear(Next(script)) == Heard(data, false, 0)
    ensures Sent(channel, r, script) == Outcome(Done, |r.data|, data, [r])
  {
  }

  // Sessions

  /** Every command is one that a write delivers whole. */
  predicate Deliverable(mss: nat, commands: seq<seq<byte>>)
    requires mss > 0
  {
    forall command :: command in commands ==> |command| % mss != 0 && |command| / mss < 256
  }

  /** Writes one after another on one transmitter, up to the first that fails: their responses. */
  function Session(channel: byte, mss: nat, commands: seq<seq<byte>>, script: seq<Reply>): (responses: seq<seq<byte>>)
    requires mss > 0
    decreases |commands|
  {
    if commands == [] then []
    else
      var out := Written(channel, mss, commands[0], script);
      if !out.status.Done? then []
      else [out.response] + Session(channel, mss, commands[1..], Left(script, |out.sent|))
  }

  ghost predicate SessionConforms(f: Applet, channel: byte, mss: nat, commands: seq<seq<byte>>, c: Card,
      script: seq<Reply>)
    requires mss > 0
    decreases |commands|
  {
    commands != [] ==>
      var out := Written(channel, mss, commands[0], script);
      && Conforms(f, channel, mss, commands[0], c, script)
      && SessionConforms(f, channel, mss, commands[1..], CardAfter(f, channel, mss, commands[0], c, script),
         Left(script, |out.sent|))
  }

  /** The card after a whole session. */
  ghost function SessionCard(f: Applet, channel: byte, mss: nat, commands: seq<seq<byte>>, c: Card,
      script: seq<Reply>): Card
    requires mss > 0 && SessionConforms(f, channel, mss, commands, c, script)
    decreases |commands|
  {
    if commands == [] then c
    else
      var out := Written(channel, mss, commands[0], script);
      SessionCard(f, channel, mss, commands[1..], CardAfter(f, channel, mss, commands[0], c, script),
        Left(script, |out.sent|))
  }

  /** Over a whole session the card executes each command, in order, and the responses are its results. */
  lemma {:induction false} SessionIsCalls(f: Applet, channel: byte, mss: nat, commands: seq<seq<byte>>, c: Card,
      script: seq<Reply>)
    requires channel < 20 && 1 <= mss <= 255 && c.phase == READY && Deliverable(mss, commands)
    requires SessionConforms(f, channel, mss, commands, c, script)
    ensures Session(channel, mss, commands, script) == seq(|commands|, i requires 0 <= i < |commands| => f(commands[i]))
    ensures SessionCard(f, channel, mss, commands, c, script) == Card(READY, c.executed + commands)
    decreases |commands|
  {
    hide Conforms, CardAfter, Written, Left;
    if commands != [] {
      var command := commands[0];
      assert command in commands;
      WriteIsOneCall(f, channel, mss, command, c, script);
      var left := Left(script, |Written(channel, mss, command, script).sent|);
      SessionIsCalls(f, channel, mss, commands[1..], CardAfter(f, channel, mss, command, c, script), left);
      assert c.executed + [command] + commands[1..] == c.executed + commands;
    }
  }

  /** To any session there are replies that a card may give. */
  lemma {:induction false} ObligingSession(f: Applet, channel: byte, mss: nat, commands: seq<seq<byte>>, c: Card)
    returns (script: seq<Reply>)
    requires 1 <= mss <= 255 && !c.phase.Answering?
    ensures SessionConforms(f, channel, mss, commands, c, script)
    decreases |commands|
  {
    hide Conforms, CardAfter, Written, Left, Replies, CardAtEnd, Blocks;
    script := [];
    if commands != [] {
      var blocks := Blocks(channel, commands[0], mss);
      var later := ObligingSession(f, channel, mss, commands[1..], CardAtEnd(f, channel, blocks, c));
      script := Replies(f, channel, blocks, c) + later;
      ObligingCard(f, channel, mss, commands[0], c, later);
    }
  }

  // Which sessions are executed as they were given

  /** A card that takes no first block, and never will again. */
  predicate Off(c: Card) { c.phase.Unspecified? || (c.phase.Collecting? && Number(c.phase.count) != 0) }

  lemma {:induction false} UnspecifiedStays(f: Applet, channel: byte, c: Card, sent: seq<Request>, script: seq<Reply>)
    requires c.phase.Unspecified?
    ensures CardRun(f, channel, c, sent, script) == Some(c)
    decreases |sent|
  {
    hide Encode, Decode, Hear;
    if sent != [] { UnspecifiedStays(f, channel, c, sent[1..], Left(script, 1)); }
  }

  lemma FirstSent(channel: byte, rs: seq<Request>, script: seq<Reply>)
    ensures rs == [] ==> Run(channel, rs, script).sent == []
    ensures rs != [] ==> Run(channel, rs, script).sent != [] && Run(channel, rs, script).sent[0] == rs[0]
  {
  }

  /** Whatever is written to it, it executes nothing. */
  lemma OffStays(f: Applet, channel: byte, mss: nat, command: seq<byte>, c: Card, script: seq<Reply>)
    requires 1 <= mss <= 255 && Off(c) && Conforms(f, channel, mss, command, c, script)
    ensures var after := CardAfter(f, channel, mss, command, c, script); Off(after) && after.executed == c.executed
  {
    hide Run, Encode, Decode, Hear, Block, ChannelOf;
    var blocks := Blocks(channel, command, mss);
    var sent := Run(channel, blocks, script).sent;
    FirstSent(channel, blocks, script);
    if blocks != [] {
      BlockShape(channel, command, mss, 0);
      DecodeEncoded(blocks[0]);
      UnspecifiedStays(f, channel, c.(phase := Unspecified), sent[1..], Left(script, 1));
    }
  }

  lemma BlockShape(channel: byte, command: seq<byte>, mss: nat, i: nat)
    requires mss > 0 && i < PieceCount(|command|, mss)
    ensures var r := Block(channel, command, mss, i); r.p2 == Number(i) && 0 < |r.data| <= mss
  {
    hide PieceCount, ClassOctet, Number, LastNumber;
    PrefixGrows(command, mss, i);
  }

  lemma {:induction false} SessionOff(f: Applet, channel: byte, mss: nat, commands: seq<seq<byte>>, c: Card,
      script: seq<Reply>)
    requires 1 <= mss <= 255 && Off(c) && SessionConforms(f, channel, mss, commands, c, script)
    ensures SessionCard(f, channel, mss, commands, c, script).executed == c.executed
    decreases |commands|
  {
    hide Conforms, CardAfter, Written, Left, Off;
    if commands != [] {
      var left := Left(script, |Written(channel, mss, commands[0], script).sent|);
      OffStays(f, channel, mss, commands[0], c, script);
      SessionOff(f, channel, mss, commands[1..], CardAfter(f, channel, mss, commands[0], c, script), left);
    }
  }

  /** What is executed from place n on is not empty. */
  predicate NotEmptyFrom(c: Card, n: nat) { forall i :: n <= i < |c.executed| ==> c.executed[i] != [] }

  /** Requests whose blocks, if they are any, have data, and no more than a card reads. */
  predicate HasData(rs: seq<Request>) {
    forall r :: r in rs ==> |r.data| < 256 && (r.ins == STORE_DATA ==> r.data != [])
  }

  /** Whatever happens, a card executes no empty command, for no block is empty. */
  lemma {:induction false} ExecutesNoEmpty(f: Applet, channel: byte, c: Card, n: nat, sent: seq<Request>,
      script: seq<Reply>)
    requires NotEmptyFrom(c, n) && HasData(sent) && CardRun(f, channel, c, sent, script).Some?
    ensures NotEmptyFrom(CardRun(f, channel, c, sent, script).value, n)
    decreases |sent|
  {
    hide Encode, Decode, Hear, ChannelOf, Number;
    if sent != [] {
      var r := sent[0];
      assert r in sent;
      DecodeEncoded(r);
      var next := CardNext(f, channel, c, Some(r), Next(script));
      assert forall x :: x in sent[1..] ==> x in sent;
      ExecutesNoEmpty(f, channel, next.value, n, sent[1..], Left(script, 1));
    }
  }

  lemma {:induction false} DrainHasData(channel: byte, le: byte, script: seq<Reply>)
    ensures HasData(Drain(channel, le, script).sent)
    decreases |script|
  {
    var h := Hear(Next(script));
    if h.Heard? && h.more { DrainHasData(channel, h.sw2, script[1..]); }
  }

  lemma {:induction false} RunHasData(channel: byte, rs: seq<Request>, script: seq<Reply>)
    requires HasData(rs)
    ensures HasData(Run(channel, rs, script).sent)
    decreases |rs|
  {
    hide Sent, Left;
    if rs != [] {
      var o := Sent(channel, rs[0], script);
      SentHasData(channel, rs, script);
      assert forall x :: x in rs[1..] ==> x in rs;
      if o.status.Done? { RunHasData(channel, rs[1..], Left(script, |o.sent|)); }
    }
  }

  lemma SentHasData(channel: byte, rs: seq<Request>, script: seq<Reply>)
    requires HasData(rs) && rs != []
    ensures HasData(Sent(channel, rs[0], script).sent)
  {
    hide Drain;
    assert rs[0] in rs;
    var h := Hear(Next(script));
    if h.Heard? && h.more { DrainHasData(channel, h.sw2, script[1..]); }
  }

  lemma WriteExecutesNoEmpty(f: Applet, channel: byte, mss: nat, command: seq<byte>, c: Card, n: nat,
      script: seq<Reply>)
    requires 1 <= mss <= 255 && NotEmptyFrom(c, n) && Conforms(f, channel, mss, command, c, script)
    ensures NotEmptyFrom(CardAfter(f, channel, mss, command, c, script), n)
  {
    hide Run, CardRun, Block, NotEmptyFrom;
    var blocks := Blocks(channel, command, mss);
    forall r | r in blocks ensures |r.data| < 256 && r.data != [] {
      var i :| 0 <= i < |blocks| && blocks[i] == r;
      BlockShape(channel, command, mss, i);
    }
    RunHasData(channel, blocks, script);
    ExecutesNoEmpty(f, channel, c, n, Run(channel, blocks, script).sent, script);
  }

  /** Over a session, what was executed stays, and what comes after it is not empty. */
  lemma {:induction false} SessionAdds(f: Applet, channel: byte, mss: nat, commands: seq<seq<byte>>, c: Card, n: nat,
      script: seq<Reply>)
    requires 1 <= mss <= 255 && NotEmptyFrom(c, n) && SessionConforms(f, channel, mss, commands, c, script)
    ensures var end := SessionCard(f, channel, mss, commands, c, script);
            c.executed <= end.executed && NotEmptyFrom(end, n)
    decreases |commands|
  {
    hide Conforms, CardAfter, Written, Left, NotEmptyFrom;
    if commands != [] {
      var left := Left(script, |Written(channel, mss, commands[0], script).sent|);
      WriteAdds(f, channel, mss, commands[0], c, script);
      WriteExecutesNoEmpty(f, channel, mss, commands[0], c, n, script);
      SessionAdds(f, channel, mss, commands[1..], CardAfter(f, channel, mss, commands[0], c, script), n, left);
    }
  }

  lemma WriteAdds(f: Applet, channel: byte, mss: nat, command: seq<byte>, c: Card, script: seq<Reply>)
    requires mss > 0 && Conforms(f, channel, mss, command, c, script)
    ensures c.executed <= CardAfter(f, channel, mss, command, c, script).executed
  {
    hide Run, CardRun;
    ExecutedStays(f, channel, c, Written(channel, mss, command, script).sent, script);
  }

  /** A session whose first command is not deliverable is not executed as it was given. */
  lemma UndeliveredSession(f: Applet, channel: byte, mss: nat, commands: seq<seq<byte>>, c: Card, script: seq<Reply>)
    requires channel < 20 && 1 <= mss <= 255 && c.phase == READY && commands != []
    requires |commands[0]| % mss == 0 || |commands[0]| / mss >= 256
    requires SessionConforms(f, channel, mss, commands, c, script)
    ensures SessionCard(f, channel, mss, commands, c, script).executed != c.executed + commands
  {
    hide Conforms, CardAfter, Written, Left;
    var command, n := commands[0], |c.executed|;
    var end, all := SessionCard(f, channel, mss, commands, c, script).executed, c.executed + commands;
    assert all[n] == command && |all| > n;
    var after := CardAfter(f, channel, mss, command, c, script);
    var left := Left(script, |Written(channel, mss, command, script).sent|);
    if command == [] {
      SessionAdds(f, channel, mss, commands, c, n, script);
    } else if |command| / mss >= 256 {
      PrefixExecuted(f, channel, mss, command, c, script);
      SessionAdds(f, channel, mss, commands[1..], after, |after.executed|, left);
      var k := Start(|command|, mss, |command| / mss % 256 + 1);
      assert (c.executed + [command[..k]])[n] == command[..k];
      assert |end| > n ==> end[n] == command[..k];
    } else {
      NeverExecuted(f, channel, mss, command, c, script);
      CollectedIsOff(mss, command, after);
      SessionOff(f, channel, mss, commands[1..], after, left);
    }
  }

  lemma CollectedIsOff(mss: nat, command: seq<byte>, c: Card)
    requires mss > 0 && command != [] && |command| % mss == 0 && |command| / mss < 256
    requires c.phase == Collecting(command, PieceCount(|command|, mss))
    ensures Off(c)
  {
    var q := |command| / mss;
    assert |command| == q * mss + |command| % mss;
    assert q != 0;
  }

  /** A session is executed as it was given, each command once and nothing else, exactly when every command is
      one that a write delivers. */
  lemma {:induction false} SessionExecutesExactly(f: Applet, channel: byte, mss: nat, commands: seq<seq<byte>>, c: Card,
      script: seq<Reply>)
    requires channel < 20 && 1 <= mss <= 255 && c.phase == READY
    requires SessionConforms(f, channel, mss, commands, c, script)
    ensures SessionCard(f, channel, mss, commands, c, script).executed == c.executed + commands
            <==> Deliverable(mss, commands)
    decreases |commands|
  {
    hide Conforms, CardAfter, Written, Left;
    if commands != [] {
      var command := commands[0];
      assert command in commands;
      if |command| % mss == 0 || |command| / mss >= 256 {
        UndeliveredSession(f, channel, mss, commands, c, script);
      } else {
        WriteIsOneCall(f, channel, mss, command, c, script);
        var left := Left(script, |Written(channel, mss, command, script).sent|);
        var after := CardAfter(f, channel, mss, command, c, script);
        SessionExecutesExactly(f, channel, mss, commands[1..], after, left);
        assert c.executed + [command] + commands[1..] == c.executed + commands;
        assert Deliverable(mss, commands) <==> Deliverable(mss, commands[1..]) by {
          assert forall x :: x in commands ==> x == command || x in commands[1..];
        }
      }
    }
  }
}
