/** A write told request by request, in the octets of the replies: what is sent next, and how it ends. */
module ApduTalk {
  import opened Bytes
  import opened Chunks
  import opened Apdu
  import opened ApduCard

  // Replies, in octets

  /** Success. */
  predicate Says9000(reply: Reply) {
    reply.Octets? && |reply.data| >= 2 && reply.data[|reply.data| - 2] == 0x90 && reply.data[|reply.data| - 1] == 0x00
  }

  /** Success, and xx more octets to get. */
  predicate Says61(reply: Reply) { reply.Octets? && |reply.data| >= 2 && reply.data[|reply.data| - 2] == 0x61 }

  predicate Accepted(reply: Reply) { Says9000(reply) || Says61(reply) }

  /** What is in front of the status word, and its second octet. */
  function DataIn(reply: Reply): seq<byte>
    requires Accepted(reply)
  {
    reply.data[..|reply.data| - 2]
  }

  function Announced(reply: Reply): byte
    requires Says61(reply)
  {
    reply.data[|reply.data| - 1]
  }

  lemma HearOctets(reply: Reply)
    ensures Hear(reply).Heard? <==> Accepted(reply)
    ensures Accepted(reply) ==> Hear(reply).data == DataIn(reply) && Hear(reply).more == Says61(reply)
    ensures Says61(reply) ==> Hear(reply).sw2 == Announced(reply)
    ensures Hear(reply).Short? <==> reply.Octets? && |reply.data| < 2
    ensures !(Says9000(reply) && Says61(reply))
  {
  }

  // The flat form

  /** The request that gets what was announced, or the next block. */
  function Ask(channel: byte, more: Option<byte>, rs: seq<Request>): Request
    requires more.Some? || rs != []
  {
    if more.Some? then Request(ClassOctet(channel), 0xC0, 0, 0, [], more) else rs[0]
  }

  /** A write from a point on: what is announced, the blocks to come, the replies to come. */
  function Talk(channel: byte, more: Option<byte>, rs: seq<Request>, script: seq<Reply>): (out: Outcome)
    decreases |script|
  {
    if more.None? && rs == [] then Ended(Done)
    else
      var r, reply := Ask(channel, more, rs), Next(script);
      var later := if more.Some? then rs else rs[1..];
      if Says9000(reply) then After(|r.data|, DataIn(reply), [r], Talk(channel, None, later, script[1..]))
      else if Says61(reply) then
        After(|r.data|, if more.Some? then DataIn(reply) else [], [r],
              Talk(channel, Some(Announced(reply)), later, script[1..]))
      else After(0, [], [r], Ended(if reply.Octets? && |reply.data| < 2 then Panicked else Failed))
  }

  lemma AfterTwice(n: nat, a: seq<byte>, sent: seq<Request>, m: nat, b: seq<byte>, more: seq<Request>, rest: Outcome)
    ensures After(n, a, sent, After(m, b, more, rest)) == After(n + m, a + b, sent + more, rest)
    ensures After(n, a, sent, Ended(rest.status)) == Outcome(rest.status, n, a, sent)
  {
    Regroup(a, b, rest.response);
    Regroup(sent, more, rest.sent);
    assert a + [] == a && sent + [] == sent;
  }

  lemma Alone(a: seq<byte>, sent: seq<Request>)
    ensures a + [] == a && sent + [] == sent && [] + a == a
  {
  }

  /** Draining, and then the blocks to come. */
  lemma {:induction false} DrainIsTalk(channel: byte, le: byte, rs: seq<Request>, script: seq<Reply>)
    ensures var d := Drain(channel, le, script);
            Talk(channel, Some(le), rs, script)
            == After(0, d.response, d.sent,
                     if d.status.Done? then Talk(channel, None, rs, Left(script, |d.sent|)) else Ended(d.status))
    decreases |script|
  {
    hide Hear, Says9000, Says61, DataIn, Announced, Left, Talk, Drain, Ask, GetResponse, Next;
    var reply, r := Next(script), GetResponse(channel, le);
    HearOctets(reply);
    AskForMore(channel, le, rs);
    DrainTurn(channel, le, script);
    TalkTurn(channel, Some(le), rs, script);
    Alone(if Accepted(reply) then DataIn(reply) else [], [r]);
    if Says61(reply) {
      var left, xx := Left(script, 1), Announced(reply);
      var d := Drain(channel, xx, left);
      DrainIsTalk(channel, xx, rs, left);
      AfterTwice(0, DataIn(reply), [r], 0, d.response, d.sent,
                 if d.status.Done? then Talk(channel, None, rs, Left(left, |d.sent|)) else Ended(d.status));
      LeftJoin(script, 1, |d.sent|);
    }
  }

  lemma AskForMore(channel: byte, le: byte, rs: seq<Request>)
    ensures Ask(channel, Some(le), rs) == GetResponse(channel, le) && GetResponse(channel, le).data == []
  {
  }

  /** One request and its reply. */
  lemma TalkTurn(channel: byte, more: Option<byte>, rs: seq<Request>, script: seq<Reply>)
    requires more.Some? || rs != []
    ensures var r, reply, left := Ask(channel, more, rs), Next(script), Left(script, 1);
            var later := if more.Some? then rs else rs[1..];
            && (Accepted(reply) ==> |left| < |script|)
            && Talk(channel, more, rs, script)
               == if Says9000(reply) then After(|r.data|, DataIn(reply), [r], Talk(channel, None, later, left))
                  else if Says61(reply) then
                    After(|r.data|, if more.Some? then DataIn(reply) else [], [r],
                          Talk(channel, Some(Announced(reply)), later, left))
                  else After(0, [], [r], Ended(if reply.Octets? && |reply.data| < 2 then Panicked else Failed))
  {
    hide DataIn, Announced, Ask;
  }

  /** The loop over blocks with the draining loop inside it does the same. */
  lemma {:induction false} RunIsTalk(channel: byte, rs: seq<Request>, script: seq<Reply>)
    ensures Run(channel, rs, script) == Talk(channel, None, rs, script)
    decreases |rs|
  {
    hide Hear, Says9000, Says61, Left, Drain, Sent;
    if rs != [] {
      var r, reply, left := rs[0], Next(script), Left(script, 1);
      HearOctets(reply);
      SentOf(channel, r, script);
      SentEnds(channel, r, script);
      TalkTurn(channel, None, rs, script);
      Alone([], [r]);
      var o := Sent(channel, r, script);
      if o.status.Done? { RunIsTalk(channel, rs[1..], Left(script, |o.sent|)); }
      if Says61(reply) && !Says9000(reply) {
        var d := Drain(channel, Announced(reply), left);
        DrainIsTalk(channel, Announced(reply), rs[1..], left);
        LeftJoin(script, 1, |d.sent|);
        AfterTwice(|r.data|, [], [r], 0, d.response, d.sent,
                   if d.status.Done? then Talk(channel, None, rs[1..], Left(left, |d.sent|)) else Ended(d.status));
      }
    }
  }

  /** A block whose reply is refused. */
  lemma SentEnds(channel: byte, r: Request, script: seq<Reply>)
    ensures !Hear(Next(script)).Heard? ==> Sent(channel, r, script) == After(0, [], [r], Stop(Hear(Next(script))))
    ensures Hear(Next(script)).Heard? && Hear(Next(script)).more ==>
              Drain(channel, Hear(Next(script)).sw2, Left(script, 1)).n == 0
  {
    hide Hear;
  }

  // What that means for every request and reply

  /** Reply number k; a link without one is down. */
  function At(script: seq<Reply>, k: nat): Reply { if k < |script| then script[k] else LinkDown }

  /** Every request but the last got a reply that was accepted; so did the last exactly when the write is done.
      It panics exactly on a last reply of less than a status word, and fails on any other. */
  predicate Ends(out: Outcome, script: seq<Reply>) {
    var last := |out.sent| - 1;
    && (forall k :: 0 <= k < last ==> Accepted(At(script, k)))
    && (out.status.Done? && out.sent != [] ==> Says9000(At(script, last)))
    && (!out.status.Done? ==> last >= 0 && !Accepted(At(script, last)))
    && (out.status.Panicked? ==> At(script, last).Octets?)
    && (!out.status.Done? ==> (out.status.Panicked? <==> At(script, last).Octets? && |At(script, last).data| < 2))
  }

  /** A reply 61xx is followed by GET RESPONSE with Le xx, and a reply 9000, if by anything, by a block. */
  predicate Follows(channel: byte, rs: seq<Request>, out: Outcome, script: seq<Reply>) {
    forall k :: 0 <= k < |out.sent| - 1 ==>
      if Says61(At(script, k)) then
        out.sent[k + 1] == Request(ClassOctet(channel), 0xC0, 0, 0, [], Some(Announced(At(script, k))))
      else out.sent[k + 1] in rs
  }

  lemma {:induction false} TalkTells(channel: byte, more: Option<byte>, rs: seq<Request>, script: seq<Reply>)
    ensures var out := Talk(channel, more, rs, script);
            Ends(out, script) && Follows(channel, rs, out, script)
            && (out.sent != [] ==> (more.Some? || rs != []) && out.sent[0] == Ask(channel, more, rs))
            && (more.Some? || rs != [] ==> out.sent != [])
    decreases |script|
  {
    hide Says9000, Says61, Left;
    if more.Some? || rs != [] {
      var r, reply, left := Ask(channel, more, rs), Next(script), Left(script, 1);
      var later := if more.Some? then rs else rs[1..];
      HearOctets(reply);
      TalkTurn(channel, more, rs, script);
      Shifted(script);
      if Accepted(reply) {
        var next := if Says61(reply) then Some(Announced(reply)) else None;
        var rest := Talk(channel, next, later, left);
        TalkTells(channel, next, later, left);
        var out := Talk(channel, more, rs, script);
        assert out.sent == [r] + rest.sent && out.status == rest.status;
        hide Talk;
        Longer(channel, rs, later, r, reply, rest, out, script);
      }
    }
  }

  lemma Shifted(script: seq<Reply>)
    ensures At(script, 0) == Next(script)
    ensures forall k: nat :: At(script, k + 1) == At(Left(script, 1), k)
  {
  }

  /** One request more in front. */
  lemma Longer(channel: byte, rs: seq<Request>, later: seq<Request>, r: Request, reply: Reply, rest: Outcome,
      out: Outcome, script: seq<Reply>)
    requires reply == Next(script) && Accepted(reply) && !(Says9000(reply) && Says61(reply))
    requires later == rs || (rs != [] && later == rs[1..])
    requires out.sent == [r] + rest.sent && out.status == rest.status
    requires Ends(rest, Left(script, 1)) && Follows(channel, later, rest, Left(script, 1))
    requires rest.sent == [] ==> Says9000(reply) && rest.status.Done?
    requires rest.sent != [] ==>
               if Says61(reply) then
                 rest.sent[0] == Request(ClassOctet(channel), 0xC0, 0, 0, [], Some(Announced(reply)))
               else rest.sent[0] in later
    ensures Ends(out, script) && Follows(channel, rs, out, script)
  {
    hide Says9000, Says61, Left, Announced, ClassOctet;
    Shifted(script);
    assert forall x :: x in later ==> x in rs;
    forall k | 0 <= k < |out.sent| ensures k > 0 ==> At(script, k) == At(Left(script, 1), k - 1) {
      if k > 0 { var j: nat := k - 1; assert At(script, j + 1) == At(Left(script, 1), j); }
    }
  }

  /** The requests that were answered: all of a write that is done, all but the last of another. */
  function Answered(out: Outcome): seq<Request> {
    if out.status.Done? || out.sent == [] then out.sent else out.sent[..|out.sent| - 1]
  }

  /** What is kept of the replies: the data with a block's 9000, and with every reply to GET RESPONSE. */
  function Kept(sent: seq<Request>, script: seq<Reply>): seq<byte>
    decreases |sent|
  {
    if sent == [] || !Accepted(Next(script)) then []
    else
      (if Says9000(Next(script)) || sent[0].ins == 0xC0 then DataIn(Next(script)) else [])
      + Kept(sent[1..], Left(script, 1))
  }

  /** The count is that of the data in the requests that were answered, the response what is kept of the replies. */
  lemma {:induction false} TalkCounts(channel: byte, more: Option<byte>, rs: seq<Request>, script: seq<Reply>)
    requires forall r :: r in rs ==> r.ins != 0xC0
    ensures var out := Talk(channel, more, rs, script);
            out.n == |Concat(DataOf(Answered(out)))| && out.response == Kept(out.sent, script)
    decreases |script|
  {
    hide Says9000, Says61, Left;
    if more.Some? || rs != [] {
      var r, reply, left := Ask(channel, more, rs), Next(script), Left(script, 1);
      var later := if more.Some? then rs else rs[1..];
      HearOctets(reply);
      TalkTurn(channel, more, rs, script);
      if Accepted(reply) {
        var next := if Says61(reply) then Some(Announced(reply)) else None;
        var rest := Talk(channel, next, later, left);
        TalkCounts(channel, next, later, left);
        TalkTells(channel, next, later, left);
        AnsweredMore(r, rest, Talk(channel, more, rs, script));
        hide Talk;
        assert ([r] + rest.sent)[1..] == rest.sent;
      }
    }
  }

  lemma AnsweredMore(r: Request, rest: Outcome, out: Outcome)
    requires out.sent == [r] + rest.sent && out.status == rest.status && (rest.sent == [] ==> rest.status.Done?)
    ensures |Concat(DataOf(Answered(out)))| == |r.data| + |Concat(DataOf(Answered(rest)))|
  {
    assert Answered(out) == [r] + Answered(rest);
    DataOfCons(r, Answered(rest));
  }

  /** A whole write, in the octets of its replies. */
  lemma WriteTells(channel: byte, mss: nat, command: seq<byte>, script: seq<Reply>)
    requires mss > 0
    ensures var out, blocks := Written(channel, mss, command, script), Blocks(channel, command, mss);
            && Ends(out, script) && Follows(channel, blocks, out, script)
            && (if command == [] then out.sent == [] && out.status.Done?
                else out.sent != [] && out.sent[0] == blocks[0])
            && out.n == |Concat(DataOf(Answered(out)))| && out.response == Kept(out.sent, script)
  {
    hide Talk, Run, Ends, Follows, Block, PieceCount, Start;
    var blocks := Blocks(channel, command, mss);
    RunIsTalk(channel, blocks, script);
    TalkTells(channel, None, blocks, script);
    BlocksAreStores(channel, command, mss);
    TalkCounts(channel, None, blocks, script);
    NoBlocks(|command|, mss);
    NothingToSay(channel, script);
  }

  lemma NoBlocks(len: nat, mss: nat)
    requires mss > 0
    ensures PieceCount(len, mss) == 0 <==> len == 0
  {
    hide Start;
    StartNext(len, mss, 0);
  }

  lemma NothingToSay(channel: byte, script: seq<Reply>)
    ensures Talk(channel, None, [], script) == Ended(Done)
  {
  }

  lemma BlocksAreStores(channel: byte, command: seq<byte>, mss: nat)
    requires mss > 0
    ensures forall r :: r in Blocks(channel, command, mss) ==> r.ins == 0xE2
  {
  }

  /** So a write is done only if every reply it took says 9000 or 61xx; and the first that has a status word and
      says neither makes it fail: it was the last, and what counts is what was answered before. */
  lemma RefusalFails(channel: byte, mss: nat, command: seq<byte>, script: seq<Reply>, k: nat)
    requires mss > 0
    ensures var out := Written(channel, mss, command, script);
            && (out.status.Done? && k < |out.sent| ==> Accepted(At(script, k)))
            && (k < |out.sent| && At(script, k).Octets? && |At(script, k).data| >= 2 && !Accepted(At(script, k)) ==>
                  && out.status.Failed? && |out.sent| == k + 1
                  && out.n == |Concat(DataOf(out.sent[..k]))|)
  {
    hide Written, Follows, Kept, Says9000, Says61;
    WriteTells(channel, mss, command, script);
  }

  /** A command of one block that is answered 6A80, say, has sent that block only, and none of it counts. */
  lemma RefusedAtOnce(channel: byte, mss: nat, command: seq<byte>, reply: seq<byte>, later: seq<Reply>)
    requires mss > 0 && command != [] && |reply| >= 2 && !Accepted(Octets(reply))
    ensures Written(channel, mss, command, [Octets(reply)] + later)
            == Outcome(Failed, 0, [], [Block(channel, command, mss, 0)])
  {
    hide Talk, Run, Block, PieceCount, Start, Accepted;
    var script, blocks := [Octets(reply)] + later, Blocks(channel, command, mss);
    StartNext(|command|, mss, 0);
    RunIsTalk(channel, blocks, script);
    TalkTurn(channel, None, blocks, script);
    Alone([], [blocks[0]]);
    assert !Accepted(Octets(reply)) ==> !Says9000(Octets(reply)) && !Says61(Octets(reply)) by {
      Refused(Octets(reply));
    }
  }

  lemma Refused(reply: Reply)
    ensures !Accepted(reply) ==> !Says9000(reply) && !Says61(reply)
  {
  }

  // On the wire

  /** The octets of a request, place by place. */
  lemma EncodedFields(r: Request)
    ensures var s, n := Encode(r), |r.data|;
            && |s| == 4 + (if n == 0 then 0 else 1 + n) + (if r.le.Some? then 1 else 0)
            && s[0] == r.cla && s[1] == r.ins && s[2] == r.p1 && s[3] == r.p2
            && (n > 0 ==> s[4] == n % 256 && s[5..5 + n] == r.data)
            && (r.le.Some? ==> s[|s| - 1] == r.le.value)
  {
  }

  /** The class octet of a channel. */
  lemma ClassOctets(channel: byte)
    ensures channel < 4 ==> ClassOctet(channel) == 0x80 + channel as int
    ensures 4 <= channel < 20 ==> ClassOctet(channel) == 0xC0 + channel as int - 4
    ensures channel >= 20 ==> ClassOctet(channel) == 0x80
  {
  }

  /** Block i of a command: 80 E2 11 or 91, its number, its length and its piece of the command. */
  lemma BlockOctets(channel: byte, command: seq<byte>, mss: nat, i: nat)
    requires 1 <= mss <= 255 && i < PieceCount(|command|, mss)
    ensures var at := i * mss;
            && at < |command|
            && var piece := command[at..Min(at + mss, |command|)];
               Encode(Blocks(channel, command, mss)[i])
               == [ClassOctet(channel), 0xE2, if i % 256 == |command| / mss % 256 then 0x91 else 0x11, i % 256,
                   |piece|] + piece
  {
    hide ClassOctet, PieceCount, Encode, Front;
    var at := i * mss;
    Multiples(|command|, mss, i);
    Slice(command, at, mss);
    EncodedPlain(Blocks(channel, command, mss)[i]);
  }

  lemma EncodedPlain(r: Request)
    requires r.le.None? && 0 < |r.data| < 256
    ensures Encode(r) == [r.cla, r.ins, r.p1, r.p2, |r.data|] + r.data
  {
  }

  lemma Slice(s: seq<byte>, at: nat, n: nat)
    requires at <= |s|
    ensures Front(s[at..], n) == s[at..Min(at + n, |s|)]
  {
  }
}
