/** lpa/download.go over driver/transmitter.go: a Bound Profile Package, cut into segments, each sent as a
    command in STORE DATA blocks, at the card. */
module Install {
  import opened Bytes
  import opened BerTlv
  import opened BoundProfilePackage
  import opened ApduCard
  import Apdu

  /** Put together, the segments of a standard package are its own encoding; and a card that is sent them one
      after another has executed exactly them, in order, if and only if no segment's length is a multiple of the
      block size or reaches 256 blocks. Then the responses are its results. */
  lemma PackageReachesCard(f: Applet, channel: byte, mss: nat, bpp: Tlv, script: seq<Apdu.Reply>)
    requires Standard(bpp) && channel < 20 && 1 <= mss <= 255
    ensures Valid(bpp) && Ready(bpp) && Concat(Segments(bpp)) == Print(bpp)
    ensures var segments, card := Segments(bpp), Card(READY, []);
            SessionConforms(f, channel, mss, segments, card, script) ==>
              && (SessionCard(f, channel, mss, segments, card, script).executed == segments
                  <==> Deliverable(mss, segments))
              && (Deliverable(mss, segments) ==>
                    Session(channel, mss, segments, script)
                    == seq(|segments|, i requires 0 <= i < |segments| => f(segments[i])))
  {
    hide Valid, Ready, Segments, Writable, ReadableTags, Print, Concat, Deliverable, SessionConforms;
    hide SessionCard, Session;
    StandardPackage(bpp);
    var segments, card := Segments(bpp), Card(READY, []);
    assert [] + segments == segments;
    if SessionConforms(f, channel, mss, segments, card, script) {
      SessionExecutesExactly(f, channel, mss, segments, card, script);
      if Deliverable(mss, segments) { SessionIsCalls(f, channel, mss, segments, card, script); }
    }
  }
}
