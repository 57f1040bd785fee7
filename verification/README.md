# euicc-go: a Dafny model of its codecs, transports and connection lifetime

euicc-go drives an eUICC (an embedded SIM) from a host: it speaks BER-TLV to the card, carries commands over
APDUs, MBIM, QMI over QMUX or QMI over QRTR, and downloads profiles from an SM-DP+ server. This project models
the parts of it that parse, print, cut up, put together or synchronise, and proves what they keep.

Run `dafny verify dfyconfig.toml` in this directory.

How it is laid out:

- Code that loops over mutable state is a `method` (or a `class` with its fields) proved equal to a function of
  its inputs or its old state; the properties are lemmas about those functions.
- `bytes.dfy`, `chunks.dfy`, `streams.dfy`: octets, little-endian fields, in-memory readers and sinks, cutting
  into pieces, and the far end of a byte connection.
- `tags.dfy`, `lengths.dfy`, `tlv.dfy`, `tlv_io.dfy`, `tlv_clone.dfy`, `tlv_normal.dfy`: BER-TLV. `integers.dfy`,
  `bitstrings.dfy`, `bcd.dfy`: the primitive codecs. `bpp.dfy`, `bpp_places.dfy`: cutting a Bound Profile Package,
  and which of its octets each segment is.
- `apdu.dfy`, `apdu_card.dfy`, `apdu_talk.dfy`: the APDU block transport, the same against a card, and the same
  request by request in the octets of the replies.
- `mbim_fragment.dfy`, `mbim_request.dfy`, `mbim_reply.dfy`, `mbim_wire.dfy`, `mbim_slots.dfy`: MBIM.
- `qmi_tlv.dfy`, `qmux.dfy`, `qmi_qrtr.dfy`, `qmi_wire.dfy`: QMI messages over QMUX and QRTR, and the UIM client's
  APDUs.
- The laws about messages are of two kinds: what the two ends make of each other's octets, and what those octets
  are, place by place, with every constant written out (`MbimWire`, `QmiWire`, `ApduTalk`, `SegmentPlaces`).
- `qrtr_conn.dfy`, `qrtr_threads.dfy`, `qrtr_progress.dfy`: one QRTR connection shared by any number of threads.
- `download.dfy`: a profile download as a trace of card commands and server calls. `install.dfy`: a package sent
  segment by segment over the block transport.

## Where the environment is

Connections, cards, servers and users are inputs. A byte connection is the octets still to arrive, one tick for
every round of a read loop (octets to read, a timeout, or an error) and one entry for every write (how much it
takes, and whether it fails); a smart card channel is the replies still to come; a download is given every
answer it will get. A script that runs out is a link that fails or a deadline that passes, so every statement is
about all finite behaviours of the environment. Threads on a QRTR connection take steps in any order; each region
under the mutex and each system call is one step, and what a system call returns is part of the step.

## What turned out false, and what holds instead

- A re-encoding is not always at most as long as what was parsed. A last child that overruns its parent's length
  can push the parent's content over 127 octets and cost one more length octet (`Normalise.OverrunGrows`). The
  size of a re-encoding is exactly the octets consumed plus a sum over the nodes of printed minus read length
  octets, which the octets read determine (`Normalise.PrintParsed`, `Growth`). It can only be longer if some run
  of children ends at a count that the length octets read for it cannot say, and when all lengths were read in
  shortest form it is longer exactly then (`Normalise.LongerExactly`).
- `NewTag` is right exactly for numbers below 128 (`Tags.NewTagInverse`), `MarshalBitString` exactly for bit
  counts that are not multiples of 8 (`BitStrings.DecodeEncoded`), and BCD decoding exactly where its last `f` is
  the filler (`Bcd.DecodeEncoded`, `Bcd.EncodeDecoded`).
- A command reaches the card whole exactly when the block size does not divide its length and there are fewer
  than 256 whole blocks. A command that the block size divides is never executed and yet the write succeeds with
  an empty response; a longer one has a proper prefix executed first (`ApduCard.ExecutesExactlyTheCommand`,
  `NeverExecuted`, `PrefixExecuted`). A card's replies to any command and any session exist, so each of these
  failures does happen (`ApduCard.ObligingCard`, `UndeliveredFails`, `FullBlockIsLost`).
- A session of commands is executed as it was given, each once and nothing else, exactly when every one of them is
  a command that a write delivers whole (`ApduCard.SessionExecutesExactly`); so is a package, segment by segment
  (`Install.PackageReachesCard`).
- The segments of a package, put together, are the package's encoding exactly when its children, nil pointers
  aside, are the five parts that are picked, in order (`BoundProfilePackage.SegmentsReassemble`).
- An MBIM message that is cut up and reassembled comes back exactly when its own header says fragment 0 of 1; the
  reassembled header always says so (`MbimFragment.CutAndCollect`).
- The slot mappings of a request read back exactly as far as MapCount goes, and not at all if MapCount is larger
  than the list (`MbimSlots.MapComesBack`).
- A QMI message reads back exactly when it has no TLVs or its result TLV says success (`Qmux.FrameComesBack`,
  `QmiQrtr.PacketComesBack`). The QMUX read loop passes over a frame only if its kind, its client and its
  transaction all differ, so a response to another client is taken for the answer (`Qmux.ForeignResponseIsTaken`),
  and an answer comes back exactly when every frame before it parses and is passed over
  (`Qmux.AnswerComesBack`). Over QRTR it comes back exactly when every event before it is a readable packet that
  is no response or to another transaction (`QmiQrtr.ResponseComesBackExactly`). So both loops are ended by any
  other traffic, such as an indication whose TLVs hold no result (`QmiWire.FrameWithResult`,
  `QmiWire.PacketWithResult`).
- No wakeup of a QRTR connection is lost exactly when at most one thread is ever inside Read, or there is only one
  thread (`QrtrProgress.NoLostWakeupExactly`). With two readers and a thread that closes, one reader can drain the
  eventfd that was written for both, and Close then waits for the other (`QrtrProgress.TwoReadersCanStick`): Close
  never hangs exactly when at most one thread is ever inside Read, or there are no more than two threads
  (`QrtrProgress.CloseEndsExactly`).

## Model

| member | source | states |
|---|---|---|
| Chunks.PiecesJoin | apdu/transmitter.go:45 | pieces of one size, the last shorter, put together are the whole |
| Chunks.CountRoundsUp | driver/mbim/fragment.go:41 | the rounded-up quotient is the number of pieces |
| Bytes.LeastFirst | driver/mbim/fragment.go:51-55 | the octets of a 16-bit and a 32-bit field, the least significant first |
| Tags.ReadTagExact | bertlv/tag.go:28-47 | the reader accepts exactly the identifier octets that X.690 section 8.1.2 shapes, up to the 11 it has room for, whatever follows |
| Tags.ReadFrom | bertlv/tag.go:28-47 | the loop gives that result, and how many octets it takes, accepted or not |
| Tags.NumberOfWellFormed | bertlv/tag.go:61-75 | in an accepted long tag every subsequent octet is a digit of the number |
| Tags.Value | bertlv/tag.go:61-75 | the loop in uint64 arithmetic gives the base-128 number modulo 2^64 |
| Tags.BuildTag | bertlv/tag.go:11-26 | the loop emits the identifier octets that the recursive description gives |
| Tags.NewTagInverse | bertlv/tag.go:11-93 | reader, Class, Form and Value undo NewTag exactly for numbers below 128; from there on the reader never stops inside the octets |
| Tags.NewTagSpells | bertlv/tag.go:11-26 | what is written for any number: one octet below 31, and from there on groups of seven bits, the least significant first, all with the continuation bit unless there is only one |
| Tags.CanonicalUnique | bertlv/tag.go:81-93 | class, form and number determine a canonical tag |
| Lengths.Read | bertlv/length.go:23-53 | the reader gives the length that the octets spell, or an error, and how many octets it takes either way |
| Lengths.ReadWritten | bertlv/length.go:9-53 | a length that was written reads back, whatever follows |
| Lengths.WriteRead | bertlv/length.go:9-53 | a length that was read is never longer when written again, and the same octets exactly when it was shortest |
| Lengths.LengthSpelled | bertlv/length.go:9-21 | a length below 80 is one octet; another is 80 plus how many octets spell it, and these, most significant first, the first not zero |
| Lengths.LengthRead | bertlv/length.go:23-53 | read, 81 to 83 are followed by one to three octets that spell the length; cut short, or behind any other first octet, it is an error |
| BerTlv.Parse | bertlv/tlv_reader.go:10-40 | an accepted node takes at least two octets and no more than there are |
| BerTlv.ParsePrinted | bertlv/tlv_reader.go:10-40 | parsing a printed tree, whatever follows, takes exactly its octets and gives its clone |
| BerTlv.ParsePrintedAll | bertlv/tlv_reader.go:22-31 | the child loop over printed children ends exactly at their declared length |
| BerTlv.PrintInjective | bertlv/tlv_writer.go:29-60 | the encoding is injective on clones and prefix-free |
| BerTlv.PrintAllInjective | bertlv/tlv_writer.go:51-58 | the same for runs of children |
| BerTlv.PrintClone | bertlv/tlv_writer.go:81-98 | a clone prints the same octets |
| TlvIO.ReadFrom | bertlv/tlv_reader.go:10-40 | the recursive reader gives the parsed tree or an error, and leaves the reader behind exactly the octets it read, accepted or not |
| TlvIO.ReadChildren | bertlv/tlv_reader.go:22-31 | the loop with its uint32 index gives the run of children or an error, and how many octets it read either way |
| TlvIO.Len | bertlv/tlv_writer.go:11-27 | the size, or a panic exactly when some content at or below needs more than three length octets |
| TlvIO.ContentLength | bertlv/length.go:55-67 | the sum of the children's sizes, nil children skipped |
| TlvIO.WriteTo | bertlv/tlv_writer.go:29-60 | a tree goes out octet for octet and is counted exactly when its form rules and size limits hold; otherwise it is refused or panics, and which, and what has gone out and was counted by then |
| TlvIO.WriteChildren | bertlv/tlv_writer.go:51-58 | the loop writes the children that are not nil, in order, and of the first that is refused what is before the refusal |
| TlvIO.EmittedWritable | bertlv/tlv_writer.go:29-60 | what gets out of a tree that is accepted is its encoding |
| TlvIO.EmittedUpTo | bertlv/tlv_writer.go:51-58 | of children with one that cannot be written, those before it go out in full, it as far as it can, and none behind it |
| TlvIO.NodeLimits | bertlv/tlv_writer.go:11-60 | a node can be measured exactly when its contents are within FFFFFF octets and the children of a constructed one can be; written exactly when it has, besides, a value or children as its form says and writable children |
| TlvIO.WritableMeasurable | bertlv/tlv_writer.go:11-60 | what is accepted for writing can be measured without a panic |
| TlvClone.Clone | bertlv/tlv_writer.go:81-98 | on the heap: all storage of the clone is new, and it stands for the same tree without nil children |
| TlvClone.CloneChildren | bertlv/tlv_writer.go:91-96 | the loop over the children, with nil ones left out |
| TlvClone.Copied | bertlv/tlv_writer.go:83-88 | make and copy: new storage, same octets |
| Normalise.ParsedShape | bertlv/tlv_reader.go:10-40 | a parsed tree has no nil child, readable tags, and a value or children as its form says |
| Normalise.PrintParsed | bertlv/tlv_reader.go:10-40 | re-encoding what was parsed: its exact size, the same tree again, and the same octets exactly when all lengths were shortest and all runs exact |
| Normalise.SizeGrowth | bertlv/tlv_writer.go:11-27 | the size of a re-encoding is the octets consumed plus what its length octets add or save |
| Normalise.LongerExactly | bertlv/tlv_reader.go:22-31 | a re-encoding is longer only if some run of children outgrows the length octets read for it, and exactly then when all lengths were shortest |
| Normalise.FittingShrinks | bertlv/tlv_reader.go:22-31 | as long as every run fits its length octets nothing is added, whatever the lengths |
| Normalise.ShortestGrows | bertlv/tlv_reader.go:22-31 | with shortest lengths nothing is saved, and something is added exactly when a run does not fit |
| Normalise.NoOverrunShrinks | bertlv/tlv_reader.go:22-31 | without an overrunning last child the contents fit and the re-encoding is never longer |
| Normalise.CanonicalReprints | bertlv/tlv_writer.go:29-60 | octets with shortest lengths and exact runs re-encode to themselves |
| Normalise.ReprintedCanonical | bertlv/tlv_reader.go:22-31 | octets that re-encode to themselves have shortest lengths and exact runs |
| Normalise.OverrunGrows | bertlv/tlv_reader.go:22-31 | an input whose re-encoding is longer than what was consumed |
| Integers.MarshalInt | bertlv/primitive/integer.go:43-59 | the two's-complement encoding of the value, minimal as X.690 section 8.3.2 asks |
| Integers.SkipSign | bertlv/primitive/integer.go:51-56 | the loop drops exactly the octets that only repeat the sign |
| Integers.SignedByWeight | bertlv/primitive/integer.go:28-41 | the value of octets is their number, the first the most significant, less 256^n when the first bit is set |
| Integers.UnmarshalInt | bertlv/primitive/integer.go:13-41 | in arithmetic of the target's width: the two's-complement value of any 1 to size octets, nothing for none, an error for more |
| Integers.MinimalUnique | bertlv/primitive/integer.go:43-59 | there is one minimal encoding of a number |
| Integers.RoundTrip | bertlv/primitive/integer.go:13-59 | encoding what was decoded is never longer, and the same octets exactly when they were minimal |
| BitStrings.MarshalBitString | bertlv/primitive/bitstring.go:42-58 | the bits, most significant first, zero padding, and the unused-bits octet as the encoder counts it |
| BitStrings.UnmarshalBitString | bertlv/primitive/bitstring.go:20-40 | the bits that the octets hold, or an error exactly when the padding is not acceptable |
| BitStrings.MostSignificantFirst | bertlv/primitive/bitstring.go:33-37 | eight bits from 8j on, as a binary number, are octet j of the contents |
| BitStrings.DecodeEncoded | bertlv/primitive/bitstring.go:20-58 | decoding an encoding gives the bits back exactly when their number is not a multiple of 8; otherwise it is rejected |
| BitStrings.EncodeDecoded | bertlv/primitive/bitstring.go:20-58 | acceptable octets are the encoding of what they decode to exactly when they announce padding |
| BitStrings.EncodingUnique | bertlv/primitive/bitstring.go:42-58 | there is one encoding of given bits |
| Bcd.Encode | v2/identifier.go:47-61 | swapped nibbles of the padded string, or an error exactly when a character is not a hexadecimal digit |
| Bcd.Decode | v2/identifier.go:63-74 | the swapped nibbles in lower case, cut at the last f |
| Bcd.EncodedDigits | v2/identifier.go:47-61 | the first digit of each pair is the low half of its octet, the second the high half, F where it is missing |
| Bcd.DecodedDigits | v2/identifier.go:63-74 | the digits of the octets, low half first, as 0 to 9 and a to f, up to the last F or to the end when there is none |
| Bcd.DecodeEncoded | v2/identifier.go:47-74 | a string comes back in lower case exactly when its length is odd or it has no f |
| Bcd.EncodeDecoded | v2/identifier.go:47-74 | octets come back exactly when their digits have no f or the last f is the final digit |
| BoundProfilePackage.First | bertlv/tlv_selector.go:13-20 | a child with a tag, or none exactly when there is none |
| BoundProfilePackage.FirstAt | bertlv/tlv_selector.go:13-20 | it is the first, whatever nil children and other tags come before it |
| BoundProfilePackage.MarshalHeader | v2/bpp.go:16-36 | tag and length octets for the total size of the children |
| BoundProfilePackage.Segment | v2/bpp.go:12-71 | the segments, or an error exactly when a required part is missing; which octets they are is SegmentPlaces.StandardCut |
| BoundProfilePackage.HeaderTruth | v2/bpp.go:16-36 | a bare header declares the size of exactly the segments that follow it |
| BoundProfilePackage.SegmentCount | v2/bpp.go:44-70 | how many segments there are |
| BoundProfilePackage.SegmentsReassemble | v2/bpp.go:12-71 | the segments, put together, are the package's encoding exactly when its children are the parts picked, in order |
| BoundProfilePackage.StandardPackage | v2/bpp.go:12-71 | a package laid out as SGP.22 section 2.5.5 has it is valid, can be cut without a panic, and reassembles |
| SegmentPlaces.PartOctets | v2/bpp.go:73-99 | the tags of a package and its parts: BF36, BF23, A0, A1, A2, A3 |
| SegmentPlaces.SpreadInPlace | v2/bpp.go:54-59 | a part that is spread: a header that reads as the size of the segments behind it, and each of these the encoding of one child |
| SegmentPlaces.StandardCut | v2/bpp.go:44-70 | of a standard package: the first segment ends where the first child ends, the second is the second child, then the third child spread, the fourth if there are five, and the last spread |
| Apdu.WriteTo | apdu/request.go:25-39 | the octets of a request, with its length octet modulo 256 |
| Apdu.DecodeEncoded | apdu/request.go:25-39 | a card that reads short APDUs reads a request back exactly when its data is below 256 octets |
| Apdu.EncodeDecoded | apdu/request.go:25-39 | what it reads is the only request with those octets |
| Apdu.ChannelStamp | apdu/transmitter.go:80-86 | stamping determines the channel for 0 to 19, and stamping again changes nothing |
| Apdu.ClassStays | apdu/transmitter.go:80-86 | every request after the first carries the class octet of the first |
| Apdu.FirstClassBits | apdu/transmitter.go:80-82 | bit by bit: a channel below 4 takes bits 1 and 2 and clears 6 and 7, the others stay |
| Apdu.FurtherClassBits | apdu/transmitter.go:83-85 | bit by bit: one from 4 to 19, less 4, takes bits 1 to 4 and sets 7, the others stay |
| Apdu.Transmitter.Transmit | apdu/transmitter.go:65-78 | what is sent, that the next reply is taken, and that nothing else changes; what the reply means is ApduTalk.HearOctets |
| Apdu.Transmitter.ReadCommandResponse | apdu/transmitter.go:88-108 | the GET RESPONSE loop: its requests, the data it appends, how it ends |
| Apdu.Transmitter.SendBlock | apdu/transmitter.go:49-60 | one turn of the block loop |
| Apdu.Transmitter.Write | apdu/transmitter.go:38-63 | on every script of replies: the blocks sent, the count, the response, and how it ends, which ApduTalk.WriteTells says in octets; a block size below one panics before anything is sent |
| Apdu.Transmitter.Read | apdu/transmitter.go:34-36 | the buffered response in pieces, then its end; a panic before the first write |
| Apdu.Transmitter.TransmitRaw | driver/transmitter.go:47-58 | a write and reads to the end give the whole response, or nothing if the write fails |
| ApduCard.BlocksCarryCommand | apdu/transmitter.go:41-61 | the blocks, put together, are the command |
| ApduCard.LastIsFlagged | apdu/transmitter.go:44-48 | the last block carries P1=0x91 exactly when the block size does not divide the length |
| ApduCard.OnlyLastIsFlagged | apdu/transmitter.go:44-48 | the last block and no other is flagged exactly when, besides, there are fewer than 256 whole blocks |
| ApduCard.HowManyFlagged | apdu/transmitter.go:44-52 | how many blocks are flagged, for every length and block size |
| ApduCard.WrittenSendsBlocks | apdu/transmitter.go:45-61 | a write that succeeds sends exactly the command's blocks, in order, and counts every octet |
| ApduCard.RunSendsBlocks | apdu/transmitter.go:45-61 | any run sends a prefix of the blocks |
| ApduCard.DrainGetsAnswer | apdu/transmitter.go:88-108 | against a card, draining gets exactly what it has left to say, in at most as many requests as octets |
| ApduCard.WriteIsOneCall | apdu/transmitter.go:34-108 | against a card, a write is one call of the card's function on the whole command: response, count, number of requests, and a card ready for the next command |
| ApduCard.ObligingCard | apdu/transmitter.go:38-63 | there are replies a card may give to a write of any command |
| ApduCard.ObligingSession | driver/transmitter.go:47-58 | and to any session |
| ApduCard.UndeliveredFails | apdu/transmitter.go:44-48 | every command outside the exact condition fails at some card: it has executed something else, or nothing while the write succeeds |
| ApduCard.FullBlockIsLost | apdu/transmitter.go:44-48 | one block of 254 octets at a block size of 254 succeeds and is never executed |
| ApduCard.NeverExecuted | apdu/transmitter.go:44-48 | a block size that divides the length: the card executes nothing, and the write succeeds with no response |
| ApduCard.PrefixExecuted | apdu/transmitter.go:44-52 | from 256 whole blocks on the card first executes a proper prefix |
| ApduCard.ExecutesExactlyTheCommand | apdu/transmitter.go:38-63 | the card executes the command and nothing else exactly when the block size does not divide the length and there are fewer than 256 whole blocks |
| ApduCard.SessionExecutesExactly | driver/transmitter.go:47-58 | a session is executed as it was given exactly when every command is one that a write delivers |
| ApduCard.ExecutesNoEmpty | apdu/transmitter.go:41-61 | whatever happens, a card executes no empty command |
| ApduCard.OffStays | apdu/transmitter.go:44-52 | a card that is left in the middle of a command executes nothing more, whatever is written |
| ApduCard.SessionIsCalls | driver/transmitter.go:47-58 | over a whole session the responses are the card's function on each command |
| ApduTalk.HearOctets | apdu/transmitter.go:73-77 | a reply is accepted exactly when it ends in 9000 or 61xx; what is in front of that is its data, and xx what is announced |
| ApduTalk.RunIsTalk | apdu/transmitter.go:45-108 | the loop over blocks with the draining loop inside it does what one flat exchange of requests and replies does |
| ApduTalk.WriteTells | apdu/transmitter.go:38-108 | every reply a write takes, but the last of one that is not done, ends in 9000 or 61xx; 61xx is followed by INS C0 with Le xx, 9000 by the next block; n counts the blocks that were answered; the response is the data with a block's 9000 and with every GET RESPONSE |
| ApduTalk.RefusalFails | apdu/transmitter.go:49-51 | the first reply that has a status word and says neither makes the write fail: nothing is sent after it, and n counts what was answered before |
| ApduTalk.RefusedAtOnce | apdu/transmitter.go:74-76 | a command whose first block is refused has sent that block only, and none of it counts |
| ApduTalk.EncodedFields | apdu/request.go:25-39 | the octets of a request, place by place |
| ApduTalk.ClassOctets | apdu/transmitter.go:80-86 | the class octet of every channel |
| ApduTalk.BlockOctets | apdu/transmitter.go:41-52 | block i on the wire: class, E2, 11 or 91, its number, its length, its piece of the command |
| Streams.Deliver | driver/mbim/types.go:131-145 | a full write that succeeds has got every octet out, no more are counted than there are |
| Streams.DeliverExactly | driver/mbim/types.go:131-145 | it goes on as long as writes take something without an error, no longer than until all is out, and succeeds exactly when that is enough |
| Streams.DeliverAllSplit | driver/mbim/types.go:37-45 | frames go out one at a time, the later ones only behind all before |
| Streams.Conn.WriteFull | driver/mbim/types.go:131-145 | on every pattern of partial writes: how much gets out, that it is a prefix, and whether it succeeds |
| Streams.Conn.WriteFrames | driver/mbim/types.go:37-45 | frames get out in order as a prefix of their concatenation, and all of it on success |
| MbimFragment.PutUint32 | driver/mbim/fragment.go:51-55 | four octets are set in place, the rest of the buffer is kept |
| MbimFragment.FillFrame | driver/mbim/fragment.go:50-56 | header and payload in a fresh buffer |
| MbimFragment.ParseBytes | driver/mbim/fragment.go:137-166 | a fragment reads back exactly when its type may be fragmented and its number is below its total |
| MbimFragment.BytesParsed | driver/mbim/fragment.go:137-166 | only its own octets read back as a fragment |
| MbimFragment.CutIntoFrames | driver/mbim/fragment.go:20-61 | the message itself when it fits, the frames described piece by piece, or the error of the first check that fails |
| MbimFragment.FillFrames | driver/mbim/fragment.go:38-60 | the loop over the payload, each frame in a buffer of its own |
| MbimFragment.FramesFit | driver/mbim/fragment.go:20-61 | every frame is at most the given size, declares its own length, and is a fragment in its place |
| MbimFragment.NewFragmentCollector | driver/mbim/fragment.go:71-86 | a collector starts exactly on a fragment numbered 0 |
| MbimFragment.FragmentCollector.Add | driver/mbim/fragment.go:88-108 | a fragment that is next is appended; any other leaves the collector as it was |
| MbimFragment.FragmentCollector.MarshalBinary | driver/mbim/fragment.go:114-127 | the reassembled message, or an error exactly while fragments are missing |
| MbimFragment.CollectMeaning | driver/mbim/fragment.go:71-112 | frames are accepted exactly when each is in its place; the payload is theirs in order, the number below the total, and it is complete exactly when they are as many as the total |
| MbimFragment.CollectsFrames | driver/mbim/fragment.go:20-112 | a collector fed the frames of a message holds the pieces so far, and is complete after the last and not before |
| MbimFragment.CutAndCollect | driver/mbim/fragment.go:20-127 | cutting and putting together changes only the words fragment 0 of 1, so it gives the message back exactly when it says so |
| MbimRequest.WriteTo | driver/mbim/types.go:25-46 | the frames of the message get out, as far as the connection takes them; what is in them is MbimWire.CommandFields and MbimWire.SentFrames |
| MbimRequest.Take | driver/mbim/types.go:80-120 | what the loop makes of a frame: skip, wait for more, a message, an error |
| MbimRequest.ReadFrom | driver/mbim/types.go:48-129 | on every input and clock: the message it returns, decoded, or how it fails |
| MbimReply.UnrelatedAreSkipped | driver/mbim/types.go:80-91 | frames of other transactions and types, wherever they come, change nothing |
| MbimReply.WaitingHolds | driver/mbim/types.go:93-120 | while it waits, the collector holds exactly the related frames so far, each in its place, and some are missing |
| MbimReply.ReadFrames | driver/mbim/types.go:54-91 | the loop over the stream takes frame after frame, whatever quiet rounds come between |
| MbimReply.FragmentsComeBack | driver/mbim/types.go:48-129 | a reply comes back whole from fragments of any sizes, whatever unrelated frames come between them, and what follows is left to be read |
| MbimReply.ReplyComesBack | driver/mbim/types.go:48-129 | in particular from frames that the sender cut at one size |
| MbimReply.ShortReplyComesBack | driver/mbim/types.go:175-299 | opening and closing are answered by a status and anything by a protocol error: these come back behind unrelated frames and decode by their code |
| MbimReply.DecodeDone | driver/mbim/types.go:231-292 | a command's answer decodes to its information buffer exactly when its status is zero, and to the status otherwise |
| MbimReply.CommandIsCuttable | driver/mbim/types.go:159-213 | every command below 2^32 octets can be sent, and its frames reassemble to it |
| MbimWire.MessageTypes | driver/mbim/types.go:175-186 | every message type and the one that answers it, and which of them are fragmented |
| MbimWire.RequestFields | driver/mbim/types.go:159-173 | a request by position: type, length, transaction, command |
| MbimWire.CommandFields | driver/mbim/types.go:200-213 | a command in its request by position: fragment words at 12 and 16, service at 20, command at 36, kind at 40, data length at 44, data from 48 |
| MbimWire.FrameFields | driver/mbim/fragment.go:44-60 | every frame by position: the message's type and transaction, its own length, the number of frames, its own number, and its share of the message |
| MbimWire.SentFrames | driver/mbim/types.go:25-46 | every frame of a command that is written is a control transfer that says its own length, type 3 and the request's transaction |
| MbimWire.AnswerFound | driver/mbim/types.go:25-129 | a device that answers with the transaction it reads in any frame of the command, cut up as it likes, is taken for the answer by the read of the same request, past any other frames |
| MbimWire.StatusFound | driver/mbim/types.go:25-129 | so for opening and closing, whose one frame says type and transaction and holds the command |
| MbimWire.DoneFields | driver/mbim/types.go:231-292 | a modem's answer by position |
| MbimWire.DecodeExactly | driver/mbim/types.go:231-299 | whatever a message is: exactly when it decodes to an information buffer, to a status, to a protocol error |
| MbimWire.WhichAnswer | driver/mbim/types.go:80-91 | a frame answers exactly when it has the transaction and the answering type or a function error; any other is passed over |
| MbimWire.TakenWhole | driver/mbim/types.go:93-128 | one that answers is the message as it is, unless it is a fragment of several |
| MbimWire.MisplacedEnds | driver/mbim/types.go:95-120 | a fragment out of its place ends the read with an error |
| MbimWire.ReadFails | driver/mbim/types.go:54-92 | after any quiet rounds a read expires when none is left, and fails on a broken connection, on what ends too soon, on a length out of bounds, and on a request that has no answer |
| MbimSlots.MarshalMap | driver/mbim/protocol.go:126-139 | the count, the offset table and the slots as words |
| MbimSlots.UnmarshalMap | driver/mbim/protocol.go:166-196 | below 2^32 octets the uint32 arithmetic never wraps and every read is inside the data; accepted exactly when the table and every slot fit |
| MbimSlots.MapComesBack | driver/mbim/protocol.go:126-196 | what was written reads back as the first MapCount slots, or is rejected when there are fewer |
| MbimSlots.MapOctets | driver/mbim/protocol.go:126-139 | the payload by position: count, offset and size of each slot, and the slots one after another |
| QmiTlv.WriteTo | driver/qmi/protocol/tlv.go:57-81 | the TLVs before the first with a wrong length go out and are counted; it succeeds exactly when there is none |
| QmiTlv.ReadFrom | driver/qmi/protocol/tlv.go:28-55 | all the octets as TLVs, and the result they hold, which ResultExactly says; an error exactly when one is cut short; and the count either way |
| QmiTlv.Find | driver/qmi/protocol/tlv.go:83-90 | a TLV of the type asked for, exactly when there is one |
| QmiTlv.FindFirst | driver/qmi/protocol/tlv.go:83-90 | of several TLVs of a type the first is found |
| QmiTlv.FirstResultDecides | driver/qmi/protocol/tlv.go:16-24 | the first result TLV's first word says success or not, its second which error |
| QmiTlv.ResultExactly | driver/qmi/protocol/tlv.go:16-24 | the result is missing exactly when no TLV has type 2, too short exactly when the first that has it holds fewer than four octets; otherwise its octets say success exactly when the first two are zero, and the next two which error |
| QmiTlv.GoodIsPrefix | driver/qmi/protocol/tlv.go:59-62 | what goes out is all TLVs up to the first whose length is not its value's |
| QmiTlv.CountBehind | driver/qmi/protocol/tlv.go:28-55 | behind whole fields a field that is cut short is an error, and how many octets of it are counted |
| QmiTlv.ParseWritten | driver/qmi/protocol/tlv.go:28-81 | TLVs that were written read back |
| QmiTlv.WriteParsed | driver/qmi/protocol/tlv.go:28-81 | only what would be written is read |
| Qmux.Serialize | driver/qmi/transport/qmi/transport.go:38-86 | the frame of a request, exactly when its TLVs are consistent and fit |
| Qmux.Unmarshal | driver/qmi/transport/qmi/response.go:23-72 | what a frame reads as, for the control service and the others |
| Qmux.HeadFields | driver/qmi/transport/qmi/transport.go:51-85 | every nested length is exact and within 16 bits, and the frame within 65535 octets |
| Qmux.FrameComesBack | driver/qmi/transport/qmi/response.go:23-72 | a frame reads back in full, its transaction modulo 256 for the control service, exactly when it has no TLVs or its result is success |
| Qmux.ParsedWasFrame | driver/qmi/transport/qmi/response.go:23-72 | only a message's own frame reads as that message |
| Qmux.ReadResponse | driver/qmi/transport/qmi/transport.go:102-141 | on every input and clock: the TLVs returned, or how it fails |
| Qmux.FirstIsTaken | driver/qmi/transport/qmi/transport.go:129-140 | the answer is the first frame that is a response, or has the client, or has the transaction, and what follows is left to be read |
| Qmux.BadFrameEnds | driver/qmi/transport/qmi/transport.go:129-132 | a frame that does not read as a message ends the loop, whoever it is for |
| Qmux.NoResultEnds | driver/qmi/transport/qmi/transport.go:129-132 | so does every message with TLVs but no successful result |
| Qmux.AnswerComesBack | driver/qmi/transport/qmi/transport.go:89-142 | a successful response comes back behind frames, whatever is in them, exactly when each of them parses and is passed over |
| Qmux.ForeignResponseIsTaken | driver/qmi/transport/qmi/transport.go:133-139 | a response to another client and another transaction is taken for the answer |
| QmiWire.FieldOctets | driver/qmi/protocol/tlv.go:63-71 | a TLV by position |
| QmiWire.FrameOctets | driver/qmi/transport/qmi/transport.go:51-85 | a QMUX frame by position, for service 0 and the others |
| QmiWire.FrameFits | driver/qmi/transport/qmi/transport.go:38-49 | it can be sent exactly when the TLVs' lengths are their values' and the frame is within 65535 octets |
| QmiWire.FrameWithResult | driver/qmi/transport/qmi/response.go:59-70 | a message with TLVs of which none has type 2 is rejected for that and ends the loop; so does one whose first result is too short or no success; any other parses |
| QmiWire.FrameTaken | driver/qmi/transport/qmi/transport.go:133-139 | the loop passes over a message exactly when it is no response and has another client and another transaction, and returns its TLVs otherwise |
| QmiWire.FrameFails | driver/qmi/transport/qmi/transport.go:102-127 | how the loop ends otherwise: no rounds left, a broken connection, a frame that ends too soon, a length below 3 |
| QmiQrtr.Serialize | driver/qmi/transport/qrtr/transport.go:36-56 | the packet of a request, exactly when its TLVs are consistent and fit |
| QmiQrtr.Unmarshal | driver/qmi/transport/qrtr/response.go:22-51 | what a packet reads as |
| QmiQrtr.PacketComesBack | driver/qmi/transport/qrtr/response.go:22-51 | a packet fits the read buffer, and reads back in full exactly when it has no TLVs or its result is success |
| QmiQrtr.ParsedWasPacket | driver/qmi/transport/qrtr/response.go:22-51 | only a message's own packet reads as that message |
| QmiQrtr.ReadResponse | driver/qmi/transport/qrtr/transport.go:75-97 | on every sequence of packets: the TLVs returned, or how it fails; a packet larger than the buffer is an error |
| QmiQrtr.OtherTrafficIsSkipped | driver/qmi/transport/qrtr/transport.go:85-91 | readable packets that are no response, or to another transaction, wherever they come, change nothing |
| QmiQrtr.ResponseComesBack | driver/qmi/transport/qrtr/transport.go:59-98 | the response to a request comes back, whatever other traffic comes before it |
| QmiQrtr.ResponseComesBackExactly | driver/qmi/transport/qrtr/transport.go:75-97 | it comes back, and what follows is left, exactly when every event before it is a readable packet that is skipped |
| QmiQrtr.NoResultEnds | driver/qmi/transport/qrtr/transport.go:85-88 | a packet with TLVs but no successful result among them ends the loop |
| QmiWire.PacketOctets | driver/qmi/transport/qrtr/transport.go:36-56 | a QRTR packet by position |
| QmiWire.PacketFits | driver/qmi/transport/qrtr/transport.go:36-46 | it can be sent exactly when the TLVs' lengths are their values' and the packet is within 65529 octets |
| QmiWire.PacketWithResult | driver/qmi/transport/qrtr/response.go:38-49 | as over QMUX: no result TLV, one too short or no success ends the loop |
| QmiWire.PacketTaken | driver/qmi/transport/qrtr/transport.go:89-97 | the loop takes a packet exactly when it is a response with the request's transaction, and reads on otherwise |
| QmiWire.EventEnds | driver/qmi/transport/qrtr/transport.go:75-88 | the deadline, a fault, and a packet of the wrong size end the loop, and how |
| QmiUim.GuardIsExact | driver/qmi/uim/client.go:23-28 | the client lets an APDU through exactly when the transport does, on either transport |
| QmiUim.RequestCarriesCommand | driver/qmi/uim/messages.go:319-335 | the request's TLVs hold the command behind its length |
| QmiWire.ApduRequest | driver/qmi/uim/messages.go:319-335 | the TLVs of a request in order: channel in 10, APDU behind its length in 02, slot in 01 |
| QmiWire.ApduRequestParts | driver/qmi/uim/messages.go:319-335 | each of them is found by its type |
| QmiWire.ApduExactly | driver/qmi/uim/messages.go:341-350 | a TLV holds an APDU exactly when it begins with it, behind its length |
| QmiUim.AnswerHoldsApdu | driver/qmi/uim/messages.go:341-350 | a successful answer comes back through the loop and gives the APDU response |
| QrtrConn.Conn.AcquireFD | driver/qmi/qrtr/conn.go:368-386 | the region under the mutex: one more operation, or closed |
| QrtrConn.Conn.ReleaseFD | driver/qmi/qrtr/conn.go:400-407 | one operation less, and a broadcast exactly at zero |
| QrtrConn.Conn.CurrentReadDeadline | driver/qmi/qrtr/conn.go:388-392 | the deadline and its sequence number, read together |
| QrtrConn.Conn.RegisterPoll | driver/qmi/qrtr/conn.go:417-428 | one more in poll, unless closed or the deadline has changed |
| QrtrConn.Conn.UnregisterPoll | driver/qmi/qrtr/conn.go:430-434 | one less in poll |
| QrtrConn.Conn.NotifyWakeFD | driver/qmi/qrtr/conn.go:436-449 | the eventfd's counter goes up unless it is full or cannot be written |
| QrtrConn.Conn.SetReadDeadline | driver/qmi/qrtr/conn.go:283-295 | the new state of the connection and whether a notification went out; what is then fetched is QrtrProgress.DeadlineFromStart and ReadFetchesDeadline |
| QrtrConn.Conn.StartClose | driver/qmi/qrtr/conn.go:308-327 | the first region of Close: a notification when someone polls, then closed; nothing changes when it fails |
| QrtrThreads.StepKeepsInv | driver/qmi/qrtr/conn.go:308-341 | every step of every thread keeps the counts equal to the threads counted, each descriptor open, due to be closed by one thread or closed once, sleepers with something to wait for |
| QrtrThreads.InvAlways | driver/qmi/qrtr/conn.go:368-434 | so in every state of every run of any number of threads |
| QrtrThreads.LocalClosed | driver/qmi/qrtr/conn.go:368-386 | once closed: nobody acquires, nothing opens again, nobody is notified |
| QrtrThreads.SumAwake | driver/qmi/qrtr/conn.go:400-407 | a broadcast changes nobody's part in the counts, and brings each that it wakes one step nearer to its end |
| QrtrProgress.NeverUsedAfterClose | driver/qmi/qrtr/conn.go:329-341 | in every reachable state a step that uses a descriptor finds both open, and neither was closed twice |
| QrtrProgress.ClosedStays | driver/qmi/qrtr/conn.go:308-327 | over any run after Close has begun activeOps and the wake counter never grow |
| QrtrProgress.NoLostWakeup | driver/qmi/qrtr/conn.go:283-295 | with one reader at a time, in every state: a reader in poll whose connection is being closed has a wake counter above zero, and so has one whose deadline changed, unless the eventfd could not be written for that |
| QrtrProgress.NoHungReader | driver/qmi/qrtr/conn.go:308-327 | the same for Close, also with any number of readers among no more than two threads |
| QrtrProgress.NoLostWakeupExactly | driver/qmi/qrtr/conn.go:206-235 | for n threads of which at most k are ever inside Read: no run loses a wakeup exactly when k is at most one or n is |
| QrtrProgress.TwoThreadsLose | driver/qmi/qrtr/conn.go:283-295 | two threads are enough: one sets the other's deadline, then reads itself and drains the eventfd |
| QrtrProgress.NewDeadlineIsFetched | driver/qmi/qrtr/conn.go:255-271 | a reader in poll whose deadline was changed comes to the new one in six steps of its own |
| QrtrProgress.DeadlineFromStart | driver/qmi/qrtr/conn.go:283-295 | in every state of every run the deadline is the one that the last SetReadDeadline before a Close was given, none if there was none, and its number says how many there were |
| QrtrProgress.DeadlineIsLastSet | driver/qmi/qrtr/conn.go:283-295 | the same from any state on |
| QrtrProgress.ReadFetchesDeadline | driver/qmi/qrtr/conn.go:255-271 | a deadline that one thread sets is the one that another fetches when it reads next |
| QrtrProgress.ExpiresByDeadline | driver/qmi/qrtr/conn.go:126-196 | a read that has a deadline can expire by steps of its own, before it polls or in poll; one without cannot |
| QrtrProgress.ReadGoesOn | driver/qmi/qrtr/conn.go:126-196 | what ends a read, what sends it back to fetch the deadline, and what lets it go on with the one it has |
| QrtrProgress.ReadNotices | driver/qmi/qrtr/conn.go:368-428 | a read that has not polled yet returns when the connection is closed, and starts over when the deadline has changed |
| QrtrProgress.CloseBegins | driver/qmi/qrtr/conn.go:308-327 | Close begins exactly when the connection is open and a reader in poll, if any, can be notified |
| QrtrProgress.StepRank | driver/qmi/qrtr/conn.go:126-196 | after Close has begun every step of a thread inside, or closing, decreases the measure, and no other step raises it |
| QrtrProgress.BusyStepsEnd | driver/qmi/qrtr/conn.go:126-196 | so over any run those threads take at most as many steps as the measure says |
| QrtrProgress.SomeoneCanGo | driver/qmi/qrtr/conn.go:206-235 | while one of them is left, one can take its next step without help from outside |
| QrtrProgress.CloseEndsAlways | driver/qmi/qrtr/conn.go:308-341 | from every state after Close has begun, in every run with one reader at a time or two threads, whatever notifications have failed: they get to nobody inside and both descriptors closed once |
| QrtrProgress.CloseEndsExactly | driver/qmi/qrtr/conn.go:308-341 | for n threads of which at most k are ever inside Read: no run hangs in Close exactly when k is at most one or n at most two |
| QrtrProgress.TwoReadersCanStick | driver/qmi/qrtr/conn.go:206-235 | for any three threads or more, a run with two readers in which one is never woken and Close sleeps |
| Install.PackageReachesCard | lpa/download.go:174-188 | over the block transport the card has executed exactly the segments of a standard package, together its encoding, if and only if each is deliverable |
| Download.Client.Authenticate | lpa/download.go:211-237 | the card commands and server calls up to the server's verdict on the client |
| Download.Client.Cancel | lpa/download.go:270-279 | the card's cancellation, and its report to the server if the card answers |
| Download.Client.LoadSegments | lpa/download.go:179-188 | the loop sends segments up to the first reply that is not empty or an error |
| Download.Client.Install | lpa/download.go:174-198 | the segments sent, and success exactly when the last reply says so |
| Download.Client.DownloadProfile | lpa/download.go:112-172 | for all answers of user, card and server: everything sent, in order, and how it returns |
| Download.OneCancellation | lpa/download.go:112-172 | exactly one cancellation when the client was accepted and nothing was installed, none otherwise, and nothing to the card behind it |
| Download.RunShape | lpa/download.go:262-279 | a run is work and then at most one cancellation, with the server's transaction once the package has arrived and the client's before, and with the reason of where it stopped |
| Download.LoadsArePrefix | lpa/download.go:174-198 | the segments loaded are a prefix in order, ending at the first reply that is not empty; success exactly when that reply says so |
| Download.LoadMeaning | lpa/download.go:179-188 | where the segment loop stops |
| Download.WholePackageIsSent | lpa/download.go:174-188 | a standard package loaded to its last segment was sent whole: its encoding |
| Download.RunsInOrder | lpa/download.go:112-172 | commands and calls come in protocol order, none twice but loading segments |
| Download.EventsExactly | lpa/download.go:112-279 | each command and call is made exactly when what was answered before leads there |
| Download.CancelsExactly | lpa/download.go:262-279 | exactly which session is cancelled and why |
| Download.NoResultExactly | lpa/download.go:130-166 | a run ends without a result or an error exactly when the user declined and the cancellation went through to the server |

## Left out

- Sockets, serial ports, PC/SC, CCID readers, AT command text and libraries around them: only what passes over them is modelled.
- HTTP, JSON, TLS, URL and activation-code text, base64 and other text forms, String methods: libraries and plumbing.
- The single-message structures of ES9+, ES10a, ES10b, ES10c and ES11 and the hashing in PrepareDownload: straight-line layouts; a download sees them as answers.
- Nil dereferences on malformed card and server replies (results of First used unchecked, absent JSON headers): not part of the download trace.
- Writers that fail in the middle of a TLV or a buffer, readers other than octets in memory, and the count that a TLV reader returns with an error: TLV readers and writers work on byte slices.
- Wall-clock time: a loop has finitely many rounds before its deadline, and a QRTR deadline may be found to have passed at any time.
- Clearing a read deadline after a QMI read, and the error it may give: no effect on what is read.
- A card that answers 61xx for ever: scripts are finite, and WriteIsOneCall bounds the requests against a card that keeps to its pieces.
- The mutex around one APDU exchange: a transmitter is used by one caller.
- The 64-bit sequence number of QRTR deadlines is unbounded in the model: a reader would have to sleep through 2^64 deadline changes to see it wrap.
- System calls on the QRTR socket other than poll are assumed to return (they are made after poll says there is something to read, or to send); the bytes they move, and the address filter behind them, are one choice of the step.
- QRTR service lookup, MBIM and QMI device, slot and channel management, and the other UIM messages: sequences of requests with no state of their own.
- Aliasing between a parsed MBIM frame and the buffer it was read into: payloads are values.
- Normalise.NoOverrunShrinks: one direction only; Normalise.LongerExactly has the exact condition.
- MbimRequest.ReadFrom: a header that arrives in part before a read times out is outside the read model.
- Qmux.ReadResponse: a header that arrives in part before a read times out is outside the read model.
- BitStrings.UnmarshalBitString: an empty slice is an index panic in the source and is excluded.
- Download.Client.DownloadProfile: packages that cannot be cut without a panic, and replies whose identifier octets overrun the reader's array, are excluded.
