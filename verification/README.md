# Neohabitat bridge: verified model

This project models three parts of the Neohabitat bridge and its bots in Dafny and
proves what they are meant to guarantee.

**The QLink link layer** of the Go bridge. `QLinkCodec` is the frame codec with its CRC
and `QLinkWire` what its frames look like; `HabitatEscape` the byte stuffing;
`HabitatPackets` the splitting of long packets and the reassembly of split requests;
`QLinkSession` the retransmit window, sequence numbers, acknowledgements and NAKs of one
session; `QLinkArq` the retransmission protocol as a whole, with a client and a channel
that loses and corrupts frames, and its safety; `QLinkReplies` when the bridge
retransmits and what it answers; `QLinkRecovery` when it gets everything through;
`QLinkLimits` the runs that reach its limits; `QLinkEpochs` runs over several Resets;
`QLinkRestore` the link of a session handed to another process; `QLinkInbound` the
client's own packets; `QLinkFraming` the byte stream around it; `HabitatPipeline` the
way of a packet through all layers and back.

**The object table of a region.** `ObjectTable` is the table as a value and
`RegionSession` the maps the bridge updates in place; `ContainerGraph` is containment as
a graph; `RegionRuns` compares whole runs with what the server holds, `RegionNames` asks
when names stay unique in any run and `RegionObjects` when the entry of a single object
is right; `RegionEntry` is the way into a region and `RegionClient` what a sweep tells
the client; `NoidRestore` is the renumbering of objects after a restart;
`ContentsVector` the description of a region sent to the client.

**Two smaller algorithms.** `Petscii`, `PaperWrap`, `PaperLayout` and `MailPage` are the
folding and word wrapping of letters; `Presence` is the pruned clock that keeps login
alerts quiet.

Where the source updates state, a class holds its fields and each method is proved
against a function of the old state; the theorems are about those functions. Bytes are
integers from 0 to 255 with their bit operations written out in `Bits`. Times are
integers. `Hear`, `SendPacket` and the other events are atomic steps.

Facts about the code that the proofs bring out:

- The bridge ignores an acknowledgement more than 56 ahead of the last one it heard,
  although its window holds 64 frames. Once a client that reports its newest acceptance
  is 57 ahead, nothing it reports is ever heard again and the link stays wedged until a
  Reset; up to 56 ahead, every run of deliveries and heartbeats that stays there and has
  enough due heartbeats settles everything (`RecoversExactly`, `EveryHealingRun`,
  `FirstReportsLost`). With a window of 56 this could not happen
  (`SmallWindowRecovers`).
- A 65th outstanding frame drops the oldest, and an acknowledgement 56 or more behind
  reads as a wrapped one; each loses a payload exactly when the client has not accepted
  what is freed, and runs that get there are given (`FullWindowExact`,
  `WindowOverflows`, `StaleAckUnsafe`, `StaleReportFrees`). The safety theorem therefore
  assumes acknowledgements lagging by at most 55 and at most 64 outstanding frames.
- A payload still in flight at a Reset, or sent before the bridge hears of it, is
  mistaken for the first one of the new numbering if it carries its number, and only
  then (`GapExact`, `ResetExact`).
- A session handed to another process forgets its window and, until it has heard one,
  hears no report from 57 to 111, so that a frame lost there is retransmitted only on a
  rejection (`HandoverSafeExactly`, `RestoredHearsExactly`, `NothingResent`).
- The first report a handed-over link hears may lag by 54 only, where a running link
  allows 55 (`LateFirstReport`, `LateReportUnsafe`); within that every run from a safe
  handover is safe (`RestoredSafety`).
- The bridge acknowledges the number of the last Action that arrived, whether or not an
  earlier one was lost, and hands up one that is sent again (`AckTrueExactly`,
  `OnceInOrder`, `LostIsAcknowledged`, `RepeatedIsHandedUp`).
- A Habitat frame whose payload is the mnemonic and a lone escape marker descapes to one
  byte, and the parser's index of the second panics (`OutOfRangeExactly`).
- After the first avatar that arrives once the region is entered, every object but an
  avatar that a `make` creates until the next context entry is recorded inside the
  latest such avatar, or, once that is complete, in the region, wherever the server has
  it; the noid becomes 0 but is never forgotten (`ArrivalSticks`, `LateMakeMisplaced`).
  The table equals the server's region over a whole run exactly when such objects are
  directly inside that noid and every effective move is mirrored (`RunMirrorsExactly`).
- Noids and refs stay mutually inverse exactly while every described object brings names
  the table does not hold (`RunExactly`). That the server frees a name is not enough: an
  object recorded in the wrong place survives its container in the table, and the next
  object with its noid is known by two refs (`NoidReused`). As long as transfers and
  departures are not misled in this way, an entry is right or wrong by the last message
  about its object alone (`ObjectRight`).
- Among the modelled moves, our own THROW, our own PUT unless the server tells the actor
  too (as it does when it puts back a restricted object), our own GET by WEAR, and
  anybody's WEAR, REMOVE and VSELECT are not mirrored (`ActionMirrors`). A worn head
  then counts as still in hand, and a transfer may move it instead
  (`WornHeadIsMistaken`).
- The server's region puts an avatar that sits into its seat. That is the convention of
  the bridge and the client (`client_session.go:733-738`), not of the server's messages.
- After a restart, a nested noid or a seat that is met before the object it names is
  right only if that object kept its number (`NestedField`, `SeatRestored`), a new
  object given the number of a returning one breaks the table (`SeparateUnlessUsurped`),
  and later broadcasts miss every object whose number changed (`BroadcastAfterRestore`).
- On a page narrower than four columns the mark of a cut is wider than the page
  (`KeptFits`). A paragraph of only spaces takes no line at all, an empty one takes one.
- The character class meant for no-break and thin spaces holds plain spaces only, so
  those characters are dropped and the words around them run together
  (`WideSpaceWelds`); the comment beside it says they become spaces.

The comment above `qlinkProcessAck` speaks of resending the window; the code resends the
oldest frame only, and so does the model.

## Model

| member | source | states |
|---|---|---|
| `QLinkCodec.Crc16Update` | bridge_v2/bridge/qlink_codec.go:73-84 | the bit loop computes one CRC step |
| `QLinkCodec.QLinkCrc16` | bridge_v2/bridge/qlink_codec.go:87-93 | the byte loop computes the CRC of the whole message |
| `QLinkCodec.CrcLinear` | bridge_v2/bridge/qlink_codec.go:73-93 | CRC(x xor y) = CRC(x) xor CRC(y) for any two messages of one length |
| `QLinkCodec.CrcByteInjective` | bridge_v2/bridge/qlink_codec.go:73-84 | one CRC step is injective in the register and in the byte |
| `QLinkCodec.CrcTwoBytesInjective` | bridge_v2/bridge/qlink_codec.go:73-84 | two consecutive bytes enter the register without collisions |
| `QLinkCodec.CrcSeesBurst` | bridge_v2/bridge/qlink_codec.go:87-93 | a change confined to two adjacent bytes of a message of any length changes its CRC |
| `QLinkCodec.EncodeQLinkFrame` | bridge_v2/bridge/qlink_codec.go:111-130 | the buffer it fills is the encoding of the command, sequence numbers and payload |
| `QLinkCodec.RefreshRecvSeq` | bridge_v2/bridge/qlink_session.go:89-102 | returns a copy with byte 6 and the CRC replaced; frames shorter than a header come back as they are |
| `QLinkCodec.DecodeEncode` | bridge_v2/bridge/qlink_codec.go:172-198 | every encoded frame decodes to exactly what was encoded |
| `QLinkCodec.DecodeAcceptsEncodings` | bridge_v2/bridge/qlink_codec.go:172-198 | a byte string decodes to a frame if and only if it is that frame encoded, up to the sentinel nibbles of its CRC field |
| `QLinkCodec.DecodeDetectsBurst` | bridge_v2/bridge/qlink_codec.go:180-196 | any change confined to one byte or two adjacent bytes from byte 5 on is reported as a CRC error |
| `QLinkCodec.RefreshIsReencode` | bridge_v2/bridge/qlink_session.go:81-102 | refreshing a stored frame equals encoding its command, send sequence and payload afresh |
| `QLinkCodec.EncodeHidesFrameEnd` | bridge_v2/bridge/qlink_codec.go:122-129 | an encoded frame contains the terminator exactly when a sequence number, the command or the payload does; the CRC bytes never do |
| `QLinkWire.AbsorbExactly` | bridge_v2/bridge/qlink_codec.go:73-84 | one bit of a message moves the register one to the right and, if it differs from the bit that falls out, sets bit 15 and changes bits 13 and 0 |
| `QLinkWire.FrameLayout` | bridge_v2/bridge/qlink_codec.go:111-130 | each byte of a frame: 0x5A, the four nibbles of the CRC with 0x01 and 0x40 beside them, the two numbers, the command, the payload |
| `QLinkWire.PingFrame` | bridge_v2/bridge/qlink_codec.go:111-130 | the heartbeat with both numbers at 0x7F is 5A 31 42 91 40 7F 7F 26 |
| `QLinkWire.DecodeKinds` | bridge_v2/bridge/qlink_codec.go:172-198 | a body is malformed if and only if it is shorter than 8 bytes or does not start with 0x5A; otherwise its fields are its bytes from 5 on, valid or not |
| `QLinkWire.ShortStaysAsIs` | bridge_v2/bridge/qlink_session.go:89-102 | a stored frame too short to carry the number is resent as it is |
| `HabitatEscape.Escape` | bridge_v2/bridge/utils.go:42-52 | the loop computes the escaped packet |
| `HabitatEscape.Descape` | bridge_v2/bridge/utils.go:54-77 | the loop computes the descaped tail behind `skip` bytes; a lone marker at the end is dropped |
| `HabitatEscape.EscapeRoundTrip` | bridge_v2/bridge/utils.go:42-77 | descaping undoes escaping for every packet |
| `HabitatEscape.DescapeAfterPrefix` | bridge_v2/bridge/utils.go:54-77 | descaping behind any prefix recovers the packet escaped there |
| `HabitatEscape.EscapeHidesFrameEnd` | bridge_v2/bridge/utils.go:42-52 | an escaped packet never contains 0x0D |
| `HabitatEscape.EscapeLength` | bridge_v2/bridge/utils.go:42-52 | escaping at most doubles the length and keeps a first byte that needs no escaping |
| `HabitatEscape.EscapedExactly` | bridge_v2/bridge/utils.go:42-52 | only 0x0D and 0x5D are replaced, by 5D 58 and 5D 08 |
| `HabitatEscape.EscapeConcat` | bridge_v2/bridge/utils.go:42-52 | escaping goes byte by byte |
| `HabitatEscape.DescapedExactly` | bridge_v2/bridge/utils.go:54-77 | a marker masks the byte behind it with 0x55 and is nothing alone; every other byte is itself |
| `HabitatPackets.SendSplitLegacy` | bridge_v2/bridge/client_session.go:2714-2737 | the loop that rewrites the shared header in place writes exactly the packets of the functional split, and leaves the low five sequence bits of the buffer as they were |
| `HabitatPackets.SplitShape` | bridge_v2/bridge/qlink_session.go:596-634 | splitting conserves the payload, in the least number of chunks; START only on the first, END only on the last, low five bits, noid and request number kept, 100 bytes in each but the last |
| `HabitatPackets.SmallPacketIsOneChunk` | bridge_v2/bridge/utils.go:129-156 | 5 to 104 bytes behind a header with both flags are their own only chunk, however many bytes the header was given |
| `HabitatPackets.FieldsExactly` | bridge_v2/bridge/client_session.go:2460-2476 | which bit or byte of a packet gives each field, and 0 for those it is too short for |
| `HabitatPackets.HeaderReads` | bridge_v2/bridge/utils.go:129-156 | a header with both flags, parsed, gives back the sequence number's low nibble, the noid, the request number and what follows |
| `HabitatPackets.HeaderExactly` | bridge_v2/bridge/utils.go:129-156 | the four bytes: 0x55, the sequence number with the middle bit and the asked flags, then the first two of the bytes given |
| `HabitatPackets.RequestCache.Write` | bridge_v2/bridge/translation.go:315-337 | a START discards the cache, an END yields everything collected and empties it, anything else is suppressed |
| `QLinkSession.SeqForward` | bridge_v2/bridge/qlink_session.go:63-69 | Go's truncated remainder with its correction is the circular distance, for any two bytes |
| `QLinkSession.ClientSession.constructor` | bridge_v2/bridge/client_session.go:2896-2918 | a new session has both sequences at 0x10 but a last acknowledgement of 0 |
| `QLinkSession.ClientSession.QLinkRecordSent` | bridge_v2/bridge/qlink_session.go:49-55 | appends to the window and keeps the newest 64 frames |
| `QLinkSession.ClientSession.QLinkProcessAck` | bridge_v2/bridge/qlink_session.go:113-181 | the freeing loop and the retransmission decision change the fields as the link function says, for every command |
| `QLinkSession.ClientSession.SendQLinkAckLikeFrame` | bridge_v2/bridge/qlink_session.go:541-546 | writes a header-only frame and changes no sequence number |
| `QLinkSession.ClientSession.SendQLinkNak` | bridge_v2/bridge/qlink_session.go:557-567 | writes at most one NAK until re-armed |
| `QLinkSession.ClientSession.SendQLinkHabitatAction` | bridge_v2/bridge/qlink_session.go:579-594 | advances the send sequence, records the frame and writes it |
| `QLinkSession.ClientSession.SendSplitHabitatAction` | bridge_v2/bridge/qlink_session.go:607-644 | the copying loop sends exactly the packets of the functional split, the same as the legacy loop |
| `QLinkSession.ClientSession.SendToClient` | bridge_v2/bridge/client_session.go:2700-2713 | packets of at most 104 bytes and those not to be split go out whole, the others in chunks |
| `QLinkSession.ClientSession.SendHabitatFlowControl` | bridge_v2/bridge/qlink_session.go:663-671 | sends the two mnemonic bytes unescaped in a recorded frame |
| `QLinkSession.ClientSession.HandleQLinkFrame` | bridge_v2/bridge/qlink_session.go:408-457 | a corrupt body changes at most the NAK flag; a valid one is acknowledged, answered and dispatched in that order |
| `QLinkSession.ClientSession.DispatchQLinkFrame` | bridge_v2/bridge/qlink_session.go:459-535 | the switch on the command: Reset rewinds, Ping answers, every Action is acknowledged before it is filtered |
| `QLinkSession.SendPacketsSnoc` | bridge_v2/bridge/qlink_session.go:616-642 | sending packets one after the other composes |
| `QLinkArq.SendKeepsStep` | bridge_v2/bridge/qlink_session.go:49-55 | sending keeps the window in step with the unbounded counters if and only if fewer than 64 frames are outstanding |
| `QLinkArq.FreeExactly` | bridge_v2/bridge/qlink_session.go:144-146 | the freeing loop stops exactly behind the acknowledged frame, across any number of wraps |
| `QLinkArq.AckExact` | bridge_v2/bridge/qlink_session.go:136-151 | an acknowledgement of index a frees exactly the frames up to a when it advances by at most 56, and changes nothing when it advances further or lags by 1 to 55 |
| `QLinkArq.StepKeeps` | bridge_v2/bridge/qlink_session.go:113-181 | every send, received frame, delivery, loss and corruption keeps window, client and channel coherent |
| `QLinkArq.RunKeeps` | bridge_v2/bridge/qlink_session.go:113-181 | the coherence invariant holds after every run |
| `QLinkArq.CoherentIsSafe` | bridge_v2/bridge/qlink_session.go:136-151 | coherence implies that accepted payloads are a prefix of those sent and every other payload can still be retransmitted |
| `QLinkArq.ArqSafety` | bridge_v2/bridge/qlink_session.go:113-181 | safety of every run after a Reset over a losing, corrupting channel, whatever the RecvSeq of rejections carries |
| `QLinkArq.RetransmitsNext` | bridge_v2/bridge/qlink_session.go:153-181 | a retransmission is one frame: the successor of the last acknowledged number, encoded afresh, decoding to the oldest unacknowledged payload |
| `QLinkArq.RetransmitsWhenStuck` | bridge_v2/bridge/qlink_session.go:123-156 | a rejection, or an unmoved acknowledgement when a resend is due, retransmits exactly when payloads are outstanding |
| `QLinkArq.FullWindowForgets` | bridge_v2/bridge/qlink_session.go:49-55 | with 64 outstanding the next send drops the oldest unacknowledged frame and keeps the other 63 |
| `QLinkArq.StaleAckExact` | bridge_v2/bridge/qlink_session.go:136-151 | an acknowledgement lagging by d leaves a non-empty window alone if and only if d is at most 55 |
| `QLinkRecovery.NewestAckHeardExactly` | bridge_v2/bridge/qlink_session.go:143-151 | one live report is heard if and only if it is at most 56 ahead of the last one heard |
| `QLinkRecovery.NeverHeardAgain` | bridge_v2/bridge/qlink_session.go:136-151 | beyond 56 ahead no live report is ever heard again in any run, whatever is sent, lost, corrupted or rejected meanwhile |
| `QLinkRecovery.DueHeartbeat` | bridge_v2/bridge/qlink_session.go:149-181 | a due heartbeat that does not move the acknowledgement draws a retransmission of the payload the client waits for |
| `QLinkRecovery.Recovers` | bridge_v2/bridge/qlink_session.go:104-181 | from every coherent state at most 56 ahead there is a run of deliveries and live heartbeats that gets everything accepted and acknowledged |
| `QLinkRecovery.HealingPays` | bridge_v2/bridge/qlink_session.go:136-181 | no delivery or live heartbeat adds to the payloads and acknowledgements owed, and a due heartbeat that finds the line drained pays at least one |
| `QLinkRecovery.EveryHealingRun` | bridge_v2/bridge/qlink_session.go:104-181 | every run of deliveries and live heartbeats, in any order, with as many such due heartbeats as are owed settles everything if and only if the client stays within 56 all along, which it must with at most 56 frames outstanding |
| `QLinkRecovery.RecoversExactly` | bridge_v2/bridge/qlink_session.go:136-151 | some run with live reports settles what was sent if and only if the client is at most 56 ahead; otherwise the link is wedged |
| `QLinkRecovery.RunSettlesOrWedges` | bridge_v2/bridge/qlink_session.go:104-181 | the same test decides after every run from a Reset |
| `QLinkRecovery.SmallWindowRecovers` | bridge_v2/bridge/qlink_session.go:49-55 | with at most 56 frames outstanding, live reports can always settle what was sent |
| `QLinkRecovery.NakEffect` | bridge_v2/bridge/qlink_session.go:124-133 | after a rejection with an empty channel the next delivery is the payload the client waits for |
| `QLinkLimits.SafeExactly` | bridge_v2/bridge/qlink_session.go:136-151 | with the frames up to one index freed the system is safe if and only if the client has accepted them |
| `QLinkLimits.FullWindowExact` | bridge_v2/bridge/qlink_session.go:49-55 | sending with a full window keeps safety if and only if the client has already accepted the oldest frame |
| `QLinkLimits.WindowOverflows` | bridge_v2/bridge/qlink_session.go:49-55 | a run of 64 sends from a Reset after which the next one loses a payload |
| `QLinkLimits.StaleAckUnsafe` | bridge_v2/bridge/qlink_session.go:136-151 | an acknowledgement lagging by 56 or more keeps safety if and only if the client has accepted all it frees |
| `QLinkLimits.StaleReportFrees` | bridge_v2/bridge/qlink_session.go:136-151 | a run from a Reset after which a report delayed by 56 frees a payload the client never received |
| `QLinkLimits.UnheardClient` | bridge_v2/bridge/qlink_session.go:136-151 | payloads accepted while every report is lost wedge the link exactly from the 57th on |
| `QLinkLimits.FirstReportsLost` | bridge_v2/bridge/qlink_session.go:136-151 | from a Reset, 57 payloads accepted before the first report wedge a link that is still safe |
| `QLinkReplies.RetransmitsExactly` | bridge_v2/bridge/qlink_session.go:123-181 | hearing a frame other than a Reset retransmits if and only if payloads stay outstanding and it rejects, or repeats the last acknowledgement and no retransmission was made in the 3000 milliseconds before; only then the time of the last retransmission changes |
| `QLinkReplies.ResendsPaced` | bridge_v2/bridge/qlink_session.go:147-156 | over every run whose clock does not run backwards a retransmission that no rejection asked for comes at least 3000 milliseconds after any earlier one, Resets and rejections in between or not |
| `QLinkReplies.NakFrame` | bridge_v2/bridge/qlink_session.go:557-567 | a corrupt frame draws, once until re-armed, a NAK with the current numbers |
| `QLinkReplies.NaksExactly` | bridge_v2/bridge/qlink_session.go:409-441 | over every run from a new link a corrupt frame draws a NAK if and only if no other one came since the last valid frame |
| `QLinkReplies.AnswersExactly` | bridge_v2/bridge/qlink_session.go:459-535 | a Reset and a Ping are answered by an empty acknowledgement, the synchronisation mnemonic by itself, and nothing else by anything |
| `QLinkReplies.NumbersExactly` | bridge_v2/bridge/qlink_session.go:459-535 | every Action is acknowledged, wanted by the Habitat layer or not; what is handed up, and when the numbers change |
| `QLinkReplies.AcknowledgesLast` | bridge_v2/bridge/qlink_session.go:473-485 | over every run the bridge acknowledges the last Action heard since the last Reset |
| `QLinkReplies.SendExactly` | bridge_v2/bridge/qlink_session.go:579-594 | a payload goes out under the next number with the current acknowledgement, and the newest 64 frames are kept |
| `QLinkEpochs.ResetStarts` | bridge_v2/bridge/qlink_session.go:117-121 | a Reset puts any link, in any state, at the start of a run with its answer on the way |
| `QLinkEpochs.EpochSafety` | bridge_v2/bridge/qlink_session.go:459-467 | safety over any number of Resets, heard at once, late, twice or never, with the bridge sending and retransmitting in the old numbering meanwhile, if no frame with the first number reaches a client just reset or is in flight when the Reset is heard |
| `QLinkEpochs.GapExact` | bridge_v2/bridge/qlink_session.go:459-467 | while the bridge has not heard the Reset, a delivery is safe if and only if it is not a payload with the first number |
| `QLinkEpochs.ResetExact` | bridge_v2/bridge/qlink_session.go:459-467 | delivering what was in flight at a Reset keeps the new run safe if and only if no payload among it carries the first number |
| `QLinkSession.ClientSession.FromSnapshot` | bridge_v2/bridge/client_session.go:3003-3051 | a restored session keeps its two positions and starts with an empty window and a last acknowledgement of 0 |
| `QLinkRestore.HandoverSafeExactly` | bridge_v2/bridge/client_session.go:2933-2985 | handing a session over is safe if and only if the client has accepted everything sent |
| `QLinkRestore.HandoverUnsynced` | bridge_v2/bridge/client_session.go:3003-3051 | a handed-over link is in step with what was sent, all of it taken for acknowledged, but for the last acknowledgement |
| `QLinkRestore.StartsDeaf` | bridge_v2/bridge/client_session.go:2896-2918 | a new link is a restored one at 0x10, and a link that never heard a Reset sends under its own next number |
| `QLinkRestore.RestoredHearsExactly` | bridge_v2/bridge/qlink_session.go:136-151 | a restored link hears a report if and only if its number is at most 56 or at least 112; in between nothing changes |
| `QLinkRestore.FirstReport` | bridge_v2/bridge/qlink_session.go:136-151 | a first report that is not behind, if heard, puts the restored link in step with the client again, frees exactly what it covers and resends nothing |
| `QLinkRestore.LateFirstReport` | bridge_v2/bridge/qlink_session.go:136-151 | a first report that lags by d leaves a non-empty window alone if and only if d is at most 54 or it is not heard; a running link allows 55 |
| `QLinkRestore.LateReportUnsafe` | bridge_v2/bridge/qlink_session.go:136-151 | a first report lagging by 55 or more that is heard keeps safety if and only if the client has accepted all it frees |
| `QLinkRestore.LooseStep` | bridge_v2/bridge/qlink_session.go:113-181 | every event keeps window, client and channel coherent whatever acknowledgement was heard last, if reports lag by at most 54 behind what is freed |
| `QLinkRestore.RestoredSafety` | bridge_v2/bridge/qlink_session.go:113-181 | every run of a link handed over safely is safe over a losing, corrupting channel while reports lag by at most 54 |
| `QLinkRestore.HandoverTransparent` | bridge_v2/bridge/qlink_session.go:258-265 | over any number of handovers the bytes written split back into exactly the frames written, in order |
| `QLinkRestore.NothingResent` | bridge_v2/bridge/qlink_session.go:136-181 | while reports stay between 57 and 111 a restored link retransmits nothing in any run |
| `QLinkEpochs.RepeatedResetExact` | bridge_v2/bridge/qlink_session.go:459-467 | a Reset heard again while the client keeps its position loses nothing if and only if the client has accepted everything, and the next payload can then reach it if and only if a multiple of 112 payloads was sent |
| `QLinkInbound.HandsUpArrivals` | bridge_v2/bridge/qlink_session.go:472-535 | whatever the sequence numbers and whatever is sent meanwhile, exactly the Habitat Actions that arrive are handed up, in the order and as often as they arrive, and the last one is acknowledged |
| `QLinkInbound.OnceInOrder` | bridge_v2/bridge/qlink_session.go:472-535 | what is handed up equals what the client sent, whatever it sent, if and only if its Actions arrive in order and once each |
| `QLinkInbound.AckTrueExactly` | bridge_v2/bridge/qlink_session.go:481-483 | the acknowledgement covers only Actions that have arrived, all along, if and only if none arrives before an earlier one |
| `QLinkInbound.LostIsAcknowledged` | bridge_v2/bridge/qlink_session.go:481-483 | a lost first Action is acknowledged by the second and never handed up |
| `QLinkInbound.RepeatedIsHandedUp` | bridge_v2/bridge/qlink_session.go:472-535 | an Action that arrives twice is handed up twice |
| `QLinkFraming.ReadAllExact` | bridge_v2/bridge/qlink_session.go:258-265 | reading loses nothing: the bodies put back on the wire give the stream up to its incomplete last frame |
| `QLinkFraming.FramesSurvive` | bridge_v2/bridge/qlink_session.go:258-265 | a sequence of frames survives the wire if and only if none of them contains the terminator |
| `QLinkFraming.WrittenSnoc` | bridge_v2/bridge/qlink_session.go:677-686 | over a run frames are written in the order of what happens to the link |
| `QLinkFraming.StepIsClean` | bridge_v2/bridge/qlink_session.go:408-671 | no handler writes or stores a frame containing the terminator |
| `QLinkFraming.Transparent` | bridge_v2/bridge/qlink_session.go:258-265 | whatever a session hears from its byte stream and sends, from its construction on, its output splits back into exactly the frames it wrote, in order |
| `QLinkFraming.NoiseKeepsWindow` | bridge_v2/bridge/qlink_session.go:409-441 | a body that does not decode leaves window and sequence numbers alone and draws at most one NAK |
| `QLinkFraming.NakDebounce` | bridge_v2/bridge/qlink_session.go:409-441 | between any two NAKs for corrupt frames a valid frame was heard |
| `HabitatPipeline.PacketArrives` | bridge_v2/bridge/client_session.go:2452-2476 | one packet comes through escaping, encoding, decoding, descaping and header parsing unchanged |
| `HabitatPipeline.OutOfRangeExactly` | bridge_v2/bridge/client_session.go:2452-2462 | reading the second descaped byte is out of range for a valid Habitat frame if and only if its payload is the mnemonic and a lone escape marker |
| `HabitatPipeline.OthersBetween` | bridge_v2/bridge/translation.go:316-336 | frames without a Habitat message, corrupt or not, between the chunks of a request change neither what is completed nor what is gathered |
| `HabitatPipeline.ChunkParses` | bridge_v2/bridge/client_session.go:2460-2476 | a chunk parses to the original noid and request number with START and END by position |
| `HabitatPipeline.ChunksReassemble` | bridge_v2/bridge/translation.go:315-337 | the chunks of any non-empty payload reassemble into one request, earlier ones suppressed |
| `HabitatPipeline.PipelineRoundTrip` | bridge_v2/bridge/qlink_session.go:607-644 | a split packet crosses the wire from any clean link and comes out as exactly one request with the original bytes; stale cache contents are discarded |
| `HabitatPipeline.WholeOrSplit` | bridge_v2/bridge/client_session.go:2700-2713 | a packet goes out whole in one frame if it is not to be split or has at most 104 bytes, otherwise in one frame for every 100 bytes behind its header, none of which carries more than 104 |
| `HabitatPipeline.SplitArrives` | bridge_v2/bridge/client_session.go:2700-2713 | what is split comes out of the byte stream as exactly one request, the bytes behind the header |
| `ContainerGraph.WithinByChildren` | bridge_v2/bridge/client_session.go:962-971 | what is inside a container is the container and what is inside its children once it is gone, on any graph |
| `ContainerGraph.SmallerBelow` | bridge_v2/bridge/contents_vector.go:123-135 | below the topmost container the recursion into contents strictly shrinks, cycles elsewhere or not |
| `ObjectTable.NoOrphans` | bridge_v2/bridge/client_session.go:951-994 | a sweep leaves no survivor whose container it removed |
| `ObjectTable.CutStrands` | bridge_v2/bridge/client_session.go:973-993 | a sweep cut short by a failing write strands something if and only if it had begun |
| `RegionClient.GoAwayReads` | bridge_v2/bridge/client_session.go:972-973 | the packet of a removal is one whole message to the region, request 9, with the noid as its only argument |
| `RegionClient.SweepForgets` | bridge_v2/bridge/client_session.go:951-994 | a client that forgets what such messages name ends without exactly the start of a sweep and what is inside it |
| `RegionClient.ClientFollows` | bridge_v2/bridge/client_session.go:951-994 | a client that held what the table held holds what the table holds after a sweep or one cut short |
| `RegionClient.ContainersForgottenFirst` | bridge_v2/bridge/client_session.go:972-993 | at no time during a sweep has the client forgotten an object while it still holds its container |
| `RegionClient.NothingStranded` | bridge_v2/bridge/client_session.go:951-994 | after a whole sweep the client still holds the container of whatever it still holds, if it held it before |
| `RegionSession.Session.constructor` | bridge_v2/bridge/client_session.go:2896-2918 | a new session has an empty table and nothing to restore |
| `RegionSession.Session.FromSnapshot` | bridge_v2/bridge/client_session.go:3003-3097 | a restored session has the table of the snapshot and its noids armed for rewriting |
| `RegionSession.Session.InitializeState` | bridge_v2/bridge/client_session.go:241-251 | entering a context forgets every object and any later arrival, waits for the own avatar, and keeps the restore state |
| `RegionSession.Session.ReconcileNoids` | bridge_v2/bridge/client_session.go:863-934 | the rewriting of the noid and of the nested noid fields |
| `RegionSession.Session.UnpackHabitatObject` | bridge_v2/bridge/client_session.go:841-949 | skipping, rejecting or tracking an object under its client noid, with its container looked up before it is inserted |
| `RegionSession.Session.HandleArrival` | bridge_v2/bridge/client_session.go:712-738 | a make on entering: another avatar is put into the region or its seat |
| `RegionSession.Session.HandleMake` | bridge_v2/bridge/client_session.go:712-803 | the whole branching of a make: entering, a later arrival or a ghost of one, bundling into the noid kept from it, and the dereference of a noid that an unassigned object lacks |
| `RegionSession.Session.HandleReady` | bridge_v2/bridge/client_session.go:585-681 | ready completes the region and ends a restore, or turns the noid of a later arrival into 0 without forgetting it, unless its packet cannot be written and the session closes |
| `RegionSession.Session.Vectorize` | bridge_v2/bridge/client_session.go:2855-2872 | an object described inside another message is tracked where that message puts it, never bundled |
| `RegionSession.Session.RemoveNoid` | bridge_v2/bridge/client_session.go:951-994 | terminates on any container graph; removes exactly the noid and all it transitively contains, sends one GOAWAY for each with every container before its contents, and leaves everything else; when a write fails, exactly what was reported is removed |
| `RegionSession.Session.HandleDelete` | bridge_v2/bridge/client_session.go:702-711 | a delete of a known ref sweeps it, of an unknown one does nothing |
| `RegionSession.Session.HandItem` | bridge_v2/bridge/client_session.go:999-1007 | finds an object in the avatar's hand, or reports that there is none |
| `RegionSession.Session.NoteContainerChange` | bridge_v2/bridge/client_session.go:1018-1027 | moves exactly the given object in place; no object, no change |
| `RegionSession.Session.GetAsync` | bridge_v2/bridge/server_ops.go:173-187 | the target is recorded in the actor's hand |
| `RegionSession.Session.PutAsync` | bridge_v2/bridge/server_ops.go:345-367 | the object is recorded in its new container and slot |
| `RegionSession.Session.ThrowAsync` | bridge_v2/bridge/server_ops.go:476-491 | the object is recorded on the region floor |
| `RegionSession.Session.ChangeContainers` | bridge_v2/bridge/server_ops.go:80-97 | the object is recorded in its new container and slot |
| `RegionSession.Session.GrabFromAsync` | bridge_v2/bridge/server_ops.go:198-216 | whatever is in the giver's hand is recorded in the receiver's |
| `RegionSession.Session.GetReply` | bridge_v2/bridge/translation.go:24-38 | our own successful GET is recorded from its reply |
| `RegionSession.Session.GrabReply` | bridge_v2/bridge/translation.go:637-651 | our own GRAB is recorded for a nonzero item |
| `RegionSession.Session.HandReply` | bridge_v2/bridge/translation.go:653-665 | our own successful HAND is recorded from its reply |
| `RegionRuns.InsertBijective` | bridge_v2/bridge/client_session.go:936-945 | creation keeps noids and refs mutually inverse if and only if both names are unused |
| `RegionRuns.RemovedBijective` | bridge_v2/bridge/client_session.go:972-985 | removing any set of noids keeps the bijection and the creation order duplicate-free |
| `RegionRuns.Observe` | bridge_v2/bridge/server_ops.go:80-491 | each action reaches the table through the handler of the message it sends |
| `RegionRuns.HandMovedExactly` | bridge_v2/bridge/client_session.go:999-1007 | with one item per hand the moved item does not depend on the order in which the table is searched |
| `RegionRuns.PlacedExactly` | bridge_v2/bridge/server_ops.go:80-491 | where each action leaves its item: hands are slot 5, a worn head slot 6, a display slot 1 |
| `RegionRuns.ActionKeeps` | bridge_v2/bridge/server_ops.go:80-491 | a legal action keeps one item per hand and every container present |
| `RegionRuns.ActionMirrors` | bridge_v2/bridge/server_ops.go:80-491 | after a legal action the table equals the server's world if and only if the action is mirrored or moved nothing; not mirrored are our own THROW, our own PUT told to neighbors only, our own GET by WEAR, and every WEAR, REMOVE and VSELECT |
| `RegionRuns.WornHeadIsMistaken` | bridge_v2/bridge/server_ops.go:198-216 | after a WEAR and a GET the table has two things in one hand, and a transfer from it may record either |
| `RegionRuns.MadeMirrors` | bridge_v2/bridge/client_session.go:712-787 | a creation keeps the table equal to the server's region if and only if it is not bundled into a noid that it is not directly inside |
| `RegionRuns.StepMirrors` | bridge_v2/bridge/client_session.go:585-803 | every message keeps the table equal to the server's region if and only if it is faithful: an object made while a later arrival's noid is kept is directly inside that noid, an effective move is mirrored |
| `RegionRuns.RunMirrors` | bridge_v2/bridge/client_session.go:585-994 | while every message is faithful, over creations, late arrivals, departures, movements, ready messages and context entries: table equals truth, names in bijection, one item per hand, no container missing; `RegionNames.RunExactly` has the bijection without that |
| `RegionRuns.RunMirrorsExactly` | bridge_v2/bridge/client_session.go:585-994 | over every run from the first context entry on, table and truth are equal all along if and only if every message is faithful |
| `RegionRuns.ArrivalSticks` | bridge_v2/bridge/client_session.go:656-681 | once an avatar has arrived later, a noid is kept until the next context entry, whatever happens |
| `RegionRuns.LateMakeMisplaced` | bridge_v2/bridge/client_session.go:779-787 | a run of seven messages after which the server has an object in a chest and the table in the region |
| `RegionNames.StepExactly` | bridge_v2/bridge/client_session.go:936-992 | a message keeps noids and refs mutually inverse if and only if the object it describes, if any, is passed over or brings a noid and a ref that the table does not hold, whatever else the table has wrong |
| `RegionNames.RunExactly` | bridge_v2/bridge/client_session.go:936-992 | over every run of a session, faithful or not, noids and refs are mutually inverse all along if and only if every described object brings names that the table does not hold |
| `RegionNames.NoidReused` | bridge_v2/bridge/client_session.go:972-992 | a run of nine messages in which the server never uses a name twice at one time, after which one noid has two refs and stands twice in the creation order |
| `RegionObjects.StepObject` | bridge_v2/bridge/client_session.go:585-994 | a message leaves what it is not about as it was, right or wrong, and makes what it is about right if and only if the bridge records the message or has the object already where it is moved |
| `RegionObjects.NamesAgreeAll` | bridge_v2/bridge/client_session.go:585-994 | the table knows exactly the objects that are there, under their names, over every run in which transfers find their item alone in the hand and departures take along the same objects on both sides, even where places are wrong |
| `RegionObjects.LastAboutExists` | bridge_v2/bridge/client_session.go:712-803 | every object that is there has a last message about it |
| `RegionObjects.ObjectRight` | bridge_v2/bridge/client_session.go:585-994 | over every such run an object's entry is right if and only if the bridge recorded the last message about it or had it already where that moved it; nothing wrong about other objects matters |
| `RegionRuns.TransferOutlivesGiver` | bridge_v2/bridge/server_ops.go:198-216 | a handed-over item is still in the receiver's hand after its giver has left with all it carries |
| `RegionRuns.TransferOutlivesSweep` | bridge_v2/bridge/server_ops.go:198-216 | and so in the bridge's table after the message about the transfer and the sweep of the giver |
| `RegionEntry.EntersExactly` | bridge_v2/bridge/client_session.go:585-642 | from a context entry on a session takes its region for complete if and only if a ready came after its own avatar, and knows of no later arrival before |
| `RegionEntry.PanicsExactly` | bridge_v2/bridge/client_session.go:712-803 | a missing noid is dereferenced if and only if an unassigned object that is no arriving avatar is made once the region is complete and no later arrival is kept |
| `RegionEntry.EnterBegins` | bridge_v2/bridge/client_session.go:241-251 | an entry empties the table and waits for the avatar |
| `RegionEntry.NoidExactly` | bridge_v2/bridge/client_session.go:862-870 | a server noid is narrowed to a byte, and a missing one is the region's |
| `RegionEntry.RestoreEnds` | bridge_v2/bridge/client_session.go:628-638 | a restore is over if and only if the ready that completes the region comes, and then nothing is rewritten any more |
| `RegionEntry.InactiveIsPlain` | bridge_v2/bridge/client_session.go:878-935 | without an active restore a message is taken as if there had never been one |
| `NoidRestore.TranslatesExactly` | bridge_v2/bridge/client_session.go:882-934 | the rewriting table translates each server noid met so far to the client's and no other noid to anything |
| `NoidRestore.NestedField` | bridge_v2/bridge/client_session.go:907-933 | SittingIn, Restrainer and Wisher name the same object to the client if and only if it was already made or kept its number |
| `NoidRestore.RefsKnown` | bridge_v2/bridge/client_session.go:936-945 | exactly the tracked refs are known, each under its client noid |
| `NoidRestore.SavedRefsReturn` | bridge_v2/bridge/client_session.go:882-896 | every saved ref comes back under its saved noid, even when noids are permuted |
| `NoidRestore.SeparateUnlessUsurped` | bridge_v2/bridge/client_session.go:882-896 | client noids collide if and only if a new object is numbered with the noid of a returning one |
| `NoidRestore.RestoredBijective` | bridge_v2/bridge/client_session.go:936-945 | the restored table is a bijection if and only if no two objects got one client noid |
| `NoidRestore.RestoreReconciles` | bridge_v2/bridge/client_session.go:882-945 | after a storm without such a collision every object is known both ways under its client noid, inside what the client takes for its container |
| `NoidRestore.SeatRestored` | bridge_v2/bridge/client_session.go:726-738 | another avatar that sits is inside its seat for the client if and only if the seat was made first or kept its number |
| `NoidRestore.BroadcastAfterRestore` | bridge_v2/bridge/client_session.go:630-640 | after the storm a broadcast moves the object it names if and only if that object kept its number; otherwise it moves what the client knows by that number |
| `ContentsVector.Vector.constructor` | bridge_v2/bridge/contents_vector.go:137-166 | an empty vector, about a given ref or about the first object added |
| `ContentsVector.Vector.Add` | bridge_v2/bridge/contents_vector.go:31-56 | the head object is encoded into the description, every other appended to the list of the ref it was sent to, again if it is added again |
| `ContentsVector.Vector.ResolveContents` | bridge_v2/bridge/contents_vector.go:92-99 | the lists by noid, independent of the order in which the refs are visited |
| `ContentsVector.Vector.AddContents` | bridge_v2/bridge/contents_vector.go:123-135 | terminates, and appends every object inside the container once, contents before containers and earlier siblings first, its state bundles in the same order |
| `ContentsVector.PrefixGrows` | bridge_v2/bridge/contents_vector.go:123-135 | one round of the recursion: the contents of one more sibling, then itself, without revisiting |
| `ContentsVector.FillReadsBack` | bridge_v2/bridge/contents_vector.go:63-91 | filling in the avatar changes only bytes 4 to 8: its noid, or 255 for a ghost or an unknown one, and its balance read back |
| `ContentsVector.Vector.Send` | bridge_v2/bridge/contents_vector.go:58-110 | the packet: header, head state with the avatar filled in, class list, terminator, bundles in the order of the list, terminator |
| `ContentsVector.ClassListReadsBack` | bridge_v2/bridge/contents_vector.go:105-109 | reading pairs up to a zero noid gives back exactly the list, because the region is in none |
| `ContentsVector.DescribeRegion` | bridge_v2/bridge/client_session.go:586-642 | on entering, the body describes a listing of exactly the objects that reach the region through known containers, once, contents before container and siblings in noid order, even if other objects form a cycle |
| `ContentsVector.DescriptionReads` | bridge_v2/bridge/contents_vector.go:58-91 | parsed like any packet, the description is one whole reply with request 1 to the region, and its arguments begin with the state of the region, holding at byte 4 the own avatar's noid, or 255 if and only if that is a ghost, unknown or 255, and its balance behind |
| `ContentsVector.DescriptionLists` | bridge_v2/bridge/contents_vector.go:100-110 | behind the region's state a reader finds the listed objects with their classes up to a zero, then their states and a zero |
| `ContentsVector.BundlesAt` | bridge_v2/bridge/contents_vector.go:123-135 | the states follow in the order of the listing |
| `ContentsVector.ListingUnique` | bridge_v2/bridge/contents_vector.go:123-135 | there is only one such listing, so the description is fully determined |
| `PaperWrap.WrapForPaper` | habibots/lib/mail.js:93-120 | the nested loops compute the lines, the cut and its mark |
| `PaperWrap.WrapAll` | habibots/lib/mail.js:93-111 | the loop over the paragraphs computes the lines of the letter, an empty line for each empty paragraph |
| `PaperWrap.WrapParagraph` | habibots/lib/mail.js:97-110 | the word loop computes the lines of a paragraph |
| `PaperWrap.BreakWord` | habibots/lib/mail.js:99-105 | an over-long word is pushed in chunks and a short last one taken back |
| `PaperLayout.WrapConserves` | habibots/lib/mail.js:93-111 | for every text the characters other than spaces and breaks come out in order |
| `PaperLayout.KeptFits` | habibots/lib/mail.js:112-119 | at most `rows` lines are kept, unchanged but for a marked last one, and none is wider than the page if and only if no cut is marked on a page narrower than its mark |
| `PaperLayout.MarkExactly` | habibots/lib/mail.js:114-118 | the mark is " ..." behind as much of the last line as fits before it, up to its last character that is not white |
| `PaperLayout.WhiteExactly` | habibots/lib/mail.js:114-118 | the characters that are trimmed off before the mark, by their code points |
| `PaperLayout.FillChunks` | habibots/lib/mail.js:99-105 | cutting an over-long word in the loop is the same as cutting it beforehand |
| `PaperLayout.FillIsGroups` | habibots/lib/mail.js:98-110 | the lines are the words in order, grouped and joined by single spaces |
| `PaperLayout.GreedyStaysAhead` | habibots/lib/mail.js:106-108 | from any started line no layout of the remaining words takes fewer lines |
| `PaperLayout.ParagraphFewest` | habibots/lib/mail.js:97-110 | no layout of a paragraph takes fewer lines, an over-long word counting as its full-width pieces |
| `PaperLayout.ParagraphGreedy` | habibots/lib/mail.js:97-110 | the lines are themselves such a layout, but for a space a trailing blank may leave |
| `PaperLayout.WordsUncut` | habibots/lib/mail.js:97-110 | read word by word, the lines of a paragraph give its words back in order, over-long ones in pieces; every word of at most `cols` characters stands whole on one line |
| `PaperLayout.TruncatedExactly` | habibots/lib/mail.js:112-119 | a cut is reported if and only if no layout of the letter fits the rows, among layouts that keep words whole and cut over-long ones into full-width pieces |
| `PaperLayout.GreedyIsFree` | habibots/lib/mail.js:97-110 | the lines of any paragraph are also a layout of the wider kind that may cut over-long words anywhere |
| `PaperLayout.FewestOfAll` | habibots/lib/mail.js:97-110 | without over-long words a paragraph takes the fewest lines of all layouts, wherever these may cut |
| `PaperLayout.CutElsewhere` | habibots/lib/mail.js:99-105 | with one, a layout of the same width that cuts it elsewhere may take a line less |
| `Petscii.SanitizedExactly` | habibots/lib/sage/petscii.js:18-37 | every text comes out plain: printable ASCII, trimmed, no two faces with only spaces between; and a text is left as it is if and only if it is plain, so that sanitizing twice is sanitizing once |
| `Petscii.ShownExactly` | habibots/lib/sage/petscii.js:18-33 | whatever stands around it, each kind of quote, dash, ellipsis, bullet and emoji is shown as its ASCII form, and any other character outside printable ASCII as nothing |
| `Petscii.FacesMerge` | habibots/lib/sage/petscii.js:34-35 | faces with nothing but spaces between are shown as one, whatever stands around them |
| `Petscii.WideSpaceWelds` | habibots/lib/sage/petscii.js:25-33 | a no-break space is dropped, so the words around it run together |
| `MailPage.BreaksKept` | habibots/lib/mail.js:86-88 | folding keeps the line breaks: the letter splits into the lines of the body, each folded and plain, and is the body itself if and only if all its lines are plain |
| `MailPage.BuildMailPage` | habibots/lib/mail.js:125-130 | the address line, the wrapped letter after folding its lines, and a padding space exactly when the length is 16 |
| `MailPage.PageFits` | habibots/lib/mail.js:125-130 | for every body the page is never 16 characters long, reads back as the address and the kept lines, has one row for the address and one to 15 for the letter, and fits 40 columns if and only if the name has at most 36 characters |
| `Presence.ScanSessions` | bridge_v2/bridge/presence.go:202-232 | the scan finds whether another session of the user is live and counts different people, bots and hidden ones apart |
| `Presence.RefsExactly` | bridge_v2/bridge/presence.go:202-232 | the people counted are exactly the named users of visible sessions of people |
| `Presence.Registry.NoteConnect` | bridge_v2/bridge/presence.go:129-174 | the first reason that applies is recorded, and a login is posted exactly when none does |
| `Presence.Registry.NoteDisconnect` | bridge_v2/bridge/presence.go:178-197 | stamps the clock, prunes it above 1024 entries, records the event |
| `Presence.Registry.Prune` | bridge_v2/bridge/presence.go:185-192 | the deleting loop keeps exactly the stamps within the window |
| `Presence.Registry.Record` | bridge_v2/bridge/presence.go:321-327 | the history holds the last 500 events |
| `Presence.Registry.ImportDebounce` | bridge_v2/bridge/presence.go:356-368 | every user gets the later of the two stamps |
| `Presence.ReasonExactly` | bridge_v2/bridge/presence.go:143-165 | the recorded reason is the first that applies: another session, a departure less than 300 seconds ago, a hidden avatar, a bot, alerts switched off |
| `Presence.DebounceExactly` | bridge_v2/bridge/presence.go:143-192 | after any run whose clock does not run backwards the pruned registry silences a login for a recent departure if and only if the user, not live elsewhere, last left less than 300 seconds ago; a user never heard of leaving never is |
| `Presence.ImportedExactly` | bridge_v2/bridge/presence.go:356-368 | after a handoff each user has the later of the two stamps |
| `Presence.PruneExact` | bridge_v2/bridge/presence.go:185-192 | pruning at one time changes the answer at another if and only if the stamp is expired at the first and not at the second |
| `Presence.PrunedAnswersAsFull` | bridge_v2/bridge/presence.go:143-192 | on every run of connects, disconnects and imports whose clock does not run backwards the registry decides as if it forgot nothing, and its history is the end of the full one |
| `Presence.PruningBounds` | bridge_v2/bridge/presence.go:185-192 | a stamp is kept, a clock of up to 1024 users forgets nobody, and one of more keeps only those who left less than 300 seconds ago |
| `Presence.HandoffDebounce` | bridge_v2/bridge/presence.go:343-368 | rounding to seconds over a handoff debounces nobody anew and lets nobody through more than a second early |

## Left out

- Sockets, goroutines, mutexes, chunk pacing, logging, metrics and the recognition of the handshake probe, which only changes the log level. Writes on the link layer succeed.
- Partial frames lost when a read deadline expires for a snapshot.
- Corruption that the CRC does not detect: corrupted bodies on the channel are those that do not decode to a valid frame. `DecodeDetectsBurst` proves this for changes within two adjacent bytes.
- QLinkRecovery.EveryHealingRun: runs in which the line still loses or corrupts frames, or new payloads are sent, are not counted as healing.
- QLinkEpochs.EpochSafety: a Reset heard after the client has already accepted a payload of the new numbering, such as a late duplicate, is excluded; `RepeatedResetExact` says what one costs.
- QLinkRestore.RestoredSafety: reports that lag by exactly 55 are excluded even where the link would ignore them.
- The text protocol and the translation of every other message; JSON; the encoders of object state, which appear as opaque bytes.
- Objects without a body in the table.
- RegionRuns.RunMirrorsExactly: an unassigned object made with no later arrival kept, whose missing noid the bridge dereferences, and objects of unknown classes are excluded; other ways in which the server moves or destroys objects are not among the events.
- RegionSession.Session.HandleReady: the contents of the packets it sends; `ContentsVector` models the one that describes a region.
- ContentsVector.Vector.Send: the order in which Go visits the map of lists is arbitrary here.
- PaperWrap.WrapForPaper: strings are sequences of characters, so a character outside the basic plane, which no folded letter holds, counts once, not twice; a column width of 0, for which the source does not terminate, is excluded.
- MailPage.PageFits: the name is taken to have no line break, as the bot checks before sending.
- Presence.Registry.NoteConnect: whether a name is a bot's is an input; region names and the text of the alert are not modelled.
- Sending, fetching and answering mail, chat bots, the web proxy, user creation, listener handoff and the conversion scripts: input and output without checkable logic, or easy members.
