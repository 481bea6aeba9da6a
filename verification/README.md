# Protocol logic of the baresip SIP client: model and proofs

baresip is a SIP client on top of the library re. Most of its modules wrap codecs and devices; the logic of
its own is in payload formats, incremental parsers and small asynchronous protocols. This project models that
logic in Dafny and proves what it is for. `dafny verify dfyconfig.toml` checks everything.

Where the C code changes an object or a buffer step by step, so do the classes and methods here; each is proved
against a functional specification of the format or protocol, and the lemmas about that specification are the
main results.

| files | source | what is proved |
|---|---|---|
| `H264StartCode`, `H264Payload`, `H264Run`, `H264Codec` | `h264.c`, `avcodec.c` | the word-at-a-time start code scan equals the naive one; frames survive packets and back; whole runs of frames reach the decoder |
| `BfcpAttr`, `BfcpEncoder`, `BfcpDecoder`, `BfcpRoundTrip`, `BfcpList`, `BfcpLayout` | `bfcp/attr.c` | encoding and decoding of nested attributes, alone and in lists; their bytes by the numbers of RFC 4582 |
| `BfcpMessage`, `BfcpConnection` | `bfcp/hdr.c`, `bfcp/msg.c`, `bfcp/sock.c` | messages, and their reassembly from TCP segments |
| `BfcpTransactions` | `bfcp/req.c` | transaction identifiers and response handlers over whole runs |
| `IcyStream` | `rst.c` | the ICY demultiplexer does not depend on the segmentation |
| `CeltFraming`, `Vp8Payload`, `Vp8Codec` | `celt.c`, `vpx.c` | payload framing |
| `NatCountdown`, `Ice`, `Call`, `CallSetup` | `stun.c`, `turn.c`, `ice.c`, `call.c` | media NAT traversal alone, and together with the call that waits for it |
| `LossCount`, `RtpKeepalive`, `Base64` | `stream.c`, `rtpkeep.c`, `b64.c` | sequence accounting, a timed bound, Base64 |
| `Mbuf` | `re_mbuf.h` | the buffer with a cursor that most of the above work on |

## Where the code does less than one would expect

Each of these is the exact condition, or a concrete run, in a lemma of the table below.

- H.264: a NAL unit with F = 1, or an unfragmented one of type 0 or 24..31, does not come back; a single packet may be one byte
  longer than the limit, as the size test leaves out the header; a parameter set that was fragmented does not count as a key
  frame (`H264Payload.FrameRoundTrip`, `H264Payload.NalPacketsShape`, `H264Run.NoFrameBeforeParameterSet`).
- BFCP: groups have one length byte that wraps around; the decoder looks at it only to refuse lengths it cannot
  use, so that longer groups survive unless their length is a multiple of 256. As the decoder of a group does
  not stop at the group's end, it takes fitting attributes that follow (`BfcpList.AttributeRoundTrip`, `BfcpList.ListRoundTrip`).
- BFCP over TCP: a message header that arrives in two segments closes the connection, while a body may be
  cut anywhere (`BfcpConnection.SegmentsDeliver`).
- VP8: a frame whose size is a multiple of 1024 has no marker and runs into the next one (`Vp8Payload.RunRoundTrip`).
- STUN and TURN: a repeated notification is counted again, so that the call can be released too early (`NatCountdown.ReleasedOnce`).
- ICE: after a failed check a re-INVITE does not wait for the other media (`Ice.ReinviteCondition`).
- RTP: a jump of 3000 or more restarts the counting, and what it skips is not counted as lost (`LossCount.LossAccounts`).
- Base64: the encoder's test for room asks for less than it writes unless the length is a multiple of three (`Base64.RoomTestExact`).

## Model

| member | source | states |
|---|---|---|
| `H264Payload.FrameRoundTrip` | jni/baresip/modules/avcodec/h264.c:266-330 | The packets of a frame, put back together by the receiver, give the frame from its first start code on if and only if every NAL unit has F = 0 and, unless it is fragmented, a type in 1..23; four-byte start codes survive |
| `H264Run.RunDelivers` | jni/baresip/modules/avcodec/avcodec.c:399-462 | Over every loss-free run the decoder is given exactly the frames that were sent, byte for byte, from the first one on that holds a NAL unit of at most 1025 bytes beginning with 07, 27, 47, 67, 08, 28, 48 or 68 (hex), and the receive buffer is empty after each |
| `H264StartCode.FindStartCode` | jni/baresip/modules/avcodec/h264.c:80-113 | The word-at-a-time scan returns, for every buffer, start, alignment of the buffer and byte order, what the naive scan does, and reads only bytes of the buffer |
| `BfcpList.ListRoundTrip` | jni/re-0.4.2/src/bfcp/msg.c:142-154 | Attributes encoded one after the other, with anything harmless behind, decode without error and up to their exact end; they decode to what was encoded if and only if none follows a group whose decoder would still take it |
| `BfcpList.AttributeRoundTrip` | jni/re-0.4.2/src/bfcp/attr.c:87-262 | For every attribute of every type, nested groups and lists included, decoding inverts encoding if and only if all fields fit, no group is encoded to a multiple of 256 bytes and unsent parts are empty |
| `BfcpList.EncodeThenDecode` | jni/re-0.4.2/src/bfcp/attr.c:335-512 | What decoding makes of an encoded attribute whatever bytes follow it: the value, plus the parts that a trailing attribute fills in, or an error exactly when a group wraps to length 0 or the tail is malformed |
| `BfcpMessage.MessageRoundTrip` | jni/re-0.4.2/src/bfcp/msg.c:120-165 | A message with others behind it decodes to itself and to its exact end if and only if its attributes fit the 16-bit length and none is taken by a group before it |
| `BfcpConnection.SegmentsDeliver` | jni/re-0.4.2/src/bfcp/sock.c:100-157 | Over every segmentation of a TCP stream of messages: all arrive in order and nothing is left over if and only if no segment ends inside a message header; otherwise the connection is closed |
| `BfcpTransactions.ReplyFindsRequest` | jni/re-0.4.2/src/bfcp/req.c:45-107 | Over every run with wrap-around of the identifiers: a pending request has a non-zero identifier, and a reply to it finds it if and only if no older pending request lies a multiple of 65535 requests back |
| `BfcpTransactions.EveryHandlerAccounted` | jni/re-0.4.2/src/bfcp/req.c:37-91 | Over every run the handlers of the requests that were sent are those already called and those still waited for, and no handler is both |
| `BfcpTransactions.HandlersOnce` | jni/re-0.4.2/src/bfcp/req.c:71-91 | Over every run of requests, replies and time-outs no response handler is called twice, and none while its transaction is still pending |
| `IcyStream.SegmentsParse` | jni/baresip/modules/rst/rst.c:149-199 | For every interval and every split of the body into TCP segments, audio and completed metadata equal those of a one-shot parse of the whole body, and the byte counters stay in range |
| `IcyStream.ParseMux` | jni/baresip/modules/rst/rst.c:149-199 | Demultiplexing inverts multiplexing: all the audio and all non-empty metadata blocks of an interleaved stream come back |
| `CeltFraming.SelfDelimiting` | jni/baresip/modules/celt/celt.c:336-383 | A packet with length headers needs nothing but its own size: number, lengths and bodies of any one to sixteen frames of at most 1024 bytes come back |
| `Vp8Payload.RunRoundTrip` | jni/baresip/modules/vpx/vpx.c:259-309 | Over every loss-free run the decoder is given exactly the frames that were sent if and only if no frame size is a multiple of 1024 |
| `NatCountdown.ReleasedOnce` | jni/baresip/modules/stun/stun.c:61-100 | From the start of a session, over every run with errors and repeats: establishment is reported at most once, exactly when the repeats have caught up with the media still missing an address; it comes too early if and only if some medium is missing an address and there were at least as many repeats |
| `NatCountdown.EachOnceReleases` | jni/baresip/modules/turn/turn.c:68-119 | In every interleaving of the callbacks of all sockets, each succeeding once, the counter is the number of media missing an address and establishment is reported once, with the last of them |
| `CallSetup.NothingTooEarly` | jni/baresip/src/call.c:228-267 | In every error-free run of a call with ICE: no INVITE is sent and no incoming call reported before all media are gathered, either happens at most once, and later establishments only send re-INVITEs |
| `CallSetup.ReinviteExactly` | jni/baresip/modules/ice/ice.c:464-503 | In every error-free run a re-INVITE is sent exactly when the checks of a medium end with permission to update, each medium was out of use in the first description or has been checked since, and a selected address has changed since the last re-INVITE |
| `CallSetup.InviteAfterAddresses` | jni/baresip/src/call.c:228-267 | With STUN or TURN: a waiting call sends one INVITE, and has sent it exactly when no more media miss an address than there were repeated callbacks |
| `LossCount.LossAccounts` | jni/baresip/src/stream.c:71-90 | Over every run of sequence numbers, across wrap-arounds: the losses counted equal the accepted span less the packets accepted if and only if no step of 3000 or more restarted the counting |
| `LossCount.LossesAreGaps` | jni/baresip/src/stream.c:71-90 | For packets numbered without bound, of which the receiver sees 16 bits, repeated or up to 100 late or up to 2999 ahead: the losses counted are the numbers left out |
| `RtpKeepalive.GapBound` | jni/baresip/src/rtpkeep.c:132-148 | Over every timed run consecutive transmissions are at most 30 s apart, the first comes within 20 ms, and at every moment the last one is at most 30 s ago |
| `RtpKeepalive.KeepaliveOnlyWhenSilent` | jni/baresip/src/rtpkeep.c:132-148 | A check sends a keepalive exactly when no RTP packet was sent since the check before it |
| `RtpKeepalive.BoundReached` | jni/baresip/src/rtpkeep.c:132-148 | A run in which two transmissions are exactly 30 s apart |
| `Base64.DecodeEncoded` | jni/re-0.4.2/src/base64/b64.c:97-126 | Decoding gives back every byte string that was encoded |
| `Base64.EncodeDecoded` | jni/re-0.4.2/src/base64/b64.c:97-126 | Encoding what was decoded gives back a text if and only if it is canonical: padding only in its last group and no spare bits set |
| `Base64.EncodedBits` | jni/re-0.4.2/src/base64/b64.c:26-64 | The letters carry exactly the bits of the bytes, in order, followed by the zero bits that fill the last letter (section 4 of RFC 4648) |
| `H264StartCode.FirstStartCodeUnique` | jni/baresip/modules/avcodec/h264.c:80-113 | The first start code with a byte behind it, or the end of the buffer, is the only position with that property |
| `H264StartCode.ZeroByteTestExact` | jni/baresip/modules/avcodec/h264.c:89-91 | The subtract-and-mask test on a word fires if and only if one of its four bytes is zero, for both byte orders |
| `H264StartCode.LoadAndTest` | jni/baresip/modules/avcodec/h264.c:89-91 | The test in terms of the bytes that were loaded |
| `H264StartCode.ScanWord` | jni/baresip/modules/avcodec/h264.c:89-104 | One step of the word loop finds the start code that begins in the word, or says that there is none |
| `H264Payload.PartsJoin` | jni/baresip/modules/avcodec/h264.c:302-330 | Splitting at start codes loses no byte: the parts with start codes in between are the buffer from the first one on |
| `H264Payload.NalPacketsShape` | jni/baresip/modules/avcodec/h264.c:266-299 | Every piece of a NAL unit goes out as one packet or as FU-A fragments, non-empty and of at most maxsz bytes, with S, E and marker only where they belong; a whole NAL unit as at least two fragments |
| `H264Payload.FragmentsShape` | jni/baresip/modules/avcodec/h264.c:276-297 | Start bit only on the first fragment and only where the FU header asks for it, end bit only on the last, reserved bit never, type in all; each body is non-empty and within the limit |
| `H264Payload.FragmentsBodies` | jni/baresip/modules/avcodec/h264.c:276-297 | The bodies of the fragments join to what was fragmented |
| `H264Payload.NalRebuild` | jni/baresip/modules/avcodec/h264.c:488-544 | The receiver rebuilds one NAL unit with a start code in front if and only if it has F = 0 and, unless it is fragmented, a type in 1..23 |
| `H264Payload.NalsRebuild` | jni/baresip/modules/avcodec/h264.c:488-544 | The same for any list of NAL units: the byte stream comes back if and only if each of them survives |
| `H264Run.ReceiveAllAppend` | jni/baresip/modules/avcodec/avcodec.c:399-462 | Receiving is the same in one go or in two |
| `H264Run.NoFrameBeforeParameterSet` | jni/baresip/modules/avcodec/h264.c:506-514 | Over every run of packets, lossy or hostile: no frame reaches the decoder before a payload that begins with 07, 27, 47, 67, 08, 28, 48 or 68 (hex) has been received, and only such a payload lifts the bar |
| `H264Run.FrameMarkers` | jni/baresip/modules/avcodec/h264.c:311-327 | Exactly one packet of a frame carries the marker, and it is the last one |
| `H264Run.FrameAccepted` | jni/baresip/modules/avcodec/h264.c:488-544 | The receiver rejects no packet of a frame that survives, and sees a parameter set exactly when the frame holds one small enough for a single packet |
| `H264Run.ReceiveFrame` | jni/baresip/modules/avcodec/avcodec.c:399-462 | Accepted packets of which only the last is marked: the buffer is handed over once, whole, and is empty afterwards |
| `H264Run.FrameShape` | jni/baresip/modules/avcodec/h264.c:302-330 | Markers, acceptance, parameter sets and rebuilt bytes of the packets of one frame |
| `H264Run.FrameDelivered` | jni/baresip/modules/avcodec/avcodec.c:399-462 | At the marker of a frame the buffer holds exactly that frame; it is handed over if a parameter set has been seen |
| `H264Codec.HeaderBits` | jni/baresip/modules/avcodec/h264.c:23-47 | The three fields of a NAL header are its bits, and make up the header again |
| `H264Codec.VidcodecSt.RtpSendData` | jni/baresip/modules/avcodec/h264.c:247-263 | Sends header and data as one packet with the marker given |
| `H264Codec.VidcodecSt.NalSend` | jni/baresip/modules/avcodec/h264.c:266-299 | The loop over a NAL unit in place sends exactly the packets of the payload format |
| `H264Codec.VidcodecSt.Packetize` | jni/baresip/modules/avcodec/h264.c:302-330 | The loop over start codes sends exactly the packets of the frame |
| `H264Codec.VidcodecSt.H264Decode` | jni/baresip/modules/avcodec/h264.c:488-544 | Start codes and rebuilt headers are appended to the receive buffer, or the packet is refused, as the payload format says |
| `H264Codec.VidcodecSt.FfDecode` | jni/baresip/modules/avcodec/avcodec.c:399-462 | Appends the packet, hands the frame over at a marker after a key frame, and empties the buffer at every marker; error codes included |
| `H264Codec.VidcodecSt.DecH264` | jni/baresip/modules/avcodec/avcodec.c:485-498 | The new state is that of the receiver of the payload format; a lost packet changes nothing |
| `H264Payload.NalBytes` | jni/baresip/modules/avcodec/h264.c:266-299 | The packets of a NAL unit byte for byte: itself up to 1025 bytes, otherwise FU-A packets (type 28) with its NRI and type, start bit 80 and end bit 40 (hex), and 1022 bytes each but the last |
| `H264Run.ReceiveBytes` | jni/baresip/modules/avcodec/h264.c:488-544 | What a received packet does in terms of its bytes: a refused one changes nothing even with the marker; every other adds itself or its fragment behind a start code where one is due |
| `BfcpRoundTrip.LeafTrip` | jni/re-0.4.2/src/bfcp/attr.c:110-151 | Every leaf attribute that fits its field decodes to itself and to its padded end, whatever follows |
| `BfcpRoundTrip.PartyTrip` | jni/re-0.4.2/src/bfcp/attr.c:441-472 | A party group: its parts, or those of the attributes behind it where a part was not sent |
| `BfcpRoundTrip.RequestTrip` | jni/re-0.4.2/src/bfcp/attr.c:474-490 | A request group, likewise |
| `BfcpRoundTrip.RequestsTrip` | jni/re-0.4.2/src/bfcp/attr.c:265-314 | The list of floor request statuses: as many elements as were encoded come back, or an error exactly when one of them wraps to length 0; nested types are never mistaken for a sibling |
| `BfcpRoundTrip.InfoTrip` | jni/re-0.4.2/src/bfcp/attr.c:450-463 | Floor request information with any number of statuses and any optional parts |
| `BfcpList.DecodedFits` | jni/re-0.4.2/src/bfcp/attr.c:335-512 | Whatever bytes an attribute was decoded from, its value fits the fields of the format |
| `BfcpList.AttributeLayout` | jni/re-0.4.2/src/bfcp/attr.c:246-258 | Type, mandatory bit and length of the header; a group counts its padding and a leaf does not; whole 4-byte words with zero padding (section 5.2 of RFC 4582) |
| `BfcpLayout.LeafBodies` | jni/re-0.4.2/src/bfcp/attr.c:110-151 | What each type without parts carries, by the number of the type, with big-endian numbers and shifted fields |
| `BfcpLayout.PartyBodyIs` | jni/re-0.4.2/src/bfcp/attr.c:154-165 | Beneficiary (14) and requested-by information (16) are a number, a name (12) and a URI (13) |
| `BfcpLayout.RequestBodyIs` | jni/re-0.4.2/src/bfcp/attr.c:212-236 | Floor request status (17) and overall request status (18) are a number, a status (5) unless it is 0, and a text (9) |
| `BfcpLayout.InfoBodyIs` | jni/re-0.4.2/src/bfcp/attr.c:167-197 | Floor request information (15) is a number and, in this order, types 18, 17 any number of times, 14, 16, 4 and 8, of which only 4 is always there |
| `BfcpLayout.LeafDecodes` | jni/re-0.4.2/src/bfcp/attr.c:344-411 | Which bytes of a type without parts decode, and how many of them are taken, for all bytes |
| `BfcpLayout.PayloadMeans` | jni/re-0.4.2/src/bfcp/attr.c:358-437 | What each payload means, also one that the encoder never writes: surplus bits are ignored and a text ends before its first NUL |
| `BfcpLayout.GroupNeedsNumber` | jni/re-0.4.2/src/bfcp/attr.c:439-490 | A group that decodes has room for its number, which is where its value has it from |
| `BfcpLayout.LoneByte` | jni/re-0.4.2/src/bfcp/attr.c:265-332 | A byte on its own ends a list of statuses but is a malformed part when it has the type of one |
| `BfcpLayout.OddDecodes` | jni/re-0.4.2/src/bfcp/attr.c:492-505 | An attribute of an unknown type is skipped with its payload and padding, whatever follows |
| `BfcpLayout.UnknownSkipped` | jni/re-0.4.2/src/bfcp/msg.c:142-154 | Attributes of unknown types anywhere in a message keep none of the others from being decoded |
| `BfcpAttr.Decode` | jni/re-0.4.2/src/bfcp/attr.c:335-512 | Decoding ends on every byte string; a success takes at least the two header bytes, stays in the buffer, and has the type that the first byte says |
| `BfcpEncoder.AttrEncode` | jni/re-0.4.2/src/bfcp/attr.c:87-262 | Encoding in place, header patched in afterwards, appends the format's bytes even where the cursor is past the end; it fails exactly for an unknown type |
| `BfcpEncoder.EncodeRequestList` | jni/re-0.4.2/src/bfcp/attr.c:167-197 | The loop over a list appends the encodings of all its elements in order |
| `BfcpDecoder.AttrDecode` | jni/re-0.4.2/src/bfcp/attr.c:335-512 | Decoding in place ends on every buffer and arrives at the value and position that the format gives; the position never goes back or past the end |
| `BfcpDecoder.Decv` | jni/re-0.4.2/src/bfcp/attr.c:265-314 | The growing array holds the elements of the format in order |
| `BfcpMessage.HeaderTrip` | jni/re-0.4.2/src/bfcp/hdr.c:16-57 | The header comes back, or the message is waited for exactly when its attributes are not all there |
| `BfcpMessage.HeaderLayout` | jni/re-0.4.2/src/bfcp/hdr.c:16-29 | The twelve bytes in front of a message: version 1, primitive, words, conference, transaction and user, big-endian (section 5.1 of RFC 4582) |
| `BfcpMessage.HeaderErrors` | jni/re-0.4.2/src/bfcp/hdr.c:32-57 | Bytes are no header if and only if there are fewer than twelve or the version is not 1, and an incomplete message exactly when words are missing |
| `BfcpMessage.CutShort` | jni/re-0.4.2/src/bfcp/msg.c:142-154 | A length field below the true length never gives all attributes back |
| `BfcpMessage.PastEnd` | jni/re-0.4.2/src/bfcp/msg.c:142-154 | Once an attribute has reached past the end of the message, the unsigned difference never lets the loop end with success |
| `BfcpMessage.PartOfMessage` | jni/re-0.4.2/src/bfcp/hdr.c:36-54 | Part of a message is an error as long as the header is not complete, and incomplete from then on |
| `BfcpMessage.HdrDecode` | jni/re-0.4.2/src/bfcp/hdr.c:32-57 | Reading the header in place agrees with the format, errors included |
| `BfcpMessage.MsgDecode` | jni/re-0.4.2/src/bfcp/msg.c:120-165 | Decoding a message in place agrees with the format; an incomplete one leaves the cursor at its start |
| `BfcpMessage.MsgVencode` | jni/re-0.4.2/src/bfcp/msg.c:45-80 | Leaving room, encoding the attributes that are given and patching the header in appends the message; it fails exactly for an unknown type |
| `BfcpConnection.BfcpConn.TcpRecv` | jni/re-0.4.2/src/bfcp/sock.c:100-157 | One segment: buffered bytes, delivered messages and the fate of the connection are those of the stream model |
| `BfcpConnection.SegmentsFrom` | jni/re-0.4.2/src/bfcp/sock.c:100-157 | From any point of the stream on, the state after every segment is the incomplete message and the messages before it, unless a header was cut in two |
| `BfcpConnection.CutHeader` | jni/re-0.4.2/src/bfcp/hdr.c:36-37 | A header in two segments ends the connection |
| `BfcpTransactions.CallsTellTheTruth` | jni/re-0.4.2/src/bfcp/req.c:37-91 | Over every run each call of a handler was added by exactly one event: with error 0 by a reply with the identifier of its transaction, with error 110 by the end of its time |
| `BfcpTransactions.SameTid` | jni/re-0.4.2/src/bfcp/req.c:57-59 | Identifiers are never 0, and two requests share one exactly when they are a multiple of 65535 apart |
| `BfcpTransactions.RunInv` | jni/re-0.4.2/src/bfcp/req.c:45-107 | Over every run identifiers, numbers and order of the pending transactions stay consistent |
| `BfcpTransactions.ReplyFindsRecent` | jni/re-0.4.2/src/bfcp/req.c:94-107 | While the pending requests lie fewer than 65535 requests apart, each reply finds its own |
| `BfcpTransactions.NoHandlerForgotten` | jni/re-0.4.2/src/bfcp/req.c:45-91 | From any state on, handlers called and handlers waited for grow by exactly those of the requests sent |
| `BfcpTransactions.BfcpSock.CtransNew` | jni/re-0.4.2/src/bfcp/req.c:45-68 | A new transaction has the next identifier and is last in the list |
| `BfcpTransactions.BfcpSock.CtransCompleted` | jni/re-0.4.2/src/bfcp/req.c:71-91 | The transaction leaves the list, its handler is called if there is one, and cannot be called again |
| `BfcpTransactions.BfcpSock.CtransFind` | jni/re-0.4.2/src/bfcp/req.c:94-107 | The first pending transaction with the identifier, or none |
| `BfcpTransactions.BfcpSock.BfcpRequest` | jni/re-0.4.2/src/bfcp/req.c:125-171 | A request that cannot be encoded or sent leaves no transaction and calls no handler |
| `BfcpTransactions.BfcpSock.RecvReply` | jni/re-0.4.2/src/bfcp/sock.c:137-144 | A message completes the transaction that it belongs to, if there is one |
| `IcyStream.RunInv` | jni/baresip/modules/rst/rst.c:149-199 | After every byte either no metadata is due and the audio counter is within the interval, or the metadata counter is below a size of at most 4080 |
| `IcyStream.SegmentationIrrelevant` | jni/baresip/modules/rst/rst.c:149-199 | The state after any segments is that after their bytes in one |
| `IcyStream.RunParses` | jni/baresip/modules/rst/rst.c:149-199 | The byte-wise receiver delivers what the block-wise parse does, from any block boundary on |
| `IcyStream.Rst.Recv` | jni/baresip/modules/rst/rst.c:149-199 | One segment in place: each round consumes at least a byte, all are consumed, and the state is that of the byte-wise receiver |
| `IcyStream.Rst.StartBody` | jni/baresip/modules/rst/rst.c:125-134 | The body is read only with an interval above 0 |
| `IcyStream.Rst.Reconnect` | jni/baresip/modules/rst/rst.c:57-74 | A new connection forgets counters and unfinished metadata |
| `CeltFraming.LengthTrip` | jni/baresip/modules/celt/celt.c:361-367 | A length below 65536 comes back from its run of 0xff bytes, whatever follows |
| `CeltFraming.LengthsTrip` | jni/baresip/modules/celt/celt.c:355-373 | The stop test fires on the last length and never before, so that the number of frames is recovered |
| `CeltFraming.LowOverheadAgrees` | jni/baresip/modules/celt/celt.c:345-350 | Without length headers the frames come back if and only if both sides agree on all their sizes |
| `CeltFraming.BodiesContiguous` | jni/baresip/modules/celt/celt.c:300-332 | Whatever a packet holds, the frames given to the codec are consecutive bytes of it |
| `CeltFraming.Encode` | jni/baresip/modules/celt/celt.c:248-297 | All frames are appended, or the first sixteen where there are more; no frame at all is an error |
| `CeltFraming.Decode` | jni/baresip/modules/celt/celt.c:336-383 | The lengths read and the frames given to the codec are those of the format, with EPROTO exactly when a header or a body is cut off |
| `CeltFraming.LengthBytes` | jni/baresip/modules/celt/celt.c:278-288 | A length is written as one byte of 255 for each full 255 and a last byte with the remainder |
| `CeltFraming.PacketLayout` | jni/baresip/modules/celt/celt.c:278-294 | The length of each frame stands in its place at the front, and the frames follow |
| `CeltFraming.LengthWraps` | jni/baresip/modules/celt/celt.c:361-367 | Any run of 255 and a last byte is read as their sum in 16 bits |
| `CeltFraming.StopTest` | jni/baresip/modules/celt/celt.c:355-373 | Of any bytes, lengths are read up to the first one at which their sum, in 16 bits, reaches the bytes left, or up to sixteen |
| `CeltFraming.OnlyEmptyIsCutOff` | jni/baresip/modules/celt/celt.c:355-359 | The length headers are found cut off only in an empty packet |
| `Vp8Payload.PicIdTrip` | jni/baresip/modules/vpx/vpx.c:67-106 | Reading inverts writing for every picture identifier below 2^56, in at most eight bytes |
| `Vp8Payload.DescTrip` | jni/baresip/modules/vpx/vpx.c:109-144 | Reading a payload descriptor inverts writing it, whatever follows |
| `Vp8Payload.FrameBytes` | jni/baresip/modules/vpx/vpx.c:259-309 | The packets of a frame byte for byte: one for each 1024 bytes begun; fragment information 0 in a small frame, otherwise 1 first, 3 on the last if and only if the size is not a multiple of 1024, and 2 between |
| `Vp8Payload.PicIdLayout` | jni/baresip/modules/vpx/vpx.c:67-84 | An identifier is written in base 128, most significant first, the top bit on all bytes but the last, and no byte too many |
| `Vp8Payload.ReadsBase128` | jni/baresip/modules/vpx/vpx.c:87-106 | Any terminated bytes are read as the number they make up in base 128, in 64 bits |
| `Vp8Payload.DroppedExactly` | jni/baresip/modules/vpx/vpx.c:381-396 | A packet is dropped, marker and all, if and only if its descriptor is cut off |
| `Vp8Payload.FrameShape` | jni/baresip/modules/vpx/vpx.c:259-309 | Fragment information, begin bit and marker of every packet of a frame: no packet but the last is marked, and that one exactly when the size is not a multiple of 1024 |
| `Vp8Payload.ReceivePackets` | jni/baresip/modules/vpx/vpx.c:381-431 | The packets of a frame add exactly its bytes to the receive buffer, which is handed over at a marker |
| `Vp8Payload.RunMerges` | jni/baresip/modules/vpx/vpx.c:381-431 | Over every loss-free run: frames up to the next marked one reach the decoder as one |
| `Vp8Codec.PicIdEnc` | jni/baresip/modules/vpx/vpx.c:67-84 | The loop from the end of an eight-byte buffer writes the bytes of the format |
| `Vp8Codec.PicIdDec` | jni/baresip/modules/vpx/vpx.c:87-106 | Reading in place, in 64 bits, agrees with the format; a cut-off identifier is an error |
| `Vp8Codec.Vp8DescEnc` | jni/baresip/modules/vpx/vpx.c:109-123 | Writing a descriptor appends the bytes of the format |
| `Vp8Codec.Vp8DescDec` | jni/baresip/modules/vpx/vpx.c:126-144 | Reading a descriptor agrees with the format, errors included |
| `Vp8Codec.VidcodecSt.Packetize` | jni/baresip/modules/vpx/vpx.c:259-309 | The loop over a frame sends exactly its packets |
| `Vp8Codec.VidcodecSt.Enc` | jni/baresip/modules/vpx/vpx.c:352-372 | Each frame goes out under the next picture identifier |
| `Vp8Codec.VidcodecSt.Dec` | jni/baresip/modules/vpx/vpx.c:381-431 | The new state is that of the receiver model; an empty packet changes nothing |
| `NatCountdown.RunCounts` | jni/baresip/modules/turn/turn.c:68-119 | Over every run, with errors and repeats: the counter is the media missing an address less the repeats, and each time it comes to 0 is one report |
| `NatCountdown.AddressIsLatest` | jni/baresip/modules/stun/stun.c:61-100 | Over every run a socket has the address that came last for it |
| `NatCountdown.FailuresReported` | jni/baresip/modules/turn/turn.c:68-119 | Over every run each failure is reported as it came, in its turn and once |
| `NatCountdown.NoRepeats` | jni/baresip/modules/stun/stun.c:61-100 | If no two callbacks are for the same socket, none is a repeat |
| `NatCountdown.RepeatReleasesEarly` | jni/baresip/modules/stun/stun.c:61-79 | A run of two callbacks for one of two media that reports the establishment while the other has no address |
| `NatCountdown.MnatMedia.Handler1` | jni/baresip/modules/turn/turn.c:68-92 | The callback of the RTP socket: address, counter and report as in the step model, error paths included |
| `NatCountdown.MnatMedia.Handler2` | jni/baresip/modules/turn/turn.c:95-119 | The callback of the RTCP socket, likewise |
| `NatCountdown.MnatSess.MediaAlloc` | jni/baresip/modules/turn/turn.c:211-243 | A new medium without addresses joins the others, and one more report is waited for |
| `Ice.FlagMeans` | jni/baresip/modules/ice/ice.c:464-503 | Over every run the flag says that a selected address has changed since the last re-INVITE |
| `Ice.ReinviteCondition` | jni/baresip/modules/ice/ice.c:464-503 | The exact condition of a re-INVITE, errors included: permission, a changed address, and either each medium out of use or checked with success since the start, or a failure of this one |
| `Ice.CompleteMeans` | jni/baresip/modules/ice/ice.c:464-552 | Over every run a medium is complete if and only if the starting description had it out of use or a check of it succeeded since |
| `Ice.LocalAddrIsLatest` | jni/baresip/modules/ice/ice.c:385-434 | Over every run a socket has the local address that gathering, a successful check or a later description last gave for it |
| `Ice.GatherFailuresReported` | jni/baresip/modules/ice/ice.c:437-461 | Over every run each failure to gather is reported as it came, and no other failure is |
| `Ice.FailureReinvitesEarly` | jni/baresip/modules/ice/ice.c:477-500 | A run in which a failed check sends a re-INVITE while another medium is not complete |
| `Ice.MnatMedia.RefreshLaddr` | jni/baresip/modules/ice/ice.c:385-434 | Local addresses are taken over where the library has some, and a change is reported exactly when one differs |
| `Ice.MnatMedia.GatherHandler` | jni/baresip/modules/ice/ice.c:437-461 | An error is reported as it is; otherwise the default candidates become the local addresses and only the last medium to gather reports |
| `Ice.MnatMedia.ConncheckHandler` | jni/baresip/modules/ice/ice.c:464-503 | A success completes the medium and takes over its selected addresses; the report is held back until all media are complete, while a failure does not wait |
| `Ice.MnatSess.IceStart` | jni/baresip/modules/ice/ice.c:506-552 | The first description from the peer starts the checks of the media in use, a later one refreshes their addresses |
| `Ice.MnatSess.CheckComplete` | jni/baresip/modules/ice/ice.c:489-494 | The loop over the media stops early exactly when the checks of some medium are not done |
| `Ice.MnatSess.MediaAlloc` | jni/baresip/modules/ice/ice.c:555-599 | A new medium without addresses, not yet complete, joins the others, and one more report is waited for |
| `CallSetup.RunInv` | jni/baresip/src/call.c:228-267 | The invariant of call and ICE session together over every error-free run |
| `CallSetup.ReleasedWhenGathered` | jni/baresip/src/call.c:515-542 | In a run that begins with connecting or accepting and in which nobody hangs up, the INVITE has been sent (or the call reported) exactly when all media are gathered |
| `CallSetup.HungUpStaysSilent` | jni/baresip/src/call.c:570-597 | A call that is hung up while candidates are gathered never sends or reports anything |
| `CallSetup.CompleteMeans` | jni/baresip/modules/ice/ice.c:506-552 | The same flag in runs of call and ICE together, in terms of descriptions and checks |
| `CallSetup.StateIsLatest` | jni/baresip/src/call.c:1269-1310 | Over every run the call is in the state that the last event to give it one gave it, by the SIP status codes 180 and 183 |
| `CallSetup.PlainCall` | jni/baresip/src/call.c:532-535 | In every run of a call without media NAT traversal the INVITE is sent, or the call reported, there and then and once |
| `CallSetup.ToldActs` | jni/baresip/src/call.c:228-267 | Over every sequence of reports, failures among them, a call that was begun does exactly one thing for each, the first success being the one that lets it go |
| `Call.Call.MnatHandler` | jni/baresip/src/call.c:228-267 | What a report of the NAT module makes the call do, per state and by whether it was waited for |
| `Call.Call.CallConnect` | jni/baresip/src/call.c:515-542 | Without a NAT module the INVITE goes out at once, with one it waits |
| `Call.Call.CallAccept` | jni/baresip/src/call.c:1215-1266 | Without a NAT module the call is reported at once, with one it waits |
| `LossCount.ByDistance` | jni/baresip/src/stream.c:71-90 | Every packet is taken for what its distance in unbounded numbers says: repeat at 0, after a gap up to 2999, a fresh start up to 65435 ahead, late from 1 to 100 behind |
| `LossCount.NearRun` | jni/baresip/src/stream.c:71-90 | From any accepted packet on: last number, packets accepted and losses follow the unbounded numbers |
| `LossCount.RunBalanced` | jni/baresip/src/stream.c:71-90 | Over every run: losses and numbers skipped by restarts make up the difference, and each restart skips at least 2999 |
| `LossCount.Stream.LostCalc` | jni/baresip/src/stream.c:71-90 | The result and the last accepted number, per distance modulo 2^16 |
| `LossCount.Stream.RtpRecv` | jni/baresip/src/stream.c:108-168 | Statistics, source and what the handler hears of one packet |
| `RtpKeepalive.Keeper.Timeout` | jni/baresip/src/rtpkeep.c:132-148 | A check re-arms the timer; it clears the flag or sends a keepalive, and never does both |
| `RtpKeepalive.Keeper.Refresh` | jni/baresip/src/rtpkeep.c:183-190 | An RTP packet sets flag and timestamp |
| `Base64.LetterRows` | jni/re-0.4.2/src/base64/b64.c:13-16 | The letters in order of the character codes of section 4 of RFC 4648 |
| `Base64.EncodedLength` | jni/re-0.4.2/src/base64/b64.c:26-64 | The text has 4 * ceil(n / 3) characters |
| `Base64.EncodedCanonical` | jni/re-0.4.2/src/base64/b64.c:26-64 | What the encoder writes is canonical |
| `Base64.RoomTestExact` | jni/re-0.4.2/src/base64/b64.c:34-35 | The encoder's test for room demands enough if and only if the length is a multiple of three |
| `Base64.Encode` | jni/re-0.4.2/src/base64/b64.c:26-64 | The loop over triples writes the text and nothing else, or refuses for lack of room |
| `Base64.Decode` | jni/re-0.4.2/src/base64/b64.c:97-126 | The loop over groups of four, with padding marked in bits 24 and 30, writes the bytes within the size announced, or refuses for lack of room |
| `Memory.Mbuf.WriteMem` | jni/re-0.4.2/include/re_mbuf.h:32-167 | Writing at the cursor overwrites, appends or leaves a hole, and raises the end when passed |
| `Memory.Mbuf.ReadU8` | jni/re-0.4.2/include/re_mbuf.h:32-167 | Reading advances the cursor and never passes the end |

## Left out

- Foreign code: libavcodec, libvpx, CELT, x264 (with its own path in `enc_x264`), SIP and SDP, ICE, STUN and TURN libraries, sockets,
  timers and DNS. Encoded frames are arbitrary byte strings; callbacks are events; return values are parameters.
- `mbuf.c` is not part of this model. Reading an exhausted buffer gives 0, writing past the end leaves bytes unspecified in between,
  and `mbuf_strdup` gives the C string up to the first NUL; elements that `decv` adds to an array are taken to be zeroed, which
  `mem_realloc` does not promise.
- Allocation failures and reference counting; what is freed is no longer looked at.
- Handlers that are called (packets to send, frames to decode, responses, establishment) are logs; errors that they return
  are not modelled.
- H264Codec.VidcodecSt.Packetize: requires that no two start codes touch, as the source takes the byte after a start code for a header
  without looking, and touching codes make its size wrap around; the enqueue handler is not set.
- `fu_hdr_encode`, which writes the start bit twice and is not used; SDP parameters of H.264; H.263 and `general_packetize`,
  which are weaker forms of the VP8 packetizer.
- `ffdecode` without an attached frame and the picture that comes out of it; only buffering, flushing and result are modelled.
- BfcpEncoder.AttrEncode: a value is always of the type its attribute stands for, or of no known type; a C caller can pass anything.
- BfcpMessage.MsgVencode: messages are appended at the end of a buffer, as all callers do.
- BfcpConnection.SegmentsDeliver: segments are not empty, and the attributes of each message are separate and fit; sending, TLS and connection set-up are left out.
- BfcpTransactions: the transport and its queue; whether sending succeeded is a parameter, and a reply is an event with its identifier.
- IcyStream: starts after the HTTP header, whose parsing is `re_regex`; the metadata buffer is always allocated.
- CeltFraming.Encode: the codec never fails and gives at most the 1024 bytes that it has room for.
- CeltFraming.Decode: lost packets without a buffer are left out; the source reads them as buffers in any case.
- Vp8Codec.PicIdEnc: identifiers stay below 2^56, as the source's buffer has eight bytes for them.
- NatCountdown: media without an RTP socket never hear of an address; servers are found at once, and channel set-up of TURN is left out.
- Ice: full mode only; in lite mode gathering can be reported before the medium is counted. Errors of `icem_conncheck_start` and the writing of SDP attributes are left out.
- CallSetup: the peer answers only an INVITE that was sent, the user only a call that was reported; connectivity checks run only once ICE was
  started; candidates of a medium are gathered once and without error. Failures are covered by `CallSetup.ToldActs`, for any sequence of reports.
- Call: transfer, hold, DTMF, authentication and the media streams; `acts` records only what depends on media NAT traversal.
- LossCount.Stream.RtpRecv: without a jitter buffer; with one the sequence number comes from the buffered packet.
- RtpKeepalive: time stands still between events, sending always succeeds, and `timeout` runs exactly when it is due; the other
  keepalive methods and the payload types are left out.
- Base64.Encode: requires room for what is written where the source's own test is weaker; input and output do not overlap, and sizes do not overflow.
- Base64.Decode: the length of the text is a multiple of four, as the source reads four characters at a time.
- Audio formats L16 and G.711, registries, menus and configuration, which would add only easy members.
