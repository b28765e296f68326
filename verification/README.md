# Verified model of the camera services

This project models, in Dafny 4.11, two parts of the repository and proves what they promise.

**The byte codecs of `http_file/mongoose.cpp`.** Encoders and decoders that work in place on a growing
buffer: HTTP chunked reassembly, WebSocket framing, CoAP messages, MQTT packets, base64, streaming
SHA-1 and dot-segment removal. For each there is a function on octet sequences that says what is
computed, a method on arrays and buffers that works as the source does (cursors, `memmove`, carry
arithmetic, state kept between calls) and is proved equal to the function, and theorems about the
function: round trips, independence of how the input was cut, agreement with the published algorithm.

**The `init` daemon.** The service supervisor as a transition system and as the daemon runs it; the
action queue and the interpreter that runs one command at a time; property triggers; the in-place
tokenizer of the configuration file; the property store, its concurrent readers and its copy on disk.

| files | what they hold |
|---|---|
| `Sequences`, `Bytes`, `Text`, `Mbuf` | concatenation, octets and byte order, block moves, string search, the growable buffer |
| `Chunked`, `HttpMessage`, `WebSocket`, `Mqtt`, `MqttSession`, `CoapCodec`, `Coap` | the protocols |
| `Base64`, `Sha1`, `Sha1Block`, `UriPath` | the algorithms |
| `Supervisor`, `Commands`, `Supervision`, `Scheduling`, `Criticality`, `Services` | services: transitions, what each event does, invariants, restarts, the critical option, the running daemon |
| `ActionQueue`, `ActionRequeue`, `Triggers` | actions: interpreter, intrusive queue, actions queued while they wait, property triggers |
| `Lexer`, `Tokenizer` | configuration text: tokens as a function, and in place |
| `Properties`, `PropertyArea`, `SeqLock`, `Persistence` | properties: the map, the table, readers, the disk |

`dafny verify dfyconfig.toml` checks everything.

Conventions: an octet is an `int` from 0 to 255, and the C operators on 8, 16 and 32 bits are written
with `/`, `%` and explicit bounds. What the environment decides (received bytes, fork results, clock
readings, directory order, the outcome of each write to disk, random mask keys, what an overflowing int shift
gives) is a parameter, so every theorem holds for all of its values. Memory allocation succeeds.

## Where the code differs from what is documented

- MQTT: a publish with QoS above 0 writes the topic in front of the message id, as section 3.3.2 of MQTT 3.1.1
  has it, while the parser reads the message id first; such a packet is recovered exactly when `Mqtt.Survives` holds.
- MQTT: an incomplete packet is taken for complete if only its last octet is missing, and if it is cut inside its length
  octets so that those at hand and the octet behind the buffer count zero: 2 octets of 131 can be enough
  (`Mqtt.ParsePrefix`, `Mqtt.CutAcceptedIff`, `Mqtt.CutAcceptedExample`).
- MQTT: a packet whose remaining length is 2^31 or more is recognised or not as the overflow of an int decides (`Mqtt.LengthLimit`).
- MQTT: a connect packet has one octet for its remaining length, added up modulo 256 and without the continuation bit;
  it is recognised exactly if its remaining length is below 128 (`MqttSession.HandshakeRoundTrip`).
- HTTP: a message that gives a length and is sent in chunks is handed over when so many octets are there, without a
  whole chunk with its size lines as the body (`HttpMessage.ChunksAndLength`).
- HTTP: with the zero chunk, as many octets as the kept body and what follows it have are taken off the front of the
  buffer, the header included, where header and body should go. What is left then is what follows the message, with
  nothing of it counted as reassembled, exactly if that is as long as the header and nothing of the body was kept
  (`HttpMessage.MessageLeft`). After a message alone in the buffer part of it stays (`HttpMessage.StrandedExample`), or,
  if it kept nothing, its header, under which later chunks become the body of another message
  (`HttpMessage.LateChunks`, `HttpMessage.LateChunkExample`).
- The action queue: `init/readme.txt` (lines 30-34) says that an action already on the queue is not added again; the code
  adds it always, and the actions behind it are never run. If it was the first, it alone runs from then on, whatever is
  added; if it was the last of several, it runs again and again until another action is added
  (`ActionQueue.AddTail`, `ActionRequeue.RunQueue`, `ActionRequeue.QueuedAgain`, `ActionRequeue.Released`).
- The tokenizer: `init/readme.txt` promises C escapes; the letter of an escape is read again as input, so a word written
  with escapes comes back only under the condition of `Lexer.EscapeRoundTrip`. A backslash in front of a carriage return
  and a newline, which the source calls a line continuation, ends the line (`Lexer.ReturnEndsLine`).
- Property triggers at start-up split a trigger at its first `=`, those of a single change compare
  prefixes; the two disagree for some stores with `=` in a name (`Triggers.AgreeOnAll`).
- CoAP: the composer accepts option numbers and lengths up to 65804, the parser reads them back modulo 65536
  (`CoapCodec.RoundTrip`).
- Persistent properties: a set whose write fails is kept in memory all the same; when memory and disk then agree is
  stated by `Persistence.DiskAgrees`.
- `init/readme.txt` promises recovery mode for a critical service that keeps crashing; no run depends on that
  option at all (`Criticality.RunIgnoresCritical`).

## Model

| member | source | states |
|---|---|---|
| MbufModel.Mbuf.Resize | http_file/mongoose.cpp:1130-1143 | resizing keeps the content; a size below the content is ignored |
| MbufModel.Mbuf.Insert | http_file/mongoose.cpp:1152-1184 | data appears at the offset, what was behind it moves up, grown or not |
| MbufModel.Mbuf.InsertGap | http_file/mongoose.cpp:1152-1184 | room of a given size opens at the offset, the octets around it kept |
| MbufModel.Mbuf.Append | http_file/mongoose.cpp:1187-1190 | data appears behind the content |
| MbufModel.Mbuf.Remove | http_file/mongoose.cpp:1193-1199 | the first n octets go, the rest moves down; more than there is removes nothing |
| Chunked.ScanStable | http_file/mongoose.cpp:5680-5710 | a chunk that was recognised is recognised the same however many octets follow |
| Chunked.ReassembleAppend | http_file/mongoose.cpp:5713-5766 | reassembling a stream at once equals reassembling a prefix and going on with its unparsed end |
| Chunked.SplitInvariance | http_file/mongoose.cpp:5713-5766 | over the calls made while the header is in front: for every way of cutting a stream into arrivals and every choice of deletions, what was handed out and kept is the chunk data in order and the rest is the unparsed end |
| Chunked.DoneStays | http_file/mongoose.cpp:5722-5737 | one pass over the buffer: octets behind the zero chunk do not change the body, they only lengthen the rest |
| Chunked.ScanEncoded | http_file/mongoose.cpp:6767-6775 | a sent chunk is recognised with its exact extent, whatever follows |
| Chunked.ScanPartial | http_file/mongoose.cpp:5680-5710 | no strict prefix of a sent chunk is taken for a chunk |
| Chunked.ScanReads | http_file/mongoose.cpp:5680-5710 | for every text of hexadecimal digits of either case, leading zeros included, that stands for the number of data octets: that text, a line end, the data and a line end are a chunk of exactly that extent, whatever follows |
| Chunked.ScanFinds | http_file/mongoose.cpp:5680-5710 | and whatever is recognised as a chunk has that form |
| Chunked.SizeLine | http_file/mongoose.cpp:6767-6775 | the size line sent is the number in upper-case hexadecimal digits without leading zeros |
| Chunked.ReassembleClosed | http_file/mongoose.cpp:5713-5766 | sent chunks closed by an empty one reassemble to the concatenated data and are reported as complete |
| Chunked.SentIsReceived | http_file/mongoose.cpp:6767-6775 | sender, any cutting into arrivals, receiver: the data sent, in order, and the partial chunk left over |
| Chunked.SendChunk | http_file/mongoose.cpp:6767-6775 | appends the hexadecimal size line, the data and the line end behind what was queued |
| Chunked.ParseChunk | http_file/mongoose.cpp:5680-5710 | the cursor loop with the wrapping size_t accumulator finds exactly the chunk the scan describes |
| Chunked.CollapseChunks | http_file/mongoose.cpp:5722-5737 | chunk data is moved down behind the body before any unread octet is overwritten; unread octets stay |
| Chunked.Compact | http_file/mongoose.cpp:5722-5744 | after the collapse the unparsed end lies directly behind the body and the freed octets are zero |
| HttpMessage.HeaderFound | http_file/mongoose.cpp:5472-5490 | a header is found where it ends, whatever follows, and in no strict prefix of it |
| HttpMessage.RequestLenIs | http_file/mongoose.cpp:5472-5490 | the length is n exactly if the first n octets end in an empty line, LF LF or LF CR LF, no fewer do, and all are allowed; it is -1 exactly if an octet that is not allowed comes first, 0 exactly if neither comes |
| HttpMessage.LinesAreHeader | http_file/mongoose.cpp:5472-5490 | non-empty lines of printable octets joined and closed by CR LF, and an empty one, are a header of exactly that length, whatever follows |
| HttpMessage.GetRequestLen | http_file/mongoose.cpp:5472-5490 | the search loop: the length, 0 for a header that is not all there, -1 for a malformed one |
| HttpMessage.Delivers | http_file/mongoose.cpp:5893-6023 | header and chunks cut anywhere into arrivals, any deletions: everything in its place up to the zero chunk, and with it the request handed over with the body kept and the front taken off |
| HttpMessage.MessageLeft | http_file/mongoose.cpp:5760-6021 | what the buffer holds after the zero chunk, and when the connection is ready for what follows: if and only if that is as long as the header and nothing of the body was kept |
| HttpMessage.MessageIsReceived | http_file/mongoose.cpp:5893-6023 | a message sent in chunks and cut anywhere: one request, the data deleted and kept is the data sent, and as many octets as the header has stay in the buffer |
| HttpMessage.LateChunks | http_file/mongoose.cpp:5893-5909 | with the header still in front, the chunks of all later arrivals are put into a body again |
| HttpMessage.LeftAlone | http_file/mongoose.cpp:5897-5923 | as long as no header is found in front, arrivals only lengthen the buffer |
| HttpMessage.LateChunkExample | http_file/mongoose.cpp:5893-6023 | an empty message, and a chunk of one octet in a later arrival: that octet becomes a body |
| HttpMessage.StrandedExample | http_file/mongoose.cpp:5893-6023 | a message of letters no shorter than its header, and a chunk later: the end of the body stays in front and nothing is made of the chunk |
| HttpMessage.WholeIsAwaited | http_file/mongoose.cpp:5893-6023 | a message with its length in its header, cut anywhere: before the last octet of the body is there, what arrives is only kept |
| HttpMessage.WholeIsReceived | http_file/mongoose.cpp:5893-6023 | with it there is one request, its body is exactly the octets sent, and what arrived behind them is left |
| HttpMessage.ChunksAndLength | http_file/mongoose.cpp:5893-6023 | a header that gives a length and chunks: what is handed over, and when, with and without a whole chunk |
| HttpMessage.Refuses | http_file/mongoose.cpp:5921-5926 | without a header a buffer of 8192 octets closes the connection, an octet that is not text or a header that cannot be parsed does so at once; nothing is handed over |
| HttpMessage.RefusedStays | http_file/mongoose.cpp:5921-5926 | and nothing that arrives afterwards is looked at |
| HttpMessage.HttpConnection.HandleChunked | http_file/mongoose.cpp:5713-5766 | one call moves the session on by exactly the complete chunks, one event with the whole body so far, delete flag or not, and the length the message is given with the zero chunk |
| HttpMessage.HttpConnection.ReceiveEvent | http_file/mongoose.cpp:5893-6023 | the receive event on the buffer: header search, refusals, chunks, the failing assertion, the request event and what is removed |
| WebSocket.MaskedTwice | http_file/mongoose.cpp:9297-9303 | masking with the same key twice gives the data back |
| WebSocket.Xor8Bits | http_file/mongoose.cpp:9297-9303 | the mask operation is exclusive or of two octets, binary digit by binary digit |
| WebSocket.FrameLayout | http_file/mongoose.cpp:9141-9190 | for every buffer: the header size by the length octet and the mask bit, the payload length by the length octets, and exactly when the frame is there |
| WebSocket.FirstEvent | http_file/mongoose.cpp:9132-9190 | what is handed over of the front frame: a control frame exactly if its opcode is 8 or more, the flags octet, and each payload octet unmasked with the octet of the key in turn |
| WebSocket.SentLayout | http_file/mongoose.cpp:9260-9317 | the octets of a frame sent: final bit, opcode, mask bit, the shortest length form for lengths other than 65535, key, masked payload |
| WebSocket.ScanStable | http_file/mongoose.cpp:9141-9190 | a frame that was recognised is recognised the same with more octets behind it |
| WebSocket.ScanEncoded | http_file/mongoose.cpp:9260-9317 | every frame sent, masked or not, in any of the three length forms, is read back with its payload and flags |
| WebSocket.ScanPartial | http_file/mongoose.cpp:9141-9190 | no strict prefix of a frame is delivered |
| WebSocket.DeliverAppend | http_file/mongoose.cpp:9358-9367 | for all octets: delivering x, and then y behind what x left, is delivering both at once |
| WebSocket.SplitInvariance | http_file/mongoose.cpp:9358-9367 | for every way of cutting a stream into arrivals the events and the rest are those of the whole stream |
| WebSocket.StreamRoundTrip | http_file/mongoose.cpp:9132-9225 | a stream of frames followed by part of one delivers one event for each, in order, a data frame if its opcode is below 8 and a control frame otherwise, with the payload sent, and leaves exactly that part |
| WebSocket.SentIsReceived | http_file/mongoose.cpp:9260-9317 | sender, any cutting into arrivals, receiver: the events of the frames sent, by opcode and with their payloads, in order, and the partial frame left over |
| WebSocket.StreamDeliverable | http_file/mongoose.cpp:9141-9155 | such streams meet what the delivery loop needs: no fragment, no overflow |
| WebSocket.MaskInPlace | http_file/mongoose.cpp:9297-9303 | octets of the buffer are exchanged with their masked form, the others kept |
| WebSocket.Connection.SendFrame | http_file/mongoose.cpp:9305-9317 | the encoded frame is queued behind what was queued; a close frame asks for closing |
| WebSocket.Connection.DeliverOne | http_file/mongoose.cpp:9141-9225 | hands over and removes the front frame if it is complete, and otherwise changes nothing |
| WebSocket.Connection.Receive | http_file/mongoose.cpp:9358-9367 | the loop ends, delivers every complete frame once and leaves the rest |
| WebSocket.Connection.ReceiveData | http_file/mongoose.cpp:9358-9367 | octets that arrive are appended to the buffer and the frames they complete delivered |
| WebSocket.Connection.ReceiveArrivals | http_file/mongoose.cpp:9358-9367 | however a stream was cut, the connection ends with the events and the rest of the whole stream |
| Mqtt.LengthRoundTrip | http_file/mongoose.cpp:9921-9924 | the length octets of n read back as n, and as many octets, whatever an overflowing int shift gives, if and only if n is below 2^31 |
| Mqtt.LengthLimit | http_file/mongoose.cpp:9912-9930 | a whole packet is recognised with its length, whatever an overflow gives, if and only if its remaining length is below 2^31 |
| Mqtt.ParsePrefix | http_file/mongoose.cpp:9912-9930 | for every prefix of every packet with a remaining length below 2^31, one cut inside its length octets included, and every content of the memory behind it: the exact result, -1 or the index behind the packet with the fields read |
| Mqtt.CutAcceptedIff | http_file/mongoose.cpp:9921-9928 | a packet cut inside its length octets is accepted, whatever an overflow gives, if and only if the length is a multiple of 128 for each length octet at hand and the octet behind them counts zero |
| Mqtt.CutAcceptedExample | http_file/mongoose.cpp:9921-9928 | 2 octets of a packet of 131 are accepted as a complete one of 3 |
| Mqtt.PublishRoundTrip | http_file/mongoose.cpp:10133-10150 | a published message with a remaining length below 2^31 is parsed to itself exactly if its topic and QoS survive |
| Mqtt.PublishRecovery | http_file/mongoose.cpp:10133-10150 | a published message of any size comes back, whatever an overflow gives, if and only if its remaining length is below 2^31 and its topic and QoS survive |
| Mqtt.QosLosesTopics | http_file/mongoose.cpp:10133-10150 | above QoS 0 no C string topic of 1 to 256 characters is recovered |
| Mqtt.QosCounterexample | http_file/mongoose.cpp:10141-10145 | the topic "a" published with QoS 1 is parsed to a topic of 24832 octets and a payload behind it of 2^64 - 24831 |
| Mqtt.TopicsRoundTrip | http_file/mongoose.cpp:10172-10184 | iterating over the encoded filters gives exactly the filters, in order |
| Mqtt.SubscribeRoundTrip | http_file/mongoose.cpp:10152-10184 | a subscribe packet with a remaining length below 2^31 is parsed to its message id, and to exactly its topic list if and only if every topic fits its length field |
| Mqtt.SubscribeRecovery | http_file/mongoose.cpp:10152-10184 | a subscribe packet of any size comes back, whatever an overflow gives, if and only if its remaining length is below 2^31 and every topic is shorter than 65536 octets |
| Mqtt.ParseMqtt | http_file/mongoose.cpp:9912-10000 | the loop over the length octets and the field cursors compute the parsed message |
| Mqtt.ReadTopics | http_file/mongoose.cpp:10172-10184 | calling the iterator until -1 collects the filters of the payload |
| Mqtt.PrependHeader | http_file/mongoose.cpp:10110-10131 | the fixed header goes in front of the last len octets and disturbs nothing queued earlier |
| Mqtt.Publish | http_file/mongoose.cpp:10133-10150 | the packet is queued behind what was queued |
| Mqtt.Subscribe | http_file/mongoose.cpp:10152-10170 | the packet with all filters is queued behind what was queued |
| Mqtt.LengthOctets | http_file/mongoose.cpp:10110-10131 | the length octets are the digits of the number to base 128, least first, each but the last with its top bit set and none too many |
| Mqtt.FixedHeader | http_file/mongoose.cpp:10110-10131 | command and flags in the first octet, then the length octets, then the body |
| Mqtt.BodyLayout | http_file/mongoose.cpp:10133-10170 | where topic length, topic, message id, QoS and data of a publish and of a subscription stand |
| MqttSession.SendHandshake | http_file/mongoose.cpp:10039-10103 | the connect packet with its optional fields is queued behind what was queued |
| MqttSession.HandshakeRoundTrip | http_file/mongoose.cpp:9912-9999 | the connect packet is parsed to the protocol, flags, keep-alive time, client id and optional fields asked for, if and only if its remaining length is below 128 |
| MqttSession.SendConnack | http_file/mongoose.cpp:10204-10209 | the packet is queued behind what was queued |
| MqttSession.SendShort | http_file/mongoose.cpp:10216-10252 | the packet of an acknowledgement, with the granted QoS of a subscription, is queued behind what was queued |
| MqttSession.ConnackRead | http_file/mongoose.cpp:10204-10209 | the return code of a connack is read back |
| MqttSession.AcknowledgementRead | http_file/mongoose.cpp:10216-10252 | the message id of every acknowledgement sent is read back, but for unsubscriptions, whose id is not looked at |
| CoapCodec.AddStable | http_file/mongoose.cpp:11201-11247 | adding an option keeps the list sorted, loses none, and leaves options of equal number in order |
| CoapCodec.AddAllIsStableSort | http_file/mongoose.cpp:11201-11247 | after any additions the list is the stable sort by number of what was added |
| CoapCodec.CheckMeansEncodable | http_file/mongoose.cpp:11594-11616 | the composer accepts the options exactly if they ascend and each delta and length fits its extension |
| CoapCodec.OptionsSizeExact | http_file/mongoose.cpp:11570-11617 | the size computed beforehand is the number of octets the options take |
| CoapCodec.HeadRoundTrip | http_file/mongoose.cpp:11518-11563 | an option header is never the payload marker and reads back its delta, length and value |
| CoapCodec.ScanRoundTrip | http_file/mongoose.cpp:11385-11462 | the option loop reads encoded options back in order and stops at the marker or the end |
| CoapCodec.RoundTrip | http_file/mongoose.cpp:11469-11494 | every composed message parses to itself, with exactly the flags of its fields, if and only if its option numbers and lengths are below 65536 |
| CoapCodec.MessageLayout | http_file/mongoose.cpp:11619-11687 | a composed message: version, type, token length, code, message id, token, options, and behind an octet 255 the payload if there is one |
| CoapCodec.OptionLayout | http_file/mongoose.cpp:11518-11562 | an option as section 3.1 of RFC 7252 lays it out: two nibbles and the extension octets they ask for stand for its distance and its length |
| CoapCodec.RefusedExactly | http_file/mongoose.cpp:11570-11617 | what the composer refuses and which field it blames: exactly the first that does not fit, options not in order included |
| CoapCodec.HeadIs | http_file/mongoose.cpp:11339-11368 | for any octets: an option header is refused for a nibble of 15, too short, or read as the numbers its nibbles and extensions stand for, modulo 65536 |
| CoapCodec.WireRead | http_file/mongoose.cpp:11385-11447 | options written by anyone are read as what they stand for and added in the order they came |
| CoapCodec.WireEnds | http_file/mongoose.cpp:11385-11467 | where the option loop ends without an error, and its two errors |
| CoapCodec.HeaderRead | http_file/mongoose.cpp:11254-11336 | what is made of the octets before the options: the reason they are refused for, in order, or the fields they hold |
| Coap.CoapMessage.AddOption | http_file/mongoose.cpp:11201-11247 | the linked list and its tail pointer after an addition |
| Coap.CoapMessage.FreeOptions | http_file/mongoose.cpp:11193-11199 | the list is emptied |
| Coap.CoapMessage.PacketSize | http_file/mongoose.cpp:11570-11617 | the first field that cannot be encoded, or the exact number of octets |
| Coap.CoapMessage.Compose | http_file/mongoose.cpp:11619-11688 | the encoded message is written behind what the buffer held, or nothing |
| Coap.CoapMessage.Parse | http_file/mongoose.cpp:11469-11494 | flags and fields set as the parser function says, for every buffer content |
| Coap.CoapMessage.ParseHeader | http_file/mongoose.cpp:11254-11311 | the fixed header, or the reason it is refused |
| Coap.CoapMessage.GetToken | http_file/mongoose.cpp:11318-11332 | the token, or that it is not all there |
| Coap.CoapMessage.GetOptions | http_file/mongoose.cpp:11385-11462 | the option loop builds the list of the scan, or reports its error |
| Coap.CoapMessage.ReadHead | http_file/mongoose.cpp:11396-11432 | an option header with its extensions, or the reason it is refused |
| Base64.EncodeAppend | http_file/mongoose.cpp:378-415 | encoding splits at multiples of three octets |
| Base64.EncodeLength | http_file/mongoose.cpp:429-452 | the encoded length |
| Base64.RoundTrip | http_file/mongoose.cpp:528-550 | decoding what was encoded consumes all of it and gives the octets back |
| Base64.GroupDecodes | http_file/mongoose.cpp:528-550 | a group of one, two or three octets decodes to them, with its padding |
| Base64.CodeIsLetter | http_file/mongoose.cpp:365-377 | the codes are the characters of the alphabet of section 4 of RFC 4648, in its order |
| Base64.TableIsInverse | http_file/mongoose.cpp:489-526 | the table gives each of these characters its place, and no other octet below 128 one; an octet from 128 on is taken for the one 128 below it |
| Base64.GroupIsNumber | http_file/mongoose.cpp:378-394 | four characters stand for the same number of 24 bits as three octets, shorter groups are filled up with zero bits and padded |
| Base64.GroupCutShort | http_file/mongoose.cpp:528-550 | what padding inside a group of four leaves of it |
| Base64.Context.Update | http_file/mongoose.cpp:404-415 | the streaming encoder has emitted exactly the complete groups of all octets so far |
| Base64.Context.Finish | http_file/mongoose.cpp:417-426 | the stream ends as the one-shot encoding of all octets |
| Base64.EncodeParts | http_file/mongoose.cpp:404-426 | any cutting into updates gives the one-shot encoding |
| Base64.EncodeInto | http_file/mongoose.cpp:429-466 | the one-shot loop writes the encoding and a terminator |
| Base64.DecodeInto | http_file/mongoose.cpp:528-550 | the decoding loop writes the decoded octets and a terminator and reports both lengths |
| Sha1.PadFillsBlocks | http_file/mongoose.cpp:1507-1525 | the padded message is a whole number of blocks |
| Sha1.PadInjective | http_file/mongoose.cpp:1507-1525 | no two messages shorter than 2^61 octets have the same padding |
| Sha1.FoldAppend | http_file/mongoose.cpp:1494-1504 | hashing whole blocks can be interrupted anywhere |
| Sha1.CountStep | http_file/mongoose.cpp:1489-1493 | the two-word counter with its carry holds eight times the length, modulo 2^64 |
| Sha1.CountBytes | http_file/mongoose.cpp:1512-1516 | its octets are the 64-bit length field of the padding |
| Sha1.Context.Update | http_file/mongoose.cpp:1484-1505 | after any data the context holds the message so far: blocks in the state, the rest in the buffer, the length in the counter |
| Sha1.Context.AppendPadding | http_file/mongoose.cpp:1518-1523 | the padding loop ends, with the zero octets section 5.1.1 of FIPS 180-4 asks for |
| Sha1.Context.Final | http_file/mongoose.cpp:1507-1532 | the digest is the fold of the block transform over the padded message, and the context is wiped |
| Sha1.HashParts | http_file/mongoose.cpp:9383-9392 | hashing parts gives the digest of their concatenation |
| Sha1.PadLayout | http_file/mongoose.cpp:1507-1525 | the padding section 5.1.1 of FIPS 180-4 asks for, octet by octet |
| Sha1.DigestLayout | http_file/mongoose.cpp:1526-1529 | the digest is the five words of the final state, most significant octet first |
| Sha1.InitialState | http_file/mongoose.cpp:1474-1482 | the initial state of section 5.3.1 |
| Sha1Block.TransformBlock | http_file/mongoose.cpp:1366-1472 | the eighty unrolled rounds over sixteen words in place leave in the state what the eighty rounds of section 6.1.2 give over the whole message schedule |
| Sha1Block.NextWord | http_file/mongoose.cpp:1327-1349 | the word that overwrites the oldest of sixteen is the next one of the message schedule, octets swapped as they are loaded |
| Sha1Block.Step | http_file/mongoose.cpp:1350-1365 | each macro is one round of the standard, with its own forms of the choice and majority functions |
| Sha1Block.TransformIsStandard | http_file/mongoose.cpp:1366-1472 | what the transform leaves is what the streaming hash folds over the blocks |
| Sha1Block.Hash | http_file/mongoose.cpp:1474-1532 | hashing parts gives SHA-1 of their concatenation |
| UriPath.RunIsStandard | http_file/mongoose.cpp:5164-5196 | the component loop agrees with the loop of section 5.2.4 of RFC 3986 in every state |
| UriPath.NormalizeIsStandard | http_file/mongoose.cpp:5164-5196 | for every path that starts with '/' the result is that of the standard |
| UriPath.NormalizeClean | http_file/mongoose.cpp:5164-5196 | the result starts with '/', has no "." or ".." component, and normalizing again changes nothing |
| UriPath.NormalizeResolves | http_file/mongoose.cpp:5164-5196 | the normalized path leads to where its components lead one after the other: a dot stays, two dots go back one, a last component of dots names a directory |
| UriPath.HasComponents | http_file/mongoose.cpp:5164-5196 | and every path that starts with '/' has components |
| UriPath.ParseComponent | http_file/mongoose.cpp:5036-5046 | the component up to the next '/' or the end |
| UriPath.BacktrackTo | http_file/mongoose.cpp:5183-5184 | the write cursor goes back behind the previous '/' |
| UriPath.NormalizeUriPath | http_file/mongoose.cpp:5164-5196 | done in one buffer the write cursor never passes the read cursor and the result is the normalized path |
| Supervisor.RunMoves | init/init.c:643-701 | every run of events is a sequence of moves of single services |
| Commands.StartCommand | init/builtins.c:547-555 | the command asks for a start of the first service of that name: the request is the first new item of the history, and if the start comes to a fork that succeeds, that service runs with the new pid and the fork is noted; every other service is as it was |
| Commands.StopCommand | init/builtins.c:557-565 | nothing is added to the history, the service neither waits for a restart nor is reset, it is disabled; every other service is as it was |
| Commands.RestartCommand | init/builtins.c:567-576 | the service is stopped, and from there started |
| Commands.RestartForks | init/builtins.c:567-576 | a running service that is restarted ends with a new process, unless it cannot be forked |
| Commands.UnknownName | init/builtins.c:547-576 | a name that no service has changes nothing |
| Commands.MessageIsCommand | init/init.c:365-377 | the control messages do what the commands of their names do, for an argument without a colon |
| Commands.MessageArguments | init/init.c:328-377 | what follows the first colon is the arguments of a start; a stop takes the whole for the name |
| Commands.OtherMessage | init/init.c:374-376 | any other message changes nothing |
| Commands.ClassCommand | init/builtins.c:204-214 | stopping or resetting a class marks exactly its services, each as if alone |
| Commands.ClassStartCommand | init/builtins.c:194-202 | starting a class asks for exactly its services that are not disabled, each started from a state in which it is as it was |
| Commands.ExitEvent | init/signal_handler.c:30-87 | the exit of a service: its flags and pid, and its onrestart commands run in order exactly if it waits for a restart |
| Commands.UnknownExit | init/signal_handler.c:43-47 | the exit of a process no service has changes no service |
| Commands.SignalInTurn | init/signal_handler.c:89-96 | several exits are taken one after the other |
| Commands.TimerStarts | init/init.c:306-326 | a service that waits and is due is started; one that waits and is not due is left alone |
| Supervision.RunKeepsInv | init/init.c:131-326 | every event of every run keeps the invariant on flags, pids, start times and history |
| Supervision.RunLifecycle | init/init.c:131-298 | in every run: running excludes disabled, reset and restarting and has a process; restarting excludes disabled, reset and one-shot and has none |
| Supervision.RunPids | init/init.c:175-260 | in every run: a service process is an unreaped child forked for that service, and no two services share one |
| Supervision.RunForks | init/init.c:306-326 | in every run: two forks without a request between them are five seconds apart, and a one-shot service is forked only on request |
| Supervision.ReapChangesOwner | init/signal_handler.c:39-78 | reaping a pid changes exactly the service that holds it, and how |
| Supervision.StartOrphans | init/init.c:131-260 | starting a service that still has a process gives that process to no service, unreaped, exactly if the start comes to the fork |
| Supervision.RunOrphans | init/signal_handler.c:39-50 | from then on, in every run in which the process does not exit, it stays unreaped and no service has it, and reaping it changes no service |
| Supervision.StopStartOrphans | init/builtins.c:567-576 | stop, start up to the fork, then any run in which the old process does not exit: it belongs to no service and reaping it changes none |
| Scheduling.RestartSchedules | init/init.c:306-326 | after the timer nothing due still waits, and the next restart time is exactly the earliest due time |
| Scheduling.NeverOversleeps | init/init.c:675-682 | the poll timeout is unlimited only if nothing waits, zero exactly if a command is left to run or a waiting service is due now, and otherwise ends exactly at the first due restart |
| Scheduling.StopLasts | init/init.c:267-298 | after a stop or reset no event of any run starts the service again unless a start is asked for |
| Scheduling.FailedForkHalts | init/init.c:252-256 | a restart whose fork failed is not tried again by the timer |
| Scheduling.ClassRestart | init/builtins.c:175-214 | starting a class after resetting or stopping it asks exactly for the services that were reset and not disabled |
| Scheduling.RunKeepsConfig | init/init.c:131-298 | no run changes the configured part of a service |
| Criticality.RunIgnoresCritical | init/signal_handler.c:30-87 | taking the critical option from every service and running is running and taking it then: no start, exit or restart depends on it |
| Services.Daemon.Start | init/init.c:131-260 | all branches of service_start: the new flags, pid, start time, system calls made and history |
| Services.Daemon.StopOrReset | init/init.c:267-288 | the flags after a stop or reset, remembering the disabled option |
| Services.Daemon.RestartServiceIfNeeded | init/init.c:306-320 | starts a due service, otherwise lowers the next restart time |
| Services.Daemon.RestartWaiting | init/init.c:321-326 | the timer visits every waiting service once |
| Services.Daemon.FindByName | init/init_parser.c:428-439 | the first service of that name |
| Services.Daemon.FindByPid | init/init_parser.c:441-452 | the first service with that process |
| Services.Daemon.StartClass | init/builtins.c:194-202 | starts the services of a class that are not disabled, in list order |
| Services.Daemon.HaltClass | init/builtins.c:204-214 | stops or resets the services of a class, in list order |
| Services.Daemon.RestartByName | init/builtins.c:567-576 | stop, then start |
| Services.Daemon.HandleControlMessage | init/init.c:328-377 | start with arguments behind a colon, stop, restart |
| Services.Daemon.WaitForOneProcess | init/signal_handler.c:30-87 | an exit: flags, then the onrestart commands if the service is to be restarted |
| Services.Daemon.HandleSignal | init/signal_handler.c:89-96 | all exits in turn |
| Services.Daemon.Timeout | init/init.c:675-682 | the timeout handed to poll |
| Services.Daemon.RunEvents | init/init.c:643-701 | the daemon's own steps are those of the transition system, so what holds of its runs holds of the daemon |
| ActionQueue.RunConserves | init/init.c:406-427 | over every run: commands run and left are those left before and those of the actions queued meanwhile, in queue order, each once |
| ActionQueue.Drains | init/init.c:406-427 | without new actions everything left is run and the interpreter ends idle |
| ActionQueue.ExecuteTakesFirst | init/init.c:406-427 | a pass runs the first command left, or drops an action without commands |
| ActionQueue.AddTail | include/cutils/list.h:42-48 | appends a node that is not on the ring; what becomes of the ring if it is |
| ActionQueue.Remove | include/cutils/list.h:58-62 | takes a node out of the ring |
| ActionQueue.QueueAsDocumented | init/init_parser.c:587-590 | the documented rule for an action already on the queue is kept exactly if it is not on it |
| ActionRequeue.RunQueue | include/cutils/list.h:42-62 | for every queue and every interleaving of taking actions and adding any, waiting or not: the pointers do exactly what a value does that says which action is taken next |
| ActionRequeue.TakenOnce | init/init_parser.c:587-602 | if no action is added while it waits, every action that waits or is added is taken once, in order, or still waits |
| ActionRequeue.QueuedAgain | init/init_parser.c:587-602 | an action that waits is added again: the first is all that is ever taken, one in between cuts off those behind it, the last is taken again and again while nothing is added |
| ActionRequeue.TakenForever | init/init_parser.c:587-602 | an action that was the first stays the only one taken under all later additions, its own included |
| ActionRequeue.Released | init/init_parser.c:587-602 | an action that was the last is taken once more when a new one has been added, and after that nothing is taken twice |
| ActionRequeue.LostAction | init/init_parser.c:587-602 | three actions wait and the second is queued again: the third is never run |
| ActionRequeue.EndlessAction | include/cutils/list.h:42-62 | three actions wait, the first is queued again and a new one added: the first alone runs, without end |
| ActionRequeue.ReleasedAction | include/cutils/list.h:42-62 | three actions wait and the last is queued again: it runs until a new one is added, then once more, then the new one, and the queue is empty |
| ActionQueue.Interpreter.QueueAction | init/init_parser.c:587-590 | the action waits behind all others |
| ActionQueue.Interpreter.RemoveHead | init/init_parser.c:592-602 | the first waiting action, or none |
| ActionQueue.Interpreter.ExecuteOne | init/init.c:406-427 | one pass of the interpreter on the ring is one pass on the list |
| Triggers.StoreSelects | init/init_parser.c:536-567 | an action fires on the whole store exactly if a stored pair whose name has no '=' fires it |
| Triggers.TriggersAgree | init/init_parser.c:516-567 | the two matchers agree on every action if no stored name has an '=' |
| Triggers.AgreeOnAll | init/init_parser.c:516-567 | they agree on all actions exactly if every stored name with '=' is shadowed |
| Triggers.TriggerForm | init/init_parser.c:516-534 | "property:name=value" fires on a change of that property to that value, "property:name=*" on every change of it, neither on another |
| Triggers.OtherActions | init/init_parser.c:516-534 | actions of other names fire on no change |
| Triggers.StartupAgrees | init/init_parser.c:516-567 | after any sequence of sets that leaves no name with '=' in the property table, an action fires on the table exactly if some property in it fires it |
| Triggers.QueuePropertyTriggers | init/init_parser.c:516-534 | queues the actions a changed property fires, in list order |
| Triggers.QueueAllPropertyTriggers | init/init_parser.c:536-567 | queues the actions the whole store fires, in list order |
| Lexer.LexQuoted | init/parser.c:127-142 | a quoted word reads back as itself, whatever is in it |
| Lexer.LexCommentLine | init/parser.c:93-101 | a comment ends with its line, or with the text |
| Lexer.LexBlank | init/parser.c:88-92 | blanks and carriage returns between tokens are passed over |
| Lexer.LinesFold | init/parser.c:160-172 | a backslash at the end of a line takes the line end and the blanks of the next line out of the word |
| Lexer.ReturnFolds | init/parser.c:160-172 | in front of a carriage return it takes only that, whatever follows |
| Lexer.ReturnEndsLine | init/parser.c:160-172 | a carriage return and a newline behind a backslash end the word and its line |
| Lexer.WordInPieces | init/parser.c:107-181 | a word of plain characters, quoted parts and characters behind a backslash is those put together, however it ends; a quote that is not closed ends the text |
| Lexer.TokensRoundTrip | init/parser.c:68-183 | printed lines of quoted words give exactly their words and newlines |
| Lexer.LinesRoundTrip | init/init_parser.c:364-388 | printing and parsing gives the same lines exactly if none is empty or longer than 64 words |
| Lexer.CommentedRoundTrip | init/init_parser.c:364-388 | so it does with comment lines anywhere before, between and behind the lines |
| Lexer.EscapeRoundTrip | init/parser.c:143-177 | for every word without NUL, written with escapes and followed by a blank or a line end: it is read back if and only if it is not empty, has no \n, \r or \t, and behind each backslash in it stands an ordinary character other than n, r and t |
| Lexer.EscapeExample | init/parser.c:148-150 | a, line break, b comes back as a, line break, n, b |
| Lexer.BackslashExample | init/parser.c:143-177 | a backslash in front of the letter a is read back, one in front of n is not |
| Tokenizer.StaysSettled | init/parser.c:107-182 | a word already delivered is not changed by reading on |
| Tokenizer.ParseState.NextToken | init/parser.c:68-183 | on every text: the next token, text before the cursor and from the new cursor on untouched, the word stored where it was read |
| Tokenizer.ParseState.ReadText | init/parser.c:107-181 | a word with quotes, escapes and line folding, compacted in place with the write cursor never ahead of the read cursor |
| Tokenizer.ParseState.CopyQuoted | init/parser.c:127-142 | a quoted part up to its quote or the end of the text |
| Tokenizer.ParseState.TakeEscape | init/parser.c:143-177 | what follows a backslash, line folding included |
| Tokenizer.ParseConfig | init/init_parser.c:346-388 | the lines of the text as pointers whose words still stand when the whole text has been read |
| Properties.PublishRests | init/property_service.c:177-183 | after an update bit 0 of the serial is clear, its top octet is the value length, and its count went up by two |
| Properties.SetSound | init/property_service.c:313-368 | every set keeps names unique, the count within its limit, and every entry at rest |
| Properties.SetRefines | init/property_service.c:313-368 | the table stands for a finite map: same new map, same acceptance |
| Properties.RunRefines | init/property_service.c:313-368 | so it does over any sequence of sets |
| Properties.GetIsLast | init/property_service.c:269-283 | after any sequence of sets a property has the value of its last accepted set |
| Properties.ReadOnlyStays | init/property_service.c:331-335 | no sequence of sets changes a ro. property |
| Properties.NetChangeNoted | init/property_service.c:357-363 | an accepted net. set is noted in net.change exactly if the note exists or fits |
| Properties.RefusedExactly | init/property_service.c:313-368 | refused exactly: an empty name or one of 32 characters or more, a value of 92 or more, a property that is there and read-only, a new one when there are 247 |
| Properties.RunMakesKnown | init/property_service.c:354-367 | over any sequence of sets: which names and values are made known to the triggers, which are written to disk, and how far the serial of the area goes on |
| PropertyAreaModel.TocRoundTrip | include/init/_system_properties.h:22-23 | a table entry gives back name length and place; all entries lie inside the area |
| PropertyAreaModel.PropertyArea.Find | extlib/libcutils/system_properties.c:130-149 | the search by length and name finds the entry of that name |
| PropertyAreaModel.PropertyArea.UpdatePropInfo | init/property_service.c:177-183 | the entry with new value and serial, no other changed |
| PropertyAreaModel.PropertyArea.SetProperty | init/property_service.c:313-368 | new table, serial, notifications and writes to disk, the call for net.change included |
| PropertyAreaModel.PropertyArea.GetProperty | init/property_service.c:269-283 | the value of the map, nothing for a name that is too long |
| SeqLock.WriterKeeps | init/property_service.c:177-183 | every step of an update, a character at a time, keeps count, length and memory consistent |
| SeqLock.CheckPasses | extlib/libcutils/system_properties.c:151-170 | exactly when the second look at the serial passes |
| SeqLock.ReadsAreWhole | extlib/libcutils/system_properties.c:151-170 | in every interleaving with fewer than 2^23 updates during a read, the value returned is whole and current |
| SeqLock.FreshReadsAreWhole | extlib/libcutils/system_properties.c:151-170 | the same in every run from a property just created on |
| SeqLock.TornRead | extlib/libcutils/system_properties.c:151-170 | the bound is exact: with 2^23 updates between two characters of "ab" a read returns "ad", which never was a value |
| SeqLock.QuietRead | extlib/libcutils/system_properties.c:151-170 | a read no update disturbs returns the current value at the first attempt |
| SeqLock.QuietUpdate | init/property_service.c:177-183 | the steps of an update together are the update of the store |
| Persistence.CrashConsistent | init/property_service.c:285-305 | a stop at any step leaves the entry whole, old or new, and every other entry as it was |
| Persistence.WrittenIsLeft | init/property_service.c:285-305 | a write that the system refused leaves the old value |
| Persistence.LoadAfterCrash | init/property_service.c:481-519 | loading after a stop gives the store of before or after the write |
| Persistence.LoadGives | init/property_service.c:481-519 | a load leaves the well-named entries and what was there |
| Persistence.LoadedValue | init/property_service.c:481-519 | spelled out: the name begins with "persist." and is shorter than 32 characters, and the value is the file, cut to 91 |
| Persistence.LoadSyncs | init/property_service.c:481-519 | after a load with room for all files, disk and memory agree exactly if names and values are short enough |
| Persistence.MemoryAndDisk | init/property_service.c:285-368 | after any sets, each with its own outcome of the write: memory holds the last accepted value of a persistent name, disk the last one accepted and written |
| Persistence.DiskAgrees | init/property_service.c:285-368 | memory and disk agree on a name exactly if its last accepted set was written or its value was on disk already, or, without such a set, if they agreed before |
| Persistence.RunKeepsSynced | init/property_service.c:363-365 | if the last accepted set of each persistent name was written, every persistent file holds the value in memory |
| Persistence.RestartAfterCrash | init/property_service.c:285-519 | load, any sets with any outcomes, a stop inside a write, and a load again: every persistent property has the last value written, which is its last accepted one if that write succeeded, or, if none was written, what the new store had; the one being written has that or the new value |
| Persistence.LoadPersistentProperties | init/property_service.c:481-519 | the directory loop sets exactly those entries, in directory order; a first load writes nothing, a second one writes entries back and changes none |
| Persistence.Disk.WritePersistentProperty | init/property_service.c:285-305 | every directory on the way is one a stop may leave, and what is left in the end |

## Left out

- Sockets, poll, threads, TLS, file serving, the MQTT broker, CGI, SSI, WebDAV, multipart, digest authentication, DNS: I/O or foreign calls.
- Memory exhaustion: allocation succeeds.
- HttpMessage.HttpConnection.HandleChunked: for streams whose chunk sizes do not overflow size_t together with their framing.
- HttpMessage.HttpConnection.ReceiveEvent: likewise, no chunk size that overflows size_t, pointers behind such a chunk being undefined in the source; what the header says about the body is a parameter, with a given length that does not overflow; the switch to WebSocket and multipart bodies are not modelled, nor handlers that change the buffer themselves.
- HttpMessage.Delivers: for headers of chunked messages without a given length, as of POST, PUT and replies, of at most the size the handler accepts; other requests lose their header with the first arrival, as ReceiveEvent states.
- Chunked.ParseChunk: no chunk size that overflows size_t together with its framing.
- Chunked.CollapseChunks: no chunk size that overflows size_t together with its framing.
- Chunked.Compact: no chunk size that overflows size_t together with its framing.
- WebSocket.Connection.Receive: unfragmented frames, or all frames when defragmentation is switched off; reassembly of fragments and the check for a close frame after the frame was removed are not modelled, nor is the path for frame lengths that overflow 64 bits.
- WebSocket.Connection.DeliverOne: for the same frames.
- WebSocket.Connection.ReceiveData: for the same frames.
- WebSocket.Connection.ReceiveArrivals: for the same frames.
- Sha1.Context.Final: for any block transform; the one of the source is Sha1Block.TransformBlock.
- Sha1Block.TransformBlock: on a little-endian machine; the copy of the block that is erased in the end is local.
- Sha1.Context.Update: at most 2^32 - 64 octets in one call; above that the sums of 32 bits in the loop over the blocks wrap.
- Sha1.HashParts: parts of at most 2^32 - 64 octets, for the same reason.
- Mqtt.ParseMqtt: what an int shift that overflows adds to the length is a parameter; pointers past the address space do not wrap; reads behind the received octets see whatever memory holds there.
- MqttSession.SendHandshake: for callers that leave the flags of the optional fields to the sender, as the null pointers behind flags set otherwise would be read.
- MQTT unsubscribe and ping packets: fixed headers of the same form.
- Coap.CoapMessage.Parse: the token length that a failed parse leaves in the structure is not modelled.
- Base64.EncodeInto: lengths beyond int are not modelled.
- Services.Daemon.Start: the child's side of fork (environment, sockets, identity, exec) is not modelled, nor the notifications under init.svc.
- Services.Daemon.StopOrReset: the kill of the process group and the notifications are not modelled.
- Services.Daemon.WaitForOneProcess: sockets to be removed and the kill of the process group are left to the kernel; a service started by a key chord is a start by name.
- A clock that fails and returns 0: the clock is monotonic.
- ActionQueue.Interpreter.ExecuteOne: the command list of an action is a sequence; only the queue is a linked ring. The command returned is called by the main loop.
- ActionQueue.Interpreter.QueueAction: for an action that is not waiting; what happens otherwise is stated by ActionRequeue.RunQueue.
- ActionRequeue.RunQueue: an action taken is run as a whole, where the source runs one command at a time; additions may come between any two actions.
- Triggers.QueuePropertyTriggers: for firing actions that are not waiting; ActionRequeue.RunQueue covers additions of any kind.
- Triggers.QueueAllPropertyTriggers: for firing actions that are not waiting.
- Criticality.RunIgnoresCritical: the two constants of `init/signal_handler.c` that name a crash threshold are used nowhere in the source, and so not in the model.
- Tokenizer.ParseConfig: sections, keywords and imports behind the lines, and line numbers in messages.
- Permission tables, the property socket, and load_properties for boot defaults: plumbing around the same sets.
- SeqLock.ReadsAreWhole: memory accesses take effect in program order; one reader, since readers do not write.
- Persistence.CrashConsistent: names without '/', and writes that are not cut short by a full disk; rename is atomic.
