# sprut: a verified model of the message router

sprut is a TLS message router. A client proves that it holds an Ed25519 key by signing a
challenge, then sends length-prefixed frames; the router wraps each in a protobuf message and
publishes it through NATS on the subject of its recipient, whose own router connection frames it
again and writes it out. The model covers everything between the TLS record layer and the
application on both ends: the handshake, the codecs, the relay, the goroutines of a connection and
the client's loops.

Each source file appears in the form it has. Buffers are arrays filled in place, connections,
buffered readers, peers and the router are classes, loops are loops. Every such method is proved
equal to a function of the bytes that arrive, for every chunking of the input, every point at which
reading or writing may fail and every stale buffer content; the theorems are then proved about
those functions. Goroutines are step machines: an action is one atomic step of one goroutine, a
history is any interleaving of actions, and the methods of `Peer` and `Router` carry out those very
actions with arbitrary actions of the others between any two of their own.

| module | models |
|---|---|
| `Bytes`, `Transport` | big-endian numbers, a TLS connection, `io.ReadFull`, `bufio.Reader` |
| `ProtocolAuth`, `ProtocolData` | the handshake messages, the signed data, the frames |
| `Freshness`, `ServerAuth`, `ClientAuth` | the two halves of the handshake, in place and as functions |
| `Handshake` | both halves over one connection: completeness |
| `Agreement` | many sessions and an active attacker: injective agreement |
| `Hex`, `Wire`, `RouterMessage`, `Relay` | addresses, proto3, the in-place parser, the relay transformation and its size |
| `PeerQueue`, `Peer` | a peer's queue, writer and `Close`: the step machine, and the methods over it |
| `RouterSlots`, `Router` | buffers, handlers and registry: the step machine, and `handleConn` over it |
| `ClientLoops`, `ClientShutdown` | the client's read and write loops; their shutdown |
| `Inboxes` | the receiving side of a session, and the proof that `PeerQueue` is one |
| `RelaySystem` | clients, handlers, broker and peers together: end-to-end safety |

## What is assumed

These are guards of steps or parameters, never facts proved here.

- Signatures are ideal (Ed25519, sections 5.1.6 and 5.1.7 of RFC 8032): one that verifies under an
  honest key is on a message some client session of that key signed. An attacker may vary a
  signature it has seen and may sign anything with keys that are not honest.
- No two client sessions share a channel binding (section 4 of RFC 5705), and no two server
  sessions draw the same challenge.
- The broker delivers to each subscription, in the order of publication, at most once, and only
  routers publish.
- TLS delivers bytes in order, returns at most one record per read, and refuses every write after
  one that failed. `maxMessageSize` is at least 4 and below 2^32, as the code's slice expression and
  conversion need; the buffers of the pool have that length.

## Where the code surprises

The model follows the code in each case.

- The layout comment at `pkg/router/auth.go:26-27` gives the signed data 128 bytes and the work area
  offset 296. The constants make it 148, 316 and a buffer of 444.
- The 60-second allowance for clocks in the future at `pkg/router/auth.go:143` admits nothing: the
  subtraction at line 147 wraps, and such a challenge is reported as expired
  (`Freshness.WindowExact`).
- An accepted frame may be up to 65536 bytes, but its relayed form grows by up to 79 and may not fit
  the server frame's own 65536; writing it then fails and disconnects the recipient.
  `Relay.SafeLength` gives the exact length up to which this cannot happen.
- A recipient may be written with upper-case digits and is then accepted and published where nobody
  listens (`Hex.Addressing`, with the exact condition).
- Two steps change a registry entry without looking whose it is: the delete of a cleanup, and the
  store after another handler's store. A live peer is missing from the registry exactly when one of
  them has hit it (`RouterSlots.RegisteredExact`), and either can happen (`RouterSlots.OrphanRun`,
  `RouterSlots.OverwrittenRun`).
- With room in the queue and the close signal both ready, `select` may take either. The queue has a
  gap exactly when a message has been queued past a dropped one (`PeerQueue.GapFreeExact`), and that
  can happen around a close (`PeerQueue.GapDuringClose`).
- `Close` skips the unsubscribe while `peer.subscriber` is unset, and `closeOnce` never comes back to
  it. A closed peer stays subscribed exactly when that happened (`PeerQueue.UnsubscribedExact`), which
  takes more than 1000 messages before `newPeer` has returned (`PeerQueue.SkipNeedsFullQueue`,
  `PeerQueue.LeakRun`).
- The client's read loop starts with a new buffered reader. What the handshake's reader still holds
  is lost; `ClientLoops.ConnectAndRead` says exactly when that is nothing.

## Model

| member | source | states |
|---|---|---|
| `ServerAuth.Authenticate` | pkg/router/auth.go:42-163 | In a buffer holding anything but the server ID, the handshake is the function `Run` of the arriving bytes cut off where writing fails; the server ID survives every outcome, an accepted key stays in its region, and the two messages are one write each |
| `ServerAuth.AcceptedExact` | pkg/router/auth.go:54-162 | A key is accepted if and only if the input is a hello, a response whose signature verifies over this challenge, time, server, key and channel, and any rest, the challenge is fresh and nothing local failed; exactly 98 bytes are consumed |
| `ServerAuth.AcceptanceIsStable` | pkg/router/auth.go:54-162 | More input never changes an acceptance and is left unread |
| `ServerAuth.AcceptanceIsMonotone` | pkg/router/auth.go:135-138 | Nor do more signatures that verify |
| `ServerAuth.OutputExact` | pkg/router/auth.go:54-162 | A challenge is written exactly after a hello the server can answer, and an OK exactly when it accepts |
| `ServerAuth.CompleteHandshake` | pkg/router/auth.go:134-150 | A complete handshake is turned down for its signature first, then for the age of its challenge |
| `ServerAuth.Greet` | pkg/router/auth.go:45-93 | Either the reason why no challenge is sent, with nothing written, or the encoded challenge on the wire and key, challenge and server ID in their regions |
| `ServerAuth.ReadTyped` | pkg/router/auth.go:55-66 | One byte of type and a field into its own region: which of the three outcomes, by the input alone; nothing below the work area changes but that region |
| `ServerAuth.ReadHello` | pkg/router/auth.go:54-66 | The key lands in its region and the server ID is kept; a short input and a wrong type are told apart |
| `ServerAuth.StoreChallenge` | pkg/router/auth.go:71-79 | Challenge and big-endian time fill exactly their regions |
| `ServerAuth.AssembleChallenge` | pkg/router/auth.go:84-88 | The bytes put together in the work area are `ServerChallenge.Encode` of the values in the regions, which are left alone |
| `ServerAuth.AppendRegion` | pkg/router/auth.go:86-88 | A region copied behind the message so far extends it by that region and leaves every region alone |
| `ServerAuth.WriteChallenge` | pkg/router/auth.go:71-88 | After drawing and assembling, the work area is the encoded challenge and key and server ID are still in place |
| `ServerAuth.ReadResponse` | pkg/router/auth.go:95-108 | The signature lands in its region; key, challenge and server ID survive every outcome |
| `ServerAuth.VerifyInPlace` | pkg/router/auth.go:121-138 | The verdict is that of the ideal verifier on the 148 bytes of signed data of the offer, though all three arguments are regions of one buffer |
| `ServerAuth.JudgeInPlace` | pkg/router/auth.go:95-162 | From the response on: OK is written exactly when the verdict on the remaining input is favourable, nothing otherwise |
| `ServerAuth.SetOk` | pkg/router/auth.go:155-156 | The two bytes written are an OK result; the regions survive |
| `ServerAuth.OkMessageIsEncoding` | pkg/protocol/auth.go:109-131 | Those two bytes are what `AuthResult.Encode` writes for OK, whatever error text it carries |
| `Freshness.WindowExact` | pkg/router/auth.go:141-150 | In wrapping 64-bit arithmetic a challenge is fresh if and only if it is not from the future and at most as many seconds old as the TTL converts to; the 60-second allowance admits nothing |
| `Freshness.SecondsBounded` | pkg/router/auth.go:147 | The conversion through floating point gives the TTL's whole seconds below 2^22 seconds, and at most one second more above, for any rounding that keeps order and integers and errs by one part in 2^53 |
| `Freshness.Window` | pkg/router/auth.go:141-150 | The same window for any number of seconds that fits into 64 bits together with the allowance |
| `ClientAuth.Authenticate` | pkg/client/client.go:124-185 | The client's handshake is the function `Run` of the arriving bytes cut off where writing fails; if the server's messages arrive as the records it wrote, the dropped reader holds exactly what shared a record with the result |
| `ClientAuth.ConnectedExact` | pkg/client/client.go:124-185 | The client connects if and only if nothing local fails and the input is a challenge, an OK and any rest; it has then sent its hello and one signature over that challenge, its key and its channel |
| `ClientAuth.RefusedExact` | pkg/client/client.go:180-182 | The client is refused with a text if and only if the answer is a result other than OK carrying it |
| `ClientAuth.RefusalIsTruncated` | pkg/protocol/auth.go:116-128 | Of the text a refusing server encodes the client learns the first 1024 bytes |
| `ClientAuth.OfferExact` | pkg/client/client.go:142-153 | An offer is read if and only if the input starts with its encoding |
| `ClientAuth.AnswerExact` | pkg/client/client.go:167-184 | An answer is favourable if and only if it is the encoding of OK |
| `ClientAuth.Converse` | pkg/client/client.go:132-184 | The same once the reader exists, for a reader in any state |
| `ClientAuth.SayHello` | pkg/client/client.go:125-139 | Either the hello is on the wire whole, or the handshake has ended as `Run` cut off where writing failed; no input is touched |
| `ClientAuth.Continue` | pkg/client/client.go:141-184 | The conversation after the hello: the response is sent exactly when an offer arrived and could be signed, and the answer decides |
| `ClientAuth.ReadOffer` | pkg/client/client.go:142-153 | Reads the offer at the front of the stream, and a record holding just the offer leaves the reader empty |
| `ClientAuth.ReadAnswer` | pkg/client/client.go:167-184 | Reads the answer at the front of the stream, and leaves in the reader exactly the rest of its record |
| `ProtocolAuth.ParseChallengeExact` | pkg/protocol/auth.go:42-75 | A stream decodes to a challenge if and only if it starts with that challenge's encoding |
| `ProtocolAuth.ParseResultExact` | pkg/protocol/auth.go:109-158 | A stream decodes to a result if and only if it starts with its encoding: OK without text, or a text of at most 1024 bytes |
| `ProtocolAuth.MessageLayout` | pkg/protocol/auth.go:15-131 | The four messages byte for byte |
| `ProtocolAuth.SignedDataStart` | pkg/protocol/auth.go:193 | The signed data starts with the text of protocol and version |
| `ProtocolAuth.ResultRoundTrip` | pkg/protocol/auth.go:109-158 | Decoding an encoded result gives it back with its text cut to 1024 bytes, and without text for OK |
| `ProtocolAuth.SignedDataInjective` | pkg/protocol/auth.go:183-202 | Equal signed data means equal challenge, time, server ID, key and channel binding |
| `ProtocolAuth.SignedDataFields` | pkg/protocol/auth.go:170 | The signed data is 148 bytes with each field at its offset |
| `ProtocolAuth.BuildSignedDataTo` | pkg/protocol/auth.go:183-202 | Fills exactly 148 bytes of the caller's buffer, at any offset, with the signed data and touches nothing else |
| `ProtocolAuth.EncodeTyped` | pkg/protocol/auth.go:82-91 | A type byte and a field reach the wire as one message, cut where writing fails |
| `ProtocolAuth.ReadMessageType` | pkg/protocol/auth.go:161-167 | Takes one byte of the stream or finds it ended, and one byte of what the reader holds |
| `ProtocolAuth.DecodeServerChallenge` | pkg/protocol/auth.go:61-75 | The three reads decode as the parser does on the whole stream, for every chunking |
| `ProtocolAuth.DecodeAuthResult` | pkg/protocol/auth.go:134-158 | The reads decode as the parser does, both error cases told apart; an OK takes one buffered byte and no more |
| `ProtocolAuth.DecodeErrorText` | pkg/protocol/auth.go:142-155 | An error text of at most 1024 bytes after its length, read for every chunking; too long and cut off are told apart |
| `Handshake.AlwaysCompletes` | pkg/router/auth.go:54-162 | Between honest endpoints with a fresh challenge every run of deliveries, fragmented at will, is bounded in length, and wherever it stands it can go on or both sides have succeeded |
| `Handshake.QuiescentIsDone` | pkg/client/client.go:124-185 | When nothing is in flight the server has accepted this key and its next byte is the first frame byte, and the client has connected and its next byte is the first reply byte |
| `Handshake.NextKeepsInv` | pkg/client/client.go:134-184 | Each delivery keeps both directions prefixes of the undisturbed streams and of what has been written |
| `Handshake.ClientOnPrefix` | pkg/client/client.go:134-184 | What the client has written after any prefix of the server's stream, to the byte |
| `Handshake.ServerOnPrefix` | pkg/router/auth.go:54-162 | What the server has written after any prefix of the client's stream, to the byte |
| `Handshake.SameSignedData` | pkg/client/auth.go:21-31 | Both sides have then built byte-identical signed data |
| `Agreement.InjectiveAgreement` | pkg/router/auth.go:121-162 | In every run with an active attacker, a server session that accepted an honest key has exactly one client session that agrees with it on key, challenge, time, server and channel, and that client session agrees with no other |
| `Agreement.AcceptedHasPartner` | pkg/router/auth.go:130-138 | What verified under an honest key was signed, field for field, by one of that key's client sessions |
| `Agreement.SignedIsWritten` | pkg/client/client.go:134-164 | For every input the client writes its hello and a signature over exactly what the session counts as signed |
| `Agreement.SignedOnce` | pkg/client/client.go:150-164 | A client session signs one challenge at most: more input never changes which |
| `Agreement.RunKeepsInv` | pkg/client/auth.go:12-38 | Every step, the attacker's included, keeps every honest signature that of a client session and every acceptance partnered |
| `Agreement.VerdictIsFinal` | pkg/router/router.go:178-184 | No later step changes a session that has accepted |
| `Bytes.BigEndianDigit` | pkg/protocol/data.go:33-44 | The i-th byte of a length or time is its digit of weight 256 to the power of the bytes behind it |
| `ProtocolData.ParseFrameExact` | pkg/protocol/data.go:17-96 | A stream decodes to a message and a rest if and only if it is that message's frame and the rest, within the limits |
| `ProtocolData.ParseClientFrameExact` | pkg/protocol/data.go:61-96 | The same for the decoder's own limit of 65536 |
| `ProtocolData.ClientFrameRoundTrip` | pkg/protocol/data.go:17-96 | Encode then decode is the identity whatever follows the frame |
| `ProtocolData.ClientFrameCanonical` | pkg/protocol/data.go:61-96 | A decoded message can be encoded again exactly when its id is at most 256 bytes, and its encoding is the bytes consumed |
| `ProtocolData.ClientFramesPrefixFree` | pkg/protocol/data.go:17-58 | No valid frame is a proper prefix of another |
| `ProtocolData.CutClientFrame` | pkg/protocol/data.go:61-74 | A frame cut anywhere is incomplete, never misread |
| `ProtocolData.CutFrame` | pkg/protocol/data.go:61-74 | The same under any limit, a frame over the limit being refused once its prefix is there |
| `ProtocolData.ParseFramesFirst` | pkg/protocol/data.go:61-96 | A stream that starts with frames decodes to their messages first, whatever follows |
| `ProtocolData.ParseFramesOfPrefix` | pkg/protocol/data.go:17-96 | Any prefix of what an encoder wrote decodes, under any limit, to a prefix of its messages |
| `ProtocolData.ClientStreamPrefix` | pkg/protocol/data.go:61-96 | A stream of frames cut anywhere decodes to a prefix of its messages and one incomplete frame |
| `ProtocolData.ParseServerFrameExact` | pkg/protocol/data.go:104-139 | A stream decodes to some data if and only if it is its frame and a rest, and the data is at most 65536 bytes |
| `ProtocolData.CutServerFrame` | pkg/protocol/data.go:123-136 | A server frame cut anywhere is incomplete, never misread |
| `ProtocolData.ServerStreamPrefix` | pkg/protocol/data.go:123-139 | Any prefix of a stream of server frames decodes to a prefix of what was sent |
| `ProtocolData.EncodeClientMessage` | pkg/protocol/data.go:17-58 | A refused message writes nothing; an accepted one puts its frame on the wire, cut where one of the five writes fails |
| `ProtocolData.DecodeClientMessage` | pkg/protocol/data.go:61-96 | The reads decode as the parser does on the whole stream, each error included, for every chunking |
| `ProtocolData.EncodeServerMessage` | pkg/protocol/data.go:104-120 | Over-long data writes nothing; the rest becomes its frame, cut where writing fails |
| `ProtocolData.DecodeServerMessage` | pkg/protocol/data.go:123-139 | The reads decode as the parser does on the whole stream, for every chunking |
| `Hex.CheckKey` | pkg/router/message.go:37-48 | Accepts exactly the strings of 64 hex digits of either case |
| `Hex.ValidKeyText` | pkg/router/message.go:37-48 | A valid recipient is 64 characters of the alphabet of hex digits, written out |
| `Hex.EncodeAt` | pkg/router/peer.go:54 | Each byte of a key becomes the digits of its halves, the high one first |
| `Hex.SubjectText` | pkg/broker/subscriber.go:45-47 | A subject is the prefix's text and the address |
| `Hex.EncodeIsLowerHex` | pkg/router/peer.go:54 | An encoded key consists of lower-case hex digits |
| `Hex.DecodeEncode` | pkg/router/peer.go:54 | The key an address names is the key it was made from |
| `Hex.EncodeDecode` | pkg/router/message.go:37-48 | A hex string is the address of the key it names if and only if it has no upper-case digit |
| `Hex.EncodeInjective` | pkg/router/peer.go:54 | Distinct keys have distinct addresses |
| `Hex.EncodeIsValid` | pkg/router/message.go:37-48 | Every key's address passes the recipient check |
| `Hex.Addressing` | pkg/broker/subscriber.go:45-47 | An accepted recipient reaches a key's subject if and only if it names that key without upper-case digits |
| `Hex.NoInjection` | pkg/router/message.go:33-48 | No accepted recipient contains a subject separator, a wildcard or a space |
| `Wire.Utf8Exact` | pkg/router/message.go:129-133 | A string is UTF-8 if and only if it is the encodings of some Unicode scalar values, one after the other |
| `Wire.EncodedAsRecords` | pkg/message/message.proto:6-12 | The encoded message as records with field numbers 1 to 5 and their wire types, default values without a record |
| `Wire.VarintDigit` | pkg/message/message.proto:6-12 | The i-th byte of a varint is its digit of weight 128^i, with the high bit on all but the last |
| `Wire.VarintRoundTrip` | pkg/message/message.proto:6-12 | Reading a written base-128 number gives it back, whatever follows |
| `Wire.VarintSize` | pkg/message/message.proto:6-12 | A number takes at most k bytes if and only if it is below 128^k |
| `Wire.ReadLenField` | pkg/message/message.proto:6-12 | Reading a written length-delimited field, or one omitted as empty, sets that field and goes on with what follows |
| `Wire.ReadTimeField` | pkg/message/message.proto:6-12 | Reading a written time gives it back, zero and negative times included |
| `Wire.RoundTrip` | pkg/message/message.proto:6-12 | Unmarshalling what was marshalled is the identity on all five fields |
| `RouterMessage.RefinesDecoder` | pkg/router/message.go:57-111 | The router accepts a message at the front of a stream if and only if the decoder does, the recipient is hex and the id at most 256 bytes; the same fields, the same bytes consumed |
| `RouterMessage.SameDecision` | pkg/router/message.go:57-111 | Decoder and router decide alike on every stream, or the decoded message breaks one of the router's two extra demands |
| `RouterMessage.LimitsCompared` | pkg/router/message.go:62-66 | With a configured limit next to the protocol's own, the smaller one decides |
| `RouterMessage.ReadBody` | pkg/router/message.go:57-84 | The prefix is read into the front of a dirty buffer, checked, and overwritten by exactly the body; each error is the specified one |
| `RouterMessage.ParseInPlace` | pkg/router/message.go:86-111 | Recipient, id and the place of the payload are those of the parsed body |
| `RouterMessage.PublishAs` | pkg/router/message.go:115-143 | What is published is a copy of the payload the buffer held at that moment, under this sender; the pooled message is reset on every path |
| `RouterMessage.HandleMessage` | pkg/router/message.go:52-144 | Error, publications and unread rest are a function of the stream and the surroundings; old contents of buffer and pooled message do not matter |
| `RouterMessage.StepRefines` | pkg/router/message.go:52-144 | One handled message is one step of the stream's publications, described by the decoder alone |
| `RouterMessage.Round` | pkg/router/router.go:222-244 | One round of the loop publishes the first of the stream's publications or ends it |
| `RouterMessage.RelaysAll` | pkg/router/router.go:222-244 | While nothing stops a connection each of its frames is published, in order, with its own clock |
| `RouterMessage.StopsExactly` | pkg/router/router.go:222-244 | A connection publishes nothing more if and only if its next message is one that stops it |
| `RouterMessage.ReadLoop` | pkg/router/router.go:222-244 | Over any stream, with any buffer of the pool at each message, a connection publishes exactly what the decoder's messages relay to, up to the first that fails |
| `Relay.RelayedExact` | pkg/router/message.go:122-133 | An acceptable message is marshalled if and only if its id is UTF-8, with the sender's address, its own fields and the clock |
| `Relay.RelayDecodes` | pkg/client/client.go:251-255 | Unmarshalling what is relayed gives sender, recipient, id, payload and time |
| `Relay.EndToEnd` | pkg/router/message.go:86-139 | Client frame, router, server frame, client: what comes out is what went in with the sender's address and the time, inside any two streams, empty id and payload included |
| `Relay.FieldSize` | pkg/message/message.proto:6-12 | What a length-delimited field adds to its content, for every length |
| `Relay.TimeSize` | pkg/message/message.proto:6-12 | What the time takes: six bytes at most until the year 3058, and exactly when six |
| `Relay.RelaySize` | pkg/router/message.go:122-129 | The size of a relayed message, exactly |
| `Relay.GrowthExact` | pkg/router/message.go:122-129 | A relayed message is at most 79 bytes longer than its frame, and 79 exactly when id, payload and clock reach 128, 16384 and 2^28 |
| `Relay.SafeLength` | pkg/protocol/data.go:104-107 | A frame length is certain to fit the recipient's frame if and only if it is at most 65536 - 79 |
| `PeerQueue.QueueSafety` | pkg/router/peer.go:91-163 | Over every interleaving each delivered message is in exactly one place; the queue is at most 1000; completed frames are a prefix of those queued, in delivery order; the close body runs at most once and whoever returns from Close finds the connection closed; nothing is dropped while open and idle; the writer ends only once closeCh is up |
| `PeerQueue.DropNeedsFullQueue` | pkg/router/peer.go:146-163 | A peer loses a message, or is closed, only if somebody else has called Close or the callback has found 1000 messages queued, more than 1000 having been delivered |
| `PeerQueue.SelectExact` | pkg/router/peer.go:147-152 | The callback's select sends into any room and gives up exactly on a full queue of an open peer |
| `PeerQueue.NeverStuck` | pkg/router/peer.go:91-163 | A busy goroutine can take a step, or waits in Close for another one that can |
| `PeerQueue.HistoryKeepsInv` | pkg/router/peer.go:91-163 | Every action of callback, writer and closers keeps order, conservation, the Once and the loss condition |
| `PeerQueue.StepLeavesOthers` | pkg/router/peer.go:91-163 | No action moves another goroutine, touches its records or undoes a close |
| `PeerQueue.ClosedForGood` | pkg/router/peer.go:91-104 | Past closeOnce the signal is up and the connection closed; whoever waits for it waits for somebody else |
| `PeerQueue.NothingCutYet` | pkg/router/peer.go:107-121 | While the writer still writes no write has failed |
| `PeerQueue.GapFreeExact` | pkg/router/peer.go:146-151 | Over every interleaving the queue has no gap if and only if no message has been queued past a dropped one |
| `PeerQueue.GapFreeWithoutLateSends` | pkg/router/peer.go:107-151 | Neither what is queued nor what is written has a gap as long as nothing is queued once closeCh is up |
| `PeerQueue.GapDuringClose` | pkg/router/peer.go:146-151 | A history with a gap: messages 0 and 2 are queued and 1 is dropped |
| `PeerQueue.UnsubscribedExact` | pkg/router/peer.go:67-104 | A closed peer is still subscribed if and only if its Close found peer.subscriber unset |
| `PeerQueue.SkipNeedsFullQueue` | pkg/router/peer.go:67-104 | That takes a Close by the callback itself, after more than 1000 deliveries, with a full queue |
| `PeerQueue.LeakRun` | pkg/router/peer.go:67-104 | A run that ends with a closed peer still subscribed |
| `Peer.Peer.constructor` | pkg/router/peer.go:45-77 | A new peer is at the start of its history with no deadline set |
| `Peer.Peer.SetSubscriber` | pkg/router/peer.go:67-76 | At the end of newPeer the subscriber is set; if a Close has skipped the unsubscribe before, the peer is being closed and has been flooded |
| `Peer.Peer.Close` | pkg/router/peer.go:91-104 | Called by any goroutine under any schedule: if it returns the signal is up, the connection closed, and the subscription gone unless the body found the subscriber unset; otherwise another goroutine is in the body; the caller's books are untouched |
| `Peer.Peer.RunBody` | pkg/router/peer.go:92-103 | The body, with others running between its statements, ends with the Once done |
| `Peer.Peer.HandleNatsMessage` | pkg/router/peer.go:146-163 | The message is queued, or dropped on a closed peer or a full queue while somebody is closing it; left alone on an open peer it is queued if and only if there is room |
| `Peer.Peer.SelectCase` | pkg/router/peer.go:147-162 | The select once the others have run: on an open peer the message is queued exactly if there is room |
| `Peer.Peer.GiveUp` | pkg/router/peer.go:152-162 | On a full queue of an open peer the message is dropped and the peer closed |
| `Peer.Peer.Disconnect` | pkg/router/peer.go:152-162 | On a full queue the message is dropped and the peer is being closed |
| `Peer.Peer.WriteMessage` | pkg/router/peer.go:125-143 | The write succeeds if and only if the deadline stands or can be set, the frame is within its limit and the connection can take it; it starts with at least timeout - timeout/2 and at most the timeout left, though the deadline is set exactly when stale; on failure a proper prefix of the frame was written |
| `Peer.Peer.WriteUnlessClosed` | pkg/router/peer.go:125-143 | The same, if and only if the connection has not been closed meanwhile |
| `Peer.Peer.TakeAndWrite` | pkg/router/peer.go:112-118 | One message from queue to wire: written if it could be and the connection was not closed meanwhile, otherwise cut and the peer closed; the bytes and the books agree |
| `Peer.Peer.Round` | pkg/router/peer.go:107-121 | One select of the writer: left alone on an open peer it takes the head of the queue; wire, books and deadline stay in agreement |
| `Peer.Peer.WriteLoop` | pkg/router/peer.go:107-121 | Under any schedule the bytes on the connection are the frames of the messages written, in order, and part of one more after a failure; a message is cut only for one of four causes, and left alone the loop writes one message of the queue in each round until one is cut; every write was started in time |
| `RouterSlots.SlotSafety` | pkg/router/router.go:90-149 | Over every interleaving free buffers and running handlers add up to the maximum, no buffer is held twice, and returning one never blocks |
| `RouterSlots.RegistrySafety` | pkg/router/router.go:186-216 | Every registry entry is a peer of that key whose handler is still serving it; there are no more entries than slots in use; peers of handlers that are gone are closed and not registered |
| `RouterSlots.PeersAreAuthenticated` | pkg/router/router.go:178-202 | Every peer is of a key its own handler has been authenticated under |
| `RouterSlots.GoneHandlersHaveClosed` | pkg/router/router.go:137-167 | No slot is free again before the connection that held it has been closed |
| `RouterSlots.RegisteredExact` | pkg/router/router.go:204-216 | A running, open peer that nobody is replacing is registered if and only if no other handler's delete or store was taken in the run while the entry was this peer |
| `RouterSlots.TwoLivePeers` | pkg/router/router.go:204-216 | When two peers of one key are live at once, one of them has been displaced in that way |
| `RouterSlots.OrphanRun` | pkg/router/router.go:204-216 | A run after which a cleanup's delete has left a live peer out of the registry |
| `RouterSlots.OverwrittenRun` | pkg/router/router.go:204-210 | A run after which two peers of one key are live and the later store has covered the earlier |
| `RouterSlots.HistoryKeepsInv` | pkg/router/router.go:137-216 | Every action of accept loop, handlers and peers keeps the slot, peer and registry invariants |
| `RouterSlots.StepLeavesHandler` | pkg/router/router.go:154-245 | No action moves another handler or its buffer |
| `RouterSlots.HeldSlot` | pkg/router/router.go:137-142 | Two running handlers hold different buffers, and one that is done can return its own |
| `Router.Router.constructor` | pkg/router/router.go:82-96 | As many distinct buffers of 444 bytes as the limit, each with the server ID in its region |
| `Router.Router.Admit` | pkg/router/router.go:137-149 | A connection gets a handler and a buffer, or is turned away exactly when all slots are taken |
| `Router.Router.Greet` | pkg/router/router.go:178-184 | A handshake in the buffer a handler holds leaves every buffer, this one included, with its server ID, and an accepted key in its region |
| `Router.Router.Interfere` | pkg/router/router.go:154-245 | While others run, handshakes included, a handler stays where it was and its buffer keeps every byte |
| `Router.Router.Register` | pkg/router/router.go:192-210 | From creation through replacement to store under any interleaving, the key read from the buffer unchanged |
| `Router.Router.CleanUp` | pkg/router/router.go:212-216 | Delete, then close, under any interleaving |
| `Router.Router.HandleConn` | pkg/router/router.go:154-245 | From accept to the return of the buffer among other handlers: the handshake is `Run`, what is published is what the accepted stream relays under the accepted key, and the slot is free again with every buffer ready |
| `ClientLoops.SendMessage` | pkg/client/client.go:283-297 | It succeeds if and only if neither encoder nor deadline refuses the message and the connection takes it; a refused one writes nothing, another puts its frame on the wire, cut where writing fails |
| `ClientLoops.WriteLoop` | pkg/client/client.go:265-297 | For any messages and any point of failure the bytes written decode to a prefix of the valid messages in order and at most one incomplete frame |
| `ClientLoops.AttemptedParts` | pkg/client/client.go:265-281 | A message that is refused or lacks its deadline is left out, those before and after it not affected |
| `ClientLoops.AttemptedAll` | pkg/client/client.go:265-281 | If nothing is refused every message is attempted |
| `ClientLoops.MessagesParts` | pkg/client/client.go:251-255 | A frame that does not unmarshal is passed over, those before and after it not affected |
| `ClientLoops.ReadLoop` | pkg/client/client.go:223-263 | What reaches the application is the frames of the stream that unmarshal, in order, a prefix of them if it is stopped |
| `ClientLoops.ServerRecords` | pkg/router/auth.go:84-92 | The two writes of the server's handshake, a record each, leave nothing beside the second |
| `ClientLoops.ConnectAndRead` | pkg/client/client.go:111-121 | The read loop sees exactly the records after the second, which is every byte the server sent after the handshake if and only if nothing shared that record |
| `ClientShutdown.ShutdownSafety` | pkg/client/client.go:188-263 | Over every interleaving recv is closed at most once, after both loops and the connection; nothing is sent to it then; at most one message is passed on after the close signal; order is kept |
| `ClientShutdown.ClosesForCause` | pkg/client/client.go:223-281 | Over every interleaving the client begins to close only when nothing more can be read or the application has closed send |
| `ClientShutdown.NextIsReceived` | pkg/client/client.go:228-262 | Until then the read loop's own next steps pass on the next message |
| `ClientShutdown.NextIsTaken` | pkg/client/client.go:266-280 | And the write loop takes the next pending message once the one before has been sent |
| `ClientShutdown.NeverStuck` | pkg/client/client.go:188-281 | From the end of one loop until recv is closed the client can always take a step that waits for neither peer nor application |
| `ClientShutdown.ShutdownIsBounded` | pkg/client/client.go:188-281 | Once closeCh is up at most 18 steps follow, and two for each message in send and three for each the application still puts there, whoever takes them |
| `ClientShutdown.StepLowersRank` | pkg/client/client.go:188-281 | Every step after closeCh but the application's sends lowers the rank |
| `ClientShutdown.HistoryKeepsInv` | pkg/client/client.go:188-281 | Every action of the loops keeps the Once, the loop and the last-message invariants |
| `RelaySystem.RelaySafety` | pkg/router/message.go:86-139 | In every reachable state what an application has received from a session is a selection, by strictly increasing index, of the messages its stream decodes to, id and payload unchanged; From is the key the session's own handshake was accepted for, To the recipient's own address |
| `RelaySystem.FromIsGenuine` | pkg/router/auth.go:121-162 | If From is an honest key's address, a client session of that key has signed the challenge, for the server and over the channel, of the session the message came through |
| `RelaySystem.MessageIsAsSent` | pkg/protocol/data.go:17-96 | If a session's stream is what an encoder wrote, the message received is the index-th of those encoded |
| `RelaySystem.RelayedAreFirst` | pkg/router/router.go:222-244 | What a session has relayed is the first messages its stream decodes to, each once |
| `RelaySystem.StepKeepsInv` | pkg/router/peer.go:107-163 | Joining, sending, relaying, queueing, writing, failing and losing keep every session authenticated and at a frame boundary, every envelope authentic, every chain in order and every wire a prefix of its frames |
| `RelaySystem.PublishReaches` | pkg/router/message.go:135-143 | A relayed message joins the broker's queue of a subscription if and only if the recipient spells its key without upper-case digits, and no other |
| `Inboxes.QueueRefines` | pkg/router/peer.go:91-163 | Every action of a peer's goroutines is a step of its inbox, or none at all |
| `Inboxes.PublicationRefines` | pkg/router/peer.go:67-72 | A new peer is an empty inbox, and a publication joins its broker's queue |
| `Inboxes.LocalKeepsChain` | pkg/router/peer.go:107-163 | Handing over, queueing, taking, writing, failing and losing keep what is on its way in order and authentic |
| `Inboxes.LocalKeepsWire` | pkg/router/peer.go:107-143 | And the bytes written a prefix of the frames of what has been written, and of the one cut |
| `RelaySystem.SeenEnvelopes` | pkg/client/client.go:235-249 | The frames a recipient can read are those of authentic envelopes in order, however much has arrived |
| `RelaySystem.SeenContents` | pkg/client/client.go:251-262 | Those frames unmarshal to the contents of their envelopes, each explained by an authenticated session and its stream |

## Left out

- TLS, Ed25519 and NATS themselves: ideal signatures, a channel binding per session and a FIFO per subscription stand for them.
- Rate limiting (`rate.Limiter`), logging, configuration and key files, certificates, the command line and the examples. A rate limit that is hit ends the read loop like any other reason, which may come at any message.
- Timeouts as times: a read or a write may fail at any point instead. Only the peer's write deadline is modelled with a clock.
- Wire.Unmarshal: rejects unknown fields and groups where the library skips them; the five fields are read in any order, the last of each counting. Routers never write others.
- A `maxMessageSize` below 4 or from 2^32 on, which the configuration admits at `pkg/config/config.go:100`.
- RouterSlots.RegistrySafety: does not claim at most one live peer per key, which `RouterSlots.OverwrittenRun` shows to be false; `RouterSlots.RegisteredExact` and `RouterSlots.TwoLivePeers` say when it fails.
- PeerQueue.QueueSafety: does not claim that what is queued during a close is without gaps, which `PeerQueue.GapDuringClose` shows to be false; `PeerQueue.GapFreeExact` says when it is.
- Peer.Peer.Close: takes an unsubscribe to succeed; the source logs its error and goes on. Reading `peer.subscriber` while it is being assigned, a data race in the source, is one step before or after the assignment.
- ClientShutdown.ShutdownIsBounded: bounds the write loop after the close signal only in terms of what the application goes on sending, since its `select` may keep taking messages; nor is it modelled how full `recv` is.
- Agreement.InjectiveAgreement: leaves rejected server sessions open to the attacker, who can only gain by it; and does not model an honest session whose channel binding cannot be exported, which signs nothing.
- Goroutines as such: interleavings are histories of atomic actions and schedules of them, not threads.
- Waiting for handlers at shutdown: `Serve` returns without joining them, and nothing is claimed about them then.
- `DecodeClientHello` and `DecodeClientResponse`, which the router never calls: it reads those messages in place.
- Error results of the handshake: the router never sends one, and only their codec is modelled.
