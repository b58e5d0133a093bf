# A verified model of a WebRTC relay server

The server takes one publisher per stream and relays its media to any number of players. Peers are
set up over HTTP, find each other with STUN over one UDP socket, and exchange media through a foreign
WebRTC library. This Dafny project models the two parts of the server that hold its logic, and proves
what they promise.

**The STUN engine** (`src/Stun.cpp`, `src/Stun.h`, `src/Utils.h`, `src/Utils.cpp`). The parser, the
printer and the authenticator are methods of a class `Stun` that work on byte arrays in place, with the
loops, the 16-bit cursor arithmetic and the temporary edits of the header that the C++ code has. Each
is proved against a function on byte sequences, and the functions are proved to be right, the wire format
also on literal bytes that do not name the program's own constants and rules: the parser
accepts a message grammar exactly, the printer is its inverse, signer and checker agree, the table-driven
CRC is polynomial division, and a burst of up to 32 bits never passes the FINGERPRINT.

| file | contents |
|---|---|
| `Words.dfy`, `Bytes.dfy` | bytes, words, big-endian fields, padding, writes into an array |
| `CrcTable.dfy`, `Division.dfy`, `Crc32.dfy` | the CRC table, long division over GF(2), the checksum |
| `Attributes.dfy`, `Message.dfy` | attribute lists, the message grammar, the parser as a function |
| `Encoding.dfy`, `RoundTrip.dfy` | the printed message as a function of the fields; parsing undoes printing |
| `Authentication.dfy`, `MappedAddress.dfy`, `Bursts.dfy` | signing and checking, XOR-MAPPED-ADDRESS, burst errors |
| `Limits.dfy` | inputs at which a property fails |
| `Fingerprints.dfy`, `Standard.dfy`, `Credentials.dfy`, `WireFormat.dfy` | the same format in literal bytes: the FINGERPRINT, what is accepted and what it means, who is let in, what is written |
| `Writer.dfy`, `Stun.dfy` | the imperative printer, parser and authenticator |
| `Timestamps.dfy` | wrapping 32-bit timestamps |

**The sessions** (`src/rtc_server.cpp`, `src/signalling.cpp`, `src/scache.cpp` and the peer classes). The
classes of `Server.dfy` are the server's own objects and its three maps; every handler is proved to take
exactly one step of the state machine of `Session.dfy`, whose state is the snapshot of those objects, and
the server's ghost history is the run of all steps so far: what is proved of every run is proved of the
objects. `Runs.dfy` holds the invariant of the object graph and the routing tables. `Histories.dfy`, `Traces.dfy` and
`Relay.dfy` then say what the state is after any run, from the events of the run alone: who publishes a
stream, who owns an address, which packets a peer was handed, which frames a player got; `KeyFrames.dfy`
adds connection states and key-frame requests. `Joining.dfy` joins the two parts: a Binding request written
by the STUN engine binds its address and is delivered.

Two assumptions are part of this model. A handler is one atomic step, and callbacks of a peer connection
run only between steps. `Interleaving.dfy` shows the first one is needed: a publish request writes its
response between its check and its effect, and two interleaved requests replace the publisher. Second, the
subclasses `RtcPublisher` and `RtcPlayer` are one class with a flag.

Results that say the code does less than one might think, each with its exact condition:

- An error code survives printing and parsing iff it is below 25600 (`ErrorCodeRoundTrip`).
- A printed message is accepted iff its type is below 0x0300, because `IsStun` looks only at the first byte
  (`WireRoundTrip`); BINDING messages always are. A success response to an accepted message is accepted iff
  the method is below 0x080 (`ResponseIsAcceptedIff`), so the response to an accepted request of type 0x0200
  is not (`HighMethodResponseIsRejected`).
- Printing a parsed message, parsing and printing again gives the same bytes iff the message is not an
  error response whose nonzero code is a multiple of 25600 (`NormalForm`); ERROR-CODE with class 255 and
  number 100 is such a message (`WrappedErrorIsNotStable`).
- The parser's 16-bit cursor reaches the end of an attribute iff that end is at most 65532 (`CursorStep`).
- A message changed by a burst before its FINGERPRINT is accepted iff its header is right, its attributes are
  legal, and no attribute starts where the FINGERPRINT stands (`BurstIsAcceptedIff`). A burst that changes no
  attribute's length field is always rejected (`BurstIsRejected`); one flipped bit in a length field can make
  an attribute swallow the FINGERPRINT (`LengthBurstCanPass`).
- A player's key-frame request reaches a publisher always, and a publisher with a peer connection iff its
  creation gave it one (`CallbacksFindPublisher`). A stream can be published without one, and then a player's
  connection cannot be handled (`ConnectionNeedsPublisher`).

The comment at `src/Stun.h:111` bounds usernames by 513 bytes; the code enforces no bound, and the proofs use
the larger one the 16-bit fields need. The closing assertion of the printer is commented out in the source
(`src/Stun.cpp:759`); here it is proved.

## Model

| member | source | states |
|---|---|---|
| Bytes.Be2Inverse | src/Utils.h:119-141 | two bytes in network order read back as a 16-bit value exactly when they are the two bytes written for it |
| Bytes.Be4Inverse | src/Utils.h:127-154 | the same for four bytes |
| Bytes.Be8Inverse | src/Utils.h:132-165 | the same for eight bytes, read as two halves and written byte by byte |
| Bytes.Set2Bytes | src/Utils.h:138-141 | overwrites exactly the two bytes of the field |
| Bytes.Set4Bytes | src/Utils.h:149-154 | overwrites exactly the four bytes of the field |
| Bytes.Set8Bytes | src/Utils.h:156-165 | overwrites exactly the eight bytes of the field |
| Bytes.CursorStep | src/Stun.cpp:252-253 | the 16-bit cast and padding reach the padded end of an attribute iff that end is at most 65532 |
| CrcTable.TableIsGenerated | src/Utils.cpp:16-50 | all 256 table entries are eight steps of the reflected division by 0xEDB88320 on their index |
| Division.RegisterDivides | src/Utils.h:234-243 | feeding bits into a 32-bit register leaves the remainder of the polynomial long division of those bits, masked by the start value and extended by 32 zeros |
| Division.FeedInjective | src/Utils.h:238-240 | two different CRC registers stay different whatever follows |
| Crc32.NextByteFeeds | src/Utils.h:239-239 | one table look-up does what feeding the eight bits of the byte does |
| Crc32.GetCRC32 | src/Utils.h:234-243 | the loop returns the checksum of the first `size` bytes |
| Crc32.CrcIsFrameCheck | src/Utils.h:234-243 | the checksum of every byte sequence is its frame check sequence: complement the first 32 bits, append 32 zeros, divide by the generator polynomial, complement the remainder |
| Crc32.BurstChangesCrc | src/Utils.h:234-243 | sequences of equal length that differ only inside one window of 32 consecutive bits, at any bit offset, have different checksums |
| Attributes.SplitOfRender | src/Stun.cpp:86-254 | cutting a rendered attribute list gives the list back |
| Attributes.RenderOfSplit | src/Stun.cpp:86-254 | rendering the attributes cut from a byte string gives the bytes back, so the list is unique |
| Attributes.ScanIsAdmissible | src/Stun.cpp:103-241 | the parser's two flags and length checks accept exactly the lists with legal lengths, FINGERPRINT last, and MESSAGE-INTEGRITY last or just before a last FINGERPRINT |
| Message.TypeFieldRoundTrip | src/Stun.cpp:551-556 | unpacking a packed type field gives the class and the low twelve bits of the method, and the type is below 0x4000 |
| Message.TypeFieldOnto | src/Stun.cpp:52-55 | packing what was unpacked from a type below 0x4000 gives that type |
| Message.ErrorCodeRoundTrip | src/Stun.cpp:701-706 | the eight-bit split of an error code gives it back modulo 25600, hence exactly iff it is below 25600 |
| Message.FieldsAreLastOccurrences | src/Stun.cpp:121-249 | every parsed field comes from the last attribute of its kind; a field without one keeps its default |
| Message.ParsedIffMessage | src/Stun.cpp:17-280 | a byte sequence is accepted with given fields iff it is a message of the grammar (header, padded attributes under the rules, a closing FINGERPRINT that checks) whose attributes give those fields |
| Message.FingerprintIsLast | src/Stun.cpp:210-227 | the value of a closing FINGERPRINT is the last four bytes of the message |
| Fingerprints.SealMeans | src/Stun.cpp:264-277 | the parser's FINGERPRINT comparison, bit by bit: the four bytes, each xored with its byte of 53 54 55 4E, are the frame check sequence of what precedes the attribute |
| Standard.AcceptedIff | src/Stun.cpp:17-280 | in literal bytes: accepted iff the first byte is below 3, bytes 2-3 are the length of what follows, bytes 4-7 are 21 12 A4 42, and the rest divides into attributes whose types 0008, 0009, 0024, 0025, 8028, 8029, 802A have their lengths and order and whose closing FINGERPRINT is right |
| Standard.FieldsAre | src/Stun.cpp:51-249 | in literal bytes: class and method from the bits of the first two bytes, the transaction id, and each field from the last attribute of its type 0006, 0024, 802A, 8029, 0025, 0008, 8028 or 0009 |
| Encoding.ShortUsernameFits | src/Stun.h:111-111 | with a username under 513 bytes every combination of fields fits 640 bytes |
| Encoding.SizeAgrees | src/Stun.cpp:491-548 | the size computed in the first pass is the number of bytes the second pass writes, for every combination of attributes |
| RoundTrip.WireRoundTrip | src/Stun.cpp:475-760 | over any prior buffer content, the written message is accepted iff its type is below 0x0300, and then with exactly the fields it was written from, integrity present iff due, fingerprint always |
| RoundTrip.BindingRoundTrip | src/Stun.cpp:475-760 | a BINDING message of any class is always accepted and loses nothing but an error code of 25600 or more |
| RoundTrip.ReceivedFits | src/rtc_server.cpp:104-117 | any accepted message of at most 2048 bytes can be written again |
| RoundTrip.NormalForm | src/Stun.cpp:17-280 | parse, serialize, parse keeps every field (an error code only in error responses); a second round writes the same bytes iff no error code was lost to wrapping |
| Limits.ResponseIsAcceptedIff | src/Stun.h:125-138 | a success response to an accepted message is itself accepted iff the method is below 0x080 |
| Limits.HighMethodResponseIsRejected | src/Stun.h:125-138 | a concrete accepted request of type 0x0200 whose response is rejected |
| Limits.WrappedErrorIsNotStable | src/Stun.cpp:695-708 | a concrete accepted error response with code 25600, which a second round prints with other bytes |
| Authentication.IntegrityIsLast | src/Stun.cpp:103-117 | MESSAGE-INTEGRITY of an accepted message ends at the end, or eight bytes earlier when a FINGERPRINT follows |
| Authentication.HmacSeesLengthUpToIntegrity | src/Stun.cpp:415-423 | the length field the checker's HMAC sees ends the message right behind MESSAGE-INTEGRITY, with or without FINGERPRINT |
| Authentication.SignedBytesAgree | src/Stun.cpp:711-732 | the bytes the checker hashes are the bytes the signer hashed |
| Authentication.SignThenCheck | src/Stun.cpp:378-438 | a signed request or indication is OK under password q iff the two HMACs of the signed part agree, and always under the signer's own |
| Credentials.AnswerIs | src/Stun.cpp:378-438 | for every accepted message, from its bytes: bad request iff it is a response or lacks MESSAGE-INTEGRITY or a non-empty USERNAME; else OK iff the last USERNAME is the local name, a colon and any rest, and the twenty bytes are the HMAC of the prefix with its own length; else unauthorized |
| WireFormat.WrittenIs | src/Stun.cpp:558-757 | every byte of a written message but the padding: header bits, length, cookie, id; the attributes due, in order; each value, XOR-MAPPED-ADDRESS masked bit by bit, MESSAGE-INTEGRITY over this message's own prefix; the FINGERPRINT |
| WireFormat.CarriesWhatIsDue | src/Stun.cpp:481-486 | each attribute is in the written message iff its condition holds: MESSAGE-INTEGRITY iff the class is not error response and the password not empty, XOR-MAPPED-ADDRESS iff a Binding success response has an IPv4 or IPv6 address, ERROR-CODE iff an error response has a code, and so on |
| WireFormat.PaddingIsPrior | src/Stun.cpp:571-578 | the bytes behind the username keep the prior content of the buffer |
| MappedAddress.MappedAddressRecovered | src/Stun.cpp:616-693 | unmasking XOR-MAPPED-ADDRESS with the cookie and transaction id of the message itself gives family, port and address, IPv4 and IPv6 |
| Bursts.BurstNeverPassesFingerprint | src/Stun.cpp:264-277 | after a burst of up to 32 bits before the FINGERPRINT, no message with a FINGERPRINT is accepted |
| Bursts.BurstIsAcceptedIff | src/Stun.cpp:17-280 | after such a burst the message is accepted iff header and attributes are legal and no attribute starts where the FINGERPRINT stands |
| Bursts.ByteWindowIsBurst | src/Stun.cpp:264-277 | any change inside four consecutive bytes before the FINGERPRINT is such a burst |
| Bursts.BurstIsRejected | src/Stun.cpp:86-277 | such a burst makes the message rejected whenever the length fields at the message's attribute offsets keep their value |
| Bursts.LengthBurstCanPass | src/Stun.cpp:94-119 | two concrete accepted messages that differ in one bit of a length field, the second without its FINGERPRINT |
| Writer.AddUsername | src/Stun.cpp:571-578 | appends exactly the encoded USERNAME, its padding left as the buffer had it |
| Writer.AddMapped | src/Stun.cpp:615-693 | appends exactly the encoded XOR-MAPPED-ADDRESS after masking port and address in place |
| Writer.AddError | src/Stun.cpp:695-708 | appends exactly the encoded ERROR-CODE |
| Stun.Stun.ReadAttribute | src/Stun.cpp:121-249 | fails iff the attribute's length is illegal, else sets the field the attribute gives |
| Stun.Stun.ParseAttribute | src/Stun.cpp:86-254 | one turn of the loop: rejects only what the grammar rejects, moves the cursor forward to a multiple of four inside the message |
| Stun.Stun.Parse | src/Stun.cpp:17-280 | returns null iff the grammar rejects, else an object with exactly the parsed fields; the loop ends and its closing cursor check never rejects |
| Stun.Stun.CheckAuthentication | src/Stun.cpp:378-438 | decides as specified; the received buffer ends exactly as it was on every path |
| Stun.CompareIntegrity | src/Stun.cpp:415-435 | compares with the HMAC of the prefix under the shortened length field, and writes the length field back |
| Stun.Stun.ComputeSize | src/Stun.cpp:491-548 | the first pass computes the size of the message that will be written |
| Stun.Stun.WriteBody | src/Stun.cpp:568-708 | writes exactly the body attributes and stops where the first pass said |
| Stun.Stun.WriteIntegrity | src/Stun.cpp:710-737 | signs under the shortened length field, appends MESSAGE-INTEGRITY, restores the length field |
| Stun.Stun.WriteFingerprint | src/Stun.cpp:739-757 | appends the FINGERPRINT over everything before it |
| Stun.Stun.Serialize | src/Stun.cpp:475-760 | the buffer becomes the message followed by its prior content beyond `size`; the object points into it, ready to be checked |
| Stun.Stun.CreateSuccessResponse | src/Stun.cpp:440-449 | a success response with the method and transaction id of the request and nothing else |
| Stun.Stun.CreateErrorResponse | src/Stun.cpp:451-460 | the same for an error response with its code |
| Stun.Stun.Authenticate | src/Stun.cpp:462-473 | sets the password except in an error response |
| Timestamps.NewerIsLater | src/Utils.h:291-301 | for times less than half a cycle apart, newer on the wrapped values is later; beyond half a cycle the order is reversed |
| Timestamps.NewerIsTotal | src/Utils.h:291-301 | of two distinct timestamps exactly one is newer, half a cycle apart too |
| Timestamps.HalfApart | src/Utils.h:296-297 | exactly half a cycle apart, the larger number is newer |
| Timestamps.LatestIsMaximum | src/Utils.h:303-305 | folding the latest over times in a half-cycle window gives the wrapped maximum |
| Addresses.ReadIpOfText | src/rtc_peer.cpp:427-433 | the dotted text of an IPv4 address is read back as that address |
| Addresses.KeyInLetters | src/rtc_server.cpp:44-45 | the key of 1.20.3.4 port 5, letter by letter |
| Addresses.KeyInjective | src/rtc_server.cpp:44-45 | the key "a.b.c.d:port" determines address and port |
| Runs.PublishKeeps | src/signalling.cpp:117-157 | a publish request keeps the invariant |
| Runs.PlayKeeps | src/signalling.cpp:161-201 | a play request keeps the invariant |
| Runs.ReceiveKeeps | src/rtc_server.cpp:43-86 | a received packet keeps the invariant and changes no peer's place |
| Runs.CallbackKeeps | src/rtc_peer.cpp:199-267 | every callback of a peer connection keeps the invariant and leaves maps and caches alone |
| Runs.StepKeeps | src/signalling.cpp:117-201 | every step keeps the invariant: `CanPublish` iff there is no publisher, publisher and players point back to the cache that names them, each player listed once, addresses and deliveries bound to their peer |
| Histories.After | src/signalling.cpp:117-201 | every world reached from the empty one by any run of events satisfies the invariant |
| Histories.PublisherIsFirst | src/signalling.cpp:131-154 | after any run the publisher of a stream is the peer of the first request to publish it |
| Histories.StreamsAreNamed | src/rtc_server.cpp:247-257 | after any run a stream has a cache iff anybody ever asked to publish or play it, refused or not |
| Histories.RegistrationIsFirst | src/rtc_server.cpp:211-229 | after any run a ufrag pair is registered to the first peer created with it |
| Histories.BindingIsFirst | src/rtc_server.cpp:58-70 | after any run an address belongs to the peer registered under the username of the first Binding request from it whose username was known on arrival |
| Histories.MapsOnlyGrow | src/rtc_server.cpp:43-86 | along any run no entry of the three maps is removed or rebound and no publisher is replaced |
| Traces.FeedPeer | src/scache.cpp:20-53 | the fan-out over distinct players feeds each listed one once, as it was, and nobody else |
| Traces.DeliveriesInOrder | src/rtc_server.cpp:71-86 | after any run a peer was handed exactly the packets delivered to it, in order, and sends to the source of the latest |
| Traces.SendsToOwnAddress | src/rtc_peer.cpp:417-433 | the address a peer sends to is bound to that same peer, and the peer has its sender |
| Relay.ListenersArePlayers | src/signalling.cpp:175-198 | after any run the players, their streams, connection states, ssrcs and payload types are those their own events give |
| Relay.FramesAreRelayed | src/scache.cpp:20-53 | after any run the frames a player was fed are exactly, in order and once each, the media its stream's publisher received while it was a connected player of that stream, with its own ssrc and payload type |
| Relay.MediaReachesPlayer | src/scache.cpp:25-53 | such runs exist: any media of a publisher reaches a connected player that has a peer connection, once, with the player's first ssrc and payload type |
| Relay.CallbacksFindPublisher | src/rtc_player.cpp:20-32 | a player's callbacks always reach a publisher, the first of its stream, which can serve the request iff it was created with a peer connection |
| Relay.ConnectionNeedsPublisher | src/rtc_player.cpp:20-27 | a concrete run with a publisher lacking a peer connection, after which a player's connection cannot be handled |
| Joining.SortMeans | src/rtc_server.cpp:47-59 | a packet is handled as a Binding request iff it is accepted and its first two bytes are 00 01; as malformed iff it starts like a message but is not accepted |
| Joining.RegistrationsAre | src/rtc_server.cpp:212-227 | an event changes the registrations iff it creates a peer with a peer connection and both ufrags; then the answer's ufrag, a colon and the offer's ufrag is entered for it unless taken |
| Joining.NewPeerIsReached | src/rtc_server.cpp:58-86 | after a peer is created with offer ufrag o and answer ufrag l, not registered before, a Binding request under l:o from an unbound address binds it and is delivered to that peer |
| KeyFrames.CountersAreHistory | src/rtc_player.cpp:20-32 | after any run a publisher was asked for exactly as many key frames as there were requests by, and connections of, players of the stream it first published; every peer is in the state last told; broken iff no player and told disconnected, failed or closed |
| Joining.BindingRequestIsDelivered | src/rtc_server.cpp:47-86 | in any run a Binding request printed for a registered ufrag pair is delivered: it binds an unbound source to that peer, a bound source keeps its own |
| Relay.FirstWantedIsChosen | src/rtc_peer.cpp:222-234 | a track's payload type is the one already chosen, else the first nonzero one of the wanted codec |
| Interleaving.PartsMakeTheStep | src/signalling.cpp:131-154 | the two parts of a publish request, run together, are its step |
| Interleaving.InterleavedPublisherIsReplaced | src/signalling.cpp:135-153 | two publish requests interleaved at the response both pass the check, the second replaces the first's publisher, and the invariant is lost |
| Server.RtcPeer.OnConnectionChange | src/rtc_player.cpp:20-27 | takes exactly the connection step, a key frame request for a player that connects included, and extends the run by it |
| Server.RtcPeer.OnRequestIFrame | src/rtc_player.cpp:29-32 | takes exactly the key-frame step through cache and publisher, and extends the run by it |
| Server.RtcPeer.OnRecvMediaData | src/rtc_publisher.cpp:14-18 | takes exactly the media step: a publisher's media goes to the players of its cache; extends the run by it |
| Server.RtcPeer.OnAddLocalVideoTrack | src/rtc_peer.cpp:216-238 | takes exactly the track step: payload type as specified, ssrc, nothing else; extends the run by it |
| Server.RtcPeer.OnAddLocalAudioTrack | src/rtc_peer.cpp:241-267 | the same for audio |
| Server.RtcPeer.SendPktToClient | src/rtc_peer.cpp:427-433 | sends to the address whose text and port the peer holds |
| Server.StreamCache.CacheMedia | src/scache.cpp:25-53 | the loop feeds the players as the specification does and changes nothing else |
| Server.RTCServer.GetOrCreateStreamCache | src/rtc_server.cpp:247-257 | the stream's cache, or a new one entered into the map |
| Server.RTCServer.CreateRtcPeer | src/rtc_server.cpp:124-230 | the new peer's fields, and its registration under the answer's ufrag, a colon and the offer's ufrag, an existing registration kept; -1 and no registration where peer connection or ufrags are missing |
| Server.RTCServer.HandlePublish | src/signalling.cpp:117-157 | returns -15 and changes nothing iff the run so far has a request to publish the stream, else creates a publisher, registered under its literal ufrag pair, and makes it the cache's; takes exactly the publish step and extends the run by it |
| Server.RTCServer.HandlePlay | src/signalling.cpp:161-201 | returns -15 iff the run so far has no request to publish the stream, else creates a player, registered under its literal ufrag pair, and lists it; takes exactly the play step and extends the run by it |
| Server.RTCServer.Bind | src/rtc_server.cpp:47-70 | binds the source address and drops packets as specified |
| Server.RTCServer.OnRecvClientPkt | src/rtc_server.cpp:43-86 | takes exactly the receive step (parse, bind, find the peer, set its remote address, hand it the bytes) and extends the run by it |
| Server.RTCServer.PeerAfterRun | src/rtc_server.cpp:71-86 | at any time a peer object was fed exactly the frames relayed to it by the server's run, handed exactly the packets delivered to it, sends to the source of the latest, is in the state last told, and was asked for exactly the key frames its players wanted |
| Server.RTCServer.PublisherAfterRun | src/signalling.cpp:131-154 | at any time the publisher of a cache object is the peer of the first request to publish its stream |

## Left out

- HMAC-SHA1: any function from a key and bytes to 20 bytes; the OpenSSL context is not part of this model.
- Stun.Stun.Parse: does not model the five lengths from 65536 to 65552 under a header that passes its checks, where the 16-bit cursor wraps (`CursorStep`) and the source's loop need not end; the server reads at most 2048.
- Stun.Stun.Serialize: requires that a transaction id lying in the very buffer being written starts at offset 8 or behind the header (elsewhere the source's `memcpy` overlaps or copies bytes already rewritten), and that the message is at most 65532 bytes long.
- Stun.Stun.CheckAuthentication: assumes the object refers to a whole message with its MESSAGE-INTEGRITY inside, as `Parse` and `Serialize` leave it.
- Server.RtcPeer.OnConnectionChange: requires, for a player that connects, a publisher with a peer connection, since the source would dereference a null one (`ConnectionNeedsPublisher`).
- Server.RtcPeer.OnRequestIFrame: counts the key frames asked of the foreign peer connection; the remote ssrc passed along is not recorded. It requires a publisher with a peer connection, for the same reason.
- Server.RTCServer.CreateRtcPeer: codec and SDP configuration is constant setup; the peer connection, the random ssrcs and the ufrags found in the SDP texts are parameters. The search for the ufrag (`getUfragFromSdp`) and for the stream id (`GetStreamIdFromStreamUrl`) is string handling without state.
- Server.RTCServer.HandlePublish: request parsing and the JSON answer are outside; the result of writing the response is a parameter. The null checks for -13 and -14 cannot fail.
- Handlers running at the same time, and callbacks inside a handler: one handler is one step, except in `Interleaving`.
- Address texts: `IpText` and `ReadIp` stand for `inet_ntoa` and `inet_pton`; spellings other than the canonical one are not read.
- The foreign peer connection: what is handed to it is recorded in the peer (`inbox`, `fed`, `keyRequests`).
- Remote track callbacks, ICE state flags, timers and `IsPeerTimeOut`: they set fields nothing in this model reads.
- Sockets, static files, logging, statistics, H264 dumps, `Stun::Dump`, NTP conversion, random strings: input and output, diagnostics or unused code.
