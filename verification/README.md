# ChatHub wire layer, verified

This project models the byte-level and message-level core of ChatHub and proves what that core
promises. It is written in Dafny 4.11; `dafny verify dfyconfig.toml` checks all of it.

What is modelled, and the main results:

- **Frames** (`Bits.dfy`, `Utf8.dfy`, `ProtocolRegistry.dfy`, `Frames.dfy`, `StreamTheorems.dfy`,
  `FrameDecoder.dfy`, `DecoderRuns.dfy`). The class `FrameDecoder` has the fields and methods of the
  source's decoder. Its meaning is `ParseStream`, a one-pass reading of all bytes fed, and that reading
  is in turn the only way to cut a stream into encoder output and a remainder
  (`ParseIsTheReading`). From this follow: independence of chunking, round trip, byte conservation,
  symmetry of acceptance, the exact octet at which a failure appears, the latched failure and the
  65543-octet memory bound. `IsValidUtf8` decides exactly the texts of RFC 3629.
- **TLS handshake** (`Handshake.dfy`, `TlsHandshake.dfy`). A transition system over any number of
  connections whose callbacks come in any order with any error code, and the class `Shared` whose two
  callbacks make its steps. The runs are exactly the orders in which callbacks can come
  (`RunsAreExactly`), and the state of every connection and the calls of every handler are read off the
  events (`StateFollowsEvents`, `AnswersFollowEvents`).
- **Hello codecs** (`Doubles.dfy`, `Capabilities.dfy`, `Hello.dfy`, `HelloServer.dfy`,
  `HelloClient.dfy`, `HelloReading.dfy`, `HelloMessages.dfy`, `HelloAgreement.dfy`). JSON is a value
  type; client and server encoders and decoders are separate. `RequestIsWhatItSays` and
  `ResponseIsWhatItSays` say of every message whether it is accepted and as what; for each direction
  the other theorems say exactly which encoded messages arrive, and as what.
- **Canonical texts** (`Identifiers.dfy`, `Decimals.dfy`, `Ipv4.dfy`). Account names, UUIDs, sequence
  numbers and IPv4 literals.

Conventions. A `std::string` or byte vector is a `seq<Byte>`, a byte is an integer below 256, and
sizes are natural numbers; the 32-bit length field and the 64-bit sequence bound are exact. A protocol
type is its octet. Masks, shifts and ORs are defined bit by bit on natural numbers in `Bits.dfy`. A decoder's ghost field `history` records the bytes fed
and the frames handed out; it takes no part in any decision.

Four findings about the code, each with a failing input and the exact condition:

- Frames that are decoded but still queued when a fault arrives are never handed out, so what a caller
  receives depends on how the bytes were chunked. `DeliveryDependsOnChunking` shows it for a heartbeat
  followed by eight zero octets. Among callers that pop all they can, it happens for a stream exactly
  when the stream has an error and a complete frame before it (`DeliveryIsFunctionOfBytes`,
  `DeliveryIsComplete`). For one call, feeding data loses frames exactly when the bytes in hand turn
  out faulty while a frame is queued or completed by them (`FeedLosesFrames`); a caller that has popped
  everything can tell from the kept bytes and the new data alone (`DrainedFeedLosesFrames`).
- The plan for the hello step (`PRPs/M1-7-hello与capability.md`, section 6) says that a client with
  invalid local fields sends no frame. The code's `encodeHelloRequest` checks nothing and never reports
  an error; the model follows the code. `InvalidRequestsAreSent` shows a request with an invalid
  version that is accepted as a different request, and one that is rejected. `RequestAcceptance` says of
  every request whether the server accepts what the client sends and as which request. (Since the
  encoder never refuses, the plan's promise holds for exactly the valid requests,
  `OnlyValidIsRefusedIfInvalid`.)
- The two decoders do not report the same code for a body that is a JSON scalar. The server's parser
  accepts it, and its root test answers invalid_request; on the client a QJsonDocument cannot hold it,
  which counts as invalid_json. `ScalarBodyTellsThemApart` shows it for the body 42, and `StagesAgree`
  proves that scalar bodies are the only difference on one JSON value.
- Text that starts with a byte order mark (U+FEFF) is valid for every check of the code, but QString's
  conversions may take the mark off. `MarkIsLost` shows a request the server accepts that becomes another
  one when such a client sends it again. `RequestAgreement`, `RequestAltered`, `RequestNormalisation`
  and, for the other direction, `ResponseAgreement` and `ResponseNormalisation` give the condition:
  QString must keep the fields; it does when none starts with a mark, and if it drops marks only then.

Assumptions about foreign code: each asynchronous operation of Asio calls back exactly once, serialised
on its strand. The JSON libraries parse what the other one prints, reject text that is not UTF-8 and
keep integers of up to 64 bits. Boost.JSON delivers strings octet for octet. A conversion to QString,
in `fromStdString` or when QJsonDocument delivers a string, keeps UTF-8 text that does not start with
U+FEFF; nothing is assumed of other strings: whether a leading U+FEFF survives and what replaces invalid
octets is a parameter of the theorems. A QJsonDocument holds an object, an array or nothing. Every
message within the limits prints to at most 65536 bytes.

## Model

| member | source | states |
|---|---|---|
| Utf8.IsValidUtf8 | shared/include/chathub/contracts/frame.hpp:33-86 | true exactly for concatenated encodings of Unicode scalar values (sections 3 and 4 of RFC 3629) |
| Utf8.Utf8Step | shared/include/chathub/contracts/frame.hpp:45-83 | the tests on one character are exact: a text is UTF-8 iff its head passes them and the rest is UTF-8 |
| Utf8.ContinuationMask | shared/include/chathub/contracts/frame.hpp:66-70 | the mask test picks exactly the octets 10xxxxxx |
| Utf8.EncodedPasses | shared/include/chathub/contracts/frame.hpp:53-81 | every encoded scalar value passes the tests, with its length announced by the first octet, and is read back |
| Utf8.PassingIsEncoded | shared/include/chathub/contracts/frame.hpp:72-81 | what passes is the shortest-form encoding of a scalar value: no overlong form, surrogate or value above U+10FFFF |
| Utf8.EncodingsAreChars | shared/include/chathub/contracts/frame.hpp:53-81 | the encodings of scalar values are exactly the characters of the UTF8-char grammar in section 4 of RFC 3629 |
| Utf8.DecodingUnique | shared/include/chathub/contracts/frame.hpp:33-86 | the scalar values a valid text stands for are unique |
| ProtocolRegistry.FindProtocolMeaning | shared/include/chathub/contracts/protocol_descriptor.hpp:133-269 | a type is found iff a row has it; the row found has that type and a limit of at most 64 KiB |
| ProtocolRegistry.RegistryContents | shared/include/chathub/contracts/protocol_descriptor.hpp:133-269 | for every octet: whether it is a registered type, and the limit of its bodies (0 for the heartbeat 02, 65536 for 01, 04, 05, 10-1D, 30-3F, 50-5B and 80-87) |
| Frames.BigEndianInverse | shared/include/chathub/contracts/frame.hpp:188-192 | joining and splitting the 32-bit length are inverse, both ways |
| Frames.EncodeFrame | shared/include/chathub/contracts/frame.hpp:222-244 | a result iff the type is registered, the body within its limit and UTF-8; then exactly header and body |
| Frames.PushHeader | shared/include/chathub/contracts/frame.hpp:230-240 | the pushed octets are magic, version, type and the big-endian size |
| Frames.WireFormat | shared/include/chathub/contracts/frame.hpp:230-243 | the octets of any frame, written out: 43 48 01, the type, the four octets of the length, the body |
| Frames.ShiftedOctets | shared/include/chathub/contracts/frame.hpp:237-240 | the masked shifts of a size below 2^32 are its four big-endian octets |
| Frames.ShiftedLengthIsValue | shared/include/chathub/contracts/frame.hpp:187-192 | the shifted and ORed octets are the big-endian number, and no shift loses a bit |
| Frames.AcceptedIsEncoderHeader | shared/include/chathub/contracts/frame.hpp:170-201 | the decoder accepts eight octets as a header iff they are the encoder's header of a registered type and a length within its limit |
| StreamTheorems.CompleteIffEncoded | shared/include/chathub/contracts/frame.hpp:136-167 | a frame is taken off a stream iff the stream starts with the encoder's bytes of an encodable frame |
| StreamTheorems.ParseAppend | shared/include/chathub/contracts/frame.hpp:105-114 | decoding may stop after any prefix and resume from the remainder; an error stays as it is |
| StreamTheorems.VerdictMonotone | shared/include/chathub/contracts/frame.hpp:136-201 | more bytes only append frames and never change a reported error |
| StreamTheorems.Conservation | shared/include/chathub/contracts/frame.hpp:136-210 | the bytes are the encodings of the frames followed by the remainder: nothing lost, duplicated or accepted in another form |
| StreamTheorems.ParseIsTheReading | shared/include/chathub/contracts/frame.hpp:136-201 | frames, remainder and verdict are the only decomposition of a stream into encodable frames and a stuck remainder |
| StreamTheorems.StreamRoundTrip | shared/include/chathub/contracts/frame.hpp:222-244 | the concatenated encodings of any encodable frames decode to those frames, with no error and nothing left |
| StreamTheorems.EncodingInjective | shared/include/chathub/contracts/frame.hpp:222-244 | distinct frame lists never share an encoding |
| StreamTheorems.AcceptanceSymmetry | shared/include/chathub/contracts/frame.hpp:222-228 | a hand-built header and body decode to one frame iff the encoder accepts them; otherwise to no frame and the encoder's reason |
| StreamTheorems.FaultKind | shared/include/chathub/contracts/frame.hpp:169-201 | each error kind iff its own condition: magic, version, type, length in this order, and the body's encoding last |
| StreamTheorems.EarliestFailure | shared/include/chathub/contracts/frame.hpp:136-162 | a failing stream fails exactly at the last header octet of the offending frame, or its last body octet for a UTF-8 error, and not before |
| StreamTheorems.RestIsPartialFrame | shared/include/chathub/contracts/frame.hpp:138-152 | without an error the remainder is less than a frame and at most 65543 octets |
| Decoder.FrameDecoder.FeedBytes | shared/include/chathub/contracts/frame.hpp:105-114 | keeps the invariant that popped and queued frames, verdict, error, buffer and header state are those of one pass over all bytes fed; after a failure changes nothing |
| Decoder.FrameDecoder.TryPopFrame | shared/include/chathub/contracts/frame.hpp:117-124 | hands out the oldest queued frame, or nothing once failed or empty |
| Decoder.FrameDecoder.DecodeAvailableFrames | shared/include/chathub/contracts/frame.hpp:136-167 | the loop takes off exactly the frames of the one-pass reading, stops with its verdict, and terminates |
| Decoder.FrameDecoder.ParseAndValidateHeader | shared/include/chathub/contracts/frame.hpp:170-201 | stores type and length of an accepted header, or the error of the first failing test |
| Decoder.FrameDecoder.DiscardConsumedBytes | shared/include/chathub/contracts/frame.hpp:204-210 | drops exactly the consumed prefix |
| DecoderRuns.Replay | shared/include/chathub/contracts/frame.hpp:102-219 | any sequence of feeds and pops on a real decoder gives the frames, error, buffer and header state of one pass over the bytes fed |
| DecoderRuns.ReplayBoth | shared/include/chathub/contracts/frame.hpp:102-219 | two real decoders fed the same bytes in any chunks, with any pops, decode the same frames and agree on the error; without an error also on buffer and header state; one's popped frames are a prefix of the other's |
| DecoderRuns.RunRoundTrip | shared/include/chathub/contracts/frame.hpp:104-133 | encoded frames arrive whole and in order under any chunking and any pops |
| DecoderRuns.FailureIsLatched | shared/include/chathub/contracts/frame.hpp:106-120 | once failed, no later call hands out a frame or changes frames or error |
| DecoderRuns.PopsDrain | shared/include/chathub/contracts/frame.hpp:117-124 | while not failed, popping delivers every queued frame |
| DecoderRuns.DeliveryDependsOnChunking | shared/include/chathub/contracts/frame.hpp:118 | the frames handed out, unlike those decoded, are not a function of the bytes: a concrete pair of runs differs |
| DecoderRuns.DeliveryIsFunctionOfBytes | shared/include/chathub/contracts/frame.hpp:106-120 | all callers that pop all they can receive the same frames from a stream iff the stream has no error or no frame before it |
| DecoderRuns.DeliveryIsComplete | shared/include/chathub/contracts/frame.hpp:106-120 | all callers that pop all they can receive every frame of a stream iff the stream has no error or no frame before it |
| DecoderRuns.FeedLosesFrames | shared/include/chathub/contracts/frame.hpp:105-120 | feeding data to an unfailed decoder makes some decoded frame undeliverable by any later calls iff the bytes in hand are faulty and a frame is queued or completed by them (with nothing queued, the kept bytes and the new data decide) |
| Handshake.StateFollowsEvents | chat-server/src/tls_handshake.cpp:36-93 | in every run every connection is in the state its events determine: timeout iff the timer expired before the handshake callback, otherwise ok or error by its code |
| Handshake.RunsAreExactly | chat-server/src/tls_handshake.cpp:36-93 | the runs are exactly the orders of events in which a callback belongs to a connection accepted before and is not delivered twice, so the theorems cover every interleaving |
| Handshake.HandlerIsTheAccepted | chat-server/src/tls_handshake.cpp:25-34 | connections are numbered in the order of acceptance, and each keeps the handler it was accepted with |
| Handshake.AnswersFollowEvents | chat-server/src/tls_handshake.cpp:55-93 | the handler given at any Accept event has received, at the end of any run, exactly what the events call for: nothing before its handshake callback, then the one answer due there |
| Handshake.HandshakeSafety | chat-server/src/tls_handshake.cpp:36-93 | at most one handler call; a stream with ok alone, unclosed; timeout and error only after closing; without a handler the socket ends closed |
| Handshake.CompletedIsFinal | chat-server/src/tls_handshake.cpp:39-60 | after completion nothing but the delivery of the timer callback happens to a connection, so a stream handed over is never closed |
| Handshake.EveryStepConsumes | chat-server/src/tls_handshake.cpp:36-93 | every callback uses up one owed callback: a run over n connections has at most 3n events |
| Handshake.HandshakeCompletion | chat-server/src/tls_handshake.cpp:55-93 | once its handshake callback has run, a connection's handler (if any) was called exactly once, with the answer due at that event |
| Handshake.QuietMeansAnswered | chat-server/src/tls_handshake.cpp:36-93 | when all callbacks have run, the handler of every Accept event has been called exactly once, with the answer due at its handshake callback |
| TlsHandshake.Shared.constructor | chat-server/src/tls_handshake.cpp:32-37 | a fresh shared state that holds the given open stream, with both callbacks owed |
| TlsHandshake.Shared.TimerCallback | chat-server/src/tls_handshake.cpp:38-53 | makes the timer step, and never dereferences a moved-out stream |
| TlsHandshake.Shared.HandshakeCallback | chat-server/src/tls_handshake.cpp:57-93 | makes the handshake step; the stream passed to the handler is this connection's own, moved out of the state; without a handler it is destroyed |
| TlsHandshake.Drive | chat-server/src/tls_handshake.cpp:11-94 | for any number of connections, real objects that receive the callbacks of a run call the handler of each Accept event exactly as the events call for; the stream handed over is the connection's own, shared with no other, and open |
| Capabilities.Intersect | shared/include/chathub/contracts/hello.hpp:69-77 | the result is the intersection of the two sets |
| Capabilities.LessMeaning | chat-server/src/hello_codec.cpp:128-132 | in the order of the walk the first differing octet decides and a proper prefix comes first |
| Capabilities.InOrderMeaning | chat-server/src/hello_codec.cpp:128-132 | walking a set visits each element once in strictly ascending order |
| Doubles.LargeStaysLarge | client-qt/src/hello_codec.cpp:125-128 | no integer from 2^53 upwards is rounded into the exact range, so the client's bound test cannot be passed by rounding |
| HelloReading.IntegerReadsBack | client-qt/src/hello_codec.cpp:120-144 | an integer passes the tests on its double iff it lies in the range, and is read back exactly |
| HelloServer.DecodeHelloRequest | chat-server/src/hello_codec.cpp:32-116 | result and stored request id are `RequestOf` and `RequestIdAfter`, whose meaning the next row states |
| HelloMessages.RequestIsWhatItSays | chat-server/src/hello_codec.cpp:32-116 | for every body: it is accepted as this id and request iff it is a readable object of at most 65536 bytes whose members are this id, a data object and in it this version, this platform and an array of at most 16 strings of 1 to 64 bytes that are these capabilities, whatever other keys there are |
| HelloServer.EncodeHelloResponse | chat-server/src/hello_codec.cpp:118-140 | builds the envelope with the echoed id, ok = true and the seven data fields, capabilities in order |
| HelloMessages.EncodedResponseSays | chat-server/src/hello_codec.cpp:118-140 | the message has exactly the keys of the envelope and the seven data keys, integers for numbers, and each capability once in ascending order |
| HelloClient.EncodeHelloRequest | client-qt/src/hello_codec.cpp:41-61 | always succeeds, with the envelope of the id and the three data fields, each string as QString takes it: kept when it is UTF-8 without a leading U+FEFF |
| HelloMessages.EncodedRequestSays | client-qt/src/hello_codec.cpp:41-61 | for plain fields the message has exactly the keys of the envelope and the three data keys, with the given values and each capability once in ascending order |
| HelloClient.DecodeHelloResponse | client-qt/src/hello_codec.cpp:63-174 | result and stored request id are `ResponseOf` and `RequestIdAfter`, whose meaning the next row states |
| HelloMessages.ResponseIsWhatItSays | client-qt/src/hello_codec.cpp:63-174 | for every body: it is accepted as this id and response iff it is a readable object of at most 65536 bytes with this id, `ok` = true and a data object with this version, these five numbers as an integer or an equal double within their ranges, and these capabilities as above |
| HelloClient.ReadUint32 | client-qt/src/hello_codec.cpp:133-144 | succeeds iff the field denotes an integer from 0 to 2^32-1, and then stores that integer; otherwise the target is kept |
| HelloClient.WholeMeaning | client-qt/src/hello_codec.cpp:120-140 | the tests on the double pass iff the field denotes an integer from 0 to the limit, which is then read |
| Hello.ReadCapabilities | chat-server/src/hello_codec.cpp:96-113 | the set of the array's strings, iff there are at most 16 items of 1 to 64 bytes, duplicates counted |
| HelloAgreement.RequestAgreement | chat-server/src/hello_codec.cpp:32-116 | the server recovers id and request from the client's encoding iff there is an id, all fields are within the limits and QString keeps them; it does when no field starts with U+FEFF and, if it drops that mark, only then |
| HelloAgreement.RequestAcceptance | client-qt/src/hello_codec.cpp:41-61 | of every request: the server accepts its encoding iff there is an id and the fields as QString keeps them are within the limits, and then has the id and that kept request |
| HelloAgreement.RequestAltered | client-qt/src/hello_codec.cpp:43-53 | the server accepts a request other than the client's iff QString changed it and the result is within the limits; if QString drops leading marks, iff a field is not UTF-8 or starts with one |
| HelloAgreement.InvalidRequestsAreSent | client-qt/src/hello_codec.cpp:41-61 | two invalid requests that are sent: one is accepted as a different request, one is rejected |
| HelloAgreement.AcceptedRequestInBounds | chat-server/src/hello_codec.cpp:71-113 | every request the server accepts is within all field limits |
| HelloAgreement.RequestNormalisation | client-qt/src/hello_codec.cpp:41-61 | an accepted request, encoded by the client, is accepted again with equal fields and id iff QString keeps it; it does when no field starts with U+FEFF and, if it drops that mark, only then |
| HelloAgreement.MarkIsLost | client-qt/src/hello_codec.cpp:44-51 | a message the server accepts that arrives changed when sent again by a client whose QString drops the mark |
| HelloReading.KeptSetIffUnmarked | client-qt/src/hello_codec.cpp:49-52 | a capability set within the limits survives the dropping of marks iff no element starts with one |
| HelloAgreement.ResponseAcceptance | client-qt/src/hello_codec.cpp:63-174 | of every response: the client accepts the server's encoding iff there is an id and the fields as QString reads them are within the limits, and then has the id and that response |
| HelloAgreement.ResponseAgreement | client-qt/src/hello_codec.cpp:63-174 | the client recovers id and response iff there is an id, all fields are within the limits and QString keeps the strings; a response without a leading U+FEFF in a string is never taken for another one |
| HelloAgreement.ResponseNormalisation | client-qt/src/hello_codec.cpp:63-174 | an accepted response is carried unchanged by the server's encoding iff QString keeps it |
| HelloAgreement.NegotiationArrives | shared/include/chathub/contracts/hello.hpp:68-77 | negotiated capabilities arrive as QString's reading of the intersection, which is the exact intersection when the server's strings do not start with U+FEFF |
| HelloAgreement.StagesAgree | client-qt/src/hello_codec.cpp:65-91 | on one JSON value the two decoders report the same first-stage code iff the body is not a scalar; for a scalar the server says invalid_request and the client invalid_json |
| HelloAgreement.ScalarBodyTellsThemApart | client-qt/src/hello_codec.cpp:71-78 | the body 42 gives invalid_request at the server and invalid_json at the client |
| HelloAgreement.StagesOnOneBody | client-qt/src/hello_codec.cpp:65-91 | for one body on both ends the codes agree iff it is not a scalar and its id is a UUID for both parsers or for neither |
| HelloAgreement.CodesByStage | chat-server/src/hello_codec.cpp:35-59 | each of the three codes of each decoder is reported iff its stages fail, the first failing stage deciding; the last stage fails iff the body says no request (response) |
| HelloAgreement.RequestIdEffect | client-qt/src/hello_codec.cpp:82-92 | the request id is unchanged up to the id check, with the code of each decoder's own stage, and the message's own afterwards, even when a later field is rejected |
| Identifiers.CheckAccountName | shared/include/chathub/contracts/ids.hpp:23-41 | true exactly for 4 to 32 letters and digits starting with a letter |
| Identifiers.AccountNameForm | shared/include/chathub/contracts/ids.hpp:23-41 | the accepted names are exactly a letter followed by 3 to 31 letters and digits |
| Identifiers.ParseAccountName | shared/include/chathub/contracts/ids.hpp:86-91 | the lower-case form of a valid name, nothing otherwise |
| Identifiers.AccountNameIdempotent | shared/include/chathub/contracts/ids.hpp:83-93 | a stored name equals the name given ignoring ASCII case, has no upper-case letter and parses to itself |
| Identifiers.AccountNameIdentity | shared/include/chathub/contracts/ids.hpp:85-91 | two names have equal values iff they are equal ignoring ASCII case |
| Identifiers.CheckUuid | shared/include/chathub/contracts/ids.hpp:44-71 | true exactly for the lower-case 8-4-4-4-12 form with version 4 and the variant bits 10 (sections 4.1.1 and 4.1.3 of RFC 4122) |
| Identifiers.UuidGroups | shared/include/chathub/contracts/ids.hpp:44-71 | the accepted texts are exactly five groups of 8, 4, 4, 4 and 12 lower-case hexadecimal digits joined with hyphens, the third starting with 4 and the fourth with 8, 9, a or b |
| Identifiers.UuidLoweringIsIdentity | shared/include/chathub/contracts/ids.hpp:106-111 | lowering changes nothing in an accepted UUID |
| Identifiers.ParseUuid | shared/include/chathub/contracts/ids.hpp:106-111 | the value of an accepted UUID is the input itself |
| Decimals.PrintedIsCanonical | shared/include/chathub/contracts/ids.hpp:156-158 | the printed form is a canonical decimal of the very value |
| Decimals.PlaceValue | shared/include/chathub/contracts/ids.hpp:141-146 | the value read is the place value: a digit before k others counts 10^k times |
| Decimals.FromChars | shared/include/chathub/contracts/ids.hpp:141-146 | reads the longest digit prefix; error iff it is empty or exceeds 2^64-1 |
| Decimals.ParseSeq | shared/include/chathub/contracts/ids.hpp:137-148 | accepts exactly the canonical decimals up to 2^64-1, with their value |
| Decimals.SeqRoundTrip | shared/include/chathub/contracts/ids.hpp:137-158 | a text parses to v iff it is the printed form of v and v fits 64 bits |
| Ipv4.IsIpv4Literal | tools/pki/src/dev_ca.cpp:192-216 | accepts exactly the four decimals 0..255 joined with dots; terminates |
| Ipv4.OctetIsDecOctet | tools/pki/src/dev_ca.cpp:200-209 | a part is the decimal of an octet iff it matches the dec-octet rule in section 3.2.2 of RFC 3986 |
| Ipv4.IsIpv4AddressGrammar | tools/pki/src/dev_ca.cpp:192-216 | the accepted texts are exactly those of the IPv4address rule in section 3.2.2 of RFC 3986 |
| Ipv4.DottedStep | tools/pki/src/dev_ca.cpp:196-214 | a text is n octets iff its first part is an octet and what follows the dot is n-1 octets |
| Ipv4.JoinInjective | tools/pki/src/dev_ca.cpp:360-363 | the octets of a dotted text are unique |
| Ipv4.InspectSan | tools/pki/src/dev_ca.cpp:351-368 | lists every 4-byte address once, in the order of the entries, in dotted form, and nothing else; reports DNS and 16-byte entries |
| Ipv4.SanIpsAreLiterals | tools/pki/src/dev_ca.cpp:359-363 | every rendered SAN address is accepted as an IPv4 literal and shows the octets of an entry |

## Left out

- The input buffer of a decoder after a failure: it keeps the rest of the failing chunk and depends on chunking.
- Memory, moves and iterators of the standard containers: vectors and strings are value sequences held in fields.
- JSON text: printing, parsing, duplicate keys, nesting limits and lone surrogate escapes are the libraries' affair; codecs work on JSON values.
- HelloClient.EncodeHelloRequest: what QString makes of octets that are not UTF-8 or start with U+FEFF is an arbitrary function parameter, because Qt decides it.
- The keys of JSON objects are taken as written on both ends; a key with a leading U+FEFF is not considered.
- The order of keys in a JSON object, and the text of error details: no decoder looks at them.
- The other columns of the protocol registry (name, direction, states, capability, timeout, response): the frame layer does not read them.
- asyncServerHandshake's strand, timer duration and TLS itself: only the order and error codes of the callbacks matter, and all are allowed. That destroying a stream closes its socket is taken from Asio.
- A handler that throws or calls back into the same state during its call.
- Certificate issuing and the rest of certificate inspection, TLS context loading and the client's TLS configuration: calls into OpenSSL and Qt.
- isSnakeCaseCode, Outcome's accessors and the fingerprint text: nothing in the wire path uses the first, and the others copy a value or its hexadecimal digits without deciding anything.
- The session, heartbeat and business layers: the repository only plans them.
