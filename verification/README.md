# A verified model of the IoT SDK's wire formats and protocol state machines

This project models, in Dafny, the parts of the embedded IoT SDK that it implements itself, and proves
what they guarantee. Each component comes as a specification on values, with the theorems about it, and
as the imperative code over fields, buffers and lists, proved to do what the specification says.

- **CoAP messages** (RFC 7252, section 3). `CoapWire` holds the encoding, the decoding, and the option
  builder with its 8-bit running number; `CoapMessage.Message` is the message struct with its setters,
  serializer, length calculator and parser. The round trip covers the whole message and says, option by
  option, when a number survives: all of them do exactly when every number but the last is below 256.
  `CoapBytes` holds both directions against the bytes that RFC 7252 prescribes.
- **The send list** of the CoAP client (compare section 4.2 of RFC 7252). `SendState` is the state
  machine of sends, acknowledgements, responses and sweeps; `SendRuns` follows one request through any
  run of it; `SendSteps` says what single calls do and counts the acknowledgements of a run;
  `SendList.Context` updates the list and the counters in place.
- **Device model**. `DmState` joins the request cache, the bounded event queue and the dispatch loop,
  whose callback may itself send requests, take replies and post events; `DmTimes` says when a request
  times out in any run; `DeviceModel.Model` is the code.
- **Base64** (RFC 4648, section 4). `Base64Spec` states the encoder and two independent decoders,
  `Base64Texts` what they do to texts of any kind, and `Base64Codec` the buffer loops.
- **AES-CBC with padding** (NIST SP 800-38A, section 6.2; RFC 5652, section 6.3) over an abstract block
  permutation. `Cbc` states the chaining and the two ways in which the SDK splits a message over two
  calls; `CbcCipher` is the code, with the chaining value in a context object.
- **ALCS server**. `AlcsKeys` is the key list in which a higher priority replaces a lower one,
  `AlcsSessions` the session table with its heartbeats, timer and log of calls, `AlcsLifetimes` how long a
  session lives, and `AlcsServer` the code.
- **Devices and topics**. `Registry` and `DeviceManager` keep the device list in the order of its ids;
  `Topics` builds topic names and takes them apart again.

`Machine` has the fixed-width integers, `Bits` the bitwise operations and `Buffers` the writing of bytes
into a buffer. A shift or a mask
of an unsigned C value is written as a division or a remainder. Lemmas with a proof of
their own carry `{:induction false}`, recursive or not, so that none leans on automatic induction. `dafny verify dfyconfig.toml` checks the whole project.

Some results describe behaviour that the code's documentation does not mention:

- `CoapWire.NumberSurvivesIff`: the running option number is eight bits wide, so an option that follows a
  number above 255 is read back under another number; `CoapWire.LargeNumberThenAnother` is such a pair.
- `CoapWire.LengthIsExactIff`: the length calculator is exact only below 2^16; `CoapWire.LengthWraps` is a
  message for which it returns 4.
- `CoapWire.TokenWithoutHeader`: a serializer without room for the header writes the token in its place.
- `CoapWire.CombinedIff`: the getter for unsigned options returns every value only into a variable that is
  zero before. `iotkit-embedded/dev_model/alcs_server.c:482-500` passes one that nobody has initialized.
- `SendState.IdsDistinctIff`: message ids repeat after 65534 of them, because the generator then returns 1
  for ever.
- `SendRuns.ListNeverFull`: the capacity test of the send list compares two addresses and never rejects, so
  the list takes any number of requests, and its 8-bit count is 0 again after 256 of them.
- `DmState.ReplyResolvesIff`: a reply takes its cached request out in any case, but the user sees it only
  if the id is positive and the event queue has room; `DmState.FirstRequestIsSilenced` and
  `DmState.FullQueueLosesReply` are the two ways to lose it. The counter starts with 0. The builds that
  report the device information when they connect spend that id on the report, which is not cached
  (`iotkit-embedded/mqtt/mqtt_api.c:259`, `iotkit-embedded/coap_cloud/iotx_coap_api.c:531`), and
  `DmState.ReportFirst` shows that no reply is then dropped for its id; with ATHOST_MQTT_REPORT_DISBALED
  defined, an MQTT build gives it to the first request.
- `DmState.TickFillsQueue`: timeouts for which the queue has no room are lost as well.
- `Cbc.AlcsIsCbcIff`: the ALCS cipher is ordinary CBC only without a full block before the last one, or
  when that block encrypts to the initialization vector; `Cbc.AlcsIsNotCbc` and `Cbc.IdentityIsNotCbc` are
  messages for which it is not.
- `AlcsKeys.FullListRefusesCloudKey`: a full list of default keys refuses a key from the cloud, which would
  have replaced all of them; `AlcsKeys.AddExactly` says when an add succeeds.
- `Topics.ServiceRoundTripIff`: a topic without a service name cannot be taken apart.

## Model

| member | source | states |
|---|---|---|
| CoapWire.MessageRoundTrip | iotkit-embedded/coap_cloud/CoAPDeserialize_common.c:108-139 | parsing the serialized bytes of a message built with at most 12 option-adds in the zero-filled receive buffer returns header, token, payload and all option values in order; each option comes back under its own number if and only if what the running number has lost before it vanishes in 16 bits, and all of them if and only if all but the last are below 256 |
| CoapWire.LargeNumberThenAnother | iotkit-embedded/coap_cloud/CoAPMessage_common.c:57-66 | a concrete pair of options whose second number is read back wrong |
| CoapWire.FrameRoundTrip | iotkit-embedded/coap_cloud/CoAPDeserialize_common.c:73-106 | the parser reads a serialized frame back, with option numbers summed modulo 2^16, and finds no payload marker after the datagram |
| CoapWire.OptionsRoundTrip | iotkit-embedded/coap_cloud/CoAPDeserialize_common.c:73-91 | the option loop reads exactly the encoded options and stops where they end, since no option starts with 0xFF |
| CoapWire.OptionRoundTrip | iotkit-embedded/coap_cloud/CoAPDeserialize_common.c:30-71 | one option, over the splits at 13 and 269 of number and length |
| CoapWire.ExtendedRoundTrip | iotkit-embedded/coap_cloud/CoAPDeserialize_common.c:42-64 | a nibble and its extension bytes give the number back |
| CoapWire.PayloadRoundTrip | iotkit-embedded/coap_cloud/CoAPDeserialize_common.c:93-106 | the payload behind its marker is read to the end of the datagram; without one the parser finds none |
| CoapWire.AccumulateBuild | iotkit-embedded/coap_cloud/CoAPMessage_common.c:57-66 | what the parser's 16-bit sums make of the builder's deltas: every value, the number received for each option, and when all numbers are the ones added |
| CoapWire.NumberSurvivesIff | iotkit-embedded/coap_cloud/CoAPMessage_common.c:57-66 | the number of one option survives if and only if the high bytes of the numbers before it add up to a multiple of 256 |
| CoapWire.AllSurviveIff | iotkit-embedded/coap_cloud/CoAPMessage_common.c:57-66 | all numbers survive if and only if all but the last are below 256 |
| CoapWire.BuildSnoc | iotkit-embedded/coap_cloud/CoAPMessage_common.c:57-67 | one more option-add appends one delta relative to the low byte of the previous number |
| CoapWire.WritesAllIffItFits | iotkit-embedded/coap_cloud/CoAPSerialize_common.c:195-222 | with room for the options behind what is written before them, a small buffer included, the serializer stays in the buffer and writes the whole message if and only if it fits; what it writes is a prefix of it once header and token fit |
| CoapWire.TokenWithoutHeader | iotkit-embedded/coap_cloud/CoAPSerialize_common.c:205-211 | inputs for which the header is skipped and the token written in its place |
| CoapWire.LengthIsExactIff | iotkit-embedded/coap_cloud/CoAPSerialize_common.c:180-193 | the length calculator returns the true length if and only if that is below 2^16 |
| CoapWire.LengthWraps | iotkit-embedded/coap_cloud/CoAPSerialize_common.c:180-193 | inputs for which it is not exact: the longest payload gives length 4 |
| CoapWire.LengthAgreement | iotkit-embedded/coap_cloud/CoAPSerialize_common.c:141-222 | a message that fits the buffer is serialized into exactly the calculated length |
| CoapWire.UintRoundTrip | iotkit-embedded/coap_cloud/CoAPMessage_common.c:94-172 | the 0, 1, 2 and 4-byte encodings read back as the 32-bit value |
| CoapWire.UintOptionThroughTheWire | iotkit-embedded/coap_cloud/CoAPMessage_common.c:134-172 | a uint option comes out of add, serialize and parse, and the getter leaves its value in a zeroed variable, when the option keeps its number and no earlier option is received under it; later options do not matter |
| CoapWire.CombinedIff | iotkit-embedded/coap_cloud/CoAPMessage_common.c:144-166 | the getter leaves every value in a variable if and only if the variable is zero before |
| CoapWire.FindOptionIff | iotkit-embedded/coap_cloud/CoAPMessage_common.c:134-172 | the search by number fails exactly when no option has it |
| CoapBytes.MessageLayout | iotkit-embedded/coap_cloud/CoAPSerialize_common.c:195-222 | where the bytes of every message are: the four header bytes, token, options, and behind 0xFF the payload |
| CoapBytes.OptionLayout | iotkit-embedded/coap_cloud/CoAPSerialize_common.c:41-92 | the nibbles and extension bytes of every option stand for its delta and its length, in the shortest form, and the value follows |
| CoapBytes.OptionSamples | iotkit-embedded/coap_cloud/CoAPSerialize_common.c:41-92 | the literal bytes of options on each side of 13 and 269, in number and in length |
| CoapBytes.MessageSample | iotkit-embedded/coap_cloud/CoAPSerialize_common.c:195-222 | the literal bytes of a request with id, token, path and payload |
| CoapBytes.ReadOptionLayout | iotkit-embedded/coap_cloud/CoAPDeserialize_common.c:30-71 | what the parser reads as an option from any bytes, in terms of nibbles, extensions and value, and when it runs out of the buffer |
| CoapBytes.ParserLayout | iotkit-embedded/coap_cloud/CoAPDeserialize_common.c:108-139 | what every field of an accepted datagram is, whoever wrote it, and that the payload is what follows 0xFF |
| CoapBytes.ParserSamples | iotkit-embedded/coap_cloud/CoAPDeserialize_common.c:73-106 | two datagrams of no serializer: a marker without payload, which gives an empty payload, and a nibble of 15, which is taken for the number |
| CoapBytes.TooMuchForTheStruct | iotkit-embedded/coap_cloud/CoAPDeserialize_common.c:108-139 | a token of more than eight bytes and more than twelve options leave the message struct |
| CoapBytes.GetterReadsBigEndian | iotkit-embedded/coap_cloud/CoAPMessage_common.c:144-166 | for every byte string of length 1 to 4 the getter combines the variable with its base-256 number, most significant byte first, and clears it for any other length |
| CoapBytes.AdderWritesBigEndian | iotkit-embedded/coap_cloud/CoAPMessage_common.c:94-132 | the adder writes that number in 0, 1, 2 or 4 bytes, the fewest of these |
| CoapBytes.MaxAgeOfOneDay | iotkit-embedded/coap_cloud/CoAPMessage_common.c:144-166 | 86400, as a peer sends it in three bytes and as the adder writes it in four |
| CoapBytes.LengthStopsAtWrap | iotkit-embedded/coap_cloud/CoAPSerialize_common.c:141-159 | an option of 65536 bytes ends the length sum, while a sum that wraps goes on |
| Bits.BitTables | iotkit-embedded/coap_cloud/CoAPMessage_common.c:144-166 | each bit of an or and of an exclusive or is that of its truth table |
| CoapMessage.Message.Init | iotkit-embedded/coap_cloud/CoAPMessage_common.c:274-300 | the initial message |
| CoapMessage.Message.AddOption | iotkit-embedded/coap_cloud/CoAPMessage_common.c:53-67 | appends the 16-bit delta, keeps the low byte of the number, rejects a thirteenth option and changes nothing then |
| CoapMessage.Message.StrOptionAdd | iotkit-embedded/coap_cloud/CoAPMessage_common.c:50-71 | keeps the options equal to what the recorded adds build |
| CoapMessage.Message.UintOptionAdd | iotkit-embedded/coap_cloud/CoAPMessage_common.c:94-132 | the same with the shortest of the four encodings |
| CoapMessage.Message.UintOptionGet | iotkit-embedded/coap_cloud/CoAPMessage_common.c:134-172 | finds the first option with that number and combines its bytes into what the variable holds, whatever that is; leaves the variable alone if there is none |
| CoapMessage.Message.CombineBytes | iotkit-embedded/coap_cloud/CoAPMessage_common.c:144-166 | the byte-wise combination of lengths 1 to 4 is one bitwise or with the number they stand for, and any other length clears the variable |
| CoapMessage.Message.TokenSet | iotkit-embedded/coap_cloud/CoAPMessage_common.c:229-242 | stores the token and leaves the rest of the message; rejects a null or long one |
| CoapMessage.Message.PayloadSet | iotkit-embedded/coap_cloud/CoAPMessage_common.c:262-272 | stores the payload and leaves the rest; a positive length without payload is rejected |
| CoapMessage.Message.SerializeOption | iotkit-embedded/coap_cloud/CoAPSerialize_common.c:41-92 | writes the option's encoding and nothing else, and returns its length |
| CoapMessage.Message.SerializeOptions | iotkit-embedded/coap_cloud/CoAPSerialize_common.c:94-112 | writes the encodings one after the other and nothing else |
| CoapMessage.Message.SerializeHeader | iotkit-embedded/coap_cloud/CoAPSerialize_common.c:13-26 | writes the four header bytes, or nothing if they do not fit |
| CoapMessage.Message.SerializeToken | iotkit-embedded/coap_cloud/CoAPSerialize_common.c:28-39 | writes the token, or nothing if it does not fit |
| CoapMessage.Message.SerializePayload | iotkit-embedded/coap_cloud/CoAPSerialize_common.c:162-177 | writes marker and payload, or nothing if they do not fit |
| CoapMessage.Message.Serialize | iotkit-embedded/coap_cloud/CoAPSerialize_common.c:195-222 | changes exactly the returned prefix of the buffer, to what the specification writes, in every buffer with room for the options |
| CoapMessage.Message.OptionLen | iotkit-embedded/coap_cloud/CoAPSerialize_common.c:114-138 | the length of an option's encoding, modulo 2^16 |
| CoapMessage.Message.OptionsLen | iotkit-embedded/coap_cloud/CoAPSerialize_common.c:141-159 | the sum of the option lengths modulo 2^16, zero once one of them wraps to zero |
| CoapMessage.Message.Length | iotkit-embedded/coap_cloud/CoAPSerialize_common.c:180-193 | the calculated message length |
| CoapMessage.Message.DeserializeOption | iotkit-embedded/coap_cloud/CoAPDeserialize_common.c:30-71 | reads one option and says how far it reaches |
| CoapMessage.Message.DeserializeOptions | iotkit-embedded/coap_cloud/CoAPDeserialize_common.c:73-91 | fills the option array with the options the specification reads |
| CoapMessage.Message.DeserializePayload | iotkit-embedded/coap_cloud/CoAPDeserialize_common.c:93-106 | stores the rest of the datagram behind a marker; without one keeps the old payload |
| CoapMessage.Message.Deserialize | iotkit-embedded/coap_cloud/CoAPDeserialize_common.c:108-139 | every field is the one the specification parses; under four bytes nothing changes |
| SendState.TokenInverse | iotkit-embedded/coap_cloud/iotx_coap_api.c:768-784 | reading a token back returns the counter value it was made from |
| SendState.TokensDifferIff | iotkit-embedded/coap_cloud/iotx_coap_api.c:232-241 | two tokens differ if and only if their serial numbers differ modulo 2^32 |
| SendState.IdsDistinctIff | iotkit-embedded/coap_cloud/CoAPMessage.c:42-47 | no id is zero, and the first n ids are pairwise distinct if and only if n is at most 65534 |
| SendState.RunKeepsInv | iotkit-embedded/coap_cloud/CoAPMessage.c:58-96 | in every reachable state a confirmable node's timeout value is 2^(retransmissions+1), timeouts stay within it, retransmissions are at most 2, the 8-bit count is the list length modulo 256, ids and tokens are those of the serial numbers |
| SendRuns.StepEffect | iotkit-embedded/coap_cloud/CoAPMessage.c:137-200 | what any step does to any one request, handlers that send included |
| SendRuns.Conservation | iotkit-embedded/coap_cloud/CoAPMessage.c:159-200 | in every run each added request is listed, answered or timed out, exactly one of them and once, and every answer carries the token of its request |
| SendRuns.ResponseExactness | iotkit-embedded/coap_cloud/CoAPMessage.c:168-198 | below 2^32 requests a response answers and removes the request whose token it carries and touches no other |
| SendRuns.AckExactness | iotkit-embedded/coap_cloud/CoAPMessage.c:137-149 | below 65535 ids an acknowledgement marks exactly the node it names |
| SendRuns.AckedIsFinal | iotkit-embedded/coap_cloud/CoAPMessage.c:273-304 | in every run an acknowledged node is never sent again, and a confirmable one leaves only with an answer |
| SendRuns.GoneStaysGone | iotkit-embedded/coap_cloud/CoAPMessage.c:190-197 | nothing is recorded about a request after it has left the list |
| SendRuns.Schedule | iotkit-embedded/coap_cloud/CoAPMessage.c:267-311 | a ranking function drops by one with each sweep and tells when an undisturbed node leaves and how often it was resent |
| SendRuns.ConfirmableRun | iotkit-embedded/coap_cloud/CoAPMessage.c:267-311 | a confirmable request nobody acknowledges or answers is resent on its 3rd, 8th and 17th sweep and leaves on the 17th, not before |
| SendRuns.NonConfirmableRun | iotkit-embedded/coap_cloud/CoAPMessage.c:267-311 | a non-confirmable one is never resent and leaves on its 11th sweep |
| SendRuns.FirstRequestAlone | iotkit-embedded/coap_cloud/CoAPMessage.c:267-311 | the schedule of the first request after start-up when nothing ever answers |
| SendRuns.ListNeverFull | iotkit-embedded/coap_cloud/CoAPMessage.c:85-92 | any number of written requests is listed, and the 8-bit count is that number if and only if it is below 256 |
| SendSteps.IdsAndTokens | iotkit-embedded/coap_cloud/iotx_coap_api.c:232-241 | the ids 1 to 65534 and then 1, and tokens as the bytes, lowest first, of a counter from 0x01020304 |
| SendSteps.RequestExactly | iotkit-embedded/coap_cloud/CoAPMessage.c:58-96 | what each end of a send records, and the fields of the node it lists, in literals |
| SendSteps.RequestsInOrder | iotkit-embedded/coap_cloud/CoAPMessage.c:190-197 | what a handler sends is sent one request after the other |
| SendSteps.UnmatchedResponse | iotkit-embedded/coap_cloud/CoAPMessage.c:159-200 | a response that no listed request waits for is acknowledged if it is confirmable and changes nothing else |
| SendSteps.MatchedResponse | iotkit-embedded/coap_cloud/CoAPMessage.c:159-200 | a response to a listed request is acknowledged first, then answered, and in the end just this node is gone and what its handler sent stands behind the others |
| SendSteps.ResponseAcks | iotkit-embedded/coap_cloud/CoAPMessage.c:159-166 | for every state, response and handler, matched or not: one acknowledgement with its id if it is confirmable, and none otherwise |
| SendSteps.RunAcks | iotkit-embedded/coap_cloud/CoAPMessage.c:159-166 | over every run as many acknowledgements with an id as confirmable responses with it |
| SendList.Context.MessageIdGen | iotkit-embedded/coap_cloud/CoAPMessage.c:42-47 | the next id, which stays 1 once the counter has reached 65535 |
| SendList.Context.GetToken | iotkit-embedded/coap_cloud/iotx_coap_api.c:232-241 | the counter's bytes, least significant first, and a wrapping increment |
| SendList.Context.ListAdd | iotkit-embedded/coap_cloud/CoAPMessage.c:58-96 | appends the node with its timers, whatever the length of the list |
| SendList.Context.SendRequest | iotkit-embedded/coap_cloud/iotx_coap_api.c:600-710 | generates nothing when the call is rejected; otherwise generates id and token and lists the request only if it was written |
| SendList.Context.HandleAck | iotkit-embedded/coap_cloud/CoAPMessage.c:137-149 | marks the first node with that id |
| SendList.Context.HandleResponse | iotkit-embedded/coap_cloud/CoAPMessage.c:159-200 | acknowledges a confirmable response, runs the handler of the first node with that token while it is listed, then unlinks it |
| SendList.Context.Turn | iotkit-embedded/coap_cloud/CoAPMessage.c:275-308 | one node's turn in a sweep |
| SendList.Context.SweepList | iotkit-embedded/coap_cloud/CoAPMessage.c:273-309 | the whole sweep, unlinking while it walks, equals the node-wise specification |
| DmState.RunKeepsInv | iotkit-embedded/dev_model/dm_ipc.c:77-135 | in every reachable state, whatever state of its own the callback keeps, the queue size is its length and at most the maximum, accepted events are the delivered ones followed by the queued ones, and cached ids are distinct |
| DmState.DeliverKeepsInv | iotkit-embedded/dev_model/dm_api.c:271-287 | a dispatch ends, delivers at most as many events as the queue holds, and leaves events behind only if it has delivered that many, for callbacks that treat each turn as they like |
| DmState.AtMostOneOutcome | iotkit-embedded/dev_model/dm_message.c:555-607 | over every run a request has at most one accepted and at most one delivered outcome, and every cached request is waiting, has one outcome that the queue accepted or refused, or, for the id 0, was dropped |
| DmState.ReplyResolvesIff | iotkit-embedded/dev_model/dm_message_cache.c:104-149 | the reply to a cached request removes it in any case, produces its outcome if and only if its id is positive, and one that the queue accepts if and only if the queue has room as well |
| DmState.FirstRequestIsSilenced | iotkit-embedded/dev_model/dm_message_cache.c:109-111 | a first request with the id 0 and its reply: the entry is gone and there is no outcome |
| DmState.FullQueueLosesReply | iotkit-embedded/dev_model/dm_ipc.c:88-92 | a reply that a full queue refuses: the entry is gone and the user never sees the reply |
| DmState.ReportFirst | iotkit-embedded/infra/infra_report.c:142-148 | when the first id goes to an uncached report, every cached request of any run is waiting or has exactly one outcome, accepted or refused |
| DmState.NoSecondOutcome | iotkit-embedded/dev_model/dm_message_cache.c:104-149 | once a request is not cached, no reply and no tick of any later run adds an outcome, accepted or refused |
| DmState.TickIsExact | iotkit-embedded/dev_model/dm_message_cache.c:151-176 | a tick removes exactly the entries that are ten seconds old, with one outcome each, accepted or refused by the queue |
| DmState.TickMoves | iotkit-embedded/dev_model/dm_message_cache.c:159-174 | expired entries turn into accepted or refused outcomes one to one |
| DmState.TickFillsQueue | iotkit-embedded/dev_model/dm_message_cache.c:159-174 | of the timeouts of a tick exactly the first ones are accepted, as many as the queue has room for, and the others are refused |
| DmTimes.PostExactly | iotkit-embedded/dev_model/dm_ipc.c:77-108 | an event is queued behind the others or, by a full queue, refused |
| DmTimes.RequestExactly | iotkit-embedded/dev_model/dm_message_cache.c:73-102 | a request is cached under the next id with its device, its kind and the time exactly when it expects a reply and fewer than 50 are cached |
| DmTimes.ReplyExactly | iotkit-embedded/dev_model/dm_msg_process.c:299-341 | the reply to a cached request takes out its entry and no other and reports the device of that entry |
| DmTimes.LateReplyIsIgnored | iotkit-embedded/dev_model/dm_msg_process.c:299-341 | the reply to a request that is not cached changes nothing |
| DmTimes.TickEntry | iotkit-embedded/dev_model/dm_message_cache.c:159-174 | an entry under ten seconds old stays as it is in a tick, unless the clock went back, which resets it; an older one is removed |
| DmTimes.TickReports | iotkit-embedded/dev_model/dm_message_cache.c:159-174 | a tick reports the timeout of a request, with its device and its kind, exactly when it is ten seconds old |
| DmTimes.RunOnEntry | iotkit-embedded/dev_model/dm_message_cache.c:151-176 | over any run, with any clock, a waiting request is gone once a dispatch has found it ten seconds old; unless somebody replies to it, its entry waits until then and its timeout is reported once then |
| DmTimes.SteadyClock | iotkit-embedded/dev_model/dm_message_cache.c:160-162 | with a clock that does not go back behind the request, that is the first dispatch ten seconds after it or later |
| DmTimes.RequestTimesOut | iotkit-embedded/dev_model/dm_message_cache.c:151-176 | from start-up: a request that was sent at some time is uncached with exactly one outcome after the first such dispatch, its own timeout if nobody replied, and is still cached before |
| DmTimes.DispatchCallsBack | iotkit-embedded/dev_model/dm_api.c:258-288 | a dispatch ticks first, delivers the timeout, runs the callback on each event, delivers what it posts in the same dispatch, and leaves the last to the next one |
| DeviceModel.Model.IpcInsert | iotkit-embedded/dev_model/dm_ipc.c:77-108 | appends to the queue unless it is full |
| DeviceModel.Model.IpcNext | iotkit-embedded/dev_model/dm_ipc.c:110-135 | takes the oldest event |
| DeviceModel.Model.SendRequest | iotkit-embedded/dev_model/dm_message_cache.c:73-102 | caches the request under the next id unless the cache is full |
| DeviceModel.Model.CacheSearch | iotkit-embedded/dev_model/dm_message_cache.c:104-124 | the first entry with a positive id |
| DeviceModel.Model.CacheRemove | iotkit-embedded/dev_model/dm_message_cache.c:126-149 | removes the first entry with that id, of any sign |
| DeviceModel.Model.ProcessReply | iotkit-embedded/dev_model/dm_msg_process.c:299-341 | reports to the user if the request is cached, then removes it in any case |
| DeviceModel.Model.CacheTick | iotkit-embedded/dev_model/dm_message_cache.c:151-176 | the list walk that removes entries equals the entry-wise specification |
| DeviceModel.Model.DispatchEvents | iotkit-embedded/dev_model/dm_api.c:258-288 | tick, then the delivery loop, for callbacks that treat each turn as they like |
| DeviceModel.Model.DeliverEvents | iotkit-embedded/dev_model/dm_api.c:271-287 | the loop over queue and callback, with a maximum of zero included, equals the specified delivery |
| Base64Spec.AlcsRoundTrip | iotkit-embedded/dev_model/alcs_base64.c:78-132 | decoding undoes encoding on every non-empty input |
| Base64Spec.OtaRoundTrip | wrappers/wrapper_ota.c:251-310 | the update decoder returns the same bytes with CRLF or LF breaks anywhere, and asks for exactly their number of bytes |
| Base64Spec.TwoPassBound | wrappers/wrapper_ota.c:281-305 | for every input the first pass accepts, of any length, the second pass writes no more than the computed size, which is not negative |
| Base64Spec.ScanAccepts | wrappers/wrapper_ota.c:257-276 | what an accepted input looks like: the count of symbols, at most two pads, and nothing but pads after the first |
| Base64Spec.EncodeIsPaddedRaw | iotkit-embedded/dev_model/alcs_base64.c:58-73 | writing pads over the end of the raw groups gives the encoding |
| Base64Spec.TripleSextets | iotkit-embedded/dev_model/alcs_base64.c:58-68 | the four symbols of a group are the digits in base 64, most significant first, of its three bytes as a 24-bit number |
| Base64Spec.TripleBytes | iotkit-embedded/dev_model/alcs_base64.c:109-128 | and the decoded bytes the digits in base 256 of its four sextets |
| Base64Texts.Alphabet | iotkit-embedded/dev_model/alcs_base64.c:11-19 | the 64 symbols in literals, and the pad and the line breaks |
| Base64Texts.DecodingTables | wrappers/wrapper_ota.c:234-249 | both decoding tables invert the alphabet; what they hold for any other code |
| Base64Texts.Vectors | iotkit-embedded/dev_model/alcs_base64.c:42-76 | the vectors of section 10 of RFC 4648 |
| Base64Texts.ScanIff | wrappers/wrapper_ota.c:257-276 | the first pass accepts a text if and only if it consists of symbols, pads and line breaks, with at most two pads and no symbol behind one |
| Base64Texts.OtaOutcome | wrappers/wrapper_ota.c:251-310 | how the decoding of any text ends, and the size it asks for |
| Base64Texts.DecodersAgree | wrappers/wrapper_ota.c:290-307 | on every accepted text of whole groups, canonical or not, both decoders return the same bytes |
| Base64Texts.IncompleteGroupIsDropped | wrappers/wrapper_ota.c:298-305 | one to three characters behind the last group produce nothing |
| Base64Codec.Encode64 | iotkit-embedded/dev_model/alcs_base64.c:42-76 | succeeds if and only if the encoding fits, writes it and nothing else |
| Base64Codec.BuildDecodingTable | iotkit-embedded/dev_model/alcs_base64.c:25-40 | the table inverts the alphabet and is zero elsewhere |
| Base64Codec.Decode64 | iotkit-embedded/dev_model/alcs_base64.c:78-132 | succeeds if and only if the length is a multiple of four and the output fits, writes it and nothing else |
| Base64Codec.FirstPass | wrappers/wrapper_ota.c:257-276 | computes the specified scan |
| Base64Codec.SecondPass | wrappers/wrapper_ota.c:290-307 | with the 32-bit shift register that keeps old groups, writes the specified bytes, no more of them than the first pass computed, and leaves everything behind them unchanged |
| Base64Codec.OtaDecode64 | wrappers/wrapper_ota.c:251-310 | return codes and sizes in all cases; the decoded bytes number at most the capacity, the buffer behind them is unchanged, and nothing is written when there is an error or no symbol |
| Cbc.IotxRoundTrip | iotkit-embedded/coap_cloud/iotx_coap_api.c:372-413 | decrypting what was encrypted leaves the original bytes in the buffer, followed by a zero, and returns their length |
| Cbc.AlcsRoundTrip | iotkit-embedded/dev_model/alcs_api.c:314-368 | the same for the ALCS cipher in spite of the restarted chain, with a ciphertext of the size that callers allocate |
| Cbc.AlcsIsCbcIff | iotkit-embedded/dev_model/alcs_api.c:286-312 | the ALCS cipher equals one CBC pass if and only if there is no full block before the last one or it encrypts to the initialization vector |
| Cbc.AlcsIsNotCbc | iotkit-embedded/dev_model/alcs_api.c:286-312 | one full block that does not encrypt to the initialization vector makes the two differ |
| Cbc.IdentityIsNotCbc | iotkit-embedded/dev_model/alcs_api.c:286-312 | a permutation and a message for which that happens |
| Cbc.DecryptInverts | wrappers/wrapper_crypto.c:51-105 | CBC decryption inverts encryption for every permutation, vector and data |
| Cbc.EncryptAppend | wrappers/wrapper_crypto.c:79-105 | encrypting in two calls continues the chain from the last block of the first |
| Cbc.DecryptAppend | wrappers/wrapper_crypto.c:51-77 | the same for decryption |
| Cbc.XorBlockCancels | wrappers/wrapper_crypto.c:93-102 | exclusive or with the same block twice changes nothing |
| Cbc.FinishPadded | iotkit-embedded/coap_cloud/iotx_coap_api.c:401-408 | the last byte of a padded message says where it ends |
| Cbc.EncryptedBlock | wrappers/wrapper_crypto.c:79-105 | every ciphertext block is the permutation of its plain block combined with the ciphertext block before it |
| Cbc.DecryptedBlock | wrappers/wrapper_crypto.c:51-77 | every decrypted block, in the same terms |
| Cbc.XorBlockBits | wrappers/wrapper_crypto.c:93-102 | blocks are combined bit by bit |
| Cbc.VectorsAreTexts | iotkit-embedded/coap_cloud/iotx_coap_api.c:345-370 | the two initialization vectors as texts |
| Cbc.PaddingBytes | iotkit-embedded/dev_model/alcs_api.c:286-312 | the padding is 1 to 16 bytes, up to a whole block, and each byte of it is their number |
| Cbc.AlcsBlocks | iotkit-embedded/dev_model/alcs_api.c:286-312 | the ALCS ciphertext is CBC up to the last block, which is combined with the initialization vector again |
| Cbc.AlcsPlainBlocks | iotkit-embedded/dev_model/alcs_api.c:314-368 | the same for the decryption of any data |
| CbcCipher.Aes.CbcEncrypt | wrappers/wrapper_crypto.c:79-105 | the block loop computes CBC over its blocks and leaves the last ciphertext block as the chaining value; without a block it changes nothing and its result is any |
| CbcCipher.Aes.CbcDecrypt | wrappers/wrapper_crypto.c:51-77 | the same for decryption |
| CbcCipher.IotxEncrypt | iotkit-embedded/coap_cloud/iotx_coap_api.c:345-370 | two calls on one context write one CBC pass over the padded source, and nothing else |
| CbcCipher.IotxDecrypt | iotkit-embedded/coap_cloud/iotx_coap_api.c:372-413 | buffer and length after decryption, for every length that stays in memory |
| CbcCipher.EncryptAlcs | iotkit-embedded/dev_model/alcs_api.c:286-312 | writes the ALCS ciphertext; the length is the source length rounded down to whole blocks plus one block |
| CbcCipher.DecryptAlcs | iotkit-embedded/dev_model/alcs_api.c:314-368 | buffer and length after decryption, for every length that stays in memory |
| AlcsKeys.RunKeepsInv | iotkit-embedded/dev_model/alcs_server.c:307-397 | in every reachable state all keys share one priority and the counter is the list length, at most ten; the priority never falls while the list is not empty |
| AlcsKeys.AddExactly | iotkit-embedded/dev_model/alcs_server.c:327-369 | when an add succeeds, for all inputs, and the list it leaves: replaced, extended or unchanged |
| AlcsKeys.LowerAddChangesNothing | iotkit-embedded/dev_model/alcs_server.c:340-346 | a key of lower priority neither enters nor removes anything |
| AlcsKeys.RemoveExactly | iotkit-embedded/dev_model/alcs_server.c:378-397 | a remove takes out the first key with that prefix, keeps all others in order, and changes nothing if there is none |
| AlcsKeys.FullListRefusesCloudKey | iotkit-embedded/dev_model/alcs_server.c:334-337 | ten default keys keep a key of the highest priority out |
| AlcsServer.KeyList.RemoveLowPriority | iotkit-embedded/dev_model/alcs_server.c:307-325 | the walk that unlinks keys leaves exactly those not below the priority, in order |
| AlcsServer.KeyList.Add | iotkit-embedded/dev_model/alcs_server.c:327-369 | code and new list as specified |
| AlcsServer.KeyList.Remove | iotkit-embedded/dev_model/alcs_server.c:378-397 | unlinks the first key with that prefix |
| AlcsSessions.RunKeepsInv | iotkit-embedded/dev_model/alcs_server.c:260-292 | in every reachable state ids increase strictly and are positive, there is one session per address and key, and every call so far was made by the peer that opened the session, after that and before its removal |
| AlcsServer.SessionTable.constructor | iotkit-embedded/dev_model/alcs_server.c:17-18 | the empty table at start-up satisfies that invariant |
| AlcsSessions.StaleIdIsNeverHonoured | iotkit-embedded/dev_model/alcs_server.c:477-497 | once an issued id has left the table, no request of any later run reaches a callback under it |
| AlcsSessions.RemovedIdIsNeverHonoured | iotkit-embedded/dev_model/alcs_server.c:477-497 | from start-up: after a removal no call is logged under that id in any continuation of the run, and the invariant holds in the state in between |
| AlcsSessions.SessionSurvives | iotkit-embedded/dev_model/alcs_server.c:618-623 | a session keeps its id through any run whose timers come within 120000 ms of its last heartbeat |
| AlcsSessions.TimerIsExact | iotkit-embedded/dev_model/alcs_server.c:693-700 | the timer removes exactly the sessions whose heartbeat is more than 120000 ms old |
| AlcsSessions.RequestIsHonouredIff | iotkit-embedded/dev_model/alcs_server.c:490-497 | a request reaches the callback if and only if its sender has a session for the resource with its id |
| AlcsLifetimes.StepOnSession | iotkit-embedded/dev_model/alcs_server.c:601-701 | what every step does to every session: authentication and heartbeat set its times and no others, the timer ends it after 120 seconds |
| AlcsLifetimes.HeartbeatRenews | iotkit-embedded/dev_model/alcs_server.c:618-623 | a heartbeat renews every session of its address |
| AlcsLifetimes.AuthOpens | iotkit-embedded/dev_model/alcs_server.c:260-292 | a peer without a session gets one under the next id, with both times set, and the others stay |
| AlcsLifetimes.AuthRenews | iotkit-embedded/dev_model/alcs_server.c:260-292 | a peer with a session keeps its id and no other is opened |
| AlcsLifetimes.FirstSession | iotkit-embedded/dev_model/alcs_server.c:260-292 | the first session has the id 256 |
| AlcsLifetimes.SessionLivesIff | iotkit-embedded/dev_model/alcs_server.c:681-701 | over every run a session is there at the end if and only if every timer came within 120 seconds of the last authentication or heartbeat before it; else its id is gone |
| AlcsServer.SessionTable.FindSession | iotkit-embedded/dev_model/alcs_api.c:70-84 | the first session of that address and key |
| AlcsServer.SessionTable.RecAuth | iotkit-embedded/dev_model/alcs_server.c:260-292 | refreshes the session of that peer or opens one under the next id |
| AlcsServer.SessionTable.RecHeartBeat | iotkit-embedded/dev_model/alcs_server.c:601-626 | refreshes every session of the address |
| AlcsServer.SessionTable.OnTimer | iotkit-embedded/dev_model/alcs_server.c:681-701 | the walk that unlinks sessions equals the session-wise specification |
| AlcsServer.SessionTable.RecvMessage | iotkit-embedded/dev_model/alcs_server.c:477-514 | calls, refuses or ignores the request, and when it calls |
| Registry.RunKeepsInv | iotkit-embedded/dev_model/dm_manager.c:155-300 | in every reachable state ids increase along the list, which starts at the local node, and names fit their buffers and are pairwise distinct |
| Registry.WalkVisitsAll | iotkit-embedded/dev_model/dm_manager.c:302-358 | asking for the next id n times from the local node gives the id at index n, for all n, and stops at the number of devices |
| Registry.NextInOrder | iotkit-embedded/dev_model/dm_manager.c:336-358 | asking for the id after the one at index i gives the one at index i + 1, or fails at the end |
| Registry.CreateIsFound | iotkit-embedded/dev_model/dm_manager.c:213-265 | when creation succeeds, and that both searches find the reported id afterwards, also for a device that existed |
| Registry.IdsAreNotReused | iotkit-embedded/dev_model/dm_manager.c:267-300 | the id of a destroyed device is in no list of any later run |
| Registry.CreateExactly | iotkit-embedded/dev_model/dm_manager.c:213-265 | the device that is appended, with the limits in literals, and that nothing changes otherwise |
| Registry.DestroyExactly | iotkit-embedded/dev_model/dm_manager.c:267-300 | destroying a device other than the local node takes out that device and keeps all others in order |
| Registry.DestroyRefuses | iotkit-embedded/dev_model/dm_manager.c:267-300 | destroying the local node, or what is not there, changes nothing |
| Registry.FirstDevice | iotkit-embedded/dev_model/dm_manager.c:155-190 | the list at start-up and after the first creation |
| DeviceManager.Manager.SearchByDevid | iotkit-embedded/dev_model/dm_manager.c:39-56 | the first device with that id |
| DeviceManager.Manager.SearchByName | iotkit-embedded/dev_model/dm_manager.c:58-79 | the first device with that product key and name |
| DeviceManager.Manager.DeviceCreate | iotkit-embedded/dev_model/dm_manager.c:213-265 | code, reported id and new list, with the length checks |
| DeviceManager.Manager.DeviceDestroy | iotkit-embedded/dev_model/dm_manager.c:267-300 | unlinks the device; never the local node |
| DeviceManager.Manager.DeviceNumber | iotkit-embedded/dev_model/dm_manager.c:302-313 | the number of devices |
| DeviceManager.Manager.GetDevidByIndex | iotkit-embedded/dev_model/dm_manager.c:315-334 | the id at that index, or the error |
| DeviceManager.Manager.GetNextDevid | iotkit-embedded/dev_model/dm_manager.c:336-358 | the id behind the first match, or the error |
| Topics.ServiceRoundTripIff | iotkit-embedded/dev_model/dm_utils.c:309-336 | the parser recovers both names from the built topic if and only if they are free of slashes and the service name is not empty; the delimiter numbers are 2 and 4, or 3 and 5 behind "/topic" |
| Topics.TopicRoundTripIff | iotkit-embedded/dev_model/dm_message.c:76-108 | the same for any head that ends with a slash |
| Topics.ServiceNameText | iotkit-embedded/dev_model/dm_utils.c:309-336 | what stands in a topic under "/sys/%s/%s/" |
| Topics.ServiceNameSample | iotkit-embedded/dev_model/dm_message.c:76-108 | one topic, and the names that the parser finds in it |
| Topics.Memtok | iotkit-embedded/dev_model/dm_utils.c:270-290 | finds the position of the index-th delimiter, not counting one at the end, if and only if there is one |
| Topics.UriParsePkdn | iotkit-embedded/dev_model/dm_message.c:76-108 | copies the text between the three delimiters into the two buffers, or changes nothing |
| Topics.BuildServiceName | iotkit-embedded/dev_model/dm_utils.c:309-336 | for a prefix with at most two conversions the allocated buffer holds prefix and name in full and ends with zeros; the error cases |

## Left out

- Sockets, TLS, Wi-Fi, storage, clocks and mutexes: calls into libraries; times and network results are parameters of the steps.
- The AES block function, hashes, signatures and JSON: the cipher is any permutation, the checksum any key, parsed fields are inputs.
- Allocation failure, HAL errors, and the deinit paths: allocation returns zeroed memory, as `wrappers/wrapper_system.c:77-80` does.
- List nodes are values in a sequence field, which the methods reassign: unlinking while walking is modelled, aliasing between node pointers is not.
- Send list: a node's bytes and user pointer; RST and unknown message kinds, which no handler looks at; handlers that receive again, like the re-authentication after a 5.00 response. A sweep and the datagrams before it are separate steps.
- CoapMessage.Message.Deserialize: its precondition leaves out datagrams for which the C parser would leave the buffer or the option array; the model calls them out of bounds.
- CbcCipher.IotxDecrypt: takes `char` as unsigned; a padding byte above 127 would otherwise lengthen the message. Padding made by the encryption is at most 16.
- Base64Codec.Decode64: requires an input that is not empty, because the C function reads the two characters before its end.
- Topics.BuildServiceName: requires that a prefix has at most two conversions, all %s, and no other percent sign; `%%` and other conversions are not modelled. Every prefix in the repository has two %s.
- Topics.ServiceRoundTripIff: has the same requirement for the prefix.
- CoapMessage.Message.Serialize: requires room for the options, since the C function writes them without a check.
- Topics.UriParsePkdn: requires buffers that hold the names, since the C function copies without a check.
- The counters for devices, sessions and reports, and the times, do not wrap around.
- Thread interleavings inside one operation: the cache tests its capacity outside the lock.
- The sub-device register, login and logout replies, which do not look in the cache, and the delete request, whose lookup is inverted.
- Splitting a path into options, reading string options, the option test, and the setters for type, code and id: single assignments or copies.
- The ALCS handshake, the client side and its group keys, revocation lists, the MQTT glue and the key-value store.
