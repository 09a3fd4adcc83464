# Verified model of the pfod communication library and two of its neighbours

`lib/pfodParser` connects a microcontroller to the pfodApp over radio, SMS or a secured byte stream. This project
models its protocol engines, codecs and hash, together with the 9-bit SPI packer of `lib/U8g2` and the multi-key
list of `lib/Keypad`, and proves what they are for. `dafny verify dfyconfig.toml` checks everything.

Each engine has three layers:

1. a specification on values that takes one step as the code does: same branches, constants and edge cases;
2. theorems about all inputs and all runs of that specification;
3. classes with the fields and buffers of the C++ objects, whose methods are proved to take exactly the specified step.
   Methods of the source that only read are functions with a `reads` clause.

| engine | specification | theorems | objects |
|---|---|---|---|
| SipHash-2-4 on byte arrays | `SipHashSpec` in SipHash.dfy | BlockStreams.dfy, `SipHashBytes` | `SipHashStream.SipHash` |
| ring buffer with write mark | `Fifo` in RingBuffer.dfy | `Fifo` | `RingBuffer.PfodRingBuffer` |
| radio link: two nodes, two lossy channels | RadioNode.dfy, RadioLink.dfy | RadioProof.dfy, RadioGuarantees.dfy, RadioRepair.dfy, RadioConnections.dfy, RadioExample.dfy | Radio.dfy |
| SMS texts: 6-bit codec, segmentation, resend | SmsCodec.dfy, SmsSending.dfy | the same files | Sms.dfy |
| SMS connections and known phones | SmsConnections.dfy | SmsConnectionProof.dfy, SmsConversations.dfy | SmsConnectionObject.dfy |
| framing of raw data and hashed messages | Framing.dfy, Hex.dfy | FramingProof.dfy, FramingSafety.dfy | FramingObjects.dfy |
| command parsers | CommandParser.dfy | CommandParserProof.dfy | CommandParserObjects.dfy |
| command gate of the secured server | CommandGate.dfy | CommandGateProof.dfy, CommandGateLimits.dfy, CommandGateMessages.dfy | CommandGateObject.dfy |
| gate and challenges together | SecuredServer.dfy | SecuredServer.dfy | the two objects |
| challenges and power cycles | `Challenges` in Mac.dfy | `Challenges` | `MacObject.PfodMac` |
| 9-bit words on an 8-bit SPI | `NineBitPacking` in NineBitSpi.dfy | `NineBitPacking` | `NineBitObject.Spi3Wire` |
| keypad list | `KeyList` in Keypad.dfy | `KeyList` | `KeypadObject.Keypad` |

Inputs from outside are parameters or events: bytes and packets that arrive or are lost, whether a timer has expired,
random numbers, the time since the last connection, the buttons that are down. In the framing the hash
is an arbitrary function `h`. In the gate what the hash object shows is an arbitrary function `show` of everything it has
been given since it was initialised, so those theorems hold for every hash.

## What the proofs found

- **A radio connection ends at number 255.** The sender's number skips 0 when it wraps (`pfodRadio.cpp` line 860), the
  receiver's does not (line 169). `NextIsRecognisedBelow255` gives the exact condition, `WrappedClientIsStuck` the
  consequence, `WrapIsReached` a run; the delivery theorems are about fewer than 255 messages each way.
- **A full receive buffer can lose an acknowledged message.** A message that does not fit is not stored, yet the next
  message sent acknowledges it when the last one sent was a pure acknowledgement (`pfodRadio.cpp` lines 824-835).
  `AcknowledgesUnstoredExactly` is the equivalence for every node and poll, `FalselyAckedIsLost` the consequence, and
  `FalseAckReached` a run of two nodes as they are set up: any two messages too long for the server's buffer together.
  The delivery theorems assume only that no poll does this (`AcksUnstored`); `SoundExactly`: just then acknowledgements
  stay sound. A request that found no room would be acknowledged in any case, but `RequestFits`: it does find room.
- **One lost message can stop a radio link for good.** A node answers a repeated message by sending its last message
  again, and that acknowledges the message only until the node has sent its next one: a new message carries number 0 in
  place of an acknowledgement unless the last one sent was a pure acknowledgement (`pfodRadio.cpp` lines 824-831).
  `ClientRepairedExactly` and `ServerRepairedExactly` give the exact condition under which a lost acknowledgement is made
  good, `OneLossSticks` a run with one loss in which it is not, until the node gives up.
- **What the server writes can let a command in.** The digits of received and of sent messages share one hash object,
  whose result is part of its state, and one digit buffer (`pfodSecurity.cpp` lines 766-767, 837-860 and 1175-1220). So a
  message written while another one or its digits are received changes what these digits are compared with.
  `FairExactly` is the exact condition on a written byte, `FailingRun` a connection from its first byte, and
  `OnlyGenuineCommands` holds for all runs in which nothing disturbs.
- **Unread bytes hide the start of an SMS.** Decoding stores from index 0 but counts from the present length and looks
  for the brace there (`pfodSMS_SIM5320.cpp` lines 1756-1833). `StartSeenExactly` and `UnreadBytesHideStart` say when;
  the guarantees on SMS numbers do not depend on it. `PlaceLostExactly` says when the counted length leaves the buffer.
- **A response is cut at 1026 bytes.** The byte that fills the buffer starts the sending and later ones are dropped;
  `AnswerArrives` covers both.
- **2046, not 2047, older connection numbers are ignored.** The comment above `newConnectionNumberGreater` promises the
  previous 2047; `OnlyThePrevious2046AreIgnored` is an equivalence for all distances.
- **The two parsers part on `{:` and nowhere else.** `StepInStep` is an equivalence over all states and bytes.
- **The raw parser returns its opening brace.** The comment on `parse` promises 0 for `{}` (`pfodRawCmdParser.cpp` lines
  250-253); `RawReturnsExactly` says what is returned for every message, and `RawCounts` that its argument count is never
  set back.
- **Challenges repeat without EEPROM.** `NotUniqueWithoutEEPROM` gives the two power-ups. Within one power-on they do so
  exactly after 65535 * 65535 challenges (`RepeatsExactly`).

## How to read the main theorems

- The radio theorems start from a closed server and empty channels (`Init`). `Allowed` lists what they assume of each
  event: no poll acknowledges an unstored message, no node gives up, at most 254 messages each way, a first client byte
  that is not null. Messages are lost, delayed, resent and refused for want of room; acknowledgements are pure,
  piggybacked or resent.
- `ExactlyOnceInOrder` and `ExactlyOnceFromServer` compare with observations kept outside the nodes: the payload of a
  message is recorded when its number is first seen on the channel, and bytes are recorded when the applications read
  them or have them accepted. What a buffer throws away before it is sent counts as never written.
- The repair theorems speak of every reachable state (`Reached`: some allowed run from `Init` ends in it) and of every
  continuation: `ClientCanGoOn` says that some allowed run ends the client's waiting. In an allowed run no node gives up,
  so a client that cannot go on waits until its retries are used up and it closes (`GivesUpExactly`).
- `AtMostOnce` is about the numbers of the SMS acted on, in any interleaving with SMS from other phones, timeouts,
  reading and sending. Its events carry the `Signs` of each SMS as arbitrary inputs; `SignsOf` says which of them a
  receive buffer shows, and `ProcessMessage` uses those.
- `EverySmsActedOn` allows any SMS of other phones in between as long as the phone's connection is in use, and any number
  of timeouts and reads. `IsDue` is what its next SMS must be like: the next number, and where a command starts, its
  opening brace to be seen. `CommandsArrive` builds such SMS with the sender of SmsSending.dfy.
- A message for the parsers is an `Opening` (nothing, a colon, or a version and a colon), fields and separators. The
  sequence character of a message is the last byte in front of its brace; it is used up when the message is returned, so
  a message that follows directly has character 0.
- The gate's runs interleave arriving bytes, bytes written, timeouts and an invalid hash object. `Disturbs` describes the
  written bytes that spoil something: a byte that is fed to the hash object and leaves it in another state while a message
  is read that can still be accepted, or while the digits behind it can still match; and the end of a written message,
  whose digits replace those that have arrived. `Genuine` says that the parser holds a message which arrived in one go,
  followed by eight digits that give its hash with the present count and challenge; `SameMessage` shows that the message
  is determined by this. "For every hash" in `FairExactly` means every function `show`; SipHash, of which the result
  changes with each initialisation, each eighth byte and each finish, is one of them.
- `NeverAcceptedTwice` assumes fewer than 2^32 messages in a connection (`NeverWraps`), with EEPROM and a key; what is
  written does not matter.
- The framing theorems read `Cut(w)` as the meaning of a byte string: its messages, its other bytes, and what is open at
  the end. `CutOfPieces` shows that this is the inverse of interleaving messages with other bytes.

## Model

| member | source | states |
|---|---|---|
| SipHashStream.Digest | lib/pfodParser/SipHash_2_4.cpp:154-250 | for every 16-byte key and every message of any length, initialising, updating with each byte and finishing leaves the SipHash-2-4 value of section 2 of the SipHash paper in v0, most significant byte first |
| SipHashStream.SipHash.InitFromRAM | lib/pfodParser/SipHash_2_4.cpp:154-172 | the four words are the little-endian key halves xored with the paper's constants, and nothing has been fed |
| SipHashStream.SipHash.SiphashRound | lib/pfodParser/SipHash_2_4.cpp:201-219 | the byte arrays hold one SipRound of the 64-bit words they held |
| SipHashStream.SipHash.Hash | lib/pfodParser/SipHash_2_4.cpp:194-199 | a block is absorbed: two rounds between the two xors of the paper's compression |
| SipHashStream.SipHash.UpdateHash | lib/pfodParser/SipHash_2_4.cpp:174-182 | one more byte of the message has been fed; every full block is absorbed at once |
| SipHashStream.SipHash.Pad | lib/pfodParser/SipHash_2_4.cpp:225-236 | null bytes and the length mod 256 complete the last block exactly as the padded message does |
| SipHashStream.SipHash.Finish | lib/pfodParser/SipHash_2_4.cpp:225-250 | v0 becomes the SipHash-2-4 of everything fed since the initialisation |
| BlockStreams.FedHolds | lib/pfodParser/SipHash_2_4.cpp:174-182 | feeding byte by byte is absorbing the whole blocks in order, with the remaining bytes pending |
| BlockStreams.FedFilled | lib/pfodParser/SipHash_2_4.cpp:225-236 | feeding nulls until seven bytes are pending and then the length absorbs the padded message |
| SipHashBytes.RippleCarry | lib/pfodParser/SipHash_2_4.cpp:79-88 | for arrays of any length: byte additions from the right, each passing its carry on, add the two numbers up to the carry that leaves them |
| SipHashBytes.SumsAddWords | lib/pfodParser/SipHash_2_4.cpp:79-88 | for eight bytes that carry is lost: the bytes are the sum modulo 2^64 |
| SipHashBytes.Add64 | lib/pfodParser/SipHash_2_4.cpp:79-88 | the array holds the 64-bit sum of the two words |
| SipHashBytes.ComposedRotation13 | lib/pfodParser/SipHash_2_4.cpp:115-116 | left by 16 and right by 3 is left by 13 |
| SipHashBytes.ComposedRotation17 | lib/pfodParser/SipHash_2_4.cpp:109-110 | left by 16 and left by 1 is left by 17 |
| SipHashBytes.ComposedRotation21 | lib/pfodParser/SipHash_2_4.cpp:112-113 | left by 16 and left by 5 is left by 21 |
| SipHashBytes.RotL32 | lib/pfodParser/SipHash_2_4.cpp:60-68 | swapping the halves rotates the word by 32 |
| SipHashBytes.Reverse64 | lib/pfodParser/SipHash_2_4.cpp:70-77 | the bytes are reversed: the little-endian value becomes the big-endian one |
| Fifo.Conservation | lib/pfodParser/pfodRingBuffer.cpp:109-177 | over every run without reset or clear, what was there and what was accepted is what was read and what is left, in order |
| Fifo.ResetUndoesWrites | lib/pfodParser/pfodRingBuffer.cpp:63-75 | mark, any writes, reset: exactly the contents at the mark |
| RingBuffer.PfodRingBuffer.constructor | lib/pfodParser/pfodRingBuffer.cpp:40-54 | an empty bounded queue, its capacity limited to 32766 |
| RingBuffer.PfodRingBuffer.Clear | lib/pfodParser/pfodRingBuffer.cpp:56-61 | the queue's clear: nothing left, no mark |
| RingBuffer.PfodRingBuffer.ResetWrite | lib/pfodParser/pfodRingBuffer.cpp:69-75 | the queue is cut back to a live mark and unchanged otherwise |
| RingBuffer.PfodRingBuffer.Available | lib/pfodParser/pfodRingBuffer.cpp:81-83 | the length of the queue |
| RingBuffer.PfodRingBuffer.AvailableForWrite | lib/pfodParser/pfodRingBuffer.cpp:93-98 | the room that is left |
| RingBuffer.PfodRingBuffer.Peek | lib/pfodParser/pfodRingBuffer.cpp:101-107 | the first of the queue, -1 if there is none |
| RingBuffer.PfodRingBuffer.Read | lib/pfodParser/pfodRingBuffer.cpp:109-120 | takes the first of the queue and drops the mark; -1 if there is none |
| RingBuffer.PfodRingBuffer.Write | lib/pfodParser/pfodRingBuffer.cpp:162-177 | appends the byte if there is room and says whether it did |
| RingBuffer.PfodRingBuffer.WriteAll | lib/pfodParser/pfodRingBuffer.cpp:151-160 | appends the longest prefix that fits |
| RingBuffer.PfodRingBuffer.CopyTo | lib/pfodParser/pfodRingBuffer.cpp:127-141 | the output is the queue in order, over the wrap-around, and the queue is unchanged |
| RadioGuarantees.ExactlyOnceInOrder | lib/pfodParser/pfodRadio.cpp:55-235 | in every allowed run: what the server's application has read or can read is the connection marker and the payloads of the client's messages numbered below the expected one, each once and in order, a prefix of what the client's application wrote, with at most one message under way |
| RadioGuarantees.ExactlyOnceFromServer | lib/pfodParser/pfodRadio.cpp:55-235 | in every allowed run: what the client's application has read or can read is the payloads of the server's messages numbered below the expected one, each once and in order, and it is a prefix of what the server's application wrote interleaved with a prefix of its raw data |
| RadioGuarantees.AcknowledgedIsStored | lib/pfodParser/pfodRadio.cpp:670-686 | in every allowed run the sender's number minus the number its peer expects is 0 when idle and 0 or 1 while waiting: an acknowledged message has been stored, however the acknowledgement came |
| RadioGuarantees.StepKeeps | lib/pfodParser/pfodRadio.cpp:97-235 | every allowed event, polls of either node, arrivals that find no room and losses included, keeps the invariant of nodes, channels and delivered bytes |
| RadioInvariant.ClientAckSound | lib/pfodParser/pfodRadioMsg.cpp:119-134 | a message under way that acknowledges what the client waits for means that the server has stored it |
| RadioServerProof.ServerAckSound | lib/pfodParser/pfodRadioMsg.cpp:119-134 | the same for what the server waits for |
| RadioLimits.NextIsRecognisedBelow255 | lib/pfodParser/pfodRadio.cpp:161-171 | the message after the last stored one is recognised as new if and only if the stored number is below 255 |
| RadioLimits.WrappedClientIsStuck | lib/pfodParser/pfodRadio.cpp:161-171 | over every run of polls and reads in which its connection stays open, a client whose expected number has wrapped to 0 keeps expecting 0, and its application gets nothing but what was in its buffer |
| RadioLimits.WrapIsReached | lib/pfodParser/pfodRadio.cpp:161-171 | a run reaches that state: a client that is sent the messages up to 255 one after the other and reads each ends with number 0, still open |
| RadioAcknowledgements.AcknowledgesUnstoredExactly | lib/pfodParser/pfodRadio.cpp:824-835 | for every working node and every poll, whether the message arrives in it or has waited unstored: the poll acknowledges a message that is not stored if and only if nothing is awaited, something is sent, and the last message was a pure acknowledgement or the unstored one is a connection request, or an earlier such message is sent again |
| RadioAcknowledgements.FalseAckSent | lib/pfodParser/pfodRadio.cpp:824-835 | under that condition the poll does send a message which acknowledges the number the node still expects |
| RadioAcknowledgements.FalselyAckedIsLost | lib/pfodParser/pfodRadio.cpp:670-686 | the peer that waits for that acknowledgement stops waiting when it arrives and goes on with a number the node does not expect |
| RadioAcknowledgements.SoundExactly | lib/pfodParser/pfodRadio.cpp:97-235 | from every state of the invariant an event keeps all acknowledgements under way sound if and only if it does not acknowledge falsely |
| RadioAcknowledgements.RequestLostExactlyWhenFull | lib/pfodParser/pfodRadio.cpp:824-835 | a connection request to any listening node, whatever it sent last, is acknowledged without being stored if and only if it does not fit behind the marker and something waits to be sent |
| RadioAcknowledgements.RequestFits | lib/pfodParser/pfodRadio.cpp:553-626 | in every state of the invariant a server nobody is connected to has room behind the marker for any request, so that does not happen to it |
| RadioExample.FalseAckReached | lib/pfodParser/pfodRadio.cpp:824-835 | from two nodes as they are set up, for any two client messages that do not fit into the 265 bytes of the server's buffer together and any byte the server writes: an allowed run leads to a poll that acknowledges the second message and stores nothing, and the client goes on with the next number |
| RadioRepair.ClientRepairedExactly | lib/pfodParser/pfodRadio.cpp:97-235 | in every reachable state in which the client waits with a retry left, both channels are empty and the server has stored the message: the waiting can end in some allowed run if and only if the last message the server sent acknowledges that message; and then one timeout, the arrival of the resend and the arrival of the answer end it, and nothing is stored twice |
| RadioRepair.ServerRepairedExactly | lib/pfodParser/pfodRadio.cpp:97-235 | the same with the sides exchanged |
| RadioRepair.ClientMessageRepaired | lib/pfodParser/pfodRadio.cpp:97-235 | a lost message of the client is made good by one resend: the server stores it once, acknowledges it at once or with its own resend, and the client goes on |
| RadioRepair.ServerMessageRepaired | lib/pfodParser/pfodRadio.cpp:97-235 | the same with the sides exchanged |
| RadioRepair.StaysStuck | lib/pfodParser/pfodRadio.cpp:824-831 | a client whose message is stored, while no acknowledgement of it is under way or in the last message of the server, waits in every run |
| RadioRepair.ServerStaysStuck | lib/pfodParser/pfodRadio.cpp:824-831 | the same with the sides exchanged |
| RadioRepair.StepOwnAcks | lib/pfodParser/pfodRadio.cpp:703-714 | every allowed event keeps that a pure acknowledgement, as the last message of a node, is of the message it stored last |
| RadioExample.OneLossSticks | lib/pfodParser/pfodRadio.cpp:824-831 | from two nodes as they are set up: an allowed run in which one single message is lost and after which the client waits for ever, for a message the server has stored |
| RadioConnections.ConnectsExactly | lib/pfodParser/pfodRadio.cpp:553-626 | a request to a server makes a new connection, with fresh numbers and the marker behind what is unread, if and only if nobody is connected or it is from the present client and cannot be a resend; every other request changes nothing |
| RadioConnections.ClosedServerConnects | lib/pfodParser/pfodRadio.cpp:253-313 | a server that has been closed, whatever it did before, stores the next request behind the marker alone and acknowledges it; nothing of the old connection is sent |
| RadioConnections.ClosedServerStoresNothing | lib/pfodParser/pfodRadio.cpp:302-313 | and it stores no message that is not a request |
| RadioConnections.ClosedClientStarts | lib/pfodParser/pfodRadio.cpp:433-447 | a client that has been closed sends the next bytes written as a request with number 0 and nothing of the old connection |
| RadioConnections.GivesUpExactly | lib/pfodParser/pfodRadio.cpp:179-235 | a node without acknowledgement sends its message, unchanged, exactly as often as it has retries left; the next timeout closes the connection and leaves the marker alone to be read |
| RadioConnections.AnsweredAgainExactly | lib/pfodParser/pfodRadio.cpp:150-160 | a message that is neither new nor a request is answered with the last message of the node if and only if it is the one before the expected one, with 255 before 255; nothing is stored |
| RadioConnections.SilentWithoutTarget | lib/pfodParser/pfodRadio.cpp:716-746 | without a target nothing is handed to the radio |
| RadioConnections.ExpiredConnects | lib/pfodParser/pfodRadio.cpp:553-626 | once the link timer has expired even the request that made the connection makes a new one |
| RadioConnections.NewConnectionKept | lib/pfodParser/pfodRadio.cpp:253-281 | a connection that is new when the upper layer meets its marker is kept, with what has arrived for it |
| RadioConnections.SendsExactly | lib/pfodParser/pfodRadio.cpp:750-879 | a connected node that waits for nothing sends if and only if there is something to send and enough of it or nothing has been written for a while; what it sends, with which number and acknowledgement, and what is left, raw data first |
| RadioConnections.NumbersSkipZero | lib/pfodParser/pfodRadio.cpp:855-862 | the kth message after a request has number (k - 1) mod 255 + 1 |
| RadioConnections.ClosedServerIsSilent | lib/pfodParser/pfodRadio.cpp:750-770 | a server that nobody is connected to sends nothing and drops its raw data |
| RadioConnections.LongIsCut | lib/pfodParser/pfodRadio.cpp:633-668 | of a message longer than the limit of the driver the front alone arrives |
| Radio.NewNodesDeliver | lib/pfodParser/pfodRadio.cpp:379-480 | nodes as set up by listen and connectTo deliver from the start: the server gets the connection marker and a prefix of what the client wrote, the client prefixes of what the server wrote and of its raw data, interleaved |
| RadioMessageObjects.PfodRadioMsg.SaveMsg | lib/pfodParser/pfodRadioMsg.cpp:40-56 | holds the addresses, numbers and the bytes that fit |
| RadioMessageObjects.PfodRadioMsg.SaveMsgFrom | lib/pfodParser/pfodRadioMsg.cpp:60-78 | takes the bytes that fit from the front of the queue and leaves the rest |
| RadioMessageObjects.PfodRadioMsg.IsPureAck | lib/pfodParser/pfodRadioMsg.cpp:111-117 | the message object answers as the message it holds does |
| RadioMessageObjects.PfodRadioMsg.IsPureAckFor | lib/pfodParser/pfodRadioMsg.cpp:102-109 | the same for a given number |
| RadioMessageObjects.PfodRadioMsg.IsAckFor | lib/pfodParser/pfodRadioMsg.cpp:119-134 | the same for a message that was sent: addresses and number match |
| RadioMessageObjects.PfodRadioMsg.IsNewMsg | lib/pfodParser/pfodRadioMsg.cpp:151-171 | the same: no acknowledgement, right addresses, expected number |
| RadioMessageObjects.PfodRadioMsg.IsNewConnectionRequest | lib/pfodParser/pfodRadioMsg.cpp:176-187 | the same: numbered 0, to our address, starting with a non-null byte |
| Radio.PfodRadio.Listen | lib/pfodParser/pfodRadio.cpp:468-480 | a server node nobody is connected to |
| Radio.PfodRadio.ConnectTo | lib/pfodParser/pfodRadio.cpp:410-428 | a client node with its target |
| Radio.PfodRadio.CloseConnection | lib/pfodParser/pfodRadio.cpp:302-313 | the node after closing, buffers and marker included |
| Radio.PfodRadio.CloseTheCurrentConnection | lib/pfodParser/pfodRadio.cpp:253-281 | the node after the upper layer ends a connection, with the bytes of a newly accepted one kept |
| Radio.PfodRadio.CheckIfConnectionNeeded | lib/pfodParser/pfodRadio.cpp:433-447 | a closed client with something to send starts again with number 0 |
| Radio.PfodRadio.IsAckForLastMsgSent | lib/pfodParser/pfodRadio.cpp:670-686 | ends the waiting exactly when the received message acknowledges the last sent one |
| Radio.PfodRadio.CheckForAllowableNewConnection | lib/pfodParser/pfodRadio.cpp:553-626 | accepts a request, resets the numbers and puts the marker, exactly when the protocol allows it |
| Radio.PfodRadio.StoreReceived | lib/pfodParser/pfodRadio.cpp:120-171 | a new message is stored, counted and acknowledged only if it fits |
| Radio.PfodRadio.DeliverReceived | lib/pfodParser/pfodRadio.cpp:97-235 | what a node does with a received message, in the protocol on which delivery is proved |
| Radio.PfodRadio.SendAck | lib/pfodParser/pfodRadio.cpp:703-714 | a pure acknowledgement of the received message becomes the last message and is sent |
| Radio.PfodRadio.SendLastMsg | lib/pfodParser/pfodRadio.cpp:716-746 | the last message goes out as it was |
| Radio.PfodRadio.SendMsg | lib/pfodParser/pfodRadio.cpp:750-879 | the next bytes, raw data first, with the next number and the piggybacked acknowledgement, or nothing |
| Radio.PfodRadio.TimeOutOrSendMsg | lib/pfodParser/pfodRadio.cpp:179-235 | resends, gives up or sends the next message as the protocol's node does |
| Radio.PfodRadio.RecvMsg | lib/pfodParser/pfodRadio.cpp:633-668 | the packet is the received message |
| Radio.PfodRadio.PollRadio | lib/pfodParser/pfodRadio.cpp:55-235 | one poll of the object is exactly one poll of the protocol's node, in state and in what is sent |
| Radio.PfodRadio.Read | lib/pfodParser/pfodRadio.cpp:513-516 | a poll, then the first received byte |
| Radio.PfodRadio.Write | lib/pfodParser/pfodRadio.cpp:526-531 | a poll, then the byte is queued if there is room |
| SmsCode.CharRoundTrip | lib/pfodParser/pfodSMS_SIM5320.cpp:1183-1196 | decoding an encoded byte gives its low six bits |
| SmsCode.CodeRoundTrip | lib/pfodParser/pfodSMS_SIM5320.cpp:1320-1340 | the characters that decode are exactly those that encoding gives back |
| SmsCode.IntRoundTrip | lib/pfodParser/pfodSMS_SIM5320.cpp:1292-1359 | two characters carry a number modulo 4096 |
| SmsCode.TextShape | lib/pfodParser/pfodSMS_SIM5320.cpp:1208-1287 | a text has at most 160 characters of the code, a length divisible by 4, and its header decodes to its two numbers |
| SmsDecoding.WordRoundTrip | lib/pfodParser/pfodSMS_SIM5320.cpp:1307-1313 | four characters carry 24 bits |
| SmsDecoding.TextRoundTrip | lib/pfodParser/pfodSMS_SIM5320.cpp:1756-1833 | a text decoded into an empty buffer gives exactly the piece of the response it was made of, the padding dropped |
| SmsDecoding.DecodedExactly | lib/pfodParser/pfodSMS_SIM5320.cpp:1756-1833 | any text decoded into a buffer of any counted length: the bytes up to the first null, the first group with a character outside the code or the end of the buffer, the length that is counted, and exactly when the text is no good |
| SmsDecoding.CodeCharsExactly | lib/pfodParser/pfodSMS_SIM5320.cpp:1320-1340 | the characters of the code are the space, the plus sign, digits and letters |
| SmsDecoding.BadNumberIsZero | lib/pfodParser/pfodSMS_SIM5320.cpp:1346-1359 | a number with any other character is 0 |
| SmsSending.SendAllIsTexts | lib/pfodParser/pfodSMS_SIM5320.cpp:1948-1985 | repeated sending terminates and puts out exactly the texts of what is left, consecutively numbered |
| SmsSending.TextsRoundTrip | lib/pfodParser/pfodSMS_SIM5320.cpp:1208-1287 | the decoded texts together are the response; each has its numbers and shape, and nulls only in the last |
| SmsSending.ResponseArrives | lib/pfodParser/pfodSMS_SIM5320.cpp:2020-2048 | a flushed null-free response of 1 to 1026 bytes, a full buffer flushed by the last byte included, is collected exactly by a receiver that decodes each text |
| SmsSending.ResendIsIdentical | lib/pfodParser/pfodSMS_SIM5320.cpp:1081-1092 | a resend puts out the identical texts and ends in the same state, with the same next number |
| SmsSending.AnswerArrives | lib/pfodParser/pfodSMS_SIM5320.cpp:2020-2163 | from the bytes handed to write() on a cleared sender: of a null-free response of any length the first 1026 bytes arrive, in consecutively numbered texts, whether flush() or the full buffer started the sending, and a resend puts out the same texts |
| SmsSending.LostBeforeAnswer | lib/pfodParser/pfodSMS_SIM5320.cpp:2124-2163 | what is written while nobody is connected is forgotten, with what was written before, and the next answer arrives without it |
| SmsSending.TakesTurns | lib/pfodParser/pfodSMS_SIM5320.cpp:1061-1093 | a prompt is answered only while a text waits and an OK followed only while none does; then no request to resend is left, and a response and a resend are not sent at once |
| Sms.PfodSms.EncodeSMS | lib/pfodParser/pfodSMS_SIM5320.cpp:1208-1287 | the buffer holds the next text and the index has moved by the piece in it |
| Sms.PfodSms.EncodeThree | lib/pfodParser/pfodSMS_SIM5320.cpp:1307-1313 | four characters of the 24 bits at the index, the rest unchanged |
| Sms.PfodSms.SendNextSMS | lib/pfodParser/pfodSMS_SIM5320.cpp:1948-1985 | the object does the sender's step |
| Sms.PfodSms.FlushResponse | lib/pfodParser/pfodSMS_SIM5320.cpp:2020-2048 | ends the response, fixes the numbers a resend starts from and sends the first text |
| Sms.PfodSms.WriteByte | lib/pfodParser/pfodSMS_SIM5320.cpp:2124-2163 | takes a byte unless sending or answered already; a full buffer is flushed |
| Sms.PfodSms.PromptFound | lib/pfodParser/pfodSMS_SIM5320.cpp:915-935 | puts the waiting text out, and with the last one sending ends and the next number is fixed |
| Sms.PfodSms.OkFound | lib/pfodParser/pfodSMS_SIM5320.cpp:1061-1093 | goes on with the response or the resend, or starts the resend at its number |
| Sms.DecodeSMScmd | lib/pfodParser/pfodSMS_SIM5320.cpp:1756-1833 | whatever the present length, the buffer holds the decoded bytes from index 0 and its old bytes behind them, and the length counts on; invalid characters change no length |
| SmsPhones.GreaterIsTheNext2048 | lib/pfodParser/pfodSMS_SIM5320.cpp:1375-1391 | on the circle 1..4095 exactly the next 2048 numbers are greater |
| SmsPhones.OnlyThePrevious2046AreIgnored | lib/pfodParser/pfodSMS_SIM5320.cpp:1361-1391 | exactly the previous 2046 numbers are not greater; the comment promises 2047 |
| SmsKnownProof.FindsTheOne | lib/pfodParser/pfodSMS_SIM5320.cpp:509-518 | in a list of phones told apart, the search finds the one matching entry, wherever it is |
| SmsKnownProof.MoveKeeps | lib/pfodParser/pfodSMS_SIM5320.cpp:468-484 | moving to the top keeps the phones told apart |
| SmsKnownProof.MoveRecorded | lib/pfodParser/pfodSMS_SIM5320.cpp:468-484 | moving to the top changes no recorded number |
| SmsKnownProof.UpdateAndMoveKeeps | lib/pfodParser/pfodSMS_SIM5320.cpp:490-504 | recording a phone keeps the phones told apart and puts it on top |
| SmsKnownProof.UpdateAndMoveRecorded | lib/pfodParser/pfodSMS_SIM5320.cpp:490-504 | only the phone's own number, and that of an evicted phone, changes |
| SmsLinkProof.ReceiveKeeps | lib/pfodParser/pfodSMS_SIM5320.cpp:730-912 | every SMS, whatever is still unread in the receive buffer, keeps the phones told apart and the current phone on top with its number |
| SmsLinkProof.NeverRepairs | lib/pfodParser/pfodSMS_SIM5320.cpp:1556-1574 | under that invariant the repair branch is never taken |
| SmsLinkProof.ReachableNeverRepairs | lib/pfodParser/pfodSMS_SIM5320.cpp:1556-1574 | in every reachable state the invariant holds and no SMS of any phone needs the repair |
| SmsLinkProof.Verdicts | lib/pfodParser/pfodSMS_SIM5320.cpp:1450-1752 | for each of the ten verdicts, an equivalence: it is given if and only if the phones, the recorded and the expected number, the numbers of the SMS, whether the connection is free, and what the text shows are so and so |
| SmsLinkProof.ReceiveRecorded | lib/pfodParser/pfodSMS_SIM5320.cpp:1672-1713 | a phone's recorded number is replaced only by a greater one, by a first one, after numbers (0,0), or when an unknown phone evicts it from the last place |
| SmsLinkProof.AtMostOnce | lib/pfodParser/pfodSMS_SIM5320.cpp:765-912 | while the number recorded for a phone stays the same and not 0, the SMS numbers acted on from it strictly increase, whatever else happens and whatever the receive buffer holds when an SMS is decoded |
| SmsLinkProof.AfterActing | lib/pfodParser/pfodSMS_SIM5320.cpp:1417-1431 | an SMS acted on leaves its phone current and recorded under its number, expecting nothing after a close and a greater number otherwise |
| SmsLinkProof.ClosedActsOnNothing | lib/pfodParser/pfodSMS_SIM5320.cpp:605-613 | after {!} nothing with that connection number is acted on, whatever the receive buffer holds |
| SmsLinkProof.RepeatIsHarmless | lib/pfodParser/pfodSMS_SIM5320.cpp:1450-1752 | an SMS behind the expected number yields a resend or nothing |
| SmsLinkProof.NeverAgain | lib/pfodParser/pfodSMS_SIM5320.cpp:765-912 | once acted on, the same numbers from the same phone yield a resend or nothing however much later, whatever the receive buffer holds |
| SmsConversations.EverySmsActedOn | lib/pfodParser/pfodSMS_SIM5320.cpp:1576-1752 | from a new link, among any SMS of other phones: the SMS of one phone that arrive in order, each once, are all acted on, the first as a new connection |
| SmsConversations.EveryPartActedOn | lib/pfodParser/pfodSMS_SIM5320.cpp:1576-1752 | the same from any state in which the phone is the current one |
| SmsConversations.ConversationStarts | lib/pfodParser/pfodSMS_SIM5320.cpp:1672-1747 | the first SMS of a connection, from a phone not recorded or with a greater number, starts it if the current connection is free or of the same phone |
| SmsConversations.OthersWait | lib/pfodParser/pfodSMS_SIM5320.cpp:1715-1747 | while the current connection has not timed out, the SMS of another phone is not acted on and changes nothing for the current one |
| SmsConversations.AfterCloseAnotherStarts | lib/pfodParser/pfodSMS_SIM5320.cpp:605-613 | after a close the first SMS of any other phone starts a connection at once |
| SmsConversations.CommandsArrive | lib/pfodParser/pfodSMS_SIM5320.cpp:1208-1287 | from a new link: commands, cut into up to three texts each as the sender cuts them, are all acted on |
| SmsConversations.BytesCanBeRead | lib/pfodParser/pfodSMS_SIM5320.cpp:1756-1833 | with nothing unread, exactly the bytes of a text that is acted on can be read, behind the marker if it starts a connection, and none of one that is not |
| SmsConversations.ReadTakesOne | lib/pfodParser/pfodSMS_SIM5320.cpp:2005-2017 | reading takes the first unread byte, and after the last one nothing is unread |
| SmsConversations.LeavesBehind | lib/pfodParser/pfodSMS_SIM5320.cpp:765-912 | no SMS leaves anything of itself to the next one; the answers of a new or closed connection are numbered from 1; and exactly which verdicts ask for the last response again, call that off, or take back that a response is set |
| SmsConversations.ZeroIsNewest | lib/pfodParser/pfodSMS_SIM5320.cpp:1375-1391 | connection number 0 is greater than every other one |
| SmsConversations.SixDigitsExactly | lib/pfodParser/pfodSMS_SIM5320.cpp:2213-2228 | a phone can be matched if and only if its last six characters are digits |
| SmsLink.StartSeenExactly | lib/pfodParser/pfodSMS_SIM5320.cpp:1576-1620 | with any unread bytes: a command is seen to start if and only if the decoded bytes reach past as many bytes as have been counted, with a brace at the first place behind them |
| SmsLink.UnreadBytesHideStart | lib/pfodParser/pfodSMS_SIM5320.cpp:1756-1833 | an SMS that starts a command is ignored while as many bytes as it holds have been counted and not all read |
| SmsLink.SignsOfEmpty | lib/pfodParser/pfodSMS_SIM5320.cpp:1576-1620 | with nothing unread the start, the close message and the end are judged on the decoded bytes of the SMS |
| SmsLink.PlaceLostExactly | lib/pfodParser/pfodSMS_SIM5320.cpp:1756-1833 | an SMS leaves a counted length behind the end of the buffer if and only if it is a further part of a command and 267 bytes have been counted and not all read |
| SmsConnectionObject.PhoneNoMatches | lib/pfodParser/pfodSMS_SIM5320.cpp:2233-2251 | the backward loop compares the last six digits and nothing else |
| SmsConnectionObject.PhoneNoHas6Digits | lib/pfodParser/pfodSMS_SIM5320.cpp:2213-2228 | whether there are six trailing digits |
| SmsConnectionObject.PfodSmsConnections.MoveKnownConnectionToTop | lib/pfodParser/pfodSMS_SIM5320.cpp:468-484 | the pointers stay a permutation of the ten slots and the entry is first, the others in their order |
| SmsConnectionObject.PfodSmsConnections.FindMatchingKnownPhoneNo | lib/pfodParser/pfodSMS_SIM5320.cpp:509-518 | the first matching entry, -1 if there is none |
| SmsConnectionObject.PfodSmsConnections.FindEmptyKnownConnection | lib/pfodParser/pfodSMS_SIM5320.cpp:549-559 | the first empty entry, or the last one, which is cleared and so forgotten |
| SmsConnectionObject.PfodSmsConnections.UpdateKnownConnectionNo | lib/pfodParser/pfodSMS_SIM5320.cpp:490-498 | the entry of the phone, or an empty or the last one, records the number |
| SmsConnectionObject.PfodSmsConnections.UpdateKnownConnectionNoAndMoveToTop | lib/pfodParser/pfodSMS_SIM5320.cpp:500-504 | the same, and that entry comes first |
| SmsConnectionObject.PfodSmsConnections.SetTopKnownConnectionFromCurrent | lib/pfodParser/pfodSMS_SIM5320.cpp:524-543 | the first entry records the current connection, unless another phone stands there |
| SmsConnectionObject.PfodSmsConnections.DecodeSMS | lib/pfodParser/pfodSMS_SIM5320.cpp:1450-1752 | the object's verdict and state are those of the connection machine with the signs its buffer shows, whatever is unread in it, as long as the counted length is inside it |
| SmsConnectionObject.PfodSmsConnections.NoteDown | lib/pfodParser/pfodSMS_SIM5320.cpp:1540-1574 | a (0,0) SMS erases its phone; a current phone not on top would be repaired |
| SmsConnectionObject.PfodSmsConnections.JudgeSMS | lib/pfodParser/pfodSMS_SIM5320.cpp:1576-1752 | the judgement on numbers and message, and the next expected number |
| SmsConnectionObject.PfodSmsConnections.ClearParser | lib/pfodParser/pfodSMS_SIM5320.cpp:668-684 | the shifting loop puts the marker in front of the received bytes |
| SmsConnectionObject.PfodSmsConnections.FollowVerdict | lib/pfodParser/pfodSMS_SIM5320.cpp:765-912 | the object follows each verdict as the machine does |
| SmsConnectionObject.PfodSmsConnections.ProcessMessage | lib/pfodParser/pfodSMS_SIM5320.cpp:730-912 | one fetched SMS is exactly one receiving step of the machine, and the receive buffer is the filled, marked or restored one, with any bytes unread, as long as the counted length is inside it |
| SmsConnectionObject.PfodSmsConnections.ReadByte | lib/pfodParser/pfodSMS_SIM5320.cpp:2005-2017 | the next unread byte, and an empty buffer after the last |
| Hex.HexRoundTrip | lib/pfodParser/HexConversionUtils.c:43-99 | reading the written digits gives the bytes back |
| Hex.HexCharsAreDigits | lib/pfodParser/HexConversionUtils.c:78-99 | two digits a byte, all of them 0-9 or A-F |
| Hex.HexToAscii | lib/pfodParser/HexConversionUtils.c:78-99 | the buffer holds the digits that fit, two a byte, and a null |
| Hex.AsciiToHex | lib/pfodParser/HexConversionUtils.c:43-70 | the digits up to the null are turned into bytes in the buffer they stand in |
| FramingProof.FramingRoundTrip | lib/pfodParser/pfodSecurityClient.cpp:671-896 | any bytes written through the server and read by the client leave exactly the messages in rxBuf and exactly the other bytes in the raw buffer, in order, with equal counts, with and without a password |
| FramingProof.PiecesArrive | lib/pfodParser/pfodSecurity.cpp:728-910 | however messages and other bytes are interleaved, each arrives once in its own buffer and in order, and the counts have moved by the number of messages |
| FramingProof.CutOfPieces | lib/pfodParser/pfodSecurityClient.cpp:671-896 | cutting a string up is the inverse of interleaving messages with other bytes |
| FramingProof.CutLosesNothing | lib/pfodParser/pfodSecurityClient.cpp:671-896 | every string at all is made of whole messages, other bytes and an open end, with no byte lost |
| FramingProof.Separates | lib/pfodParser/pfodSecurityClient.cpp:671-896 | the separation from every state between messages, a held opening brace included |
| FramingProof.MessageStep | lib/pfodParser/pfodSecurity.cpp:728-910 | a whole message with its hash is accepted, stored and counted on both sides |
| FramingSafety.AcceptedExactly | lib/pfodParser/pfodSecurityClient.cpp:501-551 | a client with a password between messages, any message and any eight bytes: if these give the hash of message, count and challenge, and only then, the message can be read, is counted, and the client goes on (or closes, if it was closing); otherwise it has closed and the end-of-file byte is all there is to read |
| FramingSafety.OnlyGenuineMessages | lib/pfodParser/pfodSecurityClient.cpp:671-896 | over any bytes at all: whatever becomes readable is a message that has just arrived, directly followed by eight digits that give its hash with the present count and challenge, or the client has closed |
| FramingSafety.ReopensAfresh | lib/pfodParser/pfodSecurityClient.cpp:190-215 | whatever made the client close, the next connection starts between messages with count 0, and nothing of the old one can be read or closes it |
| FramingOutput.MessageOnLink | lib/pfodParser/pfodSecurity.cpp:728-910 | on the link a message is followed by the digits of the first four bytes of the hash of message, big-endian count and challenge, or by nothing without a password; the count goes on |
| FramingOutput.SilentBeforeAuthorised | lib/pfodParser/pfodSecurity.cpp:728-740 | before authorisation nothing is sent, whatever is written |
| FramingOutput.OthersKeptOff | lib/pfodParser/pfodSecurity.cpp:728-910 | a server whose raw data goes another way sends, for any bytes, what it sends for the messages in them alone |
| FramingObjects.PfodSecurity.HashDigits | lib/pfodParser/pfodSecurity.cpp:728-910 | the eight digits that follow a message: hash of message, count and challenge |
| FramingObjects.PfodSecurity.WriteToPfodApp | lib/pfodParser/pfodSecurity.cpp:728-910 | one byte does the sender's step, in state and output |
| FramingObjects.PfodSecurityClient.CheckMsgHash | lib/pfodParser/pfodMAC.cpp:369-401 | whether the collected digits give the first four bytes of the hash |
| FramingObjects.PfodSecurityClient.CollectCheckHash | lib/pfodParser/pfodSecurityClient.cpp:501-551 | one digit does the receiver's step: a match moves the message on, a mismatch closes |
| FramingObjects.PfodSecurityClient.ReadFromIO | lib/pfodParser/pfodSecurityClient.cpp:671-896 | the loop over the input does the receiver's steps one after the other |
| FramingObjects.PfodSecurityClient.CloseConnection | lib/pfodParser/pfodSecurityClient.cpp:245-257 | the closed receiver: empty buffers, nothing collected |
| FramingObjects.PfodSecurityClient.CloseConnectionAddEOF | lib/pfodParser/pfodSecurityClient.cpp:230-238 | the same with an end-of-file byte in the receive buffer |
| ParserRecovery.Recovery | lib/pfodParser/pfodParser.cpp:182-432 | for every message that fits, with any separators, and with nothing, a colon or a version in front: parsing returns the command at the brace unless the sequence character repeats, the getters give exactly the fields and their number, a refresh is asked for by the colon or by the version of this parser, and the sequence character is used up and remembered |
| ParserRecovery.ArgsAre | lib/pfodParser/pfodParser.cpp:200-209 | walking with getNextArg visits exactly the fields and stops |
| ParserRepeats.ReturnedExactly | lib/pfodParser/pfodParser.cpp:408-421 | for any messages that fit and any bytes between them: a message returns its command if and only if sequence characters are ignored, its own is at most 32, or it differs from that of the message before; otherwise 0 |
| ParserRepeats.AgainExactly | lib/pfodParser/pfodParser.cpp:408-421 | after a message with a printable sequence character, another one returns 0 if and only if it has the same |
| ParserRepeats.OnlyEndsReturn | lib/pfodParser/pfodParser.cpp:347-432 | on any bytes a command is returned at the closing brace of a message and nowhere else, and it is the first byte of what the getters then give |
| ParserRepeats.NothingAfterClose | lib/pfodParser/pfodParser.cpp:58-77 | after the end-of-file byte there is neither a command nor an argument, whatever was parsed |
| ParserRepeats.EndStays | lib/pfodParser/pfodParser.cpp:182-216 | asking on behind the last argument gives the same place again |
| RawRecovery.RawMessage | lib/pfodParser/pfodRawCmdParser.cpp:191-263 | every message of at most 253 bytes between its braces, whatever they are, can be read out as it was sent |
| RawRecovery.RawReturnsExactly | lib/pfodParser/pfodRawCmdParser.cpp:191-263 | what the raw parser returns for every such message: the byte behind the colon of the first version it has ever seen, if this is the message with it, and the opening brace otherwise; and exactly when a refresh is asked for |
| RawRecovery.RawCounts | lib/pfodParser/pfodRawCmdParser.cpp:243-247 | the count of arguments is never set back: every message adds its separators, modulo 256 |
| RawRecovery.OnlyRawEndsReturn | lib/pfodParser/pfodRawCmdParser.cpp:191-263 | on any bytes a command is returned at the closing brace of a message and nowhere else |
| RawRecovery.NothingRawAfterClose | lib/pfodParser/pfodRawCmdParser.cpp:50-61 | after the end-of-file byte nothing can be read out |
| ParserLockstep.StepInStep | lib/pfodParser/pfodRawCmdParser.cpp:191-263 | from states in step, both parsers stay in step on a byte if and only if it is not a colon right after the opening brace |
| ParserLockstep.Lockstep | lib/pfodParser/pfodParser.cpp:347-432 | on any bytes with no message opening "{:", both start, reset and finish together, and the cooked buffer is the raw body with separators and the version colon replaced by nulls |
| CommandParserObjects.PfodParser.InitParser | lib/pfodParser/pfodParser.cpp:58-75 | the parser's reset, with the sequence character remembered |
| CommandParserObjects.PfodParser.ParseByte | lib/pfodParser/pfodParser.cpp:347-432 | one byte does the cooked parser's step; the index stays inside args |
| CommandParserObjects.PfodParser.FirstArg | lib/pfodParser/pfodParser.cpp:182-191 | the loop finds the position after the command's null |
| CommandParserObjects.PfodParser.NextArg | lib/pfodParser/pfodParser.cpp:200-209 | the loop finds the position after the argument's null |
| CommandParserObjects.PfodParser.SetCmd | lib/pfodParser/pfodParser.cpp:125-131 | the command alone, without arguments |
| CommandParserObjects.PfodRawCmdParser.InitParser | lib/pfodParser/pfodRawCmdParser.cpp:50-61 | the raw parser's reset |
| CommandParserObjects.PfodRawCmdParser.ParseByte | lib/pfodParser/pfodRawCmdParser.cpp:191-263 | one byte does the raw parser's step |
| CommandParserObjects.PfodRawCmdParser.Available | lib/pfodParser/pfodRawCmdParser.cpp:90-92 | how much of the message has not been read |
| CommandParserObjects.PfodRawCmdParser.Read | lib/pfodParser/pfodRawCmdParser.cpp:94-100 | takes the first unread byte |
| CommandGateProof.OnlyGenuineCommands | lib/pfodParser/pfodSecurity.cpp:978-1460 | in every run with a password in which nothing that is written disturbs, a message is accepted only if the last bytes to arrive are that whole message and eight digits giving the hash of it, the present count and the challenge; a returned command other than '!' is that of an accepted message |
| CommandGateLimits.FairExactly | lib/pfodParser/pfodSecurity.cpp:728-910 | from every gate of the invariant: an event keeps everything that is accepted genuine, for every hash and every continuation without disturbance, if and only if it does not disturb |
| CommandGateLimits.FairExactlyInRuns | lib/pfodParser/pfodSecurity.cpp:978-1460 | the same after every undisturbed run from a new connection |
| CommandGateLimits.DisturbedFails | lib/pfodParser/pfodSecurity.cpp:1084-1220 | the other half in full: for every hash a disturbing byte has a hash that differs from it in one place only, and bytes with whose arrival a message that is not genuine is accepted and its command returned, both while a message is read and while its digits are collected |
| CommandGateLimits.SameMessage | lib/pfodParser/pfodSecurity.cpp:978-1460 | the message that arrived last is determined: two messages that end the same bytes and leave the parser in the same state are equal |
| CommandGateProof.StaysClosed | lib/pfodParser/pfodSecurity.cpp:1175-1220 | once a message under way cannot be accepted, no byte makes it acceptable again |
| CommandGateExample.HandshakeAuthorises | lib/pfodParser/pfodSecurity.cpp:1251-1325 | for every hash and challenge, asking for the challenge and answering with its hash authorises a new connection |
| CommandGateExample.FailingRun | lib/pfodParser/pfodSecurity.cpp:1084-1220 | a failing run from any new connection, with any challenge and an eight-byte hash: the handshake, {A}, a written {}, and its digits return A, whose hash has not arrived |
| CommandGateProof.StepCounts | lib/pfodParser/pfodSecurity.cpp:978-1460 | the count goes on with each accepted message and otherwise only starts again, whatever is written |
| CommandGateProof.ConsecutiveCounts | lib/pfodParser/pfodSecurity.cpp:978-1460 | messages are accepted with consecutive counts, whatever is written between |
| CommandGateProof.CountsFromZero | lib/pfodParser/pfodSecurity.cpp:430-456 | the counts are 0, 1, 2, ... since the connection was initialised, whatever is written between |
| CommandGateProof.StepGated | lib/pfodParser/pfodSecurity.cpp:978-1460 | what every byte, undisturbing output, timeout or invalid hash object does to the gate's invariant, to what is accepted and returned, and to the count |
| CommandGateProof.CallIsSteps | lib/pfodParser/pfodSecurity.cpp:978-1460 | a call of parse is its bytes one after the other, returning at the first command |
| GateMessages.CommandExactly | lib/pfodParser/pfodSecurity.cpp:1034-1240 | an authorised connection with a password, any message that fits and any eight bytes behind it: if these give the hash of message, count and challenge, and only then, the command is returned with the last of them, the getters give the fields, the count goes on and raw data is allowed; otherwise the connection ends as a new one begins, and a wrong hash is remembered; nothing is returned before |
| GateMessages.AuthorisingExactly | lib/pfodParser/pfodSecurity.cpp:1251-1345 | any message that fits, before authorisation: without a challenge the request for one is answered with it, with a challenge an argument that gives its hash authorises, and everything else ends the connection; no command is returned |
| GateMessages.FreeExactly | lib/pfodParser/pfodSecurity.cpp:1346-1375 | any message that fits, without a password: a request is answered, the two commands that end a connection do, and every other one is returned with its fields |
| GateMessages.RequestsAgain | lib/pfodParser/pfodSecurity.cpp:1175-1220 | a request from an authorised connection starts again at once with a new challenge and counts 0 |
| GateMessages.DisconnectsAtOnce | lib/pfodParser/pfodSecurity.cpp:978-1460 | the command that ends a connection needs no hash |
| GateMessages.EndsAfresh | lib/pfodParser/pfodSecurity.cpp:430-480 | whatever was under way, an idle connection, an invalid hash object or the end-of-file byte leave the gate of a new connection |
| GateMessages.WritesInStep | lib/pfodParser/pfodSecurity.cpp:728-910 | every written byte moves the gate as it moves the framing's server: silent before authorisation, at the same place of a message, with the same count |
| GateMessages.WrittenIsHashed | lib/pfodParser/pfodSecurity.cpp:728-910 | a message written while nothing arrives is hashed with its count and the challenge |
| CommandGateObject.PfodSecurityInput.InitInput | lib/pfodParser/pfodSecurity.cpp:430-456 | the gate's initial state: counts 0, nothing collected |
| CommandGateObject.PfodSecurityInput.CloseConnection | lib/pfodParser/pfodSecurity.cpp:463-480 | the gate closed |
| CommandGateObject.PfodSecurityInput.CollectHashDigit | lib/pfodParser/pfodSecurity.cpp:978-1460 | one digit does the gate's step: the eighth accepts and counts or disconnects |
| CommandGateObject.PfodSecurityInput.HashMsgByte | lib/pfodParser/pfodSecurity.cpp:978-1460 | one byte of a message is hashed, and the closing brace starts the collection |
| CommandGateObject.PfodSecurityInput.JudgeCmd | lib/pfodParser/pfodSecurity.cpp:978-1460 | while authorising only a challenge and its answer pass; nothing is returned |
| CommandGateObject.PfodSecurityInput.ParseInput | lib/pfodParser/pfodSecurity.cpp:978-1460 | a call of the object is a call of the gate |
| CommandGateObject.PfodSecurityInput.WriteToPfodApp | lib/pfodParser/pfodSecurity.cpp:728-910 | a byte written out does the gate's output step: it goes into the one hash object at once, and the closing brace puts digits into the one digit buffer |
| Challenges.ChallengesAreUnique | lib/pfodParser/pfodMAC.cpp:546-685 | over any sequence of power-ups, initialisations and challenges made while valid, with EEPROM and a key, no two challenges agree in their first four bytes |
| Challenges.UniqueFromPowerOn | lib/pfodParser/pfodMAC.cpp:153-199 | the same from the first power-up, whatever the EEPROM holds |
| Challenges.AllAreLater | lib/pfodParser/pfodMAC.cpp:466-529 | every challenge to come has a smaller stored power cycle or a greater counter: the lexicographic measure |
| Challenges.StepKeepsInUse | lib/pfodParser/pfodMAC.cpp:546-669 | every event keeps the stored number below the one in use and moves the measure on |
| Challenges.PowerAndCounter | lib/pfodParser/pfodMAC.cpp:645-669 | the first four bytes give the power cycle and the counter |
| Challenges.NotUniqueWithoutEEPROM | lib/pfodParser/pfodMAC.cpp:141-143 | without EEPROM a later power-up makes an earlier challenge again |
| Challenges.RepeatsExactly | lib/pfodParser/pfodMAC.cpp:546-669 | in one power-on without EEPROM two challenges agree in their first four bytes if and only if a multiple of 65535 * 65535 challenges lies between them |
| Challenges.CountedIs | lib/pfodParser/pfodMAC.cpp:546-570 | the numbers of the nth challenge of such a power-on, of which none is refused |
| Challenges.RandomIsUsed | lib/pfodParser/pfodMAC.cpp:466-485 | without EEPROM the power number is the random one, or the greatest if that is 0, and the stored one is left alone |
| Challenges.PowerUpsCountDown | lib/pfodParser/pfodMAC.cpp:466-529 | with EEPROM every power-up takes one number; from n stored numbers exactly n power-ups give challenges |
| Challenges.RefusedExactly | lib/pfodParser/pfodMAC.cpp:546-570 | with EEPROM a challenge is refused if and only if the counter is used up and no stored number is left; otherwise it takes the next counter, or the next number with counter 1 |
| SecuredServer.AuthorisedByAnswer | lib/pfodParser/pfodSecurity.cpp:1300-1325 | in every run from the first power-up the server becomes authorised only by a byte that completes an answer with the hash of the challenge it made last |
| SecuredServer.NextKeeps | lib/pfodParser/pfodSecurity.cpp:1251-1325 | every happening keeps the invariant: while an answer is awaited the hash object shows the hash of the present challenge |
| SecuredServer.NeverAcceptedTwice | lib/pfodParser/pfodSecurity.cpp:978-1460 | over all connections and power-ups no two messages are accepted with the same count under challenges that agree in their first four bytes |
| SecuredServer.AllAcceptedAhead | lib/pfodParser/pfodMAC.cpp:546-669 | everything accepted in a run belongs to a challenge to come, or to the present one with a count that has not been used |
| MacObject.ReverseBytes | lib/pfodParser/pfodMAC.cpp:693-701 | the bytes are in the opposite order, in place |
| MacObject.PfodMac.Init | lib/pfodParser/pfodMAC.cpp:153-199 | the state of the challenge machine after initialisation; the first call alone reads the number |
| MacObject.PfodMac.ReadCycles | lib/pfodParser/pfodMAC.cpp:466-529 | the stored number, of which one is used up for good; without EEPROM a random number that is never 0 |
| MacObject.PfodMac.CountConnection | lib/pfodParser/pfodMAC.cpp:546-570 | counts on; when the counter is used up a new number is stored; at the end no challenge |
| MacObject.PfodMac.BuildChallenge | lib/pfodParser/pfodMAC.cpp:546-685 | the eight bytes of the challenge, most significant first on either machine |
| NineBitPacking.TransferIsWords | lib/U8g2/src/U8x8lib.cpp:703-747 | for any data and dc settings in a transfer, the bits of the bytes sent are the nine-bit words in order, dc first, and fewer than eight zeros |
| NineBitPacking.SendPacks | lib/U8g2/src/U8x8lib.cpp:720-747 | one byte adds its word to the packed bits, over the flush at nine bytes |
| NineBitPacking.ShiftedBits | lib/U8g2/src/U8x8lib.cpp:720-747 | the shifted 16-bit value has the word at its position and zeros around it |
| NineBitObject.Spi3Wire.InitBuffer | lib/U8g2/src/U8x8lib.cpp:703-707 | nine zero bytes, position 0 |
| NineBitObject.Spi3Wire.FlushBuffer | lib/U8g2/src/U8x8lib.cpp:709-718 | the bytes up to the position go out in order |
| NineBitObject.Spi3Wire.SendDataByte | lib/U8g2/src/U8x8lib.cpp:720-747 | the object does the packer's step |
| NineBitObject.Spi3Wire.SendData | lib/U8g2/src/U8x8lib.cpp:758-767 | the loop does the packer's steps for all bytes |
| NineBitObject.Spi3Wire.End | lib/U8g2/src/U8x8lib.cpp:829-842 | what is left goes out, and nothing if nothing is left |
| KeyList.EveryRunFromNew | lib/Keypad/Keypad.cpp:103-175 | in every run of scans from an empty list no two slots hold the same key code, a key keeps its slot until it is idle, and each slot goes through PRESSED, perhaps HOLD, RELEASED, IDLE |
| KeyList.EveryRun | lib/Keypad/Keypad.cpp:103-175 | the same from any list in order |
| KeyList.ScanKeepsListed | lib/Keypad/Keypad.cpp:103-148 | one scan keeps codes unique and every key with the character of its place |
| KeyList.ScanMovesSlot | lib/Keypad/Keypad.cpp:152-175 | a slot moves at most one state a scan, and the change flag says exactly whether it has |
| KeyList.PressedIsListed | lib/Keypad/Keypad.cpp:119-141 | a pressed key is missing after a scan only if every slot is taken |
| KeyList.ScanObeys | lib/Keypad/Keypad.cpp:152-175 | one scan, slot by slot and in terms of the button: when exactly a listed key is PRESSED, HOLD, RELEASED and IDLE afterwards, and what an idle slot becomes |
| KeyList.ReleasedOnlyWhenOpen | lib/Keypad/Keypad.cpp:159-170 | in every run a slot turns RELEASED only in a scan in which its button is open |
| KeyList.HeldDown | lib/Keypad/Keypad.cpp:159-170 | in every run a listed key whose button stays closed is PRESSED until it has been held long enough and HOLD from then on |
| KeyList.LetGo | lib/Keypad/Keypad.cpp:159-175 | a key whose button stays open is RELEASED and then IDLE after a fixed small number of scans |
| KeyList.OffTheList | lib/Keypad/Keypad.cpp:103-117 | and its slot is free for another key one scan later |
| KeyList.NewlyPressed | lib/Keypad/Keypad.cpp:119-141 | a key that is pressed and not on the list takes a free slot as PRESSED |
| KeypadObject.Keypad.NextState | lib/Keypad/Keypad.cpp:152-175 | the slot follows its button |
| KeypadObject.Keypad.Find | lib/Keypad/Keypad.cpp:201-208 | the first slot with the code, -1 if there is none |
| KeypadObject.Keypad.Update | lib/Keypad/Keypad.cpp:103-148 | the nested loops do one scan of the list; the result says whether a slot changed |

## Left out

- Clocks, power-up and hardware: timers, radio mode, packet arrival, write delay, debouncing and SPI set-up are inputs or not part of this model.
- RadioGuarantees.ExactlyOnceInOrder: does not cover a poll that acknowledges an unstored message, an expired link timer, a node that gives up, a third node, or reconnection with old packets under way, because the code does not guarantee delivery then; channels lose packets in flight order and do not reorder or duplicate them, and the driver's maximum length is below 255.
- Radio liveness: the code resends a limited number of times; what one resend makes good and what none does is proved (RadioRepair.ClientRepairedExactly, RadioRepair.ClientMessageRepaired), how often losses happen is not modelled.
- RadioMessageObjects.PfodRadioMsg.IsNewMsg: follows the code, which treats target address 0 as no connection, although the documentation allows addresses 0 to 254.
- Radio.PfodRadio.Listen: the buffers and message objects are handed over at construction instead of in init(); the same holds for the other objects.
- SmsSending.SendAllIsTexts: responses are free of nulls and flushed once; the forced recursion of sendNextSMS for a response containing nulls, a flush during a send, and raw data are not modelled.
- SmsLinkProof.AtMostOnce: the flags that stop sending are not part of the connection machine.
- SmsConnectionObject.PfodSmsConnections.ProcessMessage: a counted length past the end of the buffer has no place in the array of the model; SmsLink.PlaceLostExactly says when it comes about, and ReadByte then reads on as the source does.
- SmsConnectionObject.PfodSmsConnections.DecodeSMS: the same.
- The exchange of AT commands with the modem, deletion of messages and the queue of message numbers.
- FramingProof.FramingRoundTrip: both sides are authorised, raw data and messages share a link, 0xff does not occur and buffers have room; nothing that is received is hashed while a message goes out, since both directions share one hash object; an opening brace that may yet start a message is still held at the end; closing after "{!" happens in read(), which is not modelled.
- The client's handshake before it is authorised and its own writing of commands.
- CommandGateProof.OnlyGenuineCommands: key handling in connect(), and touch and drawing commands are not modelled.
- ParserRecovery.Recovery: parseLong and the getters for drawings are not modelled.
- Challenges.ChallengesAreUnique: setting a new key in EEPROM and resetPowerCycles, which starts the numbers again, are not modelled.
- KeyList.EveryRunFromNew: the hold time is a per-key input, and getKey, waitForKey and the event listener are left out.
- pfodSMS_SIM900.cpp and pfodMACClient.cpp, near-copies of what is modelled.
- The drawing classes, number printing, sockets and Wi-Fi, other displays, the X-Plane plugin, the boxes and the loop timers: interface code and small tables.
