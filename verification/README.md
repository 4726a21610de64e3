# A verified model of the MQTT client and the Telnet engine

This project models, in Dafny, the protocol and data-structure cores of the repository and proves properties
of them: the delivery protocol, persistence, packet input and output, command queue, tree and list of the
bundled Paho MQTT C client (`paho-c/src`), the Telnet engine (`telnet.c`) and the pattern matcher (`match.c`).
`dafny verify dfyconfig.toml` checks everything.

Code that changes an object in place is a class whose methods are proved against functions on values; what the
code promises is proved about those functions, over all inputs or all runs.

**MQTT delivery.** `ClientHandlers` has the handlers as functions from one client state to the next, `Client`
the object that updates its lists in place, proved to do the same. `Session` joins two clients by a FIFO
channel each way; a run is any sequence of publications, in-session retries, deliveries, single losses,
disconnects (both channels emptied), reconnects with a retry pass over any beginning of the list, restarts of
either side from its store, crashes of the sender between the two removals made on PUBCOMP, and crashes of the
receiver between the hand-over and the removal made on PUBREL. Ids are reused.
`ExactlyOnce` proves the QoS 2 guarantee of section 4.3.3 of MQTT Version 3.1.1 over every run, `HandOvers` how
often the application can be handed a publication, `AtLeastOnce` what becomes of QoS 0 and QoS 1, `StaleIds` a QoS 1
publication that is lost, `OrderedDelivery` the ordering of section 4.6 over runs whose reconnects retry the whole
list, `StoreRecovery` that the stored keys determine the in-flight state, `OrderRecovery` when a restart gives the list back in its order, and `MessageIds` what an assigned id is. `Stall`
shows that a lost PUBCOMP is never made good, and `Completion` that this is the only way in which an exchange can
get stuck. `WirePackets` and `RunsOnWire` connect the packets of a run to their bytes.

**Linked list.** `LinkedList` has the doubly linked list with its cached cursor on heap nodes; `RestoredList`
runs the sorted insertion and the rotation of restored ids on it.

**Tree.** `TreeShape` has red-black trees as values, taken apart at the node in hand into a subtree and the
path to the root; `TreeNodes` says when nodes with parent pointers form such a tree; `TreeOrder` is the search
order. The class in `Tree` rotates, recolours, adds, finds, steps to the next element and removes on the
pointers, and is proved to produce those shapes. `TreeRuns` follows whole sequences of operations.

**Packet input and output.** `MqttWire` has packets as bytes, `ReadHeader` the header that comes in byte by
byte, `SocketReads` the interrupted and resumed reads, `SocketSchedule` many sockets read in turn, and
`SocketWrites` the partial writes. Besides what is kept, both directions have progress: what a read must return when
the socket has the bytes, and what a write must get rid of when the socket takes them.

**Command queue.** `CommandQueue` has the queue of the asynchronous client and its selection loop.

**Telnet.** `TelnetOptions` and `TelnetNegotiator` have the option table and the Q method of RFC 1143;
`TelnetHalves` and `TelnetFate` follow one option in one direction between two endpoints that run it,
`TelnetAgreement` all options together, `TelnetQueued` a run that ends in disagreement, and `TelnetOverflow` the
64th option; `TelnetEvents` is about what the application is told of all this. `TelnetParser` has the parser,
`TelnetReceiver` the object, `TelnetChunking` and `TelnetRoundTrip` what is proved about them, and `TelnetMessages`
what the bytes of each message do, which makes a receiver the endpoint of the agreement theorems. `Environ` and
`EnvironBuffer` decode ENVIRON lists (RFC 1572), on values and in place.

**Matcher.** `Matcher` compares match.c with the language its patterns denote.

`Sequences` and `Bytes` are shared by all of these.

## What turned out not to hold

Each of these is stated exactly, for all inputs.

- Adding a key that is already in the tree can break its balance: `TreeShape.ReAddKeepsBalance`, with a tree of
  five nodes in `TreeShape.ReAddSevenBreaks`.
- A WONT that meets WANTNO_OP makes the negotiator wait for a WILL without sending the DO, so a DO queued
  behind a pending DONT leaves the two sides in disagreement: `TelnetAgreement.DoBehindDontDisagrees`, from new
  endpoints in `TelnetQueued.QueuedDoReached`.
- The size of the option table is an unsigned byte; the 64th option wraps it to zero and every option is
  forgotten (`TelnetOptions.GetPut`). The two sides then end in disagreement about exactly the options that
  were on: `TelnetOverflow.OverflowForgets`, from new endpoints in `TelnetOverflow.OverflowReached`.
- After the old compression sequence the parser's text start can lie behind the end of the chunk, and the
  length of the text event wraps: `TelnetChunking.ChunkingIndependence`, for the chunk 255 250 85 251 in
  `TelnetChunking.OldCompressionOverruns`.
- A subnegotiation with more than 16384 bytes, or for option 85 with the byte 251 in it, does not arrive:
  `TelnetRoundTrip.SubnegotiationRoundTrip`.
- An ENVIRON list that ends in an escaped ESC is refused, and no other well-formed one: `Environ.DecodesTheGrammar`.
- A restart changes the order of the outbound list when its ids are not in issue order or a gap between
  neighbouring ids beats the one in front of the oldest: `OrderRecovery.RestartRestoresOrder`, with ids 1 and
  40000 in `OrderRecovery.LargeSpanTurnsRound`. For a crash on PUBCOMP: `OrderRecovery.CrashKeepsOrder`.
- An exchange can get stuck: whatever follows, the sender keeps its record exactly when it waits for a PUBCOMP
  that is not on its way and the receiver has forgotten the publication (`Completion.StuckIsStalled`). So a
  disconnect leaves a record behind for good exactly when its publication has been handed over
  (`Completion.DisconnectDecides`); the shortest such run is `Stall.LostPubcompStalls`.
- A receiver that dies after handing a publication over, before its key is removed from the store, hands it over
  again on the next PUBREL. No other step repeats a hand-over (`HandOvers.RepeatedOnlyAfterCrash`), and there are
  at most as many repetitions as crashes (`HandOvers.AtMostOncePerCrash`); a run with two hand-overs is
  `HandOvers.CrashRepeats`.
- A QoS 1 publication can be lost: when its id has come round again while a PUBLISH or a PUBACK of an earlier QoS 1
  publication with that id is still under way, that PUBACK takes the new record away. In no other case:
  `AtLeastOnce.SurelyHandedOver`. A restart is enough for ids to come round, because the counter is not stored; with
  never more than one record on the list: `StaleIds.PublicationIsLost`.
- The option events are documented as naming the command received (telnet.h:161-164). A WONT that answers a DONT when a
  DO has been requested since is announced as DO, and a DONT that answers a WONT as WONT or WILL. An application that
  goes by the events is misled about which side has an option on by exactly these messages: `TelnetEvents.EventsTell`;
  turning an option on and off is enough: `TelnetEvents.TurnedOffUnnoticed`.
- What is restored next to a stored PUBREL that cannot be decoded depends on the order in which the keys are listed:
  `ClientHandlers.BadReleaseByOrder`; without a record of the same id it does not matter: `ClientHandlers.OpenApart`.
- The search for a message id does not end when the counter is zero and every id is in use:
  `MessageIds.SearchEnds`.
- A topic of more than 65535 bytes, or a remaining length above 268435455, is not read back:
  `MqttWire.WireRoundTrip`. The publication with the long topic is received as another one, under an id made of
  two of its topic's bytes, and a PUBREL for that id hands it over: `RunsOnWire.LongTopicIsMisread`.

## Model

| member | source | states |
|---|---|---|
| ExactlyOnce.ExactlyOnceDelivery | paho-c/src/MQTTProtocolClient.c:352-452 | over every run, in which no publication exceeds the length fields, each hand-over that the receiver's handler completes is of a publication the sender accepted, with its topic, payload and retain flag, none has two of them, and every accepted one has one or is still on record at the sender |
| HandOvers.AtMostOncePerCrash | paho-c/src/MQTTProtocolClient.c:428-445 | counting those as well during which the receiver died, everything handed over was accepted, and nothing is handed over more often than once plus the number of such crashes |
| HandOvers.RepeatedOnlyAfterCrash | paho-c/src/MQTTProtocolClient.c:428-445 | a step of any run hands over at most one publication, never one whose hand-over was completed; one handed over before was so only while the receiver died |
| HandOvers.CrashRepeats | paho-c/src/MQTTProtocolClient.c:440-445 | one exchange on a fresh session with one such crash: handed over twice |
| HandOvers.InterruptedInOrder | paho-c/src/MQTTProtocolClient.c:428-445 | in an ordered run a hand-over that is cut short is of the next publication in order |
| AtLeastOnce.SurelyHandedOver | paho-c/src/MQTTProtocolClient.c:312-342 | in every reachable state, a QoS 1 publication that is accepted is in every continuation handed over or still on the sender's list, if and only if no PUBLISH or PUBACK of an earlier QoS 1 publication with its id is under way |
| AtLeastOnce.AtLeastOnceDelivery | paho-c/src/MQTTProtocolClient.c:312-342 | so over every run in which that is the case for each publication, every accepted QoS 1 publication has been handed over or is on the sender's list |
| AtLeastOnce.AcknowledgedIsHandedOver | paho-c/src/MQTTProtocolClient.c:256-302 | over every run, what of QoS 0 and QoS 1 is handed over was accepted, with its topic, payload and retain flag, and for every PUBACK under way a QoS 1 publication of that id has been handed over |
| AtLeastOnce.LowIsHandedOver | paho-c/src/MQTTProtocolClient.c:268-277 | a QoS 0 or QoS 1 PUBLISH that the receiver reads is handed over there and then, and a QoS 1 one is acknowledged |
| StaleIds.PublicationIsLost | paho-c/src/MQTTProtocolClient.c:312-342 | a run with one restart in which the second of two QoS 1 publications is never handed over and neither on record nor under way at the end |
| AtLeastOnce.OneQos1Exchange | paho-c/src/MQTTProtocolClient.c:312-342 | one QoS 1 publication on a fresh session is handed over once and leaves no record and no key |
| RunsOnWire.PacketsSurvive | paho-c/src/MQTTPacket.c:671-718 | over every run each packet in a channel is read back from its bytes as the same packet with nothing consumed beyond it, and each packet in a store is restored from its bytes |
| RunsOnWire.LongTopicIsMisread | paho-c/src/MQTTPacket.c:671-718 | a QoS 2 publication with a topic of more than 65535 bytes is read as another one under an id made of two of its topic's bytes, which a PUBREL for that id hands over |
| WirePackets.TravelsOnWire | paho-c/src/MQTTPacket.c:671-718 | a packet of the delivery protocol is read back as itself exactly when it fits its length fields |
| MqttWire.LongTopic | paho-c/src/MQTTPacket.c:671-718 | exactly what is read instead when the topic is too long |
| ExactlyOnce.IdsStayDistinct | paho-c/src/MQTTProtocolClient.c:69-89 | over every run the ids of the records are pairwise distinct in both directions and both stores stay recoverable |
| ExactlyOnce.RunKeepsInv | paho-c/src/MQTTProtocolClient.c:555-616 | the invariant behind both: for every open exchange, which packets may be under way, what the receiver holds, and whether it has been handed over |
| ExactlyOnce.HandOverKeepsInv | paho-c/src/MQTTProtocolClient.c:401-452 | a PUBREL that meets a record hands over exactly the publication it was sent for, once |
| ExactlyOnce.ReleaseKeepsInv | paho-c/src/MQTTProtocolClient.c:352-393 | a PUBREC releases exactly the record it answers, and only one that waits for it |
| ExactlyOnce.PubcompMeansDelivered | paho-c/src/MQTTProtocolClient.c:461-501 | when a PUBCOMP completes an exchange its publication has been handed over |
| ExactlyOnce.StorePublishKeepsInv | paho-c/src/MQTTProtocolClient.c:278-300 | a QoS 2 PUBLISH that arrives, or arrives again, is held and not handed over |
| ExactlyOnce.RetriesKeepInv | paho-c/src/MQTTProtocolClient.c:555-616 | writing any selection of records again, with whatever PUBLISH or PUBREL is due, keeps the invariant |
| OrderedDelivery.DeliveredInOrder | paho-c/src/MQTTAsync.c:1433-1442 | in every run whose reconnects retry the whole list, the publications handed over are at all times a prefix of those published |
| OrderedDelivery.RetryPacketIds | paho-c/src/MQTTProtocolClient.c:555-616 | a full retry pass writes the PUBRELs of the records at the front of the list and then the PUBLISHes of the rest, both in list order |
| OrderedDelivery.AReleasesInOrder | paho-c/src/MQTTProtocolClient.c:352-393 | records waiting for PUBCOMP stay in front of those waiting for PUBREC |
| StoreRecovery.RestoreRebuilds | paho-c/src/MQTTPersistence.c:171-259 | whatever order the keys are listed in, restoring gives back exactly the records of both directions with the acknowledgements they wait for, and clears stray release keys |
| StoreRecovery.CrashBetweenRemovals | paho-c/src/MQTTPersistence.c:395-420 | a crash between the two removals made on PUBCOMP recovers to the same records as after both |
| StoreRecovery.CrashBeforeRemovalRepeats | paho-c/src/MQTTProtocolClient.c:440-445 | a receiver restored from the store as it is between the hand-over and the removal of the key hands the same publication over on the next PUBREL, one restored after the removal does not |
| StoreRecovery.HandleKeepsRecoverable | paho-c/src/MQTTPersistence.c:336-420 | after every handler the stored keys still determine the in-flight state |
| StoreRecovery.StartPublishKeepsRecoverable | paho-c/src/MQTTProtocolClient.c:142-160 | the same after a publication has been started |
| StoreRecovery.RetriesKeepRecoverable | paho-c/src/MQTTProtocolClient.c:555-616 | the same after any retry pass |
| ClientHandlers.OpenApart | paho-c/src/MQTTPersistence.c:171-259 | with records that cannot be decoded, of ids that no other record has, the restored state is the one without them |
| ClientHandlers.BadReleaseByOrder | paho-c/src/MQTTPersistence.c:213-248 | with a PUBREL record that cannot be decoded, its PUBLISH waits for PUBCOMP or for PUBREC depending on which key comes first |
| OrderRecovery.RestartRestoresOrder | paho-c/src/MQTTPersistence.c:305-319 | for any recoverable records with ids in 1..65535 and any order of the keys, a restart gives the list back in its order if and only if the ids are in issue order and the gap in front of the oldest id wins |
| OrderRecovery.WrapPointIs | paho-c/src/MQTTPersistence.c:428-465 | the rotation point is the first position of a largest gap |
| OrderRecovery.ShortSpanWins | paho-c/src/MQTTPersistence.c:428-465 | a total span below 65535/2 is enough for that |
| OrderRecovery.LargeSpanTurnsRound | paho-c/src/MQTTPersistence.c:428-465 | ids 1 and 40000 come back the other way round |
| OrderRecovery.RestartKeepsOrder | paho-c/src/MQTTPersistence.c:171-259 | in every reachable state, a restart is one that an ordered run may contain if and only if the ids are in issue order and the first gap wins |
| OrderRecovery.CrashKeepsOrder | paho-c/src/MQTTPersistence.c:171-259 | in every reachable state, a crash between the two removals made on PUBCOMP is one that an ordered run may contain if and only if the remaining ids are in issue order and the first gap wins |
| MessageIds.NextIdIsNextUnused | paho-c/src/MQTTProtocolClient.c:69-89 | a nonzero id is the first unused one after the counter, going round 1..65535 |
| MessageIds.SearchEnds | paho-c/src/MQTTProtocolClient.c:69-89 | the search comes to an end exactly when the counter is not zero or some id is free |
| MessageIds.NextIdIsZero | paho-c/src/MQTTProtocolClient.c:69-89 | 0 is returned exactly when every id except possibly the starting one is in use |
| MessageIds.IdIsLeft | paho-c/src/MQTTAsync.c:958-960 | with fewer records than the asynchronous client allows before it takes a command, an id is found |
| Stall.StalledForever | paho-c/src/MQTTProtocolClient.c:412-418 | a record that waits for a PUBCOMP of an exchange the receiver has forgotten stays on the list in every continuation |
| Stall.DisconnectStalls | paho-c/src/MQTTProtocolClient.c:600-600 | a disconnect leaves a QoS 2 record in that state exactly when its publication has been handed over |
| Completion.StuckIsStalled | paho-c/src/MQTTProtocolClient.c:412-418 | in every reachable state, a QoS 2 record stays on the sender's list in every continuation if and only if it is in that state |
| Completion.DisconnectDecides | paho-c/src/MQTTProtocolClient.c:600-600 | after a disconnect a QoS 2 record stays on the list in every continuation if and only if its publication has been handed over |
| Completion.DupWouldRelease | paho-c/src/MQTTProtocolClient.c:412-418 | a PUBREL with DUP set would be answered for such a record without a second hand-over, and the answer would take it off the list |
| Stall.LostPubcompStalls | paho-c/src/MQTTProtocolClient.c:412-418 | one exchange on a fresh session, cut by a disconnect before the PUBCOMP is read: delivered once, and its record stalled |
| Stall.OneExchange | paho-c/src/MQTTProtocolClient.c:142-160 | one publication on a fresh session goes through and leaves no record and no key |
| Client.Client.Restore | paho-c/src/MQTTPersistence.c:171-259 | the key loop rebuilds the state that the restore function defines, and exactly the listed records whose stored packet cannot be decoded are removed |
| ClientHandlers.BadRecordsGo | paho-c/src/MQTTPersistence.c:171-259 | whatever the order of the keys, of the records that cannot be decoded those listed are removed and no others |
| Client.Client.InsertInOrder | paho-c/src/MQTTPersistence.c:305-319 | the insertion loop puts the record in front of the first larger id |
| ClientHandlers.InsertPlace | paho-c/src/MQTTPersistence.c:305-319 | a restored record is put in front of the first one with a larger id, or at the end |
| Client.Client.AssignMsgId | paho-c/src/MQTTProtocolClient.c:69-89 | the search loop stops with the next unused id, or 0, whenever it ends at all |
| Client.Client.StartPublish | paho-c/src/MQTTProtocolClient.c:142-160 | the new record, the stored key and the packet written, for each QoS; no other id's records and keys change |
| Client.Client.HandlePublish | paho-c/src/MQTTProtocolClient.c:256-302 | the new state, replies and hand-overs for each QoS: QoS 0 and QoS 1 are handed over at once, QoS 1 acknowledged, QoS 2 held; a repeated id replaces the held publication |
| Client.Client.HandlePuback | paho-c/src/MQTTProtocolClient.c:312-342 | an awaited QoS 1 record and its key are removed, anything else changes nothing |
| Client.Client.HandlePubrec | paho-c/src/MQTTProtocolClient.c:352-393 | an awaited record moves on to PUBCOMP and a PUBREL is stored and sent, anything else changes nothing |
| Client.Client.HandlePubrel | paho-c/src/MQTTProtocolClient.c:401-452 | the publication held is handed over, removed and answered, and nothing else is handed over; an unknown id is answered exactly when DUP is set |
| Client.Client.HandlePubcomp | paho-c/src/MQTTProtocolClient.c:461-501 | an awaited record and both its keys are removed, anything else changes nothing |
| Client.Client.Retries | paho-c/src/MQTTProtocolClient.c:555-616 | the loop writes and stores the packets due, in list order: exactly those of the records whose time has run out, or all on a reconnect, until the socket is full, and then no later one; a PUBLISH is marked as a duplicate |
| LinkedList.List.Append | paho-c/src/LinkedList.c:70-96 | the content is added at the end, links and count stay consistent, the cursor stays |
| LinkedList.List.Insert | paho-c/src/LinkedList.c:106-127 | the content is added in front of the given element, or at the end |
| LinkedList.List.FindItem | paho-c/src/LinkedList.c:150-185 | the cursor-first lookup succeeds exactly when a linear search does, returns a matching element and sets the cursor to it, and returns the same element as the linear search when at most one matches |
| LinkedList.List.Unlink | paho-c/src/LinkedList.c:197-229 | exactly the found element leaves the chain; a cursor on it moves to its successor, another stays |
| LinkedList.List.DetachHead | paho-c/src/LinkedList.c:261-277 | the first content is returned and the rest stays, linked and in order; nothing is returned exactly when the list is empty |
| LinkedList.List.PopTail | paho-c/src/LinkedList.c:299-317 | the last content is returned and the rest stays, linked and in order; nothing is returned exactly when the list is empty |
| LinkedList.List.RotateTo | paho-c/src/MQTTPersistence.c:450-461 | the pointer rotation gives a well-formed list that starts at the given element |
| RestoredList.InsertInOrder | paho-c/src/MQTTPersistence.c:305-319 | on the pointer list the walk and insertion do what the function on sequences does |
| RestoredList.WrapMsgId | paho-c/src/MQTTPersistence.c:428-465 | on the pointer list the largest-gap walk and rotation do what the function on sequences does |
| TreeRuns.Replay | paho-c/src/Tree.c:192-249 | after every sequence of additions of absent keys and removals the tree is linked, ordered and balanced and holds exactly the entries of a map that takes the same operations, count included |
| Tree.Tree.Add | paho-c/src/Tree.c:192-249 | the entry comes to stand between those with smaller and larger keys; the tree stays valid for an absent key, and for a present one exactly when the node is not a black inner grandchild below a red parent with a black uncle |
| Tree.Tree.RemoveNode | paho-c/src/Tree.c:398-457 | exactly the entry of the given node is removed, exactly one node is freed and none of the remaining links leads to it, and the tree stays valid |
| Tree.Tree.RemoveKey | paho-c/src/Tree.c:488-510 | removes the entry with that key, or changes nothing when there is none |
| Tree.Tree.Find | paho-c/src/Tree.c:264-278 | finds the node with the key exactly when there is one, looking at no more than 2*log2(count+1) nodes |
| Tree.Tree.NextElement | paho-c/src/Tree.c:299-339 | visits the entries in key order from the first to the last |
| Tree.Tree.Successor | paho-c/src/Tree.c:308-323 | down to the leftmost right descendant or up to the first ancestor on that side: the next node in key order |
| Tree.Tree.Rotate | paho-c/src/Tree.c:129-145 | the pointer assignments produce the rotated tree in its place, parent pointers included |
| Tree.Tree.BalanceAfterAdd | paho-c/src/Tree.c:173-183 | the loop produces the shape that the rebalancing function defines |
| Tree.Tree.BalanceAfterRemove | paho-c/src/Tree.c:379-390 | the loop, started on a child or on the temporary node, produces the shape that the rebalancing function defines |
| TreeShape.AddKeepsBalance | paho-c/src/Tree.c:148-183 | a red leaf put in anywhere leaves equal black heights, no red node below a red one and a black root |
| TreeShape.ReAddKeepsBalance | paho-c/src/Tree.c:214-247 | running the loop on an old node keeps the balance if and only if the node is not a black inner grandchild below a red parent with a black uncle |
| TreeShape.ReAddSevenBreaks | paho-c/src/Tree.c:214-247 | the tree with 10 over red 5 over 2 and 7, and 15: balanced, and not after 7 has been added again |
| TreeShape.RemoveKeepsBalance | paho-c/src/Tree.c:342-457 | taking any node out of a balanced tree leaves a balanced tree |
| TreeShape.AddInOrder | paho-c/src/Tree.c:148-183 | rebalancing after an addition keeps the key order |
| TreeShape.RemoveInOrder | paho-c/src/Tree.c:398-457 | a removal takes out exactly the entry of its node, also when the successor's node is the one unlinked |
| TreeShape.DepthBound | paho-c/src/Tree.c:264-278 | a balanced tree of n entries has at most 2*log2(n+1) levels |
| TreeOrder.SearchFinds | paho-c/src/Tree.c:264-278 | the descent ends at a node exactly when the key is present, and otherwise where it belongs |
| MqttWire.Encode | paho-c/src/MQTTPacket.c:264-279 | the loop writes the digits of the remaining length, lowest first |
| MqttWire.LengthInDigits | paho-c/src/MQTTPacket.c:264-279 | the digits themselves, for every length |
| MqttWire.Format | paho-c/src/MQTTPacket.c:671-718 | every byte of a PUBLISH, PUBACK, PUBREC, PUBREL and PUBCOMP |
| MqttWire.ReadIsWritten | paho-c/src/MQTTPacket.c:483-527 | a PUBLISH is written back as the bytes it was read from, and any body is read as one whose topic and packet id lie within it |
| MqttWire.AcksAreRead | paho-c/src/MQTTPacket.c:648-663 | acknowledgements are read from their two bytes, with the DUP bit |
| MqttWire.OtherTypes | paho-c/src/MQTTPacket.c:69-86 | which other types have a function of their own, and which are refused |
| MqttWire.LengthRoundTrip | paho-c/src/MQTTPacket.c:289-319 | decoding inverts encoding exactly for values that fit in the digits left, and otherwise fails |
| MqttWire.FrameRoundTrip | paho-c/src/MQTTPacket.c:95-164 | a packet is read back with nothing consumed beyond it exactly when its body has at most 268435455 bytes |
| MqttWire.NextFrameStable | paho-c/src/MQTTPacket.c:289-319 | bytes that arrive later change neither a complete packet nor a malformed length |
| MqttWire.WireRoundTrip | paho-c/src/MQTTPacket.c:671-718 | a PUBLISH or acknowledgement sent is received with the same fields and nothing beyond it consumed, exactly within the two length limits |
| MqttWire.StoreRoundTrip | paho-c/src/MQTTPersistence.c:267-296 | a packet put into the store is restored with the same fields exactly when its topic length fits in two bytes |
| MqttWire.TornRecord | paho-c/src/MQTTPersistence.c:267-296 | a stored record that is cut short anywhere, or has bytes behind it, is never restored as a packet |
| MqttWire.SendPublish | paho-c/src/MQTTPacket.c:671-718 | the buffers handed to one `writev` make up the packet's bytes |
| MqttWire.FixedHeader | paho-c/src/MQTTPacket.c:218-231 | the fixed header announces the total length of the buffers |
| SocketReads.SocketBuffer.Factory | paho-c/src/MQTTPacket.c:95-164 | one attempt takes exactly the first packet of the bytes not yet turned into packets, or none and loses no byte; it is interrupted only when a `recv` returned fewer bytes than were asked for, and returns a packet that is there whenever the next six do not; an error is a socket error or a malformed length; other sockets are not affected |
| SocketReads.SocketBuffer.Getch | paho-c/src/Socket.c:293-320 | replays saved header bytes before asking the socket, saves what it receives, and is interrupted only when the socket had nothing |
| SocketReads.SocketBuffer.DecodeRemaining | paho-c/src/MQTTPacket.c:289-319 | the loop yields the value of a complete length, is resumable, and fails exactly on a malformed one |
| SocketReads.SocketBuffer.Getdata | paho-c/src/Socket.c:331-372 | completes a body with the saved part in front, or saves all of it again |
| SocketReads.SocketBuffer.GetQueuedChar | paho-c/src/SocketBuffer.c:185-210 | yields the next saved header byte until all have been replayed |
| SocketReads.SocketBuffer.QueueChar | paho-c/src/SocketBuffer.c:263-293 | the received byte is saved behind the others |
| SocketReads.SocketBuffer.Interrupt | paho-c/src/SocketBuffer.c:218-234 | the unfinished packet's bytes are kept for the next call |
| SocketReads.SocketBuffer.Complete | paho-c/src/SocketBuffer.c:242-255 | the socket's saved bytes are dropped, those of others kept |
| SocketReads.SocketBuffer.Cleanup | paho-c/src/SocketBuffer.c:124-135 | after an error the socket's saved bytes are dropped and the buffer is usable again |
| SocketSchedule.ReadMany | paho-c/src/MQTTPacket.c:95-164 | for any interleaving of sockets and any split into short and blocked reads, the packets returned for each socket are a prefix of those of its whole stream, and all of them for a socket that is read often enough without being cut short |
| SocketSchedule.ServedAll | paho-c/src/MQTTPacket.c:95-164 | a socket whose `recv`s are not cut short and that is read as often as its stream has packets has returned all of them |
| SocketSchedule.KeptFacts | paho-c/src/MQTTPacket.c:95-164 | once an open socket's input is used up they are all of them, and the bytes left over are those the one-shot parser leaves |
| SocketWrites.Writer.Putdatas | paho-c/src/Socket.c:436-487 | refused exactly while a packet is unfinished; otherwise bytes accepted and bytes owed make up the packet, the socket has taken what it grants, and the write is complete exactly when nothing is owed |
| SocketWrites.Writer.ContinueWrite | paho-c/src/Socket.c:705-764 | accepted and owed bytes together stay the same; the socket has taken what it grants of the bytes offered, at least one, and once it has taken all of an offer the next one reaches to the end; the write ends exactly when nothing is owed |
| SocketWrites.Remaining | paho-c/src/Socket.c:725-746 | the rebuilt buffers hold the unwritten bytes up to the end of the packet if a buffer starts there, and otherwise up to the end of the half-written buffer |
| SocketWrites.WriteMany | paho-c/src/Socket.c:436-487 | for any sequence of packets and partial writes, accepted and owed bytes are the packets taken, in order; none is refused when before each the socket could take as many times as the previous one has bytes |
| SocketWrites.NeverInterleaved | paho-c/src/Socket.c:436-487 | the accepted bytes are complete packets followed by a beginning of the last one |
| CommandQueue.Queue.Select | paho-c/src/MQTTAsync.c:930-957 | the loop picks the earliest command that is eligible and the oldest of its client; publish, subscribe and unsubscribe need a connection without pending output and fewer than 65534 records |
| CommandQueue.Queue.ProcessCommand | paho-c/src/MQTTAsync.c:930-972 | exactly the selected command is taken off the queue, which is the step that the runs below are made of; nothing changes when none is eligible |
| CommandQueue.Queue.AddCommand | paho-c/src/MQTTAsync.c:733-770 | a connect or internal disconnect is at the head afterwards, by itself or as one of the same client and type that was there, when nothing changes; everything else is put at the end |
| CommandQueue.UrgentRunsNext | paho-c/src/MQTTAsync.c:733-770 | right after a connect or an internal disconnect of a client is added, one is selected, whatever the clients' states and the other commands |
| CommandQueue.SomethingRuns | paho-c/src/MQTTAsync.c:930-972 | a command is taken exactly when some client's oldest command is eligible |
| CommandQueue.BlockedClientDelaysNobody | paho-c/src/MQTTAsync.c:921-923 | the same command is taken when all commands of a blocked client are struck from the queue |
| CommandQueue.TakenInSubmissionOrder | paho-c/src/MQTTAsync.c:921-957 | over every run each client's publish, subscribe and unsubscribe commands leave the queue in submission order, none lost or doubled |
| TelnetOptions.GetPut | telnet.c:163-214 | the table behaves as a map from options to states, except that the addition that wraps its size forgets every option |
| TelnetOptions.WriteReadsBack | telnet.c:183-214 | a stored state reads back exactly when the addition did not wrap or stored the initial state |
| TelnetNegotiator.Negotiator.GetState | telnet.c:163-180 | the search loop yields the option's state |
| TelnetNegotiator.Negotiator.SetState | telnet.c:183-214 | the state is stored in the option's entry, or the table grows by four entries |
| TelnetNegotiator.Negotiator.Negotiate | telnet.c:228-374 | table, replies and events after WILL, WONT, DO or DONT in each of the six states |
| TelnetNegotiator.Negotiator.Request | telnet.c:1009-1092 | table and message after a user request in each state |
| TelnetAgreement.RunsSettle | telnet.c:228-374 | over every run of two endpoints none of whose steps writes a 64th option or queues a DO behind a pending DONT, at most two messages are delivered per request, and whenever nothing is under way nobody waits and each side's `us` equals the other's `him` for every option |
| TelnetAgreement.DoBehindDontDisagrees | telnet.c:300-305 | after a DO requested in any reachable state everything comes to rest within a given number of deliveries, and the two sides then agree about every option in both directions, except about this one if and only if the DO was queued behind a pending DONT |
| TelnetAgreement.FatesComeTrue | telnet.c:228-374 | from any state whose halves are in known combinations, deliveries come to rest within the number the combinations give, and each half ends in agreement exactly when its combination says so |
| TelnetOverflow.OverflowForgets | telnet.c:183-214 | after any step that writes a 64th option, in any reachable state, and all deliveries, the two sides agree about an option, in either direction, if and only if the overflowing side should not have had it on |
| TelnetOverflow.OverflowHarmless | telnet.c:183-214 | so everything is agreed again if and only if no option was to be on at that side |
| TelnetOverflow.OverflowReached | telnet.c:183-214 | 63 offers that are accepted and a 64th that is refused, between new endpoints: at rest, the sender has forgotten all 63 and the peer none |
| TelnetQueued.QueuedDoReached | telnet.c:1059-1071 | an option turned on, off and on again before the answer arrives, between new endpoints: at rest the asking side waits, the other has the option off, and they agree about everything else |
| TelnetHalves.PeerAsksKeeps | telnet.c:1059-1071 | the only request that leaves the reachable combinations is a DO in WANTNO |
| TelnetFate.OffAndOnAgain | telnet.c:1067-1068 | turning an option off and on again before the answer arrives ends in disagreement |
| TelnetEvents.EventsTell | telnet.c:228-374 | an application that knows on which sides an option is on still knows after the events of a message if and only if the message is none of three: a WONT in WANTNO_OP, a DONT in WANTNO or WANTNO_OP |
| TelnetEvents.ApplicationKnows | telnet.c:228-374 | so over every run of an endpoint without those, and without a 64th option, it knows of every option and both sides |
| TelnetEvents.TurnedOffUnnoticed | telnet.c:357-361 | an option turned on and off again, the peer agreeing both times: it is off, and by the events it is still on |
| TelnetEvents.PeerEvents | telnet.c:228-309 | the events of a WILL or WONT, told from the state before and after |
| TelnetEvents.OrderEvents | telnet.c:311-371 | the same for DO and DONT |
| TelnetMessages.ReceiverIsEndpoint | telnet.c:228-374 | a receiver fed with the bytes of a message, in any chunks, is the endpoint that the agreement theorems are about: table, answer and events |
| TelnetMessages.NegotiationsArrive | telnet.c:882-889 | any sequence of messages as bytes (255, 251 to 254, option), in any chunks, is answered message by message |
| TelnetMessages.CommandArrives | telnet.c:836-878 | 255 and any other command byte raise the command event, 255 255 is text |
| TelnetMessages.CutShort | telnet.c:951-985 | a subnegotiation cut short by another command is processed with a warning, and the command obeyed unless the payload was a valid ENVIRON list |
| TelnetMessages.TerminalTypeArrives | telnet.c:1291-1299 | a terminal type that is sent arrives as its name |
| TelnetMessages.TerminalTypeRequested | telnet.c:1283-1289 | a request for it arrives as one |
| TelnetMessages.TerminalTypePayload | telnet.c:653-696 | what becomes of every terminal-type payload: the name behind a 0, a request for a 1, and a warning otherwise |
| TelnetMessages.EnvironArrives | telnet.c:388-528 | an escaped ENVIRON list that is sent arrives as its entries, except when it ends in an escaped ESC |
| TelnetMessages.EnvironPayload | telnet.c:705-731 | any other payload of that option draws a warning unless it is empty, a valid one breaks off the loop |
| TelnetMessages.OtherSubnegotiations | telnet.c:705-731 | every other option raises the subnegotiation event, and MSSP and ZMP what their parsers make of the payload |
| TelnetReceiver.Receiver.Process | telnet.c:813-990 | the loop over one chunk, with its recursive calls, yields the parser state and outputs that the parser function defines |
| TelnetReceiver.Receiver.StoreByte | telnet.c:774-811 | the byte is stored, in a larger buffer if need be, or refused when the buffer is full at 16384 bytes |
| TelnetReceiver.Receiver.Finish | telnet.c:705-731 | the events of a finished subnegotiation and whether the loop is to be left |
| TelnetReceiver.LoopShift | telnet.c:892-945 | processing the rest of a chunk afresh does the same as continuing |
| TelnetChunking.ChunkingIndependence | telnet.c:813-990 | every way of cutting the input gives the same state, replies and events, up to how adjacent text is divided, if and only if the old compression sequence does not occur |
| TelnetChunking.OldCompressionOverruns | telnet.c:899-912 | the chunk 255 250 85 251 raises the text event whose length has wrapped |
| TelnetChunking.ChunksAreFold | telnet.c:813-990 | without that sequence any chunks are processed as the bytes one by one |
| TelnetRoundTrip.SendText | telnet.c:1095-1118 | the pieces sent are the text with every IAC doubled |
| TelnetRoundTrip.SendSubnegotiation | telnet.c:1132-1146 | the pieces sent are the framed and escaped payload |
| TelnetRoundTrip.TextArrives | telnet.c:1095-1118 | a text sent and received in any chunks arrives as that text, the parser being where it was |
| TelnetRoundTrip.SubnegotiationRoundTrip | telnet.c:892-950 | a subnegotiation sent arrives as one event with its option and payload if and only if it has at most 16384 bytes and does not complete the old compression sequence |
| TelnetRoundTrip.SubnegotiationArrives | telnet.c:1132-1146 | the same when it is received in any chunks |
| TelnetRoundTrip.StepKeepsGrown | telnet.c:87-91 | the buffer always has one of the five sizes and holds no more than that |
| Environ.DecodeEncoded | telnet.c:388-528 | decoding inverts the escaping of RFC 1572, except that a list ending in an escaped ESC is refused |
| Environ.DecodesTheGrammar | telnet.c:388-528 | the decoder accepts exactly the lists of the grammar (entries that start with 0 or 3, the value behind a 1, a 2 in front of any byte meant literally) that do not end in a 2, and gives the entries they spell |
| Environ.CountIsLength | telnet.c:441-449 | the first pass counts exactly the entries the second pass finds |
| EnvironBuffer.DecodeInPlace | telnet.c:388-528 | the single-buffer pass accepts what the decoder on values accepts, and its records describe exactly that decoder's entries in the overwritten buffer |
| EnvironBuffer.CopyBack | telnet.c:468-486 | the write cursor stays behind the read cursor; nothing unread and nothing written earlier is overwritten |
| EnvironBuffer.CountEntries | telnet.c:441-449 | the counting loop |
| Matcher.Match | match.c:22-32 | true exactly when some substring of the text, or a beginning of it under a leading `^`, belongs to the language of the pattern |
| Matcher.SimpleSearch | match.c:8-32 | a pattern without repetition is searched for as a substring in which a dot fits any character, at the beginning under `^`, at the end under `$`, as the whole text under both |
| Matcher.RepetitionOnly | match.c:35-41 | a repeated dot fits every text, another repeated character only itself |
| Matcher.MatchHere | match.c:8-19 | true exactly when a beginning of the text, or all of it under a final `$`, belongs to that language |
| Matcher.MatchStar | match.c:35-41 | true exactly when the text begins with some repetitions of the character followed by a match of the rest |

## Left out

- Client.Client.AssignMsgId: has a precondition for the one case in which the source's loop does not end, a zero counter with every id in use; `MessageIds.SearchEnds` shows that there is no other.
- ExactlyOnce.ExactlyOnceDelivery: is about publications whose topic has at most 65535 bytes and whose body has at most 268435455; the client sends longer ones too, and `RunsOnWire.LongTopicIsMisread` shows what becomes of a long topic.
- ExactlyOnce.ExactlyOnceDelivery: a handler is one step of a run, except for the two crashes; with either of them the connection and everything under way is lost, also the PUBCOMP that the receiver has written before it hands over.
- Client.Client.Retries: the time of the last write, which a retry sets, is an input of the next pass; that a socket error closes the session is left out.
- ExactlyOnce.ExactlyOnceDelivery: is about the synchronous client's id assignment; the asynchronous client takes ids before they are on the outbound list and is not modelled there.
- AtLeastOnce.SurelyHandedOver: a receiver that dies between writing the PUBACK and handing over is not a step of a run; with the PUBACK on its way that publication would be lost, too.
- Session.Accept: the limit on the number of records (`maxInflightMessages`) is not part of a run; runs that keep to it are among those the theorems are about.
- OrderedDelivery.DeliveredInOrder: covers restarts of the sender, and its crashes on PUBCOMP, only when they give the list back in its order (`OrderRecovery.RestartKeepsOrder` and `OrderRecovery.CrashKeepsOrder` say when), and no loss of single packets inside a connection.
- Tree.Tree.Add: one index, contents with integer keys, no `allow_duplicates` (which ends the program on a duplicate).
- SocketReads.SocketBuffer.Factory: stops at the packet's header byte and body; what the packet table makes of them is `MqttWire.ReadPacket`, for PUBLISH and acknowledgements, and the store of a received QoS 2 PUBLISH is part of the delivery model.
- SocketReads.SocketBuffer.Factory: saved reads are values in the buffer's two fields; that the source moves them by pointer is not modelled.
- SocketWrites.Writer.Putdatas: no socket error while writing; the source then takes the -1 result of a continued write for completion.
- MqttWire.StoreRoundTrip: lengths are unbounded integers; the source's 32-bit multiplier in the restoring loop is not modelled.
- TelnetAgreement.RunsSettle: neither endpoint is in proxy mode.
- TelnetOverflow.OverflowForgets: one overflow at a time; the deliveries after it overflow no table.
- TelnetReceiver.Receiver.Process: the payload is handed to the ENVIRON decoder by value; that the decoder may overwrite the buffer is `EnvironBuffer.DecodeInPlace`. Event handlers that call back into the engine are not modelled.
- TelnetReceiver.Receiver.Finish: the MSSP and ZMP parsers appear as one output with the payload.
- EnvironBuffer.DecodeInPlace: strings are byte sequences followed by a NUL; a C reader stops earlier at an escaped NUL.
- That exchanges do finish: `Completion` says when they can, not that a scheduler lets them.
- `serial` in a publication and in a command is a label of the model; no branch reads it.
- Time, keep-alive, sockets, TLS, select, threads, files and memory allocation; outcomes of `recv` and `writev` are inputs, the persistent store is a map that does not fail.
- The `size` field of the linked list, which the source does not reduce on removal.
- Session cleaning, the queue of received messages and its keys, restored commands, connect and server fallback.
- SUBACK, CONNACK and header-only packets, printf helpers, `queue.c`, `utf-8.c`, `Heap.c`, `rs232.c` and `main.c` are not modelled.
