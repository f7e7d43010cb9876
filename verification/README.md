# Hobbit Synchrony: a verified model of the relay and its data structures

This project models, in Dafny, the multiplayer relay of The Synchrony and the self-contained data
structures it builds on, and proves what they do for all inputs, all runs and all interleavings.
`dafny verify dfyconfig.toml` checks everything.

The relay. `Bytes`, `Wire` and `ClientList` are the wire format: message encoding, length-prefixed
frames, the receive loop for every way `recv` can split a body, and the client-list payload on hosts
of either byte order. `ServerSide.Server` is the server object; `Relay` is the server as a system of
interleaved atomic steps (the accept thread and one thread per client, each critical section or frame
one step), and `RelayRefinement` shows that a step and the server object's method do the same, byte
for byte. `RelayIds`, `RelayChannels`, `RelayLists` and `RelayWires` prove the whole-run results about
ids, channels and membership. `ClientSide.Client` is the network client, `GameData` the record stream
and the seven slots, `PlayerRecords` and `MainPlayerSide.MainPlayer` the main player's readers and writers,
`GameClient.HobbitClient` the game client, and `EndToEnd` the argument that runs from one client's
`writeMessage` to another client's event loop.

The rest. `StreamBuffer` is asio's `basic_streambuf` and the byte FIFO it refines. `LogForest`,
`LogOrder` and `LogSystem` are the tree of log options, its search order and its manager. `Hex` and
`Envelope` are the encrypted message envelope. `LevelEvents`, `ObjectStack`, `CompletionHandler` and
`AlignedAlloc` are the level edge detector, the object-stack scans and asio's `any_completion_handler`.

Objects whose methods change fields are classes; each such method is proved against a value-level
function of the old state, and the main results are lemmas about those functions. History that only
proofs need (who was accepted, what was read, the order of all broadcasts) is kept in the step system.

Assumptions of the relay model, each of which the code takes for granted:

- Header and body of a frame are one atomic append to a connection. The registry mutex justifies this
  for broadcasts and notifications; for the id frame, which is sent outside the lock, it is assumed.
- The four-byte header arrives in one `recv` or not at all; the code does not loop on it. In the model
  this is `HeadersWhole`, and `CutStream` says which cuts of a stream satisfy it.
- An accepted address has at most 15 characters, which is what `inet_ntop` can write.
- Clients may send messages of any type, also the server's own. What that does is stated exactly: a
  client's membership is the registry if and only if the last list on its connection is the server's
  own (`MirrorsExactly`), and it knows its id if and only if the last id message is (`KnowsItsIdExactly`).
  One forged list takes over every other client's membership until the next notification
  (`ForgedListTakesOver`, `NotificationRepairs`); one forged id message gives every other client the
  forger's id (`ForgedIdRenames`). Without forgeries both are always right.
- The hosts of the game are little-endian, and so are the counts in the main player's records.

Where the code and its comments or the obvious expectation part ways, the model follows the code:

- A port survives `htons` on the server and `ntohs` on the client only if both hosts have the same byte
  order or the port reads the same both ways, because the two bytes are taken from the swapped value
  (`ListRoundTrip`).
- A connection that breaks inside a body ends the client's receive loop without the server-down
  handling, so the membership map is kept; between two frames it is emptied (`ReceiveCutStream`).
- An event without payload makes the client's event loop spin for ever (`EventLoopEndsExactly`); a text
  without payload stays at the head of its queue (`ReadText`). `writeMessage` sends neither.
- `commit` and `consume` pass their count through an `int`; from 2^31 on they do not move the cursor by
  that count (`CommitAppends`, `ConsumeDrops`). A failed `prepare` has already moved bytes under the
  unchanged cursors; the content is the same if and only if it repeats with the length of the consumed
  part (`FailedReserveExactly`), and in a short run it is not (`FailedReserveLosesContent`).
- A level that is still loaded when `ended` falls again is entered only if `ended` was seen at a single
  tick or some tick since saw it not loaded (`EnterComesExactly`).
- The size of a record about hurt enemies wraps from the twenty-first enemy on, and the count from the
  256th (`OutputIsRecordsExactly`, `HurtEnemiesArriveExactly`). The level event, which nothing sends,
  would always be read as level 0 (`LevelEventMisread`).
- `AddLogOption` of an option that is in the forest already, and a move into the moved option's own
  subtree, both break the forest (`AddKeepsForest`, `MoveKeepsForest`).
- The comments on the size estimate of the envelope speak of newlines after the type and key lines; the
  code adds 5 and 14, which leaves them out (`SizeBySummands`).
- The open and close events of the game manager never fire (`NeverOpensOrCloses`).

## Model

MainPlayer.h is not in UTF-8, so the rows about the main player cite the places in HobbitClient.cpp that
call it and name its own lines in the last column.

| member | source | states |
|---|---|---|
| Bytes.LengthCrossesHosts | ServerClient/Server.cpp:55-56 | the length header is big-endian on the wire whatever the sender's byte order, and a receiver of either order reads the same length |
| Wire.DecodeEncode | ServerClient/Message.cpp:5-36 | deserialising a serialised message gives it back |
| Wire.EncodeDecode | ServerClient/Message.cpp:20-36 | a buffer is accepted exactly when it has two bytes or more, and then serialises back to itself |
| Wire.SerializeMessage | ServerClient/Message.cpp:5-17 | the draining loop writes type, sender and the whole queue in order |
| Wire.DeserializeMessage | ServerClient/Message.cpp:20-36 | the copying loop reads the same, and null for a short buffer |
| Wire.FrameLayout | ServerClient/Client.cpp:111-117 | a frame byte by byte: big-endian length, type, sender, payload |
| Wire.AnyFrameParsed | ServerClient/Client.cpp:80-106 | any frame is taken with its type, sender and payload, and one too short to be a message is skipped |
| Wire.FrameDelivered | ServerClient/Client.cpp:111-117 | a frame is read back unchanged if and only if its length survives the 32-bit header |
| Wire.ParseFrames | ServerClient/Client.cpp:77-107 | frames in front of any further bytes are all delivered, in order, and do not disturb what follows |
| Wire.FramesRoundTrip | ServerClient/Client.cpp:77-117 | for every list of messages that fit, the receive loop yields exactly that list |
| Wire.CutStream | ServerClient/Client.cpp:80-95 | a stream cut after any number of bytes yields exactly the messages whose frames are whole, never a part of one; says when it stops for want of a header and when no header is cut |
| Wire.Socket.Recv | ServerClient/Client.cpp:91-93 | any non-empty part of what was asked for, nothing once the stream is over |
| Wire.Socket.RecvBody | ServerClient/Client.cpp:88-94 | for every chunking by `recv`, the body is complete or the stream is exhausted |
| Wire.Socket.ReadFrame | ServerClient/Server.cpp:74-86 | the shared frame-reading code returns the next frame, or tells a clean end from a broken body |
| Wire.Socket.SendFrame | ServerClient/Client.cpp:111-117 | exactly one frame is appended to what was sent |
| ClientList.ListRoundTrip | ServerClient/Server.cpp:124-137 | the client's parser gives back the registry if and only if every address length fits its byte and every port survives the two hosts' byte orders |
| ClientList.EntryLayout | ServerClient/Server.cpp:124-137 | an entry byte by byte, with the port in the order of the server's memory |
| ClientList.ListCut | ServerClient/Client.cpp:138-166 | a list cut after any number of bytes gives exactly the entries that are whole |
| ClientList.DirectoryMirrors | ServerClient/Client.cpp:138-172 | the client's map has exactly the registered ids with their addresses and ports if and only if no two entries with one id differ |
| ClientList.DirectoryHoldsLast | ServerClient/Client.cpp:168-172 | of several entries with one id the map holds the last |
| ClientList.MirrorUnique | ServerClient/Client.cpp:168-172 | only one map mirrors a registry |
| ClientList.WriteClientList | ServerClient/Server.cpp:124-137 | the payload-building loops write all entries in registry order |
| ClientList.ReadAddress | ServerClient/Client.cpp:152-157 | as many of the announced address bytes as there are, never popping an empty queue |
| ClientList.ReadClientList | ServerClient/Client.cpp:138-166 | on arbitrary bytes the parser ends, never pops an empty queue and keeps exactly the complete entries |
| ServerSide.WithoutMember | ServerClient/Server.cpp:98-99 | erasing by id keeps exactly the handlers with another id |
| ServerSide.RemovesOne | ServerClient/Server.cpp:97-99 | erasing by id cuts out one entry alone if and only if no other handler has that id |
| ServerSide.RelayAllAt | ServerClient/Server.cpp:73-94 | what a whole session puts on another connection: the stamped frames in order, or nothing if not a recipient |
| ServerSide.RelayAllFrames | ServerClient/Server.cpp:88-91 | each of those frames has the type and payload that were read, and the sender's id |
| ServerSide.Server.constructor | ServerClient/Server.h:29 | an empty registry, and 1 as the next id |
| ServerSide.Server.Register | ServerClient/Server.cpp:43-49 | the new handler has the next id, is pushed last, and the id counter wraps at 256 |
| ServerSide.Server.SendId | ServerClient/Server.cpp:51-57 | one id frame goes to the new connection and nothing else changes |
| ServerSide.Server.BroadcastMessage | ServerClient/Server.cpp:107-119 | the frame goes once to every registered connection whose id is not excluded, and to no other |
| ServerSide.Server.NotifyClients | ServerClient/Server.cpp:121-148 | the current list goes once to every registered connection |
| ServerSide.Server.Erase | ServerClient/Server.cpp:96-100 | the registry becomes the handlers with another id, in order |
| ServerSide.Server.HandleClient | ServerClient/Server.cpp:69-105 | run alone, the service loop relays every whole message stamped and in order, then erases the client and notifies the rest |
| Relay.ShapeAlways | ServerClient/Server.cpp:31-105 | in every reachable state the registry is ordered, consists of accepted handlers, and agrees with the join and leave history |
| Relay.AcceptedAsGiven | ServerClient/Server.cpp:43-46 | every client is kept with the address and port it was accepted with |
| Relay.ReadAsArrived | ServerClient/Server.cpp:73-86 | what is read from a client is what arrived from it, in order and unaltered |
| Relay.NothingBlocks | ServerClient/Server.cpp:31-105 | in every reachable state the accept thread and every started client thread can take their next step |
| RelayRefinement.PerformStep | ServerClient/Server.cpp:31-148 | every step of the system is what the server object's method does to registry, id counter and the bytes of every connection |
| RelayIds.IdsInOrderOfAcceptance | ServerClient/Server.cpp:43-48 | the k-th accepted client has id (1+k) mod 256, also after wrap-around |
| RelayIds.IdsDistinct | ServerClient/Server.cpp:43-48 | registry ids are pairwise distinct whenever the active clients are among the last 256 accepted |
| RelayIds.ExcludesExactlySelf | ServerClient/Server.cpp:112-117 | excluding a client's id leaves out that client alone if and only if no other registered client has the id |
| RelayIds.RegistryIsActiveClients | ServerClient/Server.cpp:96-100 | while the window condition held, the registry is exactly the clients whose threads are in their loops |
| RelayIds.DisconnectAndBroadcastAreExact | ServerClient/Server.cpp:97-117 | while the active clients are among the last 256 accepted, a disconnect of a registered client removes exactly that client and its broadcasts reach exactly the others |
| RelayChannels.OneOrderForAll | ServerClient/Server.cpp:107-119 | in every run each connection carries exactly its stretch of one global broadcast order, without the frames bearing its own id |
| RelayChannels.LogFollowsReadsAlways | ServerClient/Server.cpp:73-94 | the global order has, per client, all that was read from it, in order, but for a message still to be relayed |
| RelayChannels.SegmentOfReads | ServerClient/Server.cpp:69-119 | frames from a sender are one contiguous in-order segment of what was read from it while the receiver was registered, type and payload unchanged; none come from oneself |
| RelayChannels.FramesAsRead | ServerClient/Server.cpp:88-119 | frame by frame and field by field: same type, same payload, the sender's id, from the sender's connection |
| RelayChannels.LogAsArrived | ServerClient/Server.cpp:73-94 | the global order has what arrived from each client, field by field, but for one message still to be relayed |
| RelayLists.ListsCurrentAlways | ServerClient/Server.cpp:46-59 | whatever clients send, when no notification is outstanding the server's own last list on every registered connection is the registry |
| RelayLists.MirrorsExactly | ServerClient/Server.cpp:121-146 | then a client that has taken all frames holds exactly the registry if and only if the last list on its connection is the server's own and no two entries contradict each other, or is a client's that says the same |
| RelayLists.OwnListMirrors | ServerClient/Server.cpp:121-146 | with distinct ids it does whenever the last list is the server's own, whatever was forged before |
| RelayLists.MembershipMirrorsRegistry | ServerClient/Server.cpp:121-146 | in particular if no client ever sent a list |
| RelayLists.MembershipConverges | ServerClient/Client.cpp:168-172 | any two registered clients whose last list is the server's own hold the same map, ids used twice or not |
| RelayLists.ForgedListTakesOver | ServerClient/Server.cpp:88-91 | from every state with a sender and another registered client of another id, one forged list sets that client's membership to whatever it says |
| RelayLists.NotificationRepairs | ServerClient/Server.cpp:121-146 | the next notification, whatever its cause, makes every registered client's membership right again |
| RelayLists.RelayedIdIsForeign | ServerClient/Server.cpp:88-117 | a relayed frame bears the id of the client it came from, which is never the receiver's |
| RelayLists.KnowsItsIdExactly | ServerClient/Client.cpp:131-134 | a greeted client that has taken all frames knows its id if and only if the last id message is the server's own; otherwise it has taken the id of the client that sent that message |
| RelayLists.ClientsKnowTheirIds | ServerClient/Server.cpp:51-57 | so every greeted client knows its id if no client sent an id message |
| RelayLists.ForgedIdRenames | ServerClient/Server.cpp:88-91 | from every state with a sender and another registered client of another id, one forged id message gives that client the sender's id |
| RelayLists.FramesAreJustified | ServerClient/Server.cpp:88-91 | every frame is the server's own list or id, or a stamped copy of a message read from the client it is relayed for |
| RelayLists.ChannelEventsCarryData | ServerClient/Server.cpp:88-119 | if no client sends an event without payload, no connection carries one |
| RelayLists.NotificationsSettle | ServerClient/Server.cpp:59-102 | from every reachable state the outstanding notifications alone lead to a quiet state with the same registry |
| RelayWires.ReceiveLoopGetsFrames | ServerClient/Client.cpp:77-107 | from the bytes of a connection, wherever they stand, the client's loop gets exactly the whole frames sent |
| RelayWires.WireMembership | ServerClient/Client.cpp:97-101 | the exact condition for a right membership, from the bytes of a connection, in quiet states |
| RelayWires.UnforgedWireMembership | ServerClient/Client.cpp:97-101 | without forged lists every registered client that has read its bytes mirrors the registry, in runs of any length in which the active clients are among the last 256 accepted |
| RelayWires.WindowFits | ServerClient/Server.cpp:124-137 | in such runs every list fits a frame |
| RelayWires.FewAcceptsFit | ServerClient/Server.cpp:124-137 | every list fits a frame too in runs with few enough accepts, whatever the ids |
| ClientSide.TakeAllQueues | ServerClient/Client.cpp:119-127 | texts and events are queued in order of arrival and none is lost |
| ClientSide.TakeAllLast | ServerClient/Client.cpp:97-105 | own id and membership are those of the last id and list message |
| ClientSide.TakeAllSnapshots | ServerClient/Client.cpp:128-130 | of each sender's snapshots exactly the last is kept |
| ClientSide.LastSnapshotIsLast | ServerClient/Client.cpp:128-130 | which snapshot of a sender that is: the one no later snapshot of the sender follows |
| ClientSide.OfTypeExactly | ServerClient/Client.cpp:121-127 | the queued messages are all of their type, each once, in order of arrival |
| ClientSide.TakeAllAnnounces | ServerClient/Client.cpp:138-181 | every list that arrives is announced once, in order, with exactly the ids it holds, ascending |
| ClientSide.LastAnnouncement | ServerClient/Client.cpp:168-180 | the last announcement is of the membership as it is |
| ClientSide.ReceiveCutStream | ServerClient/Client.cpp:77-109 | wherever the stream is cut, short of inside a header, the client ends as if it had taken the whole messages; the membership is emptied exactly when the cut is between two frames |
| ClientSide.SortedSeqSorted | ServerClient/Client.cpp:174-177 | the listeners get all member ids, ascending |
| ClientSide.CollectInfos | ServerClient/Client.cpp:169-172 | the filling loop builds the map in which later entries win |
| ClientSide.CollectIds | ServerClient/Client.cpp:174-177 | the loop over the ordered map collects its keys in ascending order |
| ClientSide.Client.constructor | ServerClient/Client.h:69-78 | a connected client starts with id 255 and empty queues and maps |
| ClientSide.Client.SortMessageByType | ServerClient/Client.cpp:119-136 | exactly the queue, map or id of the message's type changes |
| ClientSide.Client.UpdateClientList | ServerClient/Client.cpp:138-181 | the membership is replaced by the parsed list and the listeners get its sorted ids |
| ClientSide.Client.NotifyServerDown | ServerClient/Client.cpp:187-191 | the membership is emptied and announced, and the client is disconnected |
| ClientSide.Client.ReceiveMessages | ServerClient/Client.cpp:77-109 | for every chunking, the receive thread ends with all whole messages taken in order and the end handled by its kind |
| ClientSide.Client.PopFrontEventMessage | ServerClient/Client.h:58 | exactly the oldest event goes |
| GameData.ConvertQueueToType | Hobbit Multiplayer/Utility.h:22-37 | takes the first bytes, or throws and pops nothing |
| GameData.ReadConnectedPlayerSnap | Hobbit Multiplayer/ConnectedPlayer.h:54-64 | nine fields from their places in the data; throws exactly below 30 bytes, after the whole fields before the gap |
| GameData.FieldsInPlace | Hobbit Multiplayer/ConnectedPlayer.h:54-64 | the nine fields and their places in the data, as far as it reaches |
| GameData.PoppedIsWholeFields | Hobbit Multiplayer/ConnectedPlayer.h:54-64 | short data is popped up to the last whole field |
| GameData.ReadStream | Hobbit Multiplayer/HobbitClient.cpp:174-237 | reading a well-formed stream applies its enabled records one by one and consumes the whole queue |
| GameData.TogglingIsFiltering | Hobbit Multiplayer/HobbitClient.cpp:189-204 | reading with labels disabled ends as reading the stream without those records with all labels enabled; no byte is left and nothing is thrown |
| GameData.UnreadRecord | Hobbit Multiplayer/HobbitClient.cpp:189-236 | an unknown label loses label and size only; a disabled one loses what it declares, or all there is |
| GameData.ShortSnapshotThrows | Hobbit Multiplayer/HobbitClient.cpp:207-218 | a snapshot with fewer than 30 bytes left throws after its whole fields were stored |
| GameData.MainRecordRead | Hobbit Multiplayer/HobbitClient.cpp:220-231 | a record for the main player goes to the reader of its label, and what that has done stays if it throws |
| GameData.RankInOrder | ServerClient/Client.cpp:174-177 | an id's place in the announced list is the number of smaller ids |
| GameData.SlotsHoldSmallestIds | Hobbit Multiplayer/HobbitClient.cpp:269-280 | the slots hold the smallest ids in ascending order, then -1; a member has a slot exactly when fewer than seven are smaller, and which one |
| GameData.SlotsKeepData | Hobbit Multiplayer/HobbitClient.cpp:269-280 | a slot gets its id and keeps all nine fields of its data |
| GameData.SlotsFollowLists | ServerClient/Client.cpp:168-180 | after the last list a client has taken, the slots its listener assigns hold the smallest ids of its membership |
| GameData.SnapshotsDoNotCollide | Hobbit Multiplayer/HobbitClient.cpp:207-218 | a snapshot from a sender with a slot changes exactly that slot |
| GameData.SnapshotsCommuteExactly | Hobbit Multiplayer/HobbitClient.cpp:207-218 | the order of two senders' snapshots does not matter if and only if they write to different slots or say the same |
| GameData.SharedSlotExactly | Hobbit Multiplayer/HobbitClient.cpp:207-218 | two senders write to the same slot exactly when each has slot 0 or none |
| PlayerRecords.ReadPayloadExactly | Hobbit Multiplayer/HobbitClient.cpp:220-231 | what was written about any number of enemies or items is read back, in order and with nothing left, if and only if it is fewer than 256 (lines 126-197 of MainPlayer.h) |
| PlayerRecords.HurtTarget | Hobbit Multiplayer/HobbitClient.cpp:220-223 | a change sets its enemy's health, in the game too, to what the object has there plus the amount (lines 161-194 of MainPlayer.h) |
| PlayerRecords.HurtNothing | Hobbit Multiplayer/HobbitClient.cpp:220-223 | a change without GUID, object or listed enemy does nothing (lines 165-194 of MainPlayer.h) |
| PlayerRecords.EachHurtOnce | Hobbit Multiplayer/HobbitClient.cpp:220-223 | changes to different enemies all arrive, each on its own, and no other enemy changes (lines 153-196 of MainPlayer.h) |
| PlayerRecords.EachGainedOnce | Hobbit Multiplayer/HobbitClient.cpp:228-231 | items with different indices all add up, not below zero, and no other value changes (lines 137-149 of MainPlayer.h) |
| PlayerRecords.GainStops | Hobbit Multiplayer/HobbitClient.cpp:228-231 | an index past the end throws, with the items before it applied and those after it lost (lines 137-149 of MainPlayer.h) |
| PlayerRecords.BrokenRecord | Hobbit Multiplayer/HobbitClient.cpp:220-231 | of a health record that breaks off the whole changes are applied, of an inventory record nothing (lines 126-196 of MainPlayer.h) |
| PlayerRecords.LevelTaken | Hobbit Multiplayer/HobbitClient.cpp:224-227 | the level is the first four bytes, and five are popped (lines 197-208 of MainPlayer.h) |
| PlayerRecords.HealthWellFormed | Hobbit Multiplayer/HobbitClient.cpp:220-223 | a health record is read whole by every player and whatever follows exactly when it is as long as its count says (lines 153-196 of MainPlayer.h) |
| PlayerRecords.InventoryWellFormed | Hobbit Multiplayer/HobbitClient.cpp:228-231 | an inventory record likewise, exactly when it also names listed items only (lines 126-152 of MainPlayer.h) |
| PlayerRecords.LevelWellFormed | Hobbit Multiplayer/HobbitClient.cpp:224-227 | a level record exactly when it has five bytes (lines 197-208 of MainPlayer.h) |
| PlayerRecords.RecordIsRead | Hobbit Multiplayer/HobbitClient.cpp:174-237 | a well-formed record has its effect, or none if its label is disabled, and nothing else happens |
| PlayerRecords.HealthRecordExactly | Hobbit Multiplayer/HobbitClient.cpp:156-172 | a written health event is a record of its declared size if and only if at most twenty enemies were hurt (lines 246-314 of MainPlayer.h) |
| PlayerRecords.WrappedSizeLeavesBytes | Hobbit Multiplayer/HobbitClient.cpp:194-204 | with the label disabled the bytes past the wrapped size are read as further records, none exactly up to twenty |
| PlayerRecords.HurtEnemiesArriveExactly | Hobbit Multiplayer/HobbitClient.cpp:220-223 | with the label enabled every change is applied in order and nothing is left if and only if fewer than 256 enemies were hurt (lines 153-196 of MainPlayer.h) |
| PlayerRecords.ItemsRecord | Hobbit Multiplayer/HobbitClient.cpp:156-172 | up to fifty listed items are written as a well-formed record (lines 316-383 of MainPlayer.h) |
| PlayerRecords.ItemsArrive | Hobbit Multiplayer/HobbitClient.cpp:228-231 | a loaded player that reads written items applies all of them and throws nothing (lines 126-152 of MainPlayer.h) |
| PlayerRecords.LevelEventMisread | Hobbit Multiplayer/HobbitClient.cpp:224-227 | the level event is read as level 0 with seven bytes left over, whatever the levels (lines 384-420 of MainPlayer.h) |
| PlayerRecords.PoseReadBack | Hobbit Multiplayer/HobbitClient.cpp:207-213 | a written pose is read back into the receiver's slot, all nine fields (lines 211-245 of MainPlayer.h) |
| MainPlayerSide.FewItems | Hobbit Multiplayer/HobbitClient.cpp:156-172 | the writing loop writes at most 44 items, all of them listed (lines 331-366 of MainPlayer.h) |
| MainPlayerSide.HurtAtExactly | Hobbit Multiplayer/HobbitClient.cpp:156-172 | the enemies written about are exactly those whose health in the game is not as known (lines 271-295 of MainPlayer.h) |
| MainPlayerSide.ChangedExactly | Hobbit Multiplayer/HobbitClient.cpp:156-172 | each with its GUID and the difference, in the order of the list (lines 271-295 of MainPlayer.h) |
| MainPlayerSide.KnownExactly | Hobbit Multiplayer/HobbitClient.cpp:156-172 | their new health is then known (lines 271-295 of MainPlayer.h) |
| MainPlayerSide.SentExactly | Hobbit Multiplayer/HobbitClient.cpp:156-172 | which items are written, index by index, each with its difference (lines 331-366 of MainPlayer.h) |
| MainPlayerSide.RefreshedExactly | Hobbit Multiplayer/HobbitClient.cpp:156-172 | their new values are then known (lines 331-366 of MainPlayer.h) |
| MainPlayerSide.OutputMessages | Hobbit Multiplayer/HobbitClient.cpp:156-172 | the messages of a write, their types and labels (lines 71-88 of MainPlayer.h) |
| MainPlayerSide.OutputIsRecordsExactly | Hobbit Multiplayer/HobbitClient.cpp:156-172 | every message of a write is one well-formed record if and only if at most twenty enemies were hurt since the last write (lines 71-88 of MainPlayer.h) |
| MainPlayerSide.ReadItemList | Hobbit Multiplayer/HobbitClient.cpp:228-231 | the reading loop queues the items read up to an exception and leaves the rest of the data (lines 128-135 of MainPlayer.h) |
| MainPlayerSide.MainPlayer.ApplyChange | Hobbit Multiplayer/HobbitClient.cpp:220-223 | one change goes to the first listed enemy with the GUID, if the game has the object (lines 161-194 of MainPlayer.h) |
| MainPlayerSide.MainPlayer.ReadProcessEnemiesHealth | Hobbit Multiplayer/HobbitClient.cpp:220-223 | the object's reader: changes applied one by one as read, also those before an exception (lines 153-196 of MainPlayer.h) |
| MainPlayerSide.MainPlayer.ReadProcessInventory | Hobbit Multiplayer/HobbitClient.cpp:228-231 | the object's reader: nothing is applied unless all items were read (lines 126-152 of MainPlayer.h) |
| MainPlayerSide.MainPlayer.ReadConectedPlayerLevel | Hobbit Multiplayer/HobbitClient.cpp:224-227 | the object's reader, where the unguarded pop is defined (lines 197-208 of MainPlayer.h) |
| MainPlayerSide.MainPlayer.WriteEnemiesEvent | Hobbit Multiplayer/HobbitClient.cpp:156-172 | the loop writes exactly the enemies whose health changed, in order, and remembers the new health (lines 246-314 of MainPlayer.h) |
| MainPlayerSide.MainPlayer.WriteInventoryEvent | Hobbit Multiplayer/HobbitClient.cpp:156-172 | the loop with its jumps writes exactly the visited items that are to be sent, in order, and remembers their values (lines 316-383 of MainPlayer.h) |
| MainPlayerSide.MainPlayer.Write | Hobbit Multiplayer/HobbitClient.cpp:156-172 | a snapshot, and the two events that have something to say (lines 71-88 of MainPlayer.h) |
| GameClient.EventLoopEndsExactly | Hobbit Multiplayer/HobbitClient.cpp:141-147 | the event loop ends if and only if no event without payload comes up before an exception, and then every event was handled once in order |
| GameClient.NoneEmptyDrains | Hobbit Multiplayer/HobbitClient.cpp:141-147 | where nothing throws, that is the case exactly when no queued event is without payload |
| GameClient.EventsApplied | Hobbit Multiplayer/HobbitClient.cpp:140-147 | events that are well-formed streams are applied one by one under their senders' ids; one that throws stays at the head of the queue |
| GameClient.SnapshotsApplied | Hobbit Multiplayer/HobbitClient.cpp:149-153 | snapshots that are well-formed streams are all applied, in ascending order of sender |
| GameClient.SnapshotsStop | Hobbit Multiplayer/HobbitClient.cpp:149-153 | one that throws ends the reading, with what was read before it kept |
| GameClient.SnapshotsReachSlots | Hobbit Multiplayer/HobbitClient.cpp:149-153 | every sender with a slot gets its pose into that slot, field by field, and nothing is thrown |
| GameClient.OtherSlotsKept | Hobbit Multiplayer/HobbitClient.cpp:149-153 | no other slot changes |
| GameClient.AllSnapshotsArrive | Hobbit Multiplayer/HobbitClient.cpp:149-153 | one reading of the snapshot map leaves every slotted sender's pose in its slot |
| GameClient.OutboxCarriesData | Hobbit Multiplayer/HobbitClient.cpp:166-172 | `writeMessage` sends nothing without payload |
| GameClient.OutboxExactly | Hobbit Multiplayer/HobbitClient.cpp:166-172 | exactly the messages with a payload are sent, in order, altered in the sender's id alone |
| GameClient.HobbitClient.OnClientListUpdate | Hobbit Multiplayer/HobbitClient.cpp:269-280 | every slot gets its id or -1 and keeps its data; running exactly when the list is not empty |
| GameClient.HobbitClient.FindPlayer | Hobbit Multiplayer/HobbitClient.cpp:209-217 | the first slot with the sender's id, slot 0 if there is none |
| GameClient.HobbitClient.Skip | Hobbit Multiplayer/HobbitClient.cpp:196-204 | drops the declared number of bytes, or all there are |
| GameClient.HobbitClient.ReadGameMessage | Hobbit Multiplayer/HobbitClient.cpp:174-237 | slots, main player, rest of the queue and exception are those of the record-stream function |
| GameClient.HobbitClient.SetMessageLabelProcessing | Hobbit Multiplayer/HobbitClient.cpp:28-30 | exactly the given label is switched |
| GameClient.HobbitClient.ReadText | Hobbit Multiplayer/HobbitClient.cpp:126-139 | at most the oldest text goes, and only if it has a payload |
| GameClient.HobbitClient.ReadEvents | Hobbit Multiplayer/HobbitClient.cpp:140-147 | where the loop ends, every event is handled once in order, up to the first that throws |
| GameClient.HobbitClient.ReadSnaps | Hobbit Multiplayer/HobbitClient.cpp:148-153 | the copied snapshots are read in ascending order of sender, and the map is cleared |
| GameClient.HobbitClient.ReadMessage | Hobbit Multiplayer/HobbitClient.cpp:124-155 | events before snapshots, all of both unless one throws; membership and id stay |
| GameClient.HobbitClient.WriteMessage | Hobbit Multiplayer/HobbitClient.cpp:156-173 | sends exactly the messages with a payload, in order, under the client's id |
| EndToEnd.ReadsCarryData | Hobbit Multiplayer/HobbitClient.cpp:166-172 | what the server reads from such a client, wherever its connection broke, is a prefix of its writes and never without payload |
| EndToEnd.EventLoopAlwaysEnds | Hobbit Multiplayer/HobbitClient.cpp:141-172 | if all clients send through `writeMessage`, in every run no queued event is without payload, so every client's event loop ends |
| EndToEnd.SlotsFollowRegistry | Hobbit Multiplayer/HobbitClient.cpp:269-280 | from the registry to the slots: they hold the smallest registered ids, so a registered client is shown exactly if fewer than seven registered ids are smaller |
| StreamBuffer.ReserveRoom | include/asio-1.30.2/include/asio/basic_streambuf.hpp:308-346 | prepare(n) throws exactly when size()+n exceeds max_size(); otherwise there is room and compaction and growth keep the content |
| StreamBuffer.ReserveLayout | include/asio-1.30.2/include/asio/basic_streambuf.hpp:308-346 | where prepare succeeds: nothing moves if there is room; otherwise the content goes to the front and the buffer grows to just what is asked for |
| StreamBuffer.FailedReserveKeepsCursors | include/asio-1.30.2/include/asio/basic_streambuf.hpp:321-340 | a failed prepare keeps the cursors and has shifted the bytes; it is without effect when nothing was consumed |
| StreamBuffer.FailedReserveExactly | include/asio-1.30.2/include/asio/basic_streambuf.hpp:321-340 | a failed prepare leaves a valid buffer, with the old content if and only if that repeats with the length of the consumed part |
| StreamBuffer.FailedReserveHarmless | include/asio-1.30.2/include/asio/basic_streambuf.hpp:321-340 | so nothing is lost if nothing was consumed or no more is left than was consumed |
| StreamBuffer.FailedReserveLosesContent | include/asio-1.30.2/include/asio/basic_streambuf.hpp:321-340 | after a run of three operations a prepare fails and changes the content |
| StreamBuffer.OverflowAppends | include/asio-1.30.2/include/asio/basic_streambuf.hpp:283-306 | overflow of a character throws exactly when size() is max_size(), otherwise appends it |
| StreamBuffer.OverflowGrowth | include/asio-1.30.2/include/asio/basic_streambuf.hpp:283-306 | a full buffer grows by 128 bytes, or to its capacity |
| StreamBuffer.CommitAppends | include/asio-1.30.2/include/asio/basic_streambuf.hpp:233-238 | commit(n) appends the first min(n, room) prepared bytes if and only if that many fit an int |
| StreamBuffer.GetEndCatchesUp | include/asio-1.30.2/include/asio/basic_streambuf.hpp:233-254 | commit and consume bring the get end up to the put pointer |
| StreamBuffer.ConsumeDrops | include/asio-1.30.2/include/asio/basic_streambuf.hpp:247-254 | consume(n) drops the first min(n, size()) bytes if and only if that many fit an int |
| StreamBuffer.UnderflowPeeks | include/asio-1.30.2/include/asio/basic_streambuf.hpp:263-274 | underflow shows the first byte, or end of file exactly when empty, and catches up the get end |
| StreamBuffer.PrepareFillCommit | include/asio-1.30.2/include/asio/basic_streambuf.hpp:214-238 | prepare, fill and commit append exactly the filled bytes |
| StreamBuffer.RunIsFifo | include/asio-1.30.2/include/asio/basic_streambuf.hpp:62-68 | over every successful run, consumed bytes followed by the content are the appended bytes, cursors stay ordered and size() stays within max_size() |
| StreamBuffer.OnlyCapacityFails | include/asio-1.30.2/include/asio/basic_streambuf.hpp:209 | below the int limit only the FIFO's capacity decides what fails, whatever the layout |
| StreamBuffer.InitRoom | include/asio-1.30.2/include/asio/basic_streambuf.hpp:131-141 | a new buffer is empty and has room for up to 128 bytes |
| StreamBuffer.StreamBuf.constructor | include/asio-1.30.2/include/asio/basic_streambuf.hpp:131-141 | an empty input sequence and up to 128 bytes of output sequence |
| StreamBuffer.StreamBuf.Size | include/asio-1.30.2/include/asio/basic_streambuf.hpp:158-161 | the length of the FIFO's content |
| StreamBuffer.StreamBuf.MoveToFront | include/asio-1.30.2/include/asio/basic_streambuf.hpp:325 | the overlapping copy moves the input sequence to the start |
| StreamBuffer.StreamBuf.ResizeBuffer | include/asio-1.30.2/include/asio/basic_streambuf.hpp:334 | the bytes are kept and the rest is zero |
| StreamBuffer.StreamBuf.ReserveSpace | include/asio-1.30.2/include/asio/basic_streambuf.hpp:308-346 | the in-place code does what the reserve function says, and no size_t difference wraps |
| StreamBuffer.StreamBuf.CommitBytes | include/asio-1.30.2/include/asio/basic_streambuf.hpp:233-238 | the put cursor moves by the int the count is cast to |
| StreamBuffer.StreamBuf.ConsumeBytes | include/asio-1.30.2/include/asio/basic_streambuf.hpp:247-254 | the get cursor moves by the int the clipped count is cast to |
| StreamBuffer.StreamBuf.UnderflowChar | include/asio-1.30.2/include/asio/basic_streambuf.hpp:263-274 | the object's underflow |
| StreamBuffer.StreamBuf.OverflowChar | include/asio-1.30.2/include/asio/basic_streambuf.hpp:283-306 | the object's overflow, with the amount it reserves |
| LogForest.CreateKeepsForest | LogSystem/LogManager.h:105-110 | a created option is one more root of a forest |
| LogForest.CreatePlaces | LogSystem/LogManager.h:105-110 | it is the last root |
| LogForest.AddKeepsForest | LogSystem/LogManager.h:112-120 | adding an option, with the tree it may bring along, keeps a forest if and only if it is detached |
| LogForest.AddPlaces | LogSystem/LogManager.h:112-120 | the added option's parent is the one given, and it stands last among its new siblings |
| LogForest.MoveKeepsForest | LogSystem/LogManager.h:122-142 | moving keeps a forest if and only if the new parent is not in the moved subtree |
| LogForest.MoveCarriesSubtree | LogSystem/LogManager.h:122-142 | a move keeps the set of options and changes only the moved option's parent and the two parents' child lists |
| LogForest.MovePlaces | LogSystem/LogManager.h:122-142 | the moved option stands last among its new siblings and is taken out of the old ones |
| LogForest.RemoveCuts | LogSystem/LogManager.cpp:15-19 | erasing takes out one entry and keeps the order of the rest |
| LogForest.MovedSubtreeIntact | LogSystem/LogManager.h:122-142 | the moved option's subtree is the same set of options afterwards |
| LogForest.HangBelowSelfCycles | LogSystem/LogManager.h:144-157 | under its own descendant, the way up from the moved option never ends |
| LogOrder.OrderIsExact | LogSystem/LogManager.h:288-302 | searching or displaying from the roots visits every option exactly once |
| LogOrder.AncestorsFirst | LogSystem/LogManager.h:288-302 | every option comes before all that lies below it |
| LogOrder.SiblingsInOrder | LogSystem/LogManager.h:288-302 | of two siblings or roots the one listed first comes first, with its whole subtree |
| LogSystem.EraseFirst | LogSystem/LogManager.cpp:15-19 | find and erase of the first occurrence |
| LogSystem.LogOption.AddChild | LogSystem/LogManager.cpp:7-11 | appended last, with its parent set |
| LogSystem.LogOption.RemoveChild | LogSystem/LogManager.cpp:13-20 | the first occurrence goes, and the parent link is reset only if it was listed |
| LogSystem.LogManager.CreateLogOption | LogSystem/LogManager.h:105-110 | a fresh active root; the forest stays one |
| LogSystem.LogManager.AddLogOption | LogSystem/LogManager.h:112-120 | the links afterwards, and that they are a forest exactly for a detached option |
| LogSystem.LogManager.MoveLogOption | LogSystem/LogManager.h:122-142 | the links afterwards, when they are a forest, and that only a move to the top activates the option |
| LogSystem.LogManager.FindLogOptionByName | LogSystem/LogManager.h:288-302 | the recursive search ends and returns the first option of that name in preorder |
| LogSystem.FirstNamedIsFirst | LogSystem/LogManager.h:288-302 | the option found is the first of that name |
| LogSystem.LogManager.Find | LogSystem/LogManager.h:147-148 | null exactly when no option has the name |
| LogSystem.LogManager.MoveByName | LogSystem/LogManager.h:144-157 | unknown option: nothing changes; unknown parent: to the top, and active; otherwise a move, unchecked against the own subtree; no other option is switched |
| LogSystem.LogManager.DisplayHierarchy | LogSystem/LogManager.h:158-163 | every option is shown once, in preorder |
| Hex.HexRoundTrip | NetworkUtilities/WinCrypto.cpp:28-46 | hexToBytes undoes bytesToHex for every byte string |
| Hex.HexDigits | NetworkUtilities/WinCrypto.cpp:28-35 | which two digits a byte becomes: high half first, lower case |
| Hex.HexPairs | NetworkUtilities/WinCrypto.cpp:38-46 | each byte comes from its own two characters |
| Hex.PairReadsExactly | NetworkUtilities/WinCrypto.cpp:38-46 | what any two characters read as: digits of either case, blanks, signs, and anything else |
| Hex.OddEndReads | NetworkUtilities/WinCrypto.cpp:38-46 | an odd last character reads as its digit, or as 0 |
| Hex.HexFormsExactly | NetworkUtilities/WinCrypto.cpp:28-46 | bytesToHex undoes hexToBytes exactly on even-length lower-case digit strings |
| Hex.BytesToHexLoop | NetworkUtilities/WinCrypto.cpp:28-35 | two lower-case digits per byte, in order |
| Hex.HexToBytesLoop | NetworkUtilities/WinCrypto.cpp:38-46 | one byte per two characters as strtol reads them, also for malformed and odd-length text |
| Envelope.BodyRoundTrip | NetworkUtilities/Message.cpp:66-82 | parsing a printed body gives the lines of its parts up to the first end marker, without start markers |
| Envelope.BodyIdentityExactly | NetworkUtilities/Message.cpp:66-104 | the parts come back unchanged if and only if each is one line and no marker |
| Envelope.PartsFollowStart | NetworkUtilities/Message.cpp:66-82 | of any text, lines before the first start marker do not count |
| Envelope.PartsInside | NetworkUtilities/Message.cpp:66-82 | inside a body every line is a part, in order; further start markers are none, and nothing after the end marker is |
| Envelope.HeaderRoundTrip | NetworkUtilities/Message.cpp:40-54 | type, key and body lines are read back as printed |
| Envelope.WireTextLayout | NetworkUtilities/Message.cpp:118-127 | the text of a message with its size in decimal |
| Envelope.LastKeyRead | NetworkUtilities/Message.cpp:40-54 | of several key lines the last counts |
| Envelope.LastBodyRead | NetworkUtilities/Message.cpp:40-54 | of several body lines the last counts |
| Envelope.LastTypeRead | NetworkUtilities/Message.cpp:40-54 | of several known types the last counts |
| Envelope.DecimalExactly | NetworkUtilities/Message.cpp:123 | a number is printed in decimal digits that stand for it, without leading zeros |
| Envelope.EnvelopeRoundTrip | NetworkUtilities/Message.cpp:31-127 | with inverse cipher pairs, type and session key come back, and the body as above |
| Envelope.SizeBySummands | NetworkUtilities/Message.cpp:160-173 | the size is the plaintext length plus the header estimate including its own digit count (which `SizeInDecimal` gives) |
| Envelope.SizeInDecimal | NetworkUtilities/Message.cpp:160-173 | the size written out, with the number of decimal digits of what is summed up before the size line |
| Envelope.MessageSizeGrows | NetworkUtilities/Message.cpp:160-173 | every push makes the size strictly larger |
| Envelope.Message.Receiving | NetworkUtilities/Message.cpp:31-89 | the parser's fields from the raw text |
| Envelope.Message.PushBody | NetworkUtilities/Message.cpp:92-95 | the part is appended, and the size is a function of type, key and parts alone |
| Envelope.Message.UpdateMessageSize | NetworkUtilities/Message.cpp:160-173 | the additions compute that function |
| Envelope.Message.GenerateEncryptedMessageForSending | NetworkUtilities/Message.cpp:98-115 | encrypts the marked, newline-separated body |
| Envelope.Message.GetMessageToSend | NetworkUtilities/Message.cpp:118-127 | the four header lines in order |
| LevelEvents.FiredExactly | HobbitGameManager/HobbitGameManager.h:173-196 | on every trace exit fires exactly when ended rises, enter exactly when a not-ended level is loaded against the remembered flag, never both |
| LevelEvents.FiredFromSamples | HobbitGameManager/HobbitGameManager.h:173-196 | the same from the samples themselves |
| LevelEvents.ProcessesAfterEnter | Hobbit Multiplayer/HobbitClient.h:75-76 | as far as callbacks go, messages are processed exactly when the latest was enter |
| LevelEvents.ProcessesExactly | Hobbit Multiplayer/HobbitClient.cpp:83 | for a client started at any tick: exactly when an enter came since with no exit after it, or the level was on at the start and no exit came |
| LevelEvents.EnterComesExactly | HobbitGameManager/HobbitGameManager.h:186-195 | when an enter follows an exit, from the samples alone: the level was seen ended at one tick only, or some tick since the last such saw it not loaded |
| LevelEvents.MessagesResumeExactly | Hobbit Multiplayer/HobbitClient.h:75-76 | and that is exactly when messages are processed again |
| LevelEvents.StaleLoadSwallowsEnter | HobbitGameManager/HobbitGameManager.h:186-195 | a trace on which it does not: an exit, and no enter although the level is loaded and not ended |
| LevelEvents.EntersAreSeparated | HobbitGameManager/HobbitGameManager.h:188-195 | no level is entered twice without being left in between, by an exit or unloaded |
| LevelEvents.LevelDetector.OnOpenGame | Hobbit Multiplayer/HobbitClient.cpp:259-265 | the direct call at the start sets the flag by a fresh reading and the last tick's |
| LevelEvents.NeverOpensOrCloses | HobbitGameManager/HobbitGameManager.h:155-172 | on every trace no open or close event fires |
| LevelEvents.GameTickFires | HobbitGameManager/HobbitGameManager.h:155-172 | what a tick would fire with the flag set, and that none sets it |
| LevelEvents.LevelDetector.UpdateLevelState | HobbitGameManager/HobbitGameManager.h:173-196 | one tick of the object fires and remembers what the tick functions say |
| LevelEvents.LevelDetector.UpdateGameState | HobbitGameManager/HobbitGameManager.h:155-172 | one tick of the open/close detector |
| ObjectStack.ScansWholeStackExactly | HobbitGameManager/HobbitProcessAnalyzer.h:103 | a scan visits all slots of the stack if and only if the 32-bit product does not wrap |
| ObjectStack.VisitsExactly | HobbitGameManager/HobbitProcessAnalyzer.h:103 | with wrap or without, the slots visited are those below the 32-bit product |
| ObjectStack.HitsAreExact | HobbitGameManager/HobbitProcessAnalyzer.h:206-219 | the hits are exactly the visited slots holding the pattern, in slot order |
| ObjectStack.HitsHoldPattern | HobbitGameManager/HobbitProcessAnalyzer.h:105-112 | a hit is a slot whose word is not zero and has the pattern at the shift from it, in 32-bit addresses |
| ObjectStack.AllFound | HobbitGameManager/HobbitProcessAnalyzer.h:206-219 | the all-matches scan gives every matching slot of the scan once, ascending, with its object |
| ObjectStack.FirstMatchCoversStack | HobbitGameManager/HobbitProcessAnalyzer.h:97-119 | without wrap, a first match exists exactly when some slot of the stack holds the pattern, and is the first such |
| ObjectStack.ProcessAnalyzer.ScanFirst | HobbitGameManager/HobbitProcessAnalyzer.h:103-115 | the loop stops at the first hit, or at none |
| ObjectStack.ProcessAnalyzer.FindGameObj | HobbitGameManager/HobbitProcessAnalyzer.h:144-167 | the object of the first matching slot, and 0 exactly when no slot matches |
| ObjectStack.ProcessAnalyzer.FindGameObjStack | HobbitGameManager/HobbitProcessAnalyzer.h:120-142 | the address of a slot that holds the pattern's object, the one the other scan returns |
| ObjectStack.ProcessAnalyzer.FindAllGameObj | HobbitGameManager/HobbitProcessAnalyzer.h:197-227 | the objects of all hits in slot order |
| ObjectStack.ProcessAnalyzer.FindReadAllGameObj | HobbitGameManager/HobbitProcessAnalyzer.h:263-288 | the values at the read shift from the objects of the all-matches scan |
| CompletionHandler.MoveAssignEffect | include/asio-1.30.2/include/asio/any_completion_handler.hpp:683-689 | self-move changes nothing; otherwise the target moves, the source is empty and the old target is destroyed |
| CompletionHandler.PerformEffect | include/asio-1.30.2/include/asio/any_completion_handler.hpp:639-756 | what each operation does to the wrappers it names and to the target it gives up, and that nothing else changes |
| CompletionHandler.TargetsRetiredOnce | include/asio-1.30.2/include/asio/any_completion_handler.hpp:639-756 | over any sequence of operations a target has at most one owner and is retired exactly once, when and only when it has none |
| CompletionHandler.PerformOn | include/asio-1.30.2/include/asio/any_completion_handler.hpp:639-756 | every operation of a run is what the wrapper's own code does to the wrappers and targets in the heap |
| CompletionHandler.AnyCompletionHandler.Destroy | include/asio-1.30.2/include/asio/any_completion_handler.hpp:699-703 | the target, if any, is destroyed once, through a table of its own type |
| CompletionHandler.AnyCompletionHandler.Move | include/asio-1.30.2/include/asio/any_completion_handler.hpp:671-677 | takes over table and target and leaves the source empty |
| CompletionHandler.AnyCompletionHandler.Swap | include/asio-1.30.2/include/asio/any_completion_handler.hpp:718-722 | tables and targets change places together |
| CompletionHandler.AnyCompletionHandler.MoveAssign | include/asio-1.30.2/include/asio/any_completion_handler.hpp:683-689 | the temporary-and-swap code, also on itself: exactly the displaced target is destroyed, once |
| CompletionHandler.AnyCompletionHandler.NullAssign | include/asio-1.30.2/include/asio/any_completion_handler.hpp:692-696 | empties the wrapper and destroys its target once |
| CompletionHandler.AnyCompletionHandler.Call | include/asio-1.30.2/include/asio/any_completion_handler.hpp:745-756 | calls the target once and empties the wrapper; throws exactly when empty |
| AlignedAlloc.CellInBlockExactly | include/asio-1.30.2/include/asio/any_completion_handler.hpp:140-151 | user bytes and offset cell lie in the block, for every base, if and only if size, alignment and cell sum without wrap |
| AlignedAlloc.OffsetAligns | include/asio-1.30.2/include/asio/any_completion_handler.hpp:145-146 | the pointer is a multiple of the alignment |
| AlignedAlloc.Allocate | include/asio-1.30.2/include/asio/any_completion_handler.hpp:131-156 | an aligned pointer within the block, its offset stored behind the user's bytes |
| AlignedAlloc.UserWrite | include/asio-1.30.2/include/asio/any_completion_handler.hpp:149 | no write to the user's bytes touches the stored offset |
| AlignedAlloc.Deallocate | include/asio-1.30.2/include/asio/any_completion_handler.hpp:158-176 | recovers exactly the base and the size that were allocated |

## Left out

- Sockets, Winsock, threads, sleeps, prompts, file reading and console output: plumbing; `recv` is an arbitrary chunking and threads are interleaved steps.
- `isRunning` and `isConnected` as stop requests from another thread: a stop only ends loops early, which the runs of the step system include as threads that erase or never act.
- A header split over several `recv` calls: the code would then use bytes it never received; `HeadersWhole` excludes it.
- Messages arriving while `readMessage` runs, and the loss of a snapshot between its copy and the clear: the queues are drained with no arrival in between.
- In `GameData` and `GameClient` the main player's readers are parameters; `PlayerRecords.PlayerReaders` are the actual ones. What the main player reads from the game before a write (`readPtrs`, `processData`), changes of the game's memory while a loop runs, and logging are left out.
- MainPlayerSide.MainPlayer.ReadConectedPlayerLevel: does not model the pop of an empty queue that exactly four remaining bytes lead to, because its effect is undefined; in `ReadGame` it ends the queue.
- ClientSide.ReceiveCutStream: does not model a stream cut inside a header, where the code goes on with a half-filled length.
- Wire.FrameDelivered: does not model the `int` length of Winsock's `send` and `recv`, with which bodies of 2^31 bytes or more fail on Windows although they fit the header.
- LogSystem.LogManager.AddLogOption: an option from outside the forest is the root of a tree of its own, apart from the forest; one that hangs under another outside option is not modelled.
- Meaning of snapshot fields as numbers: multi-byte fields are the bytes they are copied from.
- `processPlayer`, NPC writes, GUID files and the process memory access behind the scans: foreign calls and straight-line writes.
- `getAllObjects` and the vector-pattern forms of the scans: the same loop with another test.
- CryptoAPI: the ciphers are function parameters assumed to be inverse pairs and not to throw.
- Envelope.Message.UpdateMessageSize: does not model the wrap-around of a 64-bit size, because strings of that total length do not exist.
- StreamBuffer.ConsumeDrops: the pointer sum `gptr() + n` is taken as a number; the language leaves its wrap-around undefined.
- Allocation failure in `resize` and `capacity()`: they depend on the allocator and the library.
- Lifetime of log options: options stay alive as long as they are mentioned; the expiry of a weak parent link is not modelled. Log levels, depth and colours of messages are left out too.
- Executors, cancellation slots and exceptions of handler targets in `any_completion_handler`: forwarding to types that are not modelled.
- AlignedAlloc.Allocate: a request whose size wraps only by the eight bytes of the cell is excluded, since the code then writes outside the block; `CellInBlockExactly` says when.
- searchProcessMemory: its bounds make no clean search.
