# Verified model of the mesh hub

A model, in Dafny 4.11, of the protocol and state cores of a hub that connects a mesh of radio
nodes, reached over a serial line, to home automation software. Each module follows one source
file or one part of it. Code that changes things step by step is modelled by classes, methods
and loops, each proved equal to a function on values; what the program promises is then proved
of those functions, for every input and every run.

| module | models |
|---|---|
| Basics | shared types |
| Crc16, ApiFrames, SerialDecoder, SerialStream | the serial line: sums, framing, the byte-at-a-time decoder, whole streams |
| SessionScheduler, SerialConnection | clients, writer and reader sharing one outstanding request |
| MeshNetwork, Discovery, DiscoveryProcedure | the mesh graph and the search that grows it |
| Firmware | the firmware upload, with its remote flash and lost replies |
| ConnectedPath, Forwarding, ClientRuns, Connections | handles, the life of a connection, what is forwarded, and whole runs of a client |
| ReplyWalk, Dispatch, MultiServer | who gets a reply, and the loops over a list that their own callback shifts |
| NodeIds, GraphDocument, AttributeValues, GraphMl | node ids and the GraphML store |
| Floats, NetworkXml, NetworkStore | saving and loading the mesh graph, with its weights in floating point |

How the environment enters: answers of mesh nodes, lost replies, the outcome of port writes,
timeouts, and the order in which maps and the graph library hand out their elements are
parameters or free choices, so a theorem holds for all of them. Concurrency is a machine whose
steps interleave freely. Node ids and counters have the widths of the source.

Several laws one would expect are false of the program. Each is stated with the exact condition
under which it holds, several also with an input on which they fail:

- discovery asks every node it heard of: unless 0 is the local node or is reported;
- an image can be uploaded: unless one of its sectors is nothing but 0xFF;
- a network comes back from its file: if every id lies from 1 to 2^31 - 1;
- a weight comes back from its file: if rounding to 32 bits does not take it below its value,
  and otherwise it shrinks by a hundredth with every turn;
- an edge is refused only when it is there: if neither end holds the separator "<->";
- the attributes of an element read back: if each value has the type of its key;
- a reply acts on one client: if no two clients share its handle, which they do exactly when a
  multiple of 65535 allocations lies between theirs;
- CloseConnections closes every client: if there are at most two;
- a node finds its path in an open request: if it has at most 255 hops.

Two more facts about replies are stated as they are: a reply that comes before the connection is
marked busy is lost, and a session without a subtype takes any frame for its reply.

Where comments and code disagree the code is followed: setAttributeForData
(graphml/graphml.go:621-635) speaks of a key ID and uses a name.

To check the project, run `dafny verify dfyconfig.toml` here. Nothing runs the original program.

## Model

| member | source | states |
|---|---|---|
| Crc16.Crc16Calc | meshmesh/crc16.go:43-50 | for every buffer the table-driven sum is the bit-by-bit division by the reflected polynomial 0x8408 (the FCS of RFC 1662, Appendix C.2, started at the given register) |
| Crc16.TableStepIsDivision | meshmesh/crc16.go:38-41 | one table step, for every register and byte, is eight steps of the division |
| Crc16.TableEntry | meshmesh/crc16.go:3-36 | each of the 256 table entries is what dividing its index leaves |
| Crc16.FcsAppend | meshmesh/crc16.go:43-50 | a sum over two pieces is the sum of the second started at that of the first |
| Crc16.FcsSnoc | meshmesh/meshmeshapi.go:210-218 | adding one byte at the end is one table step, as the decoder does it |
| Crc16.ByteIsBijection | meshmesh/crc16.go:38-41 | each byte permutes the 65536 register values: stepping back and forth are inverse both ways |
| Crc16.FcsInjectiveInRegister | meshmesh/crc16.go:43-50 | different registers stay different whatever bytes follow |
| Crc16.BurstChangesFcs | meshmesh/crc16.go:43-50 | buffers of one length that differ only within two adjacent bytes have different sums |
| ApiFrames.ApiFrame.Escape | meshmesh/apiframe.go:496-521 | an unescaped frame becomes its byte stuffing, an escaped one is left alone |
| ApiFrames.ApiFrame.Output | meshmesh/apiframe.go:523-534 | the bytes sent are FD, the stuffed payload, EF and the sum of the stuffed payload, high byte first |
| ApiFrames.UnescapeEscaped | meshmesh/apiframe.go:496-521 | taking the stuffing out again gives the payload back, for every payload |
| ApiFrames.UnescapedSnoc | meshmesh/meshmeshapi.go:214-253 | what a text stands for grows by the byte when a plain byte is added |
| ApiFrames.UnescapedSnocPair | meshmesh/meshmeshapi.go:214-253 | and by the second byte when an escape pair is added |
| ApiFrames.CrcBytesRoundTrip | meshmesh/apiframe.go:528-532 | the two sum bytes put together as the decoder does are the sum |
| ApiFrames.OneByteEscaped | meshmesh/apiframe.go:496-521 | byte by byte: EF, FE and EA are sent behind an EA, and every other byte as it is |
| SerialDecoder.Reader.OnByte | meshmesh/meshmeshapi.go:188-292 | one byte through the six decoder states with its overflow reset takes the buffer, index, sum and state to those of the specification, and the write index stays below 1500 |
| SerialDecoder.Reader.InText | meshmesh/meshmeshapi.go:234-285 | a byte inside a frame, stop and escape included |
| SerialDecoder.Read | meshmesh/meshmeshapi.go:167-297 | for every input the frames and log lines handed out are exactly those of the specification's run, in order |
| SerialDecoder.DecoderIsSoundAndComplete | meshmesh/meshmeshapi.go:167-297 | every input splits into disjoint pieces in order; the frames are those of the pieces FD e EF hi lo with a right sum and FE e EF, each unstuffed from its e, and every other piece is noise, a log line, a bad sum or an overflow |
| SerialDecoder.RunTiles | meshmesh/meshmeshapi.go:188-292 | the same from any decoder state, with the bytes of the open piece kept in the buffer |
| SerialDecoder.PiecesDecode | meshmesh/meshmeshapi.go:167-297 | conversely, any sequence of such pieces decodes to exactly their frames and log lines |
| SerialDecoder.RunText | meshmesh/meshmeshapi.go:214-253 | a stuffed text is stored unstuffed and summed stuffed |
| SerialDecoder.RunCrcFrame | meshmesh/meshmeshapi.go:197-236 | a frame with a sum is handed out exactly when the sum is right, and the decoder is at its start again |
| SerialDecoder.RunLog | meshmesh/meshmeshapi.go:203-209 | a complete short log line ends at its newline and leaves the decoder at its start |
| SerialDecoder.RunOverlong | meshmesh/meshmeshapi.go:287-291 | a text that reaches 1500 bytes is dropped and the decoder starts over |
| SerialStream.StreamRoundTrip | meshmesh/apiframe.go:496-534 | for any list of payloads, stray bytes and log lines, what comes out is exactly the list in order if and only if every payload has at most 1499 bytes and every log line at most 1498 |
| SerialStream.FitsIs | meshmesh/meshmeshapi.go:287-291 | what fits is a payload of at most 1499 bytes, a log line of at most 1498 |
| SerialStream.EmptyFrame | meshmesh/apiframe.go:523-534 | the frame of an empty payload, byte by byte |
| SerialStream.DamagedFrameIsDropped | meshmesh/meshmeshapi.go:223-233 | a frame damaged within two adjacent bytes of its text, without new stops or escapes, is never handed out |
| SerialStream.ZerosResynchronise | meshmesh/meshmeshapi.go:210-291 | the exact number of zero bytes after which a decoder in a given state is at its start |
| SerialStream.NeverMoreThanTheLimit | meshmesh/meshmeshapi.go:287-291 | that number is never above 1500 in a reachable state |
| SerialStream.NextFrameAfterZeros | meshmesh/meshmeshapi.go:287-291 | so after any input and 1500 zero bytes the next frame decodes exactly |
| SessionScheduler.RequestsAreAwaited | meshmesh/apiframe.go:458-486 | a session made for a request waits for an odd, non-zero type, with a subtype exactly for discovery and flash operations |
| SessionScheduler.AwaitedReplyIs | meshmesh/apiframe.go:458-486 | for every request frame: refused exactly when empty or a unicast frame without its sixth byte, out of range exactly when a needed second byte is missing; else type byte 0, or 5 of a unicast frame, made odd, with the next byte made odd as subtype for discovery and flash operations and 0 for all others |
| SessionScheduler.AnotherTypeIsAccepted | meshmesh/apiframe.go:487-494 | whatever type and subtype are awaited, some frame of another type passes |
| SessionScheduler.StepKeepsInv | meshmesh/meshmeshapi.go:91-159 | each step of client, writer, reader, port or timeout, in any interleaving, keeps the invariant of queue, wait groups and releases |
| SessionScheduler.RunKeepsInv | meshmesh/meshmeshapi.go:299-401 | every run of them keeps it too |
| SessionScheduler.OneRequestAtATime | meshmesh/meshmeshapi.go:299-401 | after every run: the port got the sessions in queue order and each at most once; the awaited ones on the port are the released ones in the same order and at most one more; nothing is released twice and no wait group goes below zero |
| SessionScheduler.NoSessionIsLost | meshmesh/meshmeshapi.go:387-401 | wait-group adds equal sessions not yet queued, queued, in the writer's hands, outstanding and released |
| SessionScheduler.ReplyIsFinal | meshmesh/meshmeshapi.go:387-400 | once a session is released its reply never changes again |
| SessionScheduler.ReturnedWasReleased | meshmesh/meshmeshapi.go:392-400 | a waiting client returns only after its own session was released |
| SessionScheduler.ReleasedCanReturn | meshmesh/meshmeshapi.go:392-400 | a waiting client can return exactly when its session was released, and its return changes nothing else |
| SessionScheduler.OutstandingSession | meshmesh/meshmeshapi.go:124-131 | the session a release is about was added and queued, is not in the queue, was not released before, and its count is one |
| SessionScheduler.FrameReleases | meshmesh/meshmeshapi.go:91-147 | a frame releases a session exactly when one is marked, the frame is no log line or connected path packet, and its type or its subtype fits or no subtype is wanted; any other frame changes nothing |
| SessionScheduler.TimeoutReleases | meshmesh/meshmeshapi.go:149-159 | a timeout releases the marked session, and no other, without a reply |
| SessionScheduler.EarlyReplyIsLost | meshmesh/meshmeshapi.go:331-345 | between the port write and the busy mark every frame is dropped, and the session is then marked although its reply has gone by |
| SessionScheduler.AnEarlyReply | meshmesh/meshmeshapi.go:331-345 | a run that reaches this window |
| SessionScheduler.WhereFramesGo | meshmesh/meshmeshapi.go:91-147 | a frame goes to the log handler exactly with type 57, to the path handler exactly with type 123, and to the waiting client exactly when it releases a session; association requests are heard only while no session is marked, and then by type OR subtype alone |
| SessionScheduler.StoppedWriterStrandsClients | meshmesh/meshmeshapi.go:333-341 | after a failed port write nothing is sent or released any more, and every client whose session was taken or queued waits in every continuation |
| SessionScheduler.WriterSteps | meshmesh/meshmeshapi.go:299-368 | the writer step by step: front of the queue, port, mark if awaited, free again; a write that fails stops it |
| SessionScheduler.FailedReaderStrandsClients | meshmesh/meshmeshapi.go:178-181 | after the reader has failed nobody is released any more, in every continuation |
| SerialConnection.SerialConnection.NewSession | meshmesh/meshmeshapi.go:36-50 | the session made for a request waits for the reply that request asks for; none is made for one that is refused or too short |
| SerialConnection.SerialConnection.NewSimpleSession | meshmesh/meshmeshapi.go:36-39 | a session that nobody waits on |
| SerialConnection.SerialConnection.QueueApiSession | meshmesh/meshmeshapi.go:370-374 | the object joins the end of the list, as the machine's queue says |
| SerialConnection.SerialConnection.Submit | meshmesh/meshmeshapi.go:376-394 | the count goes to one before the session is queued, if it waits for a reply |
| SerialConnection.SerialConnection.ReadFrame | meshmesh/meshmeshapi.go:91-147 | the fields after a frame are those of the machine after the frame and the clearing it may cause, and the frame goes to the handler WhereTo says: log, connected path, waiting client, association or nobody |
| SerialConnection.SerialConnection.CheckSessionTimeout | meshmesh/meshmeshapi.go:149-159 | an expired session is released without a reply; anything else changes nothing |
| SerialConnection.SerialConnection.WriteOnce | meshmesh/meshmeshapi.go:299-368 | one turn takes, writes and marks, or stops for good when the port fails; a busy or empty connection is left as it is |
| MeshNetwork.Network.ChangeEdgeWeight | graph/network.go:124-144 | the edge gets the weight; a missing source is added not in use, a missing target in use; nothing else changes and every node keeps a device of its own |
| MeshNetwork.WithEdgeIs | graph/network.go:124-144 | what a changed edge leaves: a missing source not in use, a missing target in use, both without a tag, and every other node and edge as it was |
| MeshNetwork.Network.CopyNetwork | graph/network.go:189-207 | the copy has the same value and shares the device objects, while its edges are its own |
| MeshNetwork.CopyEntries | graph/network.go:194-204 | the copying loops give the same entries in whatever order they are handed out |
| MeshNetwork.Network.New | graph/network.go:209-214 | a new network is the local node alone, in use and tagged local |
| Discovery.WeightScale | meshmesh/discovery.go:71-88 | link costs lie in [0, 1]; on the negative scale a stronger signal never costs more; both ends and the jump of the positive scale are exact |
| Discovery.ScaleIsALine | meshmesh/discovery.go:73-87 | from -80 to -40 the cost is the straight line from 1 to 0 rounded to hundredths, halves up |
| Discovery.LinkCostIsTheCheaper | meshmesh/discovery.go:130-137 | the cost of a link is that of its better direction |
| Discovery.FromGraphIs | meshmesh/discovery.go:90-107 | a node asked for the first time has its out-edges for neighbours, each at the cheaper of its two directions, a missing way back counting as the way there |
| Discovery.InitStepIsSound | meshmesh/discovery.go:159-194 | the node of the next step is the old one exactly while it has repetitions left, else an in-use undiscovered one; Done comes exactly when 0 is picked |
| Discovery.ReadTableMeaning | meshmesh/discovery.go:242-257 | after a table the neighbours are the old ones and the reported ones, each at the cost of its last entry, or 1, with the cost before kept beside it |
| Discovery.StepMeaning | meshmesh/discovery.go:196-259 | a step that succeeds changes the neighbours and at most the tag of its node |
| Discovery.StepSucceeds | meshmesh/discovery.go:196-259 | a step succeeds exactly when its node is known and no reply and no table entry is lost |
| Discovery.StepThatFails | meshmesh/discovery.go:196-259 | one that fails changes nothing but the tag, if that was read, and the neighbours |
| Discovery.TableCutShort | meshmesh/discovery.go:242-257 | and these by exactly the entries in front of the lost one |
| Discovery.TagIs | meshmesh/discovery.go:210-225 | a node keeps the tag it has, and one without gets the reported one |
| Discovery.TruncateZerosIs | utils/utils.go:86-97 | cut at its first zero |
| Discovery.ToGraphIs | meshmesh/discovery.go:115-128 | saving makes the out-edges of the node exactly its neighbours and touches no other edge and no old node |
| Discovery.SavingIteration | meshmesh/discovery.go:288-305 | a successful iteration marks its node, keeps all its out-edges and adds the reported ones at the costs of the new table, and changes nothing else but new nodes |
| Discovery.NeighborsAfterSave | meshmesh/discovery.go:272-286 | the neighbours shown after a save are those in the graph, each with its cost there and the one before |
| Discovery.FailingIteration | meshmesh/discovery.go:288-305 | a failed one ends in Error with at most one tag changed |
| Discovery.IterationKeepsInv | meshmesh/discovery.go:288-305 | every iteration keeps the invariant: blocks of saves, marks, costs and growth |
| Discovery.RunKeepsInv | meshmesh/discovery.go:288-305 | so does every run, for every choice of nodes and answers; in it no node or edge ever disappears |
| Discovery.RunsAreFinite | meshmesh/discovery.go:288-305 | a run has at most three iterations for each id there can be and one more, although the graph grows while it is searched |
| Discovery.DoneMeansAllAsked | meshmesh/discovery.go:139-194 | at Done every in-use node was asked, if and only if 0 is not an in-use node; each was saved three times in a row; each of their out-edges costs what its last table says, in [0, 1] |
| Discovery.ZeroAloneEndsEarly | meshmesh/discovery.go:179-182 | the condition told from the input: 0 was neither an in-use node at the start nor, not being a node, reported by anyone |
| Discovery.ARunEndedByZero | meshmesh/discovery.go:179-182 | a run that ends Done with an in-use node never asked |
| Discovery.LastEntryWins | meshmesh/discovery.go:130-137 | of several entries for one neighbour the last one sets the cost |
| Discovery.TableCostInRange | meshmesh/discovery.go:130-137 | whatever the tables hold, costs stay in [0, 1] |
| Discovery.TableCostIsHundredths | meshmesh/discovery.go:71-137 | every cost from a table is a whole number of hundredths, at most 100 |
| Discovery.DiscoveryIsComplete | meshmesh/discovery.go:139-194 | at Done every node that a path of reports leads to, which is every node of the graph, is marked and was asked, if and only if the local node is not 0 and nobody reported 0 |
| Discovery.DiscoveryIsClosure | meshmesh/discovery.go:139-194 | from a fresh network, at every point the nodes are the least set that holds the local node and is closed under reports, and each has a path of graph edges from it |
| DiscoveryProcedure.DiscoveryProcedure.FindNextNode | meshmesh/discovery.go:139-157 | whatever the order of nodes, the search ends with an in-use undiscovered one, or with none if there is none |
| DiscoveryProcedure.DiscoveryProcedure.InitStep | meshmesh/discovery.go:159-194 | the fields become those of the operation in Discovery |
| DiscoveryProcedure.DiscoveryProcedure.Step | meshmesh/discovery.go:196-259 | as far as the first failing request, the fields become those of the operation in Discovery |
| DiscoveryProcedure.DiscoveryProcedure.Save | meshmesh/discovery.go:272-286 | after a save the node is marked and its out-edges are its neighbours, as in Discovery |
| DiscoveryProcedure.DiscoveryProcedure.Clear | meshmesh/discovery.go:261-270 | every flag is taken back, in place |
| DiscoveryProcedure.DiscoveryProcedure.Run | meshmesh/discovery.go:288-305 | the loop ends for every mesh, in Done or Error, from a new procedure or one that ended Done, and is one of the runs the theorems speak of |
| DiscoveryProcedure.NeighborsFromGraph | meshmesh/discovery.go:90-107 | every out-edge at the cheaper of its two directions, in whatever order they come |
| DiscoveryProcedure.NeighborsToGraph | meshmesh/discovery.go:115-128 | removing all out-edges and adding the neighbours one by one is the rewriting of Discovery |
| DiscoveryProcedure.NeighborsAdvance | meshmesh/discovery.go:109-113 | every cost moves on and the next one starts at 1 |
| DiscoveryProcedure.ReadItems | meshmesh/discovery.go:243-257 | the entry loop, stopping at the first lost one |
| Firmware.FirmwareUploadProcedure.InitFromBytes | meshmesh/firmware.go:64-72 | the invariant between steps holds at the start |
| Firmware.FirmwareUploadProcedure.CheckMemoryMd5 | meshmesh/firmware.go:33-50 | equal means the same bytes and not reported erased; an erased range is never equal |
| Firmware.FirmwareUploadProcedure.CheckMd5 | meshmesh/firmware.go:52-62 | the final check fails exactly on a lost reply, on different bytes, or on an erased image |
| Firmware.FirmwareUploadProcedure.WriteChunks | meshmesh/firmware.go:170-187 | the chunks go out once each, in order, onto erased bytes only; if all are answered the log is exactly the chunks of the sector, and an obeying device holds the sector |
| Firmware.ChunksPartition | meshmesh/firmware.go:170-173 | the chunks of a sector are non-empty, at most 1024 bytes, full but for the last, and end to end the sector |
| Firmware.FirmwareUploadProcedure.MakeErased | meshmesh/firmware.go:156-168 | the erase is one whole sector at the sector address and, when it succeeds, the range is erased |
| Firmware.FirmwareUploadProcedure.RewriteSector | meshmesh/firmware.go:156-198 | from the erase to the last check: nothing outside the sector changes, and success means the flash holds the sector, whatever a lost request left there before |
| Firmware.FirmwareUploadProcedure.UploadSector | meshmesh/firmware.go:132-203 | progress is one non-blank sector, or one warning and no progress, or a fatal error; the requests are those of the plan, in order, up to the one that was lost or refused; a sector that is in place is checked once and left alone |
| Firmware.PlanIsSparing | meshmesh/firmware.go:132-158 | the plan of a step, told from what the flash holds: a check, and more only if the sector is not in place; an erase only where the flash holds neither the sector nor 0xFF alone |
| Firmware.RewriteIsComplete | meshmesh/firmware.go:158-203 | the rest of the plan: the erase, every piece of 1024 bytes once and in order, and a check |
| Firmware.FirmwareUploadProcedure.Finish | meshmesh/firmware.go:116-130 | after the last sector the whole is checked and, unless that fails, booted, and nothing else is asked for |
| Firmware.FirmwareUploadProcedure.Step | meshmesh/firmware.go:111-203 | every request a step makes is allowed (erases aligned and within the image, writes of the right bytes onto erased ones, boot of the right image), and nothing outside the current sector changes |
| Firmware.FirmwareUploadProcedure.Run | meshmesh/firmware.go:235-252 | the run ends within the number of sectors plus one plus the lost replies; complete means booted with the image on flash; it ends as Outcome says; over a flash that holds the image already (without a blank sector) it erases and writes nothing; and if it completes without a lost reply its requests are exactly the plans of all sectors, the check of the whole and the boot |
| Firmware.LastStep | meshmesh/firmware.go:243-251 | with a device that at worst loses replies the upload fails on a sector if and only if the image has a sector of nothing but 0xFF, and unless the last two replies are lost it completes if and only if there is none |
| Firmware.OneBlankByte | meshmesh/firmware.go:40-46 | no run over the image of one byte 0xFF completes, and with a device that at worst loses replies each ends in a sector mismatch |
| Firmware.FlashDevice.Write | meshmesh/firmware.go:174-184 | programming clears bits only; a lost, refused or botched write may leave anything in its own range and nothing elsewhere |
| Firmware.FlashDevice.Erase | meshmesh/firmware.go:157-167 | an erase answered as done leaves 0xFF; otherwise anything, in its own range |
| ConnectedPath.Handles.GetNextHandle | meshmesh/meshmeshapi.go:81-89 | handles are the values of a counter that goes round the 65535 non-zero numbers |
| ConnectedPath.AdvancedIs | meshmesh/meshmeshapi.go:81-89 | the value after any number of steps in closed form |
| ConnectedPath.WindowIsDistinct | meshmesh/meshmeshapi.go:81-89 | values fewer than 65535 steps apart differ, at 65535 they come again, and none is 0 |
| ConnectedPath.HandlesCollide | meshmesh/meshmeshapi.go:81-89 | the handles of two allocations are equal exactly when a multiple of 65535 lies between them |
| ConnectedPath.OpenRequestNamesThePath | meshmesh/connectedpath.go:137-158 | a node finds the open command, the port and the sequence number in the request, and the very path of the graph, ids above 2^31 included, if and only if it has at most 255 hops; then the data size is right |
| ConnectedPath.SequenceIs | meshmesh/connectedpath.go:63-69 | the sequence numbers of a connection are 1 to 65535 over and over |
| ConnectedPath.ConnPathConnection.GetNextSequence | meshmesh/connectedpath.go:63-69 | the next of them |
| ConnectedPath.ConnPathConnection.SendData | meshmesh/connectedpath.go:71-83 | the data go out in one request; the k-th request of a connection, of whatever kind, carries sequence number k % 65535 + 1, which Valid keeps for all of them |
| ConnectedPath.LifeOfAConnection | meshmesh/connectedpath.go:177-210 | for every sequence of replies and disconnects after the open call: waiting while nothing that matters has come, active exactly while one ack is all that came, invalid for ever after |
| ConnectedPath.WhatRepliesMean | meshmesh/connectedpath.go:177-210 | command 6 accepts a waiting connection and ends any other, 7, 4 and 8 end it in every state, and nothing else moves it |
| ConnectedPath.ActiveAtMostOnce | meshmesh/connectedpath.go:177-186 | a connection enters the active state at most once, and by an ack |
| ConnectedPath.InvalidIsForEver | meshmesh/connectedpath.go:188-210 | nothing leads out of the invalid state |
| ConnectedPath.ConnPathConnection.HandleIncomingReply | meshmesh/connectedpath.go:193-210 | one reply moves the state as the specification says |
| ConnectedPath.ConnPathConnection.OpenConnectionAsync | meshmesh/connectedpath.go:122-161 | no path, or a path of the local node alone, is an error that changes nothing; else the request carries sequence, data size, port, hop count and hops, each cut to its width |
| ConnectedPath.ConnPathConnection.Disconnect | meshmesh/connectedpath.go:163-175 | the connection is invalid and no payload was sent |
| Forwarding.EveryByteIsAccountedFor | meshmesh/apiconnection.go:20-45 | every byte is dropped alone at a packet head, is part of exactly one packet that is sent, or is pending; packets go out whole and in order, each with a zero first and its size plus three for length |
| Forwarding.PacketsAreSent | meshmesh/apiconnection.go:20-45 | conversely, however bytes are read as drops, packets and a pending rest, those packets are sent: the reading is unique |
| Forwarding.AckTimingIsInvisible | meshmesh/apiconnection.go:61-81 | before the ack nothing is sent; once active a client has sent what the packetizer makes of all its bytes so far, whenever the ack came |
| Forwarding.SameBytesSamePayloads | meshmesh/apiconnection.go:114-133 | two active clients that read the same bytes have sent the same payloads |
| Forwarding.NothingAfterInvalid | meshmesh/apiconnection.go:130-132 | an invalid connection sends nothing more |
| Forwarding.ChunksPartition | meshmesh/otaconnection.go:47-71 | the chunks of a buffer are the buffer, in as many pieces of 1 to 512 bytes as the loop counts |
| Forwarding.UpdateArrivesInOrder | meshmesh/otaconnection.go:104-147 | the payloads of an update and the bytes held back are all bytes read, in order, for every timing of ack and pauses |
| Forwarding.AckFlushes | meshmesh/otaconnection.go:38-46 | the ack sends all bytes that came while the update waited and keeps none |
| Forwarding.PauseFlushes | meshmesh/otaconnection.go:138-146 | a pause sends all that was held back: an active update has then sent all bytes so far |
| Forwarding.UpdateEndsWithTheConnection | meshmesh/otaconnection.go:138-146 | after the connection is invalid only what was held back can still go out |
| ClientRuns.RunIsOpen | meshmesh/esphomeapi.go:80-108 | for every run of bytes, pauses, replies and closing: the socket of a client is open exactly as long as it did not give up, every non-empty data reply could be written, and the other replies left the connection valid; then its socket got exactly those data in order, and its connection is in the state the replies lead to |
| ClientRuns.RunIsClosed | meshmesh/esphomeapi.go:87-103 | a client that was closed got the data up to the input that closed it, and nothing after |
| ClientRuns.ReplyAndLife | meshmesh/esphomeapi.go:80-104 | in whatever state, a reply that does not close a client leaves it as alive as it was, and one that does leaves it dead |
| ClientRuns.ClosedIsInvalid | meshmesh/apiconnection.go:87-95 | a closed client has an invalid connection after its disconnect, a closed socket and no more data |
| Connections.ApiConnection.Forward | meshmesh/apiconnection.go:20-45 | one byte through the packetizer of Forwarding |
| Connections.ApiConnection.FlushBuffer | meshmesh/apiconnection.go:74-81 | the kept bytes go through the packetizer in order |
| Connections.ApiConnection.ReadByte | meshmesh/apiconnection.go:114-133 | the fields after a socket byte are those of Forwarding after that event |
| Connections.ApiConnection.HandleReply | meshmesh/esphomeapi.go:83-104 | a data reply adds exactly its data to the socket or, if they cannot be written, closes the client; any other reply closes it exactly when it turns the connection from valid to invalid; the client stays the run of its inputs |
| Connections.ApiConnection.Close | meshmesh/apiconnection.go:87-95 | the socket is closed and the disconnect leaves the connection invalid |
| Connections.OtaConnection.FlushBuffer | meshmesh/otaconnection.go:47-71 | the chunk loop empties the buffer into the chunks of Forwarding |
| Connections.OtaConnection.Read | meshmesh/otaconnection.go:104-147 | a byte, or the pause that flushes |
| Connections.OtaConnection.HandleReply | meshmesh/esphomeapi.go:83-104 | the same for an update client |
| Connections.OtaConnection.Close | meshmesh/otaconnection.go:77-85 | the socket is closed and the disconnect leaves the connection invalid |
| ReplyWalk.WalkLeavesOthers | meshmesh/esphomeapi.go:80-117 | whatever handles the clients have: a reply keeps the order of the list, takes only clients out of it that it closed, and leaves every client with another handle as it was, in the list |
| ReplyWalk.HandledMeansMet | meshmesh/esphomeapi.go:80-108 | a reply counts as handled exactly when some client has its handle |
| ReplyWalk.OneClientServed | meshmesh/esphomeapi.go:80-117 | when one client alone has the handle the reply acts on it once and on nobody else, and that client alone leaves the list, if closed, although closing shifts the array under the loop and leaves a stale copy |
| ReplyWalk.WalkListsTheLiving | meshmesh/esphomeapi.go:80-117 | whatever handles the clients have: after a reply exactly the clients that are alive are in the list |
| ReplyWalk.OneHandleOneClient | meshmesh/esphomeapi.go:82-106 | no reply acts on two clients if and only if no two clients have its handle |
| ReplyWalk.SharedHandleSkips | meshmesh/esphomeapi.go:82-106 | with three clients on one handle and a write that fails the first is closed, its neighbour is skipped and the last is closed twice |
| ReplyWalk.EveryOtherIsSpared | meshmesh/esphomeapi.go:152-156 | CloseConnections closes and takes out of the list all clients but those in odd places (counted from 0) in front of the last, which it leaves as they were |
| ReplyWalk.ClosingListsTheLiving | meshmesh/esphomeapi.go:152-156 | and exactly those left are alive |
| ReplyWalk.AllAreClosed | meshmesh/esphomeapi.go:152-156 | so it closes everybody if and only if there are at most two clients |
| Dispatch.ServerApi.HandleConnectedPathReply | meshmesh/esphomeapi.go:80-108 | for every server, the loop over the array that closing shifts is the walk of ReplyWalk: result, clients and list |
| Dispatch.HandlesDiffer | meshmesh/meshmeshapi.go:81-89 | the handles of the clients of a server differ exactly when no two of their allocations lie a multiple of 65535 apart |
| Dispatch.LiveHandlesDiffer | meshmesh/meshmeshapi.go:81-89 | so they do while the oldest client in the list has its handle from fewer than 65535 allocations before the newest |
| Dispatch.LiveClientServed | meshmesh/esphomeapi.go:80-117 | then a reply acts on the one client with its handle, once, and on no other, and that client leaves the list exactly if closed |
| Dispatch.ServerApi.ClientClosedCb | meshmesh/esphomeapi.go:110-117 | the first place of the client is closed up in place and the last place keeps a stale copy; an unknown client changes nothing |
| Dispatch.ServerApi.CloseConnections | meshmesh/esphomeapi.go:152-156 | the loop is the walk that closes whoever it meets |
| Dispatch.ListedClientsAreServed | meshmesh/esphomeapi.go:80-156 | every client in the list of a server at any time: nothing has ended it, its connection is not invalid, all data for it are on its socket in order, and it has sent what the packetizer makes of all its bytes |
| Dispatch.ServerApi.ReadByte | meshmesh/apiconnection.go:114-133 | a byte for one client leaves the others and the list alone |
| Dispatch.ServerApi.CloseClient | meshmesh/apiconnection.go:87-95 | a client that closes itself leaves the list |
| Dispatch.ServerApi.AddClient | meshmesh/esphomeapi.go:129-146 | a new client joins the end of the list |
| Dispatch.ServerApi.Accept | meshmesh/esphomeapi.go:119-150 | a new socket uses up the next handle; its client joins the list with it, waiting, its open request sent, unless there is no path |
| MultiServer.MultiServerApi.HandleConnectedPathReply | meshmesh/esphomeapi.go:192-203 | the first server that has a client with the handle, and it alone, does the walk; no server before it has one, and every other server, before or after, is as it was |
| MultiServer.Try | meshmesh/esphomeapi.go:194-199 | one server does the walk and reports whether some client has the handle; if none has, it is as it was |
| MultiServer.OneClientOfAll | meshmesh/esphomeapi.go:192-203 | while all living clients have their handles from the last 65535 allocations, at most one client of all servers has the handle of a reply |
| MultiServer.MultiServerApi.Accept | meshmesh/esphomeapi.go:119-150 | a client accepted by any server gets a number that no client of any server has, and no other server changes |
| NodeIds.NodeIdRoundTrip | utils/utils.go:18-37 | a printed node id parses back to itself exactly for 1 to 2^31 - 1; every other id prints as something that does not parse |
| NodeIds.NodeIdsDiffer | utils/utils.go:18-24 | different ids of that range print differently |
| NodeIds.FmtNodeIdIs | utils/utils.go:18-24 | the text of a positive id: N, then at least six digits or capital letters, more only without a leading zero |
| NodeIds.NegativeIdIs | utils/utils.go:18-24 | a negative id has its sign behind the N, counted among the six characters |
| NodeIds.CaseDoesNotMatter | utils/utils.go:26-37 | small letters parse as capital ones |
| NodeIds.UintReadsBack | utils/utils.go:26-37 | a number printed in base 2, 8 or 16 parses back behind its prefix, in small or capital letter; a zero alone in front stands for base 8 |
| NodeIds.IntReadsBack | utils/utils.go:26-37 | and with a sign, exactly if it fits |
| NodeIds.SomeIds | utils/utils.go:18-24 | two ids and a numbered name letter by letter |
| NodeIds.PrintParses | utils/utils.go:23-33 | a printed number parses back, in every base from 2 to 16 |
| NodeIds.NamesDiffer | graphml/graphml.go:309-317 | numbered names with different numbers differ |
| GraphDocument.KeyIdentifierTellsBoth | graphml/graphml.go:768-771 | a key identifier tells name and target, whatever characters the name has |
| GraphDocument.IdentifierIsUnambiguous | graphml/graphml.go:763-766 | an edge identifier can be read as one pair of ends only, if and only if neither end holds the separator |
| GraphDocument.EdgeIdentifierTellsBoth | graphml/graphml.go:763-766 | two edges with one identifier have the same ends as soon as the source of the one, and its target or the source of the other, do not hold the separator |
| GraphDocument.EdgeIdentifierIsAmbiguous | graphml/graphml.go:763-766 | two different pairs of ends with one identifier |
| GraphDocument.EdgeTestIsExact | graphml/graphml.go:479-491 | the test of AddEdge is right for every graph and direction, so that an edge is refused exactly when it is there (or its reverse, where undirected), if and only if neither end holds the separator |
| GraphDocument.AnEdgeRefusedWrongly | graphml/graphml.go:479-491 | an edge between two nodes that nothing joins is refused because of another edge |
| GraphDocument.FirstUnusedIs | graphml/graphml.go:309-317 | the search for a fresh number ends within as many steps as there are names, at the least unused number from the count on |
| GraphDocument.GetKeyIs | graphml/graphml.go:374-383 | the key found has the name asked for and is for this element or for all |
| GraphDocument.OwnKeyFirst | graphml/graphml.go:374-383 | a key is found if and only if there is one of that name for this element or for all, and the element's own goes first |
| GraphDocument.GetKeyStays | graphml/graphml.go:280-307 | registering a key takes no name's key away |
| GraphDocument.RegisterKeepsKeys | graphml/graphml.go:280-307 | ids and identifiers of keys stay unique |
| GraphDocument.RegisterKeyIs | graphml/graphml.go:280-307 | a key is registered exactly when the element has none of that name, own or common, its type is known and the default fits it; it has a new id and what it was given |
| GraphDocument.WhatIsCreated | graphml/graphml.go:731-761 | exactly when a value can be stored, under which key, and which key is registered for it |
| GraphDocument.CreateAllIs | graphml/graphml.go:706-741 | creating attributes only adds keys, and each data element holds its value under the key of its name |
| GraphDocument.CreatedIsOk | graphml/graphml.go:706-741 | the data of a new element name registered keys for it or for all, each once |
| GraphDocument.PutDataSets | graphml/graphml.go:623-635 | setting an attribute sets that one and no other |
| GraphDocument.RemoveDataUnsets | graphml/graphml.go:582-591 | removing one removes that one and no other and keeps the order |
| GraphDocument.WithDataAtIs | graphml/graphml.go:593-620 | data put at one place of the document are there, and nothing else changes |
| GraphDocument.RemoveKeyCascades | graphml/graphml.go:332-370 | after removing a key no element anywhere names it, all other keys stay, and the document is as well formed as before |
| GraphDocument.RemoveKeyTakesNoMore | graphml/graphml.go:332-370 | removing a key takes exactly the key and its data out: other keys and the data of other keys stay in order everywhere, and so does all else |
| GraphDocument.AddGraphAdds | graphml/graphml.go:386-417 | a new graph has an id that no graph has and what it was given; when it is refused no graph changes |
| GraphDocument.AddNodeAdds | graphml/graphml.go:437-457 | a new node has its given id, or one that no node of the graph has |
| GraphDocument.AddEdgeAdds | graphml/graphml.go:478-518 | a new edge has an id that no edge of the graph has and joins the two nodes; it is added exactly when none is there and its attributes can be stored |
| GraphDocument.OperationKeepsGood | graphml/graphml.go:280-741 | every operation, failed or not, keeps keys unique and every data element pointing to a registered key of its element, at most once each |
| GraphDocument.OneMoreOperation | graphml/graphml.go:190-210 | operations take effect one after the other, each on what the last one left |
| GraphDocument.DocumentsAreGood | graphml/graphml.go:190-210 | so every document built from the empty one is well formed |
| GraphMl.GraphML.GetKey | graphml/graphml.go:374-383 | the two map lookups find what the list says |
| GraphMl.GraphML.NextKeyId | graphml/graphml.go:309-317 | the loop ends with the least unused id from the number of keys on |
| GraphMl.GraphML.RegisterKey | graphml/graphml.go:280-307 | list and maps grow together, or nothing changes |
| GraphMl.GraphML.RemoveKey | graphml/graphml.go:332-370 | list, maps and all elements lose the key, and both maps stay exact indexes |
| GraphMl.GraphML.AddGraph | graphml/graphml.go:386-417 | a graph with a fresh id, or a refusal without a direction |
| GraphMl.GraphML.AddNode | graphml/graphml.go:437-457 | a node under its given id or a fresh one |
| GraphMl.GraphML.AddEdge | graphml/graphml.go:478-518 | an edge unless one is there already, in an undirected case also the other way round |
| GraphMl.GraphML.SetAttributeAt | graphml/graphml.go:593-635 | the attribute of that name is set at that place, or the call fails exactly when the value cannot be stored |
| GraphMl.GraphML.CreateDataAttributes | graphml/graphml.go:706-727 | the loop over the names, keeping the keys it registered before a failure |
| GraphMl.RemoveAttributeFromData | graphml/graphml.go:582-591 | the loop removes the first element with the key |
| GraphMl.SetAttributeForData | graphml/graphml.go:628-634 | the loop replaces the element with the key or appends |
| GraphMl.NextId | graphml/graphml.go:419-434 | the nested search of nextGraphId and nextEdgeId ends with the least unused number from the count on, also after removals |
| GraphMl.NextEdgeId | graphml/graphml.go:520-535 | the first numbered name from the number of edges on that no edge has |
| GraphMl.NextNodeId | graphml/graphml.go:459-467 | the first numbered name from the number of nodes on that no node has, asked of the map |
| GraphMl.AttributesForData | graphml/graphml.go:658-695 | the two loops, failing exactly when a key is unknown or a text does not parse |
| AttributeValues.AttributesReadBack | graphml/graphml.go:658-695 | the attributes an element was created with can be read if and only if each of them can (a value the key does not take was stored as the word unsupported: lost under a string key, and the end of the whole element under any other) and each needed default parses; then each reads back in the kind of its key, and beside them there is exactly the first default of every other name |
| AttributeValues.NamesThatAreRead | graphml/graphml.go:658-695 | the names read are those of the attributes and those of the keys for this element or for all whose default is not empty or whose type is string |
| AttributeValues.EmptyTextIs | graphml/graphml.go:665-673 | a data element without a text is the empty string under a string key, else the default of its key, and fails without one |
| AttributeValues.RegisteredDefault | graphml/graphml.go:280-307 | the default a key was registered with reads as a value stored under it would |
| AttributeValues.DecimalReadsBack | graphml/graphml.go:834-841 | a printed number parses back with either sign if it fits in 64 bits |
| AttributeValues.ParseBoolIs | graphml/graphml.go:831-833 | exactly twelve words are booleans, and the first letter tells which |
| AttributeValues.SameTypeReadsBack | graphml/graphml.go:829-859 | a value of the type of its key reads back as itself |
| AttributeValues.DefaultsFill | graphml/graphml.go:681-693 | filling in defaults succeeds exactly when every needed one parses, and then gives exactly the missing names their first default |
| Floats.RoundedFits | graph/networkxml.go:131 | rounding to 53 or 24 binary digits gives a number of so many digits that is off by at most half a unit in the last place |
| Floats.TiesGoToEven | graph/networkxml.go:131 | half way between two numbers the even one is taken |
| Floats.StoredIs | graph/networkxml.go:131 | what is written are the most hundredths that the product with 100 reaches |
| Floats.HundredTimesIsExact | graph/networkxml.go:131 | a weight of 24 digits times 100 is exact in 53 digits |
| Floats.LoadedAgain | graph/networkxml.go:73-86 | a loaded weight of k hundredths comes back from saving and loading as it is exactly when rounding to 32 bits does not take k hundredths below their value, and else one hundredth smaller |
| Floats.LoadedFirst | graph/networkxml.go:131 | a discovered cost of k hundredths loses one of them on its first saving exactly when its product with 100 rounds below k |
| Floats.WeightGoesDown | graph/networkxml.go:73-131 | however often a network is saved and loaded, a weight goes down a hundredth each time until it is one that survives |
| Floats.WeightIsKept | graph/networkxml.go:73-131 | so a loaded weight keeps its value for ever if and only if it survives |
| Floats.FourHundredthsVanish | graph/networkxml.go:73-131 | 0.04 becomes 0 within four more turns |
| Floats.TwentyNineIsTwentyEight | graph/networkxml.go:131 | 0.29 is saved as 0.28 |
| NetworkXml.SaveLoadRoundTrip | graph/networkxml.go:16-146 | for every network and every order of its nodes and edges: saved and loaded it has the same nodes, tags, in-use flags and directed edges, each with the weight that Floats says is left of its own, if and only if all node ids lie from 1 to 2^31 - 1; otherwise loading or saving fails |
| NetworkXml.NoDuplicate | graph/networkxml.go:121-136 | no edge of such a network is refused as a duplicate of another |
| NetworkXml.NodeReads | graph/networkxml.go:31-56 | a written node reads back when its id can, and else does not read at all |
| NetworkXml.TagFromAttribute | graph/networkxml.go:44-46 | a tag kept as an attribute counts when the node has no description |
| NetworkXml.InUseAsWord | graph/networkxml.go:48-54 | a flag under a string key counts if it is a boolean word, and else the file does not load |
| NetworkXml.DoubleWeightReads | graph/networkxml.go:73-85 | a weight under a key of type double is not cut to 32 bits |
| NetworkXml.AnEdgeDescription | graph/networkxml.go:134 | the description of an edge names tag and id of its source and then of its target |
| NetworkXml.EdgeReads | graph/networkxml.go:58-88 | a written edge reads back with its two ends and what floating point leaves of its weight |
| NetworkXml.EdgeNeedsBothNodes | graph/networkxml.go:127-135 | an edge can be written exactly when both its ends have a node of their name |
| NetworkXml.WithKeysFit | graph/networkxml.go:97-102 | the keys of a saved network have the types that loading needs, and every default parses |
| NetworkStore.WriteGraph | graph/networkxml.go:94-136 | the loops over a network object build exactly the document of NetworkXml, keys, nodes, edges and descriptions, and fail when it does |
| NetworkStore.ReadGraph | graph/networkxml.go:16-92 | the loops over a document fill a network object exactly as NetworkXml says, and fail when it does |
| NetworkStore.NewNetworkFromFile | graph/network.go:216-230 | the local node is added, in use and tagged local, when the document does not have it |
| NetworkStore.SaveAndLoad | graph/network.go:184-230 | a network object comes back through its document, weights as Floats says, if and only if its ids fit |

## Left out

- The serial port, sockets, gin and gRPC handlers, generated protobuf, swagger, the user interface, configuration, logging and statistics: plumbing or display.
- The encode and decode tables of the single messages, and link ids in the REST layer: long, but easy.
- GetPath, FindBestProtocol and multipath frames: the search for a path is the graph library's, and its weight is always 0, so Discovery takes any in-use undiscovered node.
- Wall-clock time: a timeout is a step that may happen at any idle read.
- SerialConnection.SerialConnection.ReadFrame: what the handlers for log lines, connected path packets and association requests do with a frame is not part of it, nor are frames of no bytes, on which ReadFrame panics.
- SessionScheduler.FrameReleases: a reply is not shown to be of the type of its request, because the program does not ask for that when no subtype is wanted.
- SerialConnection: its methods run one goroutine's steps without interruption; the interleavings are those of SessionScheduler.
- DiscoveryProcedure.DiscoveryProcedure.Run: asks that no node reports itself, on which the graph library panics, and that no node is being asked: a procedure that ended in Error is never run again (rest/handler_discovery.go:55-61 makes a new one).
- Discovery: the sleep between requests; costs are reals here, rounded as in the program to hundredths, and Floats says what such a cost is as a floating point number.
- MeshNetwork.Network.ChangeEdgeWeight: weights are taken over as they are; the graph library's node and edge sets are maps.
- Firmware.FirmwareUploadProcedure.Run: asks for room on the flash for the whole sectors of the image below address 2^32 - 1, for honest check replies and for an erase that is done when answered as done, and bounds the number of lost replies, without which the run need not end. MD5 is taken as collision free.
- Firmware: requests that arrive late, after their reply was given up.
- Forwarding: the ack and the flush it causes are one step, so races between them and the socket are not modelled; sizes of more than one byte in the ESPHome protocol are not either, as in the program.
- Dispatch.ServerApi.HandleConnectedPathReply: takes all clients of a server for API clients; a server of update clients runs the same loop over OtaConnection.HandleReply. A client closes itself before or after such a loop, not while it is under way.
- MultiServer: removing servers when the mesh changes, statistics and unhandled replies.
- Connections: the wait for the reading goroutine in Close; the timeout of the handshake is a closing that may come at any time.
- NodeIds.NodeIdRoundTrip: strconv.ParseInt is modelled for texts without underscores, which a printed id never has.
- GraphDocument: graphs, nodes and edges are values at a place of the document, not objects of their own, and the maps of nodes and edges of a graph are read off its lists. NewGraphMLWithAttributes and Decode are left out.
- GraphDocument.CreateAllIs: a nil value for a name without a key, on which the program panics, counts as a failure.
- AttributeValues.AttributesReadBack: numbers are kept as numbers in texts, so their printing and parsing are taken as faithful.
- Floats: numbers too large or too small for their exponent, infinities and NaN.
- Floats.LoadedAgain: for weights of at most 10000, as are LoadedFirst, WeightGoesDown and WeightIsKept; a discovered cost is at most 1.
- NetworkStore.ReadGraph: a weight under a key of type string, which a saved network never has, counts as unreadable, since the printing and parsing of reals is not modelled.
- NetworkXml.SaveLoadRoundTrip: XML is taken as faithful; panics of the graph library on loading count as failures.
