# Verification of the railway dispatch simulator

A Dafny model of the parts of the simulator that carry state: the framed transport between server and
clients, the trains and the track occupancy they cause, the dispatch exchange protocol with the ledger it
leaves, the traction of a consist, and the geometry and building of track layouts. Code that changes things
step by step is a class or a method with loops, proved against a specification function; what the code
promises is proved about those functions, for all inputs and all runs.

`dafny verify dfyconfig.toml` checks the project.

## What is modelled

**Transport.** `Words`, `Crc32` and `Frame` are the CRC-32 of appendix C.3 of RFC 1662 (table built as in its
appendix C.1) and the 16-byte frame header. The table-driven loop is proved to compute the remainder of a
polynomial long division; the decoder accepts exactly the encodings; a burst of damage within 32 bits is
never accepted, nor is anything behind it handled. `Session` is the receive loop over a buffer that is
shifted in place: it parses its input, in the one way there is, and how a stream is cut into reads makes no
difference, exactly under a condition on handlers that close the session. `Snapshot` carries a snapshot
through chunking, framing, arbitrary reads and reassembly. `EventBus` shows that the journal, which is
read back from fixed offsets of the frames, is what clients read from the same bytes.

**Trains.** `Topology` is the graph of sections and switches, `TrainSim` one train, `TrainFleet` the fleet with
the engine state and its two logs, `EngineLoop` the order of a tick, its snapshot and the changes it
publishes. `OccupancyRuns`, `ChangeLog` and `Journeys` prove what holds over whole runs of spawning, despawning, ticking and switch setting; `SpawnResolver` finds where
a train may be spawned. The driver and the physics are arbitrary: each train moves each tick as any `Motion` says.

**Dispatch.** `ExchangeManager` is the state machine of each directed pair of areas, `ExchangeRuns` its runs, and
`DispatchLedger` the coordinators and what they write.

**Traction, paths, layouts.** `Traction` is the traction policy that the source works out in two places.
`PathAttachment` is the arc-length walk along a polyline, in exact arithmetic. `Layout` is the validator and the
builder of the render model over the same infrastructure.

## Where the code and its documentation differ

The model follows the code.

- The default chunk of a snapshot is 65536 bytes and a frame carries 65535: exactly the snapshots of at most 65535
  bytes arrive (`Snapshot.DefaultChunkSizeDelivers`); one byte more is lost (`Snapshot.LongSnapshotIsLost`).
- A handler that closes the session does not stop the receive loop, which goes on handling the frames that are
  already in the buffer; this is the only way in which fragmentation shows (`Session.FragmentationIrrelevantIff`).
  Two copies of a closing frame show it (`Session.ClosingFrameTwice`).
- A train at the edge of the world is said to be removed cleanly; behind a switch it is lost instead, and stays in
  the fleet for good (`Journeys.EdgeLeavesIff`, `Journeys.LostTrainStays`, and an instance, `Journeys.LostBehindSwitch`).
- A tick does not ask whether the next section is free, so occupancy is exact only while it is
  (`OccupancyRuns.OccupancyExactIff`). Of two trains in a row the rear one may run into the section of the other
  (`OccupancyRuns.RearEnding`).
- S51 is said to be accepted even from the idle state; it is refused there. S76 from the idle state is accepted
  without an exchange id (`ExchangeRuns.FirstCalls`, `ExchangeRuns.AcceptedCarryTheirOpening`).
- A refused telegram is said to write nothing; it writes a row (`DispatchLedger.RefusedIsRecorded`). A telegram whose
  areas are no numbers advances its exchange and then leaves no trace (`DispatchLedger.UnreadableIsNotRecorded`).
- A vehicle with a traction force that is not traction capable pulls in the train and is missing from the total
  of its consist (`Traction.TractionAgreesIff`); a coach with a force is one (`Traction.CoachDisagrees`).
- A payload within 16 bytes of 2^32 makes the computed size of its frame wrap, and there is no frame
  (`Frame.EncodeFrame`); a longer one is cut to the low 32 bits of its length (`Frame.EncodePayload`).
- A track without length passes validation and cannot be built with a signal on it (`Layout.ValidBuildsIff`,
  `Layout.ValidButNotBuildable`).

## Model

| member | source | states |
|---|---|---|
| Crc32.BuildTable | server/src/frame.cpp:25-35 | entry i of the table is i shifted eight times by the reflected polynomial |
| Crc32.Crc32Update | server/src/frame.cpp:21-39 | the table-driven loop over part of a buffer equals the bit-at-a-time update of those bytes |
| Crc32.Crc32IsoHdlc | server/src/frame.cpp:43-46 | the one-shot checksum of a buffer, with the initial and final constants |
| Crc32.UpdateDivides | server/src/frame.cpp:21-39 | the register after any message is the remainder of long division, over GF(2), of the message and starting register by the generator polynomial |
| Crc32.UpdateConcat | server/src/frame.cpp:77-80 | chaining the CRC over two parts equals the CRC of their concatenation |
| Crc32.ShiftInjective | server/src/frame.cpp:30-31 | the bit step loses no information about the register |
| Crc32.UpdateInjectiveInRegister | server/src/frame.cpp:36-38 | for fixed bytes, different registers lead to different registers |
| Crc32.FeedAllInjectiveInBits | server/src/frame.cpp:27-33 | from one register, different strings of up to 32 bits lead to different registers |
| Crc32.UpdateInjectiveInFour | server/src/frame.cpp:36-38 | from one register, different words of four bytes lead to different registers |
| Crc32.BurstChangesUpdate | server/src/frame.cpp:21-39 | two messages that differ only within 32 consecutive bits, in transmission order and so across up to five bytes, never have the same CRC |
| Crc32.FourBytesAreBits | server/src/frame.cpp:21-39 | changes within four consecutive bytes are such changes |
| Crc32.GoodFcs | server/src/frame.cpp:11-46 | any message followed by its checksum leaves the register at 0xDEBB20E3, the good value of appendix C.3 of RFC 1662 |
| Crc32.CheckValue | server/src/frame.cpp:11-46 | the checksum of the digits 1 to 9 is 0xCBF43926, the check value of this CRC |
| Frame.EncodeFrame | server/src/frame.cpp:51-89 | writes the header, the CRC and the payload of the frame, in place; no frame exactly when its 32-bit size wraps |
| Frame.EncodePayload | server/include/server/frame.hpp:77-82 | the frame of a whole payload, or of as many bytes as the low 32 bits of its length say |
| Frame.DecodeFrame | server/src/frame.cpp:93-159 | the verdict on the first bytes of a buffer, with its checks in their order |
| Frame.HeaderOnTheWire | server/src/frame.cpp:56-86 | every byte of the header and what it means, in numbers, least significant byte first |
| Frame.VerdictsByHeader | server/src/frame.cpp:97-128 | bad magic, bad length and need for more data exactly when the first sixteen bytes and the count of bytes say so |
| Frame.DecodeWire | server/src/frame.cpp:51-159 | decoding undoes encoding, whatever bytes follow, and consumes exactly 16 + length; an oversized frame is refused for its length |
| Frame.DecodeAcceptsExactly | server/src/frame.cpp:93-159 | Ok with a frame and a length exactly when the data begins with the encoding of that frame |
| Frame.VerdictStable | server/src/frame.cpp:93-159 | a verdict other than needing more data does not change with further bytes |
| Frame.PrefixNeedsMore | server/src/frame.cpp:97-128 | every strict prefix of an encoding needs more data |
| Frame.NeedMoreBound | server/src/frame.cpp:97-128 | needing more data means that fewer bytes are there than the largest frame has |
| Frame.BurstNeverDecodes | server/src/frame.cpp:130-145 | any change within 32 consecutive bits, which leaves the length field alone, is refused for its magic or its CRC, whatever bytes follow |
| Session.ClientSession.ProcessBuffer | server/src/transport_gateway.cpp:67-89 | the loop over the buffer, shifted in place, handles what the specification handles and leaves what it leaves |
| Session.ClientSession.OnRead | server/src/transport_gateway.cpp:54-65 | one read appends and processes; afterwards an open session never has a full buffer |
| Session.ClientSession.Serve | server/src/transport_gateway.cpp:46-65 | a series of reads that fit leaves the session as the specification of all reads says |
| Session.ProcessParses | server/src/transport_gateway.cpp:67-89 | from any state the frames newly handled and the bytes left over are what the pending bytes consist of; the rest is the beginning of a frame or, exactly if the session failed, an error; and when the session is closed |
| Session.ParsedUniquely | server/src/transport_gateway.cpp:67-89 | bytes can be parsed into frames and a rest in one way only |
| Session.DamageStopsTheSession | server/src/transport_gateway.cpp:75-88 | of frames back to back, one of them with a burst of up to 32 bits that spares its length, exactly those before it are handled, and the session fails |
| Session.DamageInAnyPieces | server/src/transport_gateway.cpp:54-89 | the same in whatever pieces the bytes arrive |
| Session.ProcessInstalments | server/src/transport_gateway.cpp:67-89 | processing what is there and then the rest equals processing all at once |
| Session.ReadsAgree | server/src/transport_gateway.cpp:54-89 | any reads of a quiet stream have the outcome of decoding the whole stream |
| Session.SinglesMiss | server/src/transport_gateway.cpp:63-82 | byte by byte, a stream that is not quiet has another outcome than in one piece |
| Session.FragmentationIrrelevantIff | server/src/transport_gateway.cpp:54-89 | every way of cutting a stream into reads gives the same frames and verdict, exactly when no closing frame is followed by bytes that already have a verdict |
| Session.ClosingFrameTwice | server/src/transport_gateway.cpp:67-89 | two copies of a frame that closes the session are a stream that is not quiet |
| Session.QuietWithoutClosing | server/src/transport_gateway.cpp:67-89 | handlers that never close leave every stream quiet, well formed or not |
| Snapshot.Chunk | engine/src/snapshot_service.cpp:234-251 | the loop cuts the binary into pieces of the chunk size; one empty piece for an empty binary or a chunk size of zero |
| Snapshot.PiecesJoin | engine/src/snapshot_service.cpp:243-250 | the pieces joined give the binary back |
| Snapshot.PiecesSized | engine/src/snapshot_service.cpp:243-250 | every piece but the last has the chunk size, and the last is not empty |
| Snapshot.SnapshotFramesAre | server/src/transport_gateway.cpp:164-169 | type 0x31, the chunk, flag 1 on the last alone, sequence ids without a gap |
| Snapshot.Sender.SendSnapshot | server/src/transport_gateway.cpp:155-170 | one frame a chunk, consecutive sequence ids, the last one flagged |
| Snapshot.ReceiveWires | server/src/transport_gateway.cpp:67-89 | the receive loop handles back to back frames one for one, up to the first oversized one |
| Snapshot.SnapshotDeliveredIff | server/src/transport_gateway.cpp:161-169 | chunking, framing, any reads and reassembly give the snapshot back exactly when it is empty, or the chunk size is positive and the chunks fit in frames |
| Snapshot.DefaultChunkSizeDelivers | engine/include/engine/core/snapshot_service.hpp:23 | with the default chunk size exactly the snapshots of at most 65535 bytes arrive |
| Snapshot.LongSnapshotIsLost | engine/include/engine/core/snapshot_service.hpp:23 | a snapshot of 65536 zeros does not arrive with the default chunk size |
| EventBus.DispatchBus.BuildEventPrefix | server/src/dispatch_bus.cpp:105-113 | the 13 bytes before the body of an event |
| EventBus.DispatchBus.MakeEventFrame | server/src/dispatch_bus.cpp:115-279 | the frame of a change; every change uses up an event id, only a framed one a sequence id |
| EventBus.DispatchBus.OnStateChanges | server/src/dispatch_bus.cpp:281-307 | the bytes broadcast and the journal rows, read back from those bytes, for a whole list of changes |
| EventBus.FrameReadBack | server/src/dispatch_bus.cpp:292-304 | reading a frame at the fixed offsets 16, 17, 21 and 29 gives back its event |
| EventBus.EventOnTheWire | server/src/dispatch_bus.cpp:105-113 | type, id, time and body of an event at their places in the frame |
| EventBus.RowsAreNumbered | server/src/dispatch_bus.cpp:118-118 | each row tells of one change with a type and a body, in order; its event id is the number of that change counted from the first id, framed or not, modulo 2^32 |
| EventBus.FramesAreNumbered | server/src/dispatch_bus.cpp:275-276 | the frames on the wire are domain events with sequence ids without a gap |
| EventBus.BroadcastIsJournal | server/src/dispatch_bus.cpp:281-307 | the events in the payloads broadcast are those of the journal, one for one and in order, if no body is empty |
| EventBus.ClientsReadTheJournalIff | server/src/dispatch_bus.cpp:281-307 | in whatever pieces the broadcast arrives, a client reads exactly the journal, if and only if no event is too long for a frame |
| Topology.AheadIsOtherEnd | engine/src/train_fleet.cpp:19-22 | a train runs towards the end that it did not come in by |
| Topology.WithoutSwitchAhead | engine/src/train_fleet.cpp:141-147 | next section, dead end or edge, each exactly when the neighbour ahead says so |
| Topology.ThroughSwitchAhead | engine/src/train_fleet.cpp:150-184 | whether there is a way through a switch, where it leads and whether it is trailed, by the fields alone, in all four positions; none while it moves |
| Topology.StepStaysLocated | engine/src/train_fleet.cpp:134-190 | after a crossing a train came from a neighbour of its new section, and ahead is the other one |
| Topology.StepReversibleIff | engine/src/train_fleet.cpp:134-190 | turning round after a step and stepping again leads back exactly when the step entered no switch by a leg set against it |
| Topology.TrailedIff | engine/src/train_fleet.cpp:166-176 | with the switches at rest, a leg is set against a train exactly when the train is reported to trail the switch |
| Topology.PathReversible | engine/src/train_fleet.cpp:134-190 | following n steps without trailing, turning round and following n steps leads back to the start |
| Topology.PathInjective | engine/src/train_fleet.cpp:134-190 | two such paths of one length to the same place from the same side have one start |
| TrainSim.TrainSim.Tick | engine/src/train_sim.cpp:73-115 | crossing with overshoot, stop at a dead end, or neither, for any motion |
| TrainSim.TickCases | engine/src/train_sim.cpp:89-114 | when a train crosses, what it overshoots, and how it stands at a dead end |
| TrainFleet.EngineState.ApplyTrackSectionOccupancy | engine/src/engine_state.cpp:158-165 | sets occupancy and counter of a known section and nothing else |
| TrainFleet.TrainFleet.Spawn | engine/src/train_fleet.cpp:49-79 | adds the train, occupies its section and logs both, or refuses and changes nothing |
| TrainFleet.TrainFleet.Despawn | engine/src/train_fleet.cpp:81-111 | removes the first train of that uid, frees its section if known, or refuses |
| TrainFleet.SpawnLetsInIff | engine/src/train_fleet.cpp:53-64 | a train is let in exactly if its section is known and free; what changes then, and nothing else |
| TrainFleet.DespawnTakesOut | engine/src/train_fleet.cpp:85-110 | the first train of the uid goes, if there is one; what changes then, and nothing else |
| TrainFleet.SameNumberIff | engine/src/train_fleet.cpp:38-45 | two trains are shown by one number exactly if their uids agree in the low 16 bits |
| TrainFleet.TrainFleet.TickEntry | engine/src/train_fleet.cpp:214-336 | one train's part of a tick: leaving at the edge, trailing damage, crossing, and both logs |
| TrainFleet.TrainFleet.TickAll | engine/src/train_fleet.cpp:206-347 | the trains move in order, each seeing the track the earlier ones left; those that left at the edge are removed at the end |
| OccupancyRuns.SoleOccupant | engine/src/train_fleet.cpp:283-289 | in an exact state the section of a live train is occupied, counts its axles and holds no other train |
| OccupancyRuns.TickExactIff | engine/src/train_fleet.cpp:214-341 | a tick keeps occupancy exact exactly when each crossing in it enters a section that is free at that moment; later crossings cannot repair an earlier one |
| OccupancyRuns.SpawnKeepsExact | engine/src/train_fleet.cpp:49-79 | spawning keeps occupancy exact |
| OccupancyRuns.DespawnKeepsExact | engine/src/train_fleet.cpp:81-111 | despawning keeps occupancy exact |
| OccupancyRuns.OccupancyExactIff | engine/src/train_fleet.cpp:49-341 | in every run from an empty fleet on free track, every reachable state has each section occupied exactly when one live train is on it, with that train's axles, if and only if every crossing enters a free section |
| OccupancyRuns.RearEnding | engine/src/train_fleet.cpp:266-289 | two trains are spawned in a row and the rear one comes to the end of its section: this run from rest is not clear |
| ChangeLog.RunReplays | engine/src/train_fleet.cpp:246-303 | replaying the changes a run reported, in order, on the old track gives the new track |
| ChangeLog.RunPips | engine/src/train_fleet.cpp:304-329 | the PIP events of a run are its change list restricted to known sections, with their stations |
| ChangeLog.PipTableTruthful | server/src/pip_writer.cpp:21-46 | after a run whose crossings are clear the PIP table shows on every section the trains that are on it |
| ChangeLog.PipTableAgrees | server/src/pip_writer.cpp:21-46 | after any run the PIP row of each touched section agrees with the engine about occupancy |
| ChangeLog.PipWriter.OnPipEvents | server/src/pip_writer.cpp:21-46 | one upsert an event, in order, with the train if the section is taken |
| EngineLoop.EngineLoop.DoTick | engine/src/engine_loop.cpp:83-176 | state, tick number, snapshot, published changes and PIP rows of a tick are those of a run of the switch settings, the fleet commands and then the trains |
| EngineLoop.PublishedLeadsOn | engine/src/engine_loop.cpp:157-175 | replaying what a tick publishes on the track before it gives the track of its snapshot |
| EngineLoop.TickInOrder | engine/src/engine_loop.cpp:112-152 | the commands find the switches set, and the trains find the commands done |
| EngineLoop.SettingsTakeEffect | engine/src/engine_loop.cpp:112-119 | after a tick every switch is as its last setting says or as it was, and replaying the published settings on the old switches gives those of the snapshot |
| EngineLoop.SnapshotShowsTrains | engine/src/train_fleet.cpp:113-130 | every train in order, with its section, its axles and its speed in kilometres per hour |
| EngineLoop.RunConcat | engine/src/engine_loop.cpp:121-152 | a run in two parts is one run, and its logs are those of the parts in order |
| Journeys.TickIsOneStep | engine/src/train_fleet.cpp:229-239 | in a tick a train stays or makes exactly one step of the topology, however far it overshoots |
| Journeys.RunUnderWay | engine/src/train_fleet.cpp:331-334 | in every run of trains spawned at a side of their section, each came from a neighbour of its section and has the other ahead: no U-turn, whatever the switches do |
| Journeys.LeavesExactlyAtEdge | engine/src/train_fleet.cpp:246-264 | a train leaves in a tick exactly if the edge is next to its section and it comes within a millimetre of the end; its section is then free, and the PIP events say so only then |
| Journeys.DamageReportedIff | engine/src/train_fleet.cpp:267-281 | damage is reported exactly if the train crosses a switch by a leg that is not the set one |
| Journeys.HeldUntilSet | engine/src/train_fleet.cpp:152-154 | in every run a train with a moving switch ahead stays where it is until that switch is set or the train despawned |
| Journeys.RunLeavesAtEdge | engine/src/train_fleet.cpp:246-264 | a train that leaves a run without being despawned did so that near the end of a section next to the edge |
| Journeys.EdgeLeavesIff | engine/src/train_fleet.cpp:178-189 | where the track ends ahead, a train at the end of its section leaves exactly when the end is next to the section; behind a switch it is lost |
| Journeys.LostTrainStays | engine/src/train_fleet.cpp:219-220 | a lost train stays in the fleet, unchanged, until it is despawned |
| Journeys.LostBehindSwitch | engine/src/train_fleet.cpp:178-189 | a train that comes to a switch whose leg leads to a boundary is lost |
| Journeys.DistanceConserved | engine/src/train_sim.cpp:84-114 | lengths left, position and what dead ends took away add up to the start and all distance the integrator added |
| Journeys.RunFollowsJourneys | engine/src/train_fleet.cpp:206-341 | in every run, a train still there at the end is where its journey through the moments of the run took it; any other left at the edge or was despawned |
| Journeys.RunConservesDistance | engine/src/train_fleet.cpp:206-341 | distance is conserved for every train that a run ends with, whatever the other trains did |
| SpawnResolver.ResolveSpawnAtBoundary | engine/src/spawn_resolver.cpp:26-52 | the one free section at the boundary, or the reason there is none |
| SpawnResolver.ExplanationUnique | engine/src/spawn_resolver.cpp:26-52 | the track determines the resolution |
| SpawnResolver.ResolvedIff | engine/src/spawn_resolver.cpp:29-51 | each answer exactly by the sections that have an end at the boundary |
| SpawnResolver.ResolvedSpawn | engine/src/spawn_resolver.cpp:51-51 | a train spawned where the resolver says is accepted and faces away from a neighbour of its section |
| ExchangeManager.ExchangeIdInjective | server/src/dispatch_exchange_manager.cpp:25-28 | different numbers give different ids, also beyond seven digits |
| ExchangeManager.ExchangeIdShape | server/src/dispatch_exchange_manager.cpp:25-28 | "exch-" and the digits of the number, at least seven of them, with zeros in front only up to seven |
| ExchangeManager.DispatchExchangeManager.SubmitTelegram | server/src/dispatch_exchange_manager.cpp:36-138 | new state and answer are those the table of allowed moves decides, for every form, direction and status |
| ExchangeManager.DispatchExchangeManager.Status | server/src/dispatch_exchange_manager.cpp:140-149 | the status of a pair, idle if it was never used |
| ExchangeManager.DispatchExchangeManager.Close | server/src/dispatch_exchange_manager.cpp:151-161 | an arrived exchange becomes closed, any other stays |
| ExchangeRuns.StepFlow | server/src/dispatch_exchange_manager.cpp:56-161 | one call keeps the balance of each stage of the exchange |
| ExchangeRuns.ExchangesBalance | server/src/dispatch_exchange_manager.cpp:56-161 | in every run, for each pair: openings = clearances + cancellations + one if now announced; clearances = departures + one if now cleared; departures = arrivals + one if now under way; arrivals = closings + one if now arrived |
| ExchangeRuns.OneExchangeAtATime | server/src/dispatch_exchange_manager.cpp:59-75 | openings exceed cancellations and closings by one exactly while an exchange is active |
| ExchangeRuns.Moves | server/src/dispatch_exchange_manager.cpp:58-107 | each main form is accepted from its status and leads to the next one; a request gets a new id |
| ExchangeRuns.PassageSucceeds | server/src/dispatch_exchange_manager.cpp:58-161 | from every state without an active exchange, also after a closed or cancelled one, request, reply, departure, arrival and close all take effect and lead to closed |
| ExchangeRuns.WithdrawalSucceeds | server/src/dispatch_exchange_manager.cpp:58-107 | and so do request and cancellation, which lead to cancelled |
| ExchangeRuns.PassagesSucceed | server/src/dispatch_exchange_manager.cpp:58-161 | n such passages make n openings, clearances, departures, arrivals and closings |
| ExchangeRuns.RefusedAsDuplicateIff | server/src/dispatch_exchange_manager.cpp:69-86 | a refusal is for a duplicate exactly if the request or the reply was given already and nothing has followed it |
| ExchangeRuns.NotedIff | server/src/dispatch_exchange_manager.cpp:112-135 | when S51, S52 and S76 are accepted; they leave the status as it is |
| ExchangeRuns.AcceptedAnswer | server/src/dispatch_exchange_manager.cpp:50-54 | an accepted telegram is confirmed, with the status, the id and the train of its exchange |
| ExchangeRuns.PairsDoNotInterfere | server/src/dispatch_exchange_manager.cpp:43-44 | the answers and the status of a pair in any interleaved run are those of running its calls alone, the ids aside |
| ExchangeRuns.IdsGiven | server/src/dispatch_exchange_manager.cpp:65-66 | at any point the id on a pair is the one its latest opening was given |
| ExchangeRuns.AcceptedCarryTheirOpening | server/src/dispatch_exchange_manager.cpp:50-54 | an accepted telegram carries the id of the latest opening on its pair; only an S76 before any opening carries none |
| ExchangeRuns.OpeningsDistinct | server/src/dispatch_exchange_manager.cpp:25-28 | no two openings of a run are given one id, until 2^64 |
| ExchangeRuns.SameIdIff | server/src/dispatch_exchange_manager.cpp:36-138 | two accepted telegrams of any pairs carry one id exactly when one call opened the exchange of both |
| ExchangeRuns.FirstCalls | server/src/dispatch_exchange_manager.cpp:109-135 | as first call of a pair an S76 is accepted with no id, and an S51 or S52 is refused |
| ExchangeRuns.FirstCallsOfARun | server/src/dispatch_exchange_manager.cpp:109-135 | so the first S76 of a run is accepted with no id, and a first S51 is refused |
| DispatchLedger.EdrCoordinator.OnTelegramAccepted | server/src/edr_coordinator.cpp:13-40 | a departure or arrival at the station the form was sent from, or an exception if that is no number |
| DispatchLedger.DispatchCoordinator.HandleDispatchForm | server/src/dispatch_coordinator.cpp:48-87 | the exchange advances in any case; rows, register times and the answer, or the exception, as they follow |
| DispatchLedger.DispatchCoordinator.HandleFreeText | server/src/dispatch_coordinator.cpp:89-105 | one row and no exchange, or an exception |
| DispatchLedger.AcceptedDirection | server/src/dispatch_exchange_manager.cpp:78-107 | only sent departures, and received clearances and arrivals, are ever accepted |
| DispatchLedger.RegisterFollowsTelegrams | server/src/dispatch_coordinator.cpp:70-84 | in every run the register's clearances, departures and arrivals are exactly those of the accepted rows, in order |
| DispatchLedger.RowOfMessage | server/src/dispatch_coordinator.cpp:58-71 | in every run a message that can be read leaves one row, which stays: areas, form, direction, train, acceptance, id of its exchange |
| DispatchLedger.AcceptedRowCarriesOpening | server/src/dispatch_coordinator.cpp:60-60 | the row of an accepted telegram carries the id of the latest opening on its pair |
| DispatchLedger.RegisterConserved | server/src/dispatch_coordinator.cpp:76-84 | over all pairs together, clearances exceed departures by the pairs now cleared, and departures exceed arrivals by the pairs now under way |
| DispatchLedger.EveryRun | server/src/dispatch_coordinator.cpp:54-86 | both hold in every run from the start, with refusals, exceptions, free text and closings anywhere |
| DispatchLedger.RefusedIsRecorded | server/src/dispatch_coordinator.cpp:70-74 | a refused telegram adds one row, marked as refused, and nothing to the register |
| DispatchLedger.FirstDepartureIsRecorded | server/src/dispatch_coordinator.cpp:70-74 | a departure sent before anything else leaves one row and no departure |
| DispatchLedger.UnreadableIsNotRecorded | server/src/dispatch_coordinator.cpp:54-62 | a request between areas that are no numbers opens an exchange and writes nothing |
| Traction.FleetRegistry.LoadConsist | engine/src/fleet_registry.cpp:584-691 | the traction totals are the sums over the vehicles that pull; length, axles and mass are sums, speed and braking as below; refused for an unknown vehicle or none |
| Traction.SlowestVehicle | engine/src/fleet_registry.cpp:615-682 | the speed of a consist is the least of its vehicles, and that of one of them |
| Traction.LambdaBetween | engine/src/fleet_registry.cpp:633-691 | the braking percentage lies between any bounds of those of the vehicles |
| Traction.LambdaIsMean | engine/src/fleet_registry.cpp:684-691 | it is their mean by mass, and zero without a mass |
| Traction.SummedTogether | engine/src/fleet_registry.cpp:612-634 | two halves of a consist add up in length, axles, mass and braking, and the slower one decides |
| Traction.TractionContributions | engine/src/train_sim.cpp:117-191 | each vehicle's contribution, filled in by index, is its force if it pulls and nothing otherwise |
| Traction.PulledSplits | engine/src/fleet_registry.cpp:629-664 | the sum over the vehicles that pull is that of units other than locomotives, and all coupled locomotives or the first |
| Traction.LocomotivePullsIff | engine/src/fleet_registry.cpp:639-664 | a working locomotive pulls exactly if it is the first one, or all are of one type that is known to allow coupling |
| Traction.OthersPullIff | engine/src/train_sim.cpp:25-37 | any other vehicle pulls exactly if it is a unit of that loop and not defective |
| Traction.DefectiveGivesNothing | engine/src/train_sim.cpp:35-36 | a defective vehicle contributes nothing in either way |
| Traction.OneLocomotive | engine/src/fleet_registry.cpp:637-649 | a consist with one working locomotive and no other unit has exactly its force and power |
| Traction.LocomotiveInAnyCase | engine/src/train_sim.cpp:20-23 | the type of a locomotive may be written in any case |
| Traction.SameLocomotives | engine/src/train_sim.cpp:25-37 | for loaded vehicles both loops find the same working locomotives |
| Traction.TractionAgreesIff | engine/src/train_sim.cpp:131-191 | the contributions exceed the registry's total by the force of vehicles that are not capable, so the two agree exactly when that adds up to nothing |
| Traction.UncountedIff | engine/src/train_sim.cpp:27-29 | without negative forces that is exactly when no such vehicle has a force |
| Traction.CoachDisagrees | engine/src/fleet_registry.cpp:489-512 | loading accepts a coach with a force, of which the train has the force and the registry nothing |
| PathAttachment.Resolve | libtrackview/src/path_attachment_resolver.cpp:11-55 | the three errors exactly when they apply; otherwise a point on the first segment that reaches fraction times total, so the last exit is never reached |
| PathAttachment.Walk | libtrackview/src/path_attachment_resolver.cpp:36-54 | the walk always arrives, and the clamp changes nothing, with segments of no length anywhere |
| PathAttachment.PointOfAttachment | libtrackview/src/path_attachment_resolver.cpp:33-50 | the foot of the point is as far from the ends of its segment as the arc length tells, from the one end of the path or the other; the point is off it at a right angle by the lateral, to the left if positive |
| PathAttachment.OnFirstSegment | libtrackview/src/path_attachment_resolver.cpp:37-42 | at a vertex the point belongs to the segment in front |
| PathAttachment.ResolvesUniquely | libtrackview/src/path_attachment_resolver.cpp:37-50 | the specification leaves one point only |
| PathAttachment.OnSamePoint | libtrackview/src/path_attachment_resolver.cpp:39-42 | the places on two segments with one arc length are one point |
| PathAttachment.ReversedSamePointIff | libtrackview/src/path_attachment_resolver.cpp:33-50 | reversing the path and attaching from the other side with the opposite lateral gives the same point exactly when there is no lateral or all segments that the arc length falls on run in one direction |
| Layout.Validate | libtrackview/src/layout_validator.cpp:26-118 | the list of diagnostics, rule by rule and in order, empty exactly on sound layouts |
| Layout.SilentIffSound | libtrackview/src/layout_validator.cpp:35-117 | no diagnostics exactly when header, elements, labels are sound, ids do not repeat and every signal has the geometry of a track it governs |
| Layout.ReportedIff | libtrackview/src/layout_validator.cpp:35-117 | a diagnostic, with its rule and id, is in the list exactly if an element, a label or the header breaks that rule |
| Layout.ValidBuildsIff | libtrackview/src/render_model_builder.cpp:10-61 | a layout without diagnostics builds exactly when no signal is attached to a track of no length |
| Layout.ValidButNotBuildable | libtrackview/src/layout_validator.cpp:53-68 | a layout with a track of no length passes validation and cannot be built |
| Layout.RenderModelBuilder.Build | libtrackview/src/render_model_builder.cpp:10-64 | succeeds exactly if every element can be built, with one item for each element, in order within each kind, signals at the point of their attachment |
| Layout.PathOfMember | libtrackview/src/render_model_builder.cpp:17-20 | the path looked up for a track is that of one of its geometries, and is found if there is one |
| Layout.PathOfFirst | libtrackview/src/render_model_builder.cpp:17-20 | it is that of the first such geometry |

## Left out

- Sockets, threads, posting to the I/O thread, timers and shutdown: a read is a byte sequence and a send is appended to a log.
- The handlers behind the receive loop (handshake, commands, heartbeat, dispatch channel): handling a frame appends it to a log, and any of them may close the session.
- FlatBuffers: a body is an opaque byte sequence. Which kinds of change have an event type is part of the change.
- Frames of the session itself between those of the dispatch bus: `EventBus` is about a client that receives the broadcast.
- Calls to the bus from several threads at a time: its two counters advance as if each call ran alone.
- Snapshot.Sender.SendFrame: requires a payload for which the computed size does not wrap, as the source then writes past its buffer.
- EventBus.DispatchBus.MakeEventFrame: requires bodies that a frame of 32-bit size can hold.
- Frame.BurstNeverDecodes: leaves the length field alone, since a changed length moves the end of the covered bytes; and the 32 bits do not reach across the end of the header, since the CRC field lies between the bytes it covers.
- The physics, the driver and signal aspects: a train moves each tick in any way at all, which covers them.
- Floating-point rounding: lengths, positions and forces are reals.
- EngineLoop.EngineLoop.DoTick: of what the control system does in a tick it has the switches only; signals, routes, alarms and refusals of commands are not modelled, and so not in the snapshot.
- Trailing damage: emitted, but the fleet does not apply it, as in the source.
- Adding trains without occupancy, operator resets of axle counters: they go round the bookkeeping of the fleet.
- Topology.StepReversibleIff: assumes a topology whose neighbours refer to each other and whose switch legs reach sections; what happens behind other switches is `Journeys.EdgeLeavesIff`.
- The station and order of the PIP event at the edge of the world: `ChangeLog.RunPips` sets its boundary mark aside.
- The reading of area names as numbers: any function from names to numbers or none; so the places where the library call throws are kept, its syntax is not.
- DispatchLedger.RegisterConserved: counts the pairs whose areas can be read, since for others nothing is written.
- ExchangeRuns.SameIdIff: for runs shorter than 2^64 calls; then the counter has gone round. The wrap itself is in the model.
- The dispatch channel around the coordinator: its reading of an exchange id as a number always fails, and is ignored there.
- Session ids, the PostgreSQL writer, EDR journal entries, chat, timetables and the other writer methods that only append.
- JSON and folder checks of the registry: each is settled by one branch.
- PathAttachment.Resolve: paths with finite coordinates; what floating-point infinities give on other paths is a parameter of the layout builder. The length of a step is a parameter known by its square.
- The layout reader, rendering, audio, tools, the scenario validators of layers 1 to 3, ownership, operator and ML8 flags: one branch each, or input and output.
