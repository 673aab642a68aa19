# Connection keepalive, lag estimation and level pacing, modelled in Dafny

This project models four pieces of a networked top-down shooter built on the
Amethyst ECS:

- **The ping/pong latency window** of a network connection (`PingPongData`).
  It is a FIFO of at most 20 samples. `add_ping` records an outgoing ping,
  evicting the oldest sample when the window is full. `add_pong` resolves the
  sample with the pong's id: it records the frame of receipt and estimates the
  peer's frame as the reported frame plus half the round trip.
  `average_lagging_behind` is the integer mean, over resolved samples, of how
  far the peer's estimated frame trails the pong's local frame. When no sample
  is resolved it returns 0 while the window is less than half full, and
  `u64::MAX` after that.
- **The per-tick connection manager** (`NetConnectionManagerSystem::run`). For
  every connection it:
  - creates the connection record if the connection has none;
  - drains the connection's events, queueing every packet that decodes and
    counting the ones that are not pings;
  - sends a keepalive when more than one second has passed since the last ping;
  - marks the connection's entity for deletion when the batch held a
    disconnect.

  It also tallies the messages received and the connections that sent them.
- **The dependency-list helpers** the game crate uses to wire its systems:
  `optional_dependencies` and `dependencies_with_optional`.
- **The level system** (`LevelSystem::run`). While the game is being played, it
  raises the spawn level every 30 seconds. It queues one borderline ghoul each
  time the level's borderline interval passes, and one random spawn of
  `min(level, 255)` ghouls every second.

Each operation is a pure function or method over immutable values:

- Frame numbers are `u64` values (the `UInt.uint64` subset type).
- Clock readings are natural numbers of nanoseconds, passed in by the caller.
- Message decoding and the ping test are function parameters.
- The borderline interval is also a function parameter, from spawn level to
  milliseconds.

What is proved, beyond each operation's own contract:

- From a new window, the ping window is proved equal to the newest 20 pings
  sent, oldest first. The mean it reports is proved to lie between the
  smallest and the largest resolved lag.
- The event loop, written as a fold in the source's order, is proved equal to
  a definition that takes the whole batch at once: the decodable messages in
  order, the count of the non-ping ones, and whether any event is a
  disconnect.
- The whole tick is proved to give the inbound queue extended by every
  connection's messages in join order, and each record after its keepalive
  check. The deleted and pinged entities are proved to be exactly those whose
  connection saw a disconnect or had its keepalive due.
- Over any run of ticks with a clock that never goes backwards, the level
  system is proved to only append to the spawn queue, at most two actions per
  tick, and to raise the level by at most one per tick.

Ping ids are not required to be unique. `add_pong` resolves the first (oldest)
sample with the matching id, and so does the model (`Components.FindPing`).

## Model

| member | source | states |
|---|---|---|
| UInt.SaturatingSub | libs/core/src/ecs/components/mod.rs:184 | `u64::saturating_sub`: the difference when it is non-negative, zero otherwise, never more than the minuend |
| Components.NewPingPongData | libs/core/src/ecs/components/mod.rs:159-163 | a new window is empty and satisfies the window invariant |
| Components.NewNetConnectionModel | libs/core/src/ecs/components/mod.rs:141-151 | a new record keeps the id and reader, takes `now` as both its creation and last-ping time, has no acknowledged update, and starts with an empty valid window |
| Components.AddPing | libs/core/src/ecs/components/mod.rs:165-175 | a full window drops its oldest sample and stays at 20; otherwise it grows by one with the old samples as its prefix; the newest sample is the unanswered ping; the window invariant is preserved |
| Components.AddPingKeepsNewest | libs/core/src/ecs/components/mod.rs:165-175 | one ping leaves exactly the newest 20 of the old samples plus the new one |
| Components.AddPingsKeepsNewest | libs/core/src/ecs/components/mod.rs:26 | FIFO behaviour: from any window within the limit, a run of pings leaves the newest 20 of the old samples followed by the new pings, in order |
| Components.AddPingsValid | libs/core/src/ecs/components/mod.rs:154-175 | no run of pings breaks the window invariant |
| Components.WindowHoldsNewestPings | libs/core/src/ecs/components/mod.rs:159-175 | from a new window, the window is always the newest 20 pings sent, oldest first, and always valid |
| Components.NewestOfSnoc | libs/core/src/ecs/components/mod.rs:166-169 | keeping the newest n, then appending and keeping the newest n, equals appending first and keeping the newest n |
| Components.FindPing | libs/core/src/ecs/components/mod.rs:178-181 | the search returns the first sample with the id, or nothing exactly when no sample has it |
| Components.OneWayLatency | libs/core/src/ecs/components/mod.rs:184 | the latency is half the round trip rounded down, or zero when the pong frame is not later than the ping frame |
| Components.AddPong | libs/core/src/ecs/components/mod.rs:177-187 | an unmatched pong changes nothing; a matched one sets the pong frame and the half-round-trip estimate on the first matching sample only, keeps the window's length, and preserves the window invariant |
| Components.PingThenPong | libs/core/src/ecs/components/mod.rs:165-187 | a ping with a fresh id answered by a pong fits in `u64` and becomes the newest sample, resolved with the estimate; the surviving older samples are untouched |
| Components.NewPingMatchesAtBack | libs/core/src/ecs/components/mod.rs:169-181 | after a ping with a fresh id, the pong search finds the new sample at the back |
| Components.FindPingLast | libs/core/src/ecs/components/mod.rs:178-181 | when only the newest sample has the id, the search finds it |
| Components.PingPongExample | libs/core/src/ecs/components/mod.rs:165-187 | ping at frame 100, pong at frame 110 reporting peer frame 50: one resolved sample estimating 55 |
| Components.Lag | libs/core/src/ecs/components/mod.rs:196-201 | a resolved, well-formed sample lags by its pong frame minus its estimated peer frame, or by zero when the estimate is ahead |
| Components.LagSumOfPrefix | libs/core/src/ecs/components/mod.rs:193-205 | the lag sum of any prefix never exceeds the lag sum of the whole window |
| Components.FoldStep | libs/core/src/ecs/components/mod.rs:195-204 | one fold step adds one to the count and the sample's lag to the sum exactly when the sample is resolved |
| Components.FoldPongs | libs/core/src/ecs/components/mod.rs:193-205 | the fold yields the number of resolved samples and the exact sum of their lags |
| Components.AverageLaggingBehind | libs/core/src/ecs/components/mod.rs:189-215 | with nothing resolved, 0 below half the limit and `u64::MAX` from half on; otherwise the mean lag of the resolved samples |
| Components.MeanLagAtMostSum | libs/core/src/ecs/components/mod.rs:213 | the mean never exceeds the sum, so it fits in a `u64` |
| Components.LagSumBelow | libs/core/src/ecs/components/mod.rs:193-205 | when every resolved lag is at most a bound, the sum is at most count times that bound |
| Components.LagSumAbove | libs/core/src/ecs/components/mod.rs:193-205 | when every resolved lag is at least a bound, the sum is at least count times that bound |
| Components.MeanLagWithinRange | libs/core/src/ecs/components/mod.rs:212-214 | the reported mean lies between the smallest and the largest lag of the resolved samples |
| NetConnectionManager.RecordOf | libs/game/src/ecs/systems/net_connection_manager.rs:48-51 | the connection's existing record, or a new one carrying its id and new reader, created now with no acknowledged update and an empty window |
| NetConnectionManager.PingDue | libs/game/src/ecs/systems/net_connection_manager.rs:78-79 | a keepalive is due exactly when strictly more than the one-second interval has passed since the last ping |
| NetConnectionManager.DrainEvent | libs/game/src/ecs/systems/net_connection_manager.rs:56-75 | one event appends at most one message and counts at most what it appends; only a disconnect raises the flag, and only a packet can queue a message |
| NetConnectionManager.DrainEvents | libs/game/src/ecs/systems/net_connection_manager.rs:53-76 | the loop only appends to the queue, at most one message per event, counts at most what it appends, and never lowers the disconnect flag |
| NetConnectionManager.DecodedMessagesAppend | libs/game/src/ecs/systems/net_connection_manager.rs:55-76 | decoding two batches back to back yields the first batch's messages followed by the second's |
| NetConnectionManager.NonPingCountAppend | libs/game/src/ecs/systems/net_connection_manager.rs:61-64 | the non-ping count of concatenated messages is the sum of the parts' counts |
| NetConnectionManager.DrainEventsMeaning | libs/game/src/ecs/systems/net_connection_manager.rs:53-76 | the event loop queues exactly the decodable messages in order, counts exactly the non-ping ones, and raises the flag exactly when the batch holds a disconnect |
| NetConnectionManager.DrainEventMeaning | libs/game/src/ecs/systems/net_connection_manager.rs:56-75 | one event contributes its decoded message (if any), counts it unless it is a ping, and raises the flag only for a disconnect |
| NetConnectionManager.DecodedMessagesCons | libs/game/src/ecs/systems/net_connection_manager.rs:55-76 | a batch's messages are its first event's message followed by the rest's |
| NetConnectionManager.SawDisconnectCons | libs/game/src/ecs/systems/net_connection_manager.rs:71-73 | a batch holds a disconnect exactly when its first event is one or the rest holds one |
| NetConnectionManager.DrainEventsSplit | libs/game/src/ecs/systems/net_connection_manager.rs:55-76 | draining a batch in two pieces equals draining it at once |
| NetConnectionManager.InertEventIgnored | libs/game/src/ecs/systems/net_connection_manager.rs:66-74 | an undecodable packet, a `Connected` event or any other event, anywhere in a batch, changes nothing |
| NetConnectionManager.DisconnectOnlyFlags | libs/game/src/ecs/systems/net_connection_manager.rs:71-73 | a disconnect only raises the flag: the packets around it in the same batch are still queued and counted |
| NetConnectionManager.KeepaliveRecord | libs/game/src/ecs/systems/net_connection_manager.rs:48-83 | the record is the existing one or a new one; `last_pinged_at` moves to `now` exactly when more than a second has passed since the last ping; nothing else changes |
| NetConnectionManager.ConnectionStep | libs/game/src/ecs/systems/net_connection_manager.rs:46-96 | one connection's outcome: its decoded messages, its non-ping count, deletion exactly on a disconnect, a keepalive exactly when due (never for a new record), and the record otherwise unchanged |
| NetConnectionManager.ActiveCount | libs/game/src/ecs/systems/net_connection_manager.rs:92-95 | at most one connection is counted per connection joined |
| NetConnectionManager.DroppedEntitiesMeaning | libs/game/src/ecs/systems/net_connection_manager.rs:85-90 | an entity is dropped exactly when some connection of it saw a disconnect this tick |
| NetConnectionManager.PingedEntitiesMeaning | libs/game/src/ecs/systems/net_connection_manager.rs:78-83 | an entity is pinged exactly when some connection of it has its keepalive due |
| NetConnectionManager.KeptRecordsMeaning | libs/game/src/ecs/systems/net_connection_manager.rs:46-96 | there is one kept record per connection, in join order, each the connection's record after the keepalive check |
| NetConnectionManager.Absorb | libs/game/src/ecs/systems/net_connection_manager.rs:46-96 | one pass of the join adds the connection's decoded messages to the queue, its kept record, its entity to the deleted or pinged sets exactly on a disconnect or a due keepalive, its non-ping count to `count`, and one to `connection_count` exactly when that count is positive |
| NetConnectionManager.TickOver | libs/game/src/ecs/systems/net_connection_manager.rs:41-96 | over the join the queue only grows, there is one record per connection, and `connection_count` is bounded by both the number of connections and `count` |
| NetConnectionManager.TickOverIncoming | libs/game/src/ecs/systems/net_connection_manager.rs:46-96 | over the whole join, the inbound queue gains every connection's decoded messages, in join order |
| NetConnectionManager.TickOverRecords | libs/game/src/ecs/systems/net_connection_manager.rs:46-96 | over the whole join, the stored records are the kept records |
| NetConnectionManager.TickOverSets | libs/game/src/ecs/systems/net_connection_manager.rs:78-90 | over the whole join, the deleted and pinged entities are the reference sets |
| NetConnectionManager.TickOverCounters | libs/game/src/ecs/systems/net_connection_manager.rs:41-95 | `count` is the total of non-ping messages, and `connection_count` is the number of connections that sent at least one |
| NetConnectionManager.Run | libs/game/src/ecs/systems/net_connection_manager.rs:37-105 | a whole tick: the inbound queue extended by all decoded messages in join order, every record after the keepalive check, the dropped and pinged entities exactly as characterised, and both counters |
| NetConnectionManager.PingIndependentOfDisconnect | libs/game/src/ecs/systems/net_connection_manager.rs:78-90 | a connection that disconnects this tick is still pinged when its keepalive is due, and is deleted |
| NetConnectionManager.ActiveCountBelowTotal | libs/game/src/ecs/systems/net_connection_manager.rs:92-95 | `connection_count` never exceeds `count` |
| GameDependencies.OptionalDependencies | libs/game/src/lib.rs:85-91 | the given names when the condition holds, none otherwise |
| GameDependencies.DependenciesWithOptional | libs/game/src/lib.rs:93-101 | the mandatory names in order, then the optional ones under the condition; a name is present exactly when it is mandatory, or optional with the condition true |
| GameDependencies.DependenciesWithOptionalCases | libs/game/src/lib.rs:93-101 | with the condition false the result is the mandatory list; with it true, the mandatory list followed by the optional one |
| GameDependencies.DependenciesWithOptionalTwice | libs/game/src/lib.rs:93-101 | extending twice under one condition equals extending once by both optional lists |
| Level.LevelDue | src/systems/level.rs:42 | the level is due exactly when its start plus 30 seconds lies strictly before `now` |
| Level.BorderlineDue | src/systems/level.rs:47-53 | a borderline spawn is due exactly when the last one plus the level's interval lies strictly before `now` |
| Level.RandomDue | src/systems/level.rs:64-66 | a random spawn is due exactly when the last one plus one second lies strictly before `now` |
| Level.CountOf | src/systems/level.rs:55-74 | a type's count in a queue never exceeds the queue's length |
| Level.TickSpawns | src/systems/level.rs:53-75 | one tick appends one borderline ghoul exactly when its interval has passed, and one random spawn of `min(level, 255)` ghouls exactly when a second has passed, borderline first |
| Level.Run | src/systems/level.rs:31-76 | outside `Playing` nothing changes; otherwise the level rule and both spawn rules hold, each firing spawn restarts its timer, the queue only grows at the back by at most two, and the level never drops nor rises by more than one |
| Level.RunTicksBounds | src/systems/level.rs:31-76 | over any run of non-decreasing clock readings, the queue keeps its prefix and grows by at most two per tick, and the level rises by at most one per tick |
| Level.RunTicksIdleWhenNotPlaying | src/systems/level.rs:35-38 | outside `Playing`, any number of ticks leaves the level state and the queue as they were |

## Left out

- Message decoding (`bincode::deserialize`) and `is_ping_message` are function parameters. The wire format and the message types are not part of this model.
- The outgoing ping (`ping_message`, `connection.queue`) is modelled only as the set of entities that get a keepalive this tick. Serialising the `Ping` message is not modelled.
- The event channel and its reader cursor are not modelled. Each connection's input is the batch of events its reader yields this tick, and `register_reader` becomes a `newReader` handle supplied with the connection.
- The source reads `Instant::now()` several times per tick. The model takes one clock reading per tick (and one per `NetConnectionModel::new`), so the readings cannot differ within a tick.
- Entity deletion is recorded as the set of entities to delete. The actual removal happens later, in the ECS, which is not part of this model.
- The `expect` on the storage entry (wrong entity generation) and the one on `entities.delete` are not modelled. A joined entity is taken to be alive.
- Logging (`log::debug!`, `log::info!`, and the per-tick message summary) has no effect on state and is left out.
- The borderline interval's `f32` arithmetic (`atan`, `round`, the cast to `u64`) is an input: a function from spawn level to milliseconds. Floating point is not modelled.
- `GameTimeService::level_duration` is the `now` parameter of `Level.Run`.
- `GameEngineState` variants other than `Playing` are folded into `NotPlaying`, because the system only tests for `Playing`.
- The other systems and builders of the game crate (`build_game_logic_systems`), the server binary and the health UI are not part of this model.
- `last_acknowledged_update` is only initialised here. Its later uses belong to other systems.
- Components.AddPong: requires that the estimate `peer_frame_number + oneway_latency` fits in a `u64`, modelling the overflow panic of a debug build. A release build's wrap-around is not modelled.
- Components.AverageLaggingBehind: requires that the window be valid and that the lag sum fit in a `u64`. The first stands for the `expect` on the pong frame, which valid windows never trigger. The second models the debug-build overflow panic of the fold; a release build's wrap-around is not modelled.
- Components.FoldPongs: carries the same two requirements as `AverageLaggingBehind`, for the same reasons.
- Components.Lag: reads the pong frame of a resolved sample with a default of zero. Valid windows always have the frame, so the default is never used where the average reads it.
- Level.Run: requires, when playing, that no stored timestamp lie after `now`. This models the panic of `Duration` subtraction. The spawn level is unbounded, so `spawn_level += 1` never overflows here.
- Level.RunTicksBounds: considers only clock readings that never go backwards, because the level clock is monotonic.
- NetConnectionManager.KeepaliveRecord: takes the record of a connection that had none as one created from the connection's id, its new reader handle and `now`. The source builds it through `NetConnectionModel::new`.
