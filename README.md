# Game session hub — a Dafny model

This project models the core of a small WebSocket game-session hub written in
Go (`main.go`). A `GameServer` keeps a map from player id to `Player`. It
admits connections up to a configured maximum and removes players again,
closing their connections. It can write a frame to every registered player or
an envelope to one player. It runs one read loop per connection. Each frame
that loop reads is decoded as a JSON envelope `{type, player_id, payload,
timestamp}` and routed by its tag. A `CHAT_MESSAGE` frame is relayed
byte-for-byte to every registered player. Other tags are accepted without a
write. A frame that does not decode is reported as an error and the loop goes
on. The first read error ends the loop, and the deferred unregistration then
removes the player.

The project has five modules:

- `Wrappers` (`wrappers.dfy`) holds `Option`, `Result` and `Outcome`, the shapes
  of Go's `(value, error)` and `error` returns.
- `Protocol` (`protocol.dfy`) holds the byte type and the message-type tags. It
  also holds the envelope `StructuredMessage`, the error values with their texts
  (`Error.Text`: main.go:80, 126, 139, 148, 192),
  and `React`, the routing switch of `processMessage`, as a pure function of the
  decoder's verdict.
- `Registry` (`registry.dfy`) is the player map as values. It covers admission
  (`Admit`, main.go:79-90) and removal (`Remove`, main.go:98-102), and any
  sequence of the two (`Apply`). It also defines `Enumerates`, the order in
  which a `range` loop visits the map: every id exactly once, in some order.
- `Session` (`session.dfy`) describes the read loop as values. A connection
  yields a sequence of read outcomes. `Handled` is how many frames the loop
  handles before the first read error (main.go:157-166). `Relays` is the list of
  frames it broadcasts, in reading order (main.go:168-170, 203-205).
- `Server` (`server.dfy`) holds the imperative part. The `Connection` class has
  a mutable `closed` flag. The `Player` class has a mutable `lastActivity`. The
  `GameServer` class holds the player map and a ghost log `sendLog` of every
  write attempted. Its methods mirror the Go methods, and each is proved
  against the `Registry` and `Session` functions and against `Fanout`, one
  write per visited player (main.go:112-114), and `Relayed`, one broadcast per
  relayed chat frame (main.go:168-170, 203-205). Lemmas
  relate those functions to what the hub promises: each broadcast attempts one
  write to every registered player, and a session sends one broadcast per chat
  frame.

The Go map's iteration order is unspecified. Each broadcast therefore returns
its visiting order as a ghost out-parameter, proved to enumerate the
registered ids. A session returns one such order per relayed frame.

The session's deferred unregistration removes whatever entry holds the
session's id when the loop ends (`HandlePlayerMessages` ensures
`players == Registry.Remove(old(players), player.id)`). A second registration
under the same id replaces the first player without closing its connection
(`Registry.Admit`). The end of the first player's session then removes the
second player and closes the second player's connection. Ids are wall-clock
readings in nanoseconds (main.go:247), so this needs two registrations that
read the same clock value. How often that happens depends on the platform's
clock resolution and on the clock being set back.

## Model

| member | source | states |
|---|---|---|
| Registry.Admit | main.go:79-90 | refused (`None`) exactly when the map already holds `maxPlayers` entries or more; otherwise the id is bound to the new player, every other entry is unchanged, the size grows by one unless the id was already present, and it never exceeds the capacity |
| Registry.Remove | main.go:98-102 | the id is absent afterwards, every other entry is unchanged, and the size drops by one exactly when the id was present |
| Registry.RemoveIdempotent | main.go:95-104 | removing twice is removing once; removing an absent id changes nothing |
| Registry.ApplyAppend | main.go:75-104 | running two batches of admissions and removals one after the other is running their concatenation |
| Registry.ApplyWithinCapacity | main.go:79-81 | no interleaving of admissions and removals takes the registry above `maxPlayers` (or above zero for a negative maximum) |
| Registry.ApplyUntouched | main.go:75-104 | operations on other ids leave an entry present or absent, and unchanged, as it was |
| Registry.RemovedStaysOut | main.go:95-104 | an id whose last operation is a removal is absent, whatever came before |
| Registry.Apply | main.go:75-104 | the registry after a sequence of admissions and removals, in order; each operation adds at most one entry |
| Registry.AdmittedStaysIn | main.go:79-90 | an id whose last operation is an admission that was not refused is present at the end and bound to the admitted player, whatever came before |
| Registry.NoPhantomMembers | main.go:75-104 | every id present at the end was present at the start or was admitted by one of the operations |
| Registry.AdmitUntilFull | main.go:79-90 | admitting distinct new ids one by one fills the registry to its capacity: the first `maxPlayers` are admitted, every later one is refused, and the size stops at the maximum |
| Registry.EnumerationSize | main.go:112-120 | a loop that visits every registered id exactly once makes exactly as many steps as there are players |
| Protocol.React | main.go:189-217 | an undecodable frame is rejected with "invalid message format" and only then; a frame is relayed exactly when it decodes to a `CHAT_MESSAGE`, and then the relayed bytes are the original frame |
| Protocol.UnknownTagsAccepted | main.go:211-216 | a tag without its own case, `PLAYER_JOIN` and `PLAYER_LEAVE` among them, is only noted and never relayed |
| Session.Handled | main.go:157-166 | the handled frames form a prefix of frames, and it ends at the first read error or at the end of the reads |
| Session.HandledAt | main.go:157-166 | any count with those three properties is the number of handled frames, so the stopping point is unique |
| Session.RelaysAtMostHandled | main.go:157-176 | each handled frame is relayed at most once, so a session relays no more frames than it handles |
| Session.RelayOf | main.go:203-205 | one frame contributes its own bytes when it decodes to a chat message and nothing otherwise |
| Session.RelaysSnoc | main.go:157-176 | handling one more frame after a run of frames appends exactly that frame's relay |
| Session.RelaysPrefix | main.go:157-176 | the relays of the first `i + 1` handled frames are those of the first `i`, followed by frame `i`'s relay |
| Session.RelaysStopAtReadError | main.go:160-166 | nothing after the first read error is relayed |
| Session.RelaysExactlyChats | main.go:157-176 | a byte string is relayed exactly when it is one of the frames before the first read error and decodes to a chat message |
| Session.MalformedThenChat | main.go:168-170 | an undecodable frame yields "invalid message format", the loop goes on, and a following chat frame is still relayed unchanged |
| Server.FanoutSnoc | main.go:112-120 | visiting one more player appends exactly one write, to that player |
| Server.FanoutCoversPlayers | main.go:108-121 | a broadcast that visits every registered id once writes the message to every registered player's connection, to no other connection, and as many times as there are players |
| Server.RelayedSnoc | main.go:203-205 | one more relayed frame appends exactly that frame's broadcast to the session's writes |
| Server.RelayingExtend | main.go:203-205 | a broadcast of one more frame, visiting every registered id once, extends the session's record of relays and writes |
| Server.RelayedSize | main.go:157-176 | a session makes exactly (number of relayed frames) × (number of players) writes |
| Server.SessionStep | main.go:157-176 | one iteration of the read loop turns the session's writes for `i` frames into those for `i + 1`: a chat frame adds its broadcast, any other frame adds nothing |
| Server.Connection.WriteMessage | main.go:114 | a write succeeds exactly when the connection is open and the peer accepts frames |
| Server.Connection.Close | main.go:100 | the connection is closed afterwards |
| Server.Player.constructor | main.go:84-88 | a new player carries the given id and connection and a fresh activity mark |
| Server.GameServer.KeyedById | main.go:83-90 | a registered player is held under its own id and under no other key |
| Server.GameServer.constructor | main.go:47-51 | a new server has no players, the given maximum, and has written nothing |
| Server.GameServer.RegisterPlayer | main.go:75-93 | fails with "server is full", leaving the map unchanged, exactly when the map holds `maxPlayers` entries or more; otherwise returns a fresh player with the given id and connection, and the map becomes `Registry.Admit` of the old map, so the registry invariant (ids match keys, size within capacity) is kept |
| Server.GameServer.UnregisterPlayer | main.go:95-104 | the map becomes `Registry.Remove` of the old one, and a player that was present has its connection closed; an absent id is a no-op |
| Server.GameServer.BroadcastMessage | main.go:108-121 | visits every registered id exactly once in some order, attempts one write to each (a failed write does not stop the loop), and appends exactly those writes to the log |
| Server.GameServer.SendStructuredMessage | main.go:123-152 | errors in the source's order: "failed to marshal payload", "failed to marshal message", then "player not found", each without a write; otherwise exactly one write of the encoded envelope to that player, succeeding exactly when the connection accepts it |
| Server.GameServer.ProcessMessage | main.go:189-217 | returns "invalid message format" exactly for an undecodable frame and success for every decodable one; a chat frame is broadcast as its original bytes to every registered player, and any other frame writes nothing |
| Server.GameServer.ReadLoop | main.go:157-176 | handles exactly the frames before the first read error, bumping `lastActivity` once for each; the writes appended are one full broadcast per relayed chat frame, in reading order; routing errors do not stop the loop |
| Server.GameServer.HandlePlayerMessages | main.go:155-177 | the read loop above, followed by the deferred unregistration of the player's id whatever ended the loop: the map becomes `Registry.Remove` of the old one, the key the session's player was registered under is gone, and that entry's connection is closed |

## Left out

- Locking (`playersMu`, `player.mu`) is not modelled. Each method runs atomically, so sessions cannot interleave, and the player map cannot change during a session. `SendStructuredMessage` also writes without taking `player.mu` (main.go:151). That race is outside this model.
- Time is not modelled. `LastActivity` becomes a counter of handled frames. The envelope's `Timestamp` is a parameter `now`. The ten-minute `readTimeout` and the per-read deadline (main.go:51, 159) are not modelled. An expired deadline is one of the read errors that end the loop.
- JSON is not modelled. Decoding is a function parameter `decode`. Marshalling the envelope is a function parameter `encode`. Marshalling the payload is an `Option` parameter, whose `None` stands for a failed `json.Marshal`. The texts "failed to marshal payload" and "failed to marshal message" omit the wrapped Go error.
- `generateUniqueID` (main.go:246-248) is not part of this model. The player id is a parameter of `RegisterPlayer`.
- The transport is an oracle. A read is an element of a finite `seq<ReadResult>`, and reaching its end stands for the connection ending. Whether a write succeeds is a fixed `peerAccepts` flag per connection, plus whether it was closed.
- Server.GameServer.SendStructuredMessage: a failed write returns `WriteFailed`, not the transport's own error value.
- Server.GameServer.BroadcastMessage: the log records each attempted write, not its outcome, because the source only logs a failed write and discards it.
- Server.GameServer.ProcessMessage: the `player` argument is dropped, because the source uses it only in log lines.
- The HTTP upgrade, `StartServer`, `main` (main.go:224-257), the `upgrader` and its origin check are left out. They are transport wiring.
- `processTextMessage` and `processBinaryMessage` (main.go:180-186, 219-222) are left out. Nothing calls them.
- Log output and the classification of close errors (main.go:163-165) are left out. They affect only log lines.
