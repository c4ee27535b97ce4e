/**
 * The in-memory session hub: `GameServer` with its player map, the
 * broadcast loop, directed sends, message routing and the per-connection
 * session loop. Locks are not modelled; each method runs atomically.
 */
module Server {
  import opened Wrappers
  import opened Protocol
  import opened Session
  import Registry

  /**
   * A WebSocket connection handle supplied by the transport. `peerAccepts`
   * is the send-outcome oracle: whether the remote end takes frames. A
   * write to a closed handle always fails.
   */
  class Connection {
    var closed: bool
    const peerAccepts: bool

    constructor (peerAccepts: bool)
      ensures !closed && this.peerAccepts == peerAccepts
    {
      closed := false;
      this.peerAccepts := peerAccepts;
    }

    /** Whether a write issued now succeeds. */
    predicate Accepts()
      reads this
    {
      !closed && peerAccepts
    }

    method WriteMessage(message: Bytes) returns (ok: bool)
      ensures ok <==> Accepts()
      ensures ok ==> !closed
    {
      ok := !closed && peerAccepts;
    }

    method Close()
      modifies this`closed
      ensures closed
    {
      closed := true;
    }
  }

  /** One attempted write, as it would appear in a transport trace. */
  datatype Send = Send(to: Connection, message: Bytes)

  /** The writes of one broadcast of `message` that visits the players of `players` in `order`. */
  function Fanout(players: map<string, Player>, order: seq<string>, message: Bytes): seq<Send>
    requires forall i :: 0 <= i < |order| ==> order[i] in players
  {
    seq(|order|, i requires 0 <= i < |order| => Send(players[order[i]].conn, message))
  }

  lemma FanoutSnoc(players: map<string, Player>, order: seq<string>, id: string, message: Bytes)
    requires forall i :: 0 <= i < |order| ==> order[i] in players
    requires id in players
    ensures Fanout(players, order + [id], message)
         == Fanout(players, order, message) + [Send(players[id].conn, message)]
  {
    assert (order + [id])[..|order|] == order;
  }

  /**
   * A broadcast that visits every registered id once writes `message` once
   * per player, to every registered player's connection and to no other.
   */
  lemma FanoutCoversPlayers(players: map<string, Player>, order: seq<string>, message: Bytes)
    requires Registry.Enumerates(order, players.Keys)
    ensures |Fanout(players, order, message)| == |players|
    ensures forall k :: k in players ==> Send(players[k].conn, message) in Fanout(players, order, message)
    ensures forall w :: w in Fanout(players, order, message) ==>
      w.message == message && exists k :: k in players && w.to == players[k].conn
  {
    var r := Fanout(players, order, message);
    Registry.EnumerationSize(order, players.Keys);
    forall k | k in players
      ensures Send(players[k].conn, message) in r
    {
      var i :| 0 <= i < |order| && order[i] == k;
      assert r[i] == Send(players[k].conn, message);
    }
    forall w | w in r
      ensures w.message == message && exists k :: k in players && w.to == players[k].conn
    {
      var i :| 0 <= i < |r| && r[i] == w;
      assert order[i] in players && w.to == players[order[i]].conn;
    }
  }

  /** The writes of consecutive broadcasts: `frames[j]` sent in the visiting order `orders[j]`. */
  function Relayed(players: map<string, Player>, orders: seq<seq<string>>, frames: seq<Bytes>): (r: seq<Send>)
    requires |orders| == |frames|
    requires forall j :: 0 <= j < |orders| ==> Registry.Enumerates(orders[j], players.Keys)
  {
    if orders == [] then []
    else
      var n := |orders| - 1;
      assert Registry.Enumerates(orders[n], players.Keys);
      Relayed(players, orders[..n], frames[..n]) + Fanout(players, orders[n], frames[n])
  }

  lemma RelayedSnoc(players: map<string, Player>, orders: seq<seq<string>>, frames: seq<Bytes>,
                    order: seq<string>, frame: Bytes)
    requires |orders| == |frames|
    requires forall j :: 0 <= j < |orders| ==> Registry.Enumerates(orders[j], players.Keys)
    requires Registry.Enumerates(order, players.Keys)
    ensures Relayed(players, orders + [order], frames + [frame])
         == Relayed(players, orders, frames) + Fanout(players, order, frame)
  {
    assert (orders + [order])[..|orders|] == orders;
    assert (frames + [frame])[..|frames|] == frames;
  }

  /**
   * `after` is `before` followed by the broadcasts of `frames`, the broadcast
   * of `frames[j]` visiting every registered id once, in the order `orders[j]`.
   */
  ghost predicate Relaying(players: map<string, Player>, orders: seq<seq<string>>, frames: seq<Bytes>,
                           before: seq<Send>, after: seq<Send>)
  {
    && |orders| == |frames|
    && (forall j :: 0 <= j < |orders| ==> Registry.Enumerates(orders[j], players.Keys))
    && after == before + Relayed(players, orders, frames)
  }

  /** One more broadcast extends the relaying by its visiting order, its frame and its writes. */
  lemma RelayingExtend(players: map<string, Player>, orders: seq<seq<string>>, frames: seq<Bytes>,
                       before: seq<Send>, log: seq<Send>, order: seq<string>, frame: Bytes)
    requires Relaying(players, orders, frames, before, log)
    requires Registry.Enumerates(order, players.Keys)
    ensures Relaying(players, orders + [order], frames + [frame], before, log + Fanout(players, order, frame))
  {
    RelayedSnoc(players, orders, frames, order, frame);
    assert forall j :: 0 <= j < |orders| ==> (orders + [order])[j] == orders[j];
  }

  /** Every relayed frame costs one write per registered player. */
  lemma {:induction false} RelayedSize(players: map<string, Player>, orders: seq<seq<string>>, frames: seq<Bytes>)
    requires |orders| == |frames|
    requires forall j :: 0 <= j < |orders| ==> Registry.Enumerates(orders[j], players.Keys)
    ensures |Relayed(players, orders, frames)| == |frames| * |players|
  {
    if orders != [] {
      var n := |orders| - 1;
      RelayedSize(players, orders[..n], frames[..n]);
      FanoutCoversPlayers(players, orders[n], frames[n]);
      MulSucc(n, |players|);
      assert |frames| == n + 1;
    }
  }

  lemma MulSucc(n: nat, p: nat)
    ensures (n + 1) * p == n * p + p
  {
  }

  /**
   * One pass of the session loop, on values: if the log after `i` handled
   * frames is `log`, and routing frame `i` appended the broadcast it made
   * (if any) to give `next`, then `next` is the log after `i + 1` frames.
   */
  lemma SessionStep(decode: Decoder, inbound: seq<ReadResult>, i: nat, players: map<string, Player>,
                    orders: seq<seq<string>>, order: seq<string>, base: seq<Send>, log: seq<Send>, next: seq<Send>)
    returns (orders': seq<seq<string>>)
    requires i < Handled(inbound)
    requires Relaying(players, orders, Relays(decode, inbound[..i]), base, log)
    requires IsChat(decode(inbound[i].data)) ==>
      Registry.Enumerates(order, players.Keys) && next == log + Fanout(players, order, inbound[i].data)
    requires !IsChat(decode(inbound[i].data)) ==> next == log
    ensures Relaying(players, orders', Relays(decode, inbound[..i + 1]), base, next)
  {
    var data := inbound[i].data;
    RelaysPrefix(decode, inbound, i);
    if IsChat(decode(data)) {
      orders' := orders + [order];
      RelayingExtend(players, orders, Relays(decode, inbound[..i]), base, log, order, data);
    } else {
      orders' := orders;
      assert Relays(decode, inbound[..i + 1]) == Relays(decode, inbound[..i]);
    }
  }

  /** A connected player. `lastActivity` counts the frames read so far (it stands for the timestamp). */
  class Player {
    const id: string
    const conn: Connection
    var lastActivity: nat

    constructor (id: string, conn: Connection)
      ensures this.id == id && this.conn == conn && lastActivity == 0
    {
      this.id := id;
      this.conn := conn;
      lastActivity := 0;
    }
  }

  class GameServer {
    var players: map<string, Player>
    const maxPlayers: int
    /** Every write the server has attempted, in order. */
    ghost var sendLog: seq<Send>

    ghost predicate Valid()
      reads this`players
    {
      && (forall k {:trigger players[k].id} :: k in players ==> players[k].id == k)
      && |players| <= Registry.Capacity(maxPlayers)
    }

    /** A registered player is held under its own id and under no other key. */
    lemma KeyedById(p: Player)
      requires Valid()
      ensures forall k :: k in players && players[k] == p ==> k == p.id
    {
    }

    constructor (maxPlayers: int)
      ensures Valid()
      ensures players == map[] && this.maxPlayers == maxPlayers
      ensures sendLog == []
    {
      players := map[];
      this.maxPlayers := maxPlayers;
      sendLog := [];
    }

    /**
     * Admission of a connection under the id `id`: refused with "server is
     * full" when the map holds `maxPlayers` entries or more, otherwise a new
     * player is bound to `id`, replacing any player the id already had.
     */
    method RegisterPlayer(conn: Connection, id: string) returns (r: Result<Player, Error>)
      requires Valid()
      modifies this`players
      ensures Valid()
      ensures r.Failure? <==> Registry.Full(old(players), maxPlayers)
      ensures r.Failure? ==> r.error == ServerFull && players == old(players)
      ensures r.Success? ==> fresh(r.value) && r.value.id == id && r.value.conn == conn && r.value.lastActivity == 0
      ensures r.Success? ==> Registry.Admit(old(players), maxPlayers, id, r.value) == Some(players)
    {
      if |players| >= maxPlayers {
        return Failure(ServerFull);
      }
      var player := new Player(id, conn);
      players := players[id := player];
      r := Success(player);
    }

    /** Removal of `id`: closes its connection and drops the entry; a no-op for an absent id. */
    method UnregisterPlayer(id: string)
      requires Valid()
      modifies this`players, if id in players then {players[id].conn} else {}`closed
      ensures Valid()
      ensures players == Registry.Remove(old(players), id)
      ensures id in old(players) ==> old(players)[id].conn.closed
    {
      if id in players {
        players[id].conn.Close();
        players := players - {id};
      }
    }

    /**
     * One write of `message` to every registered player, in the map's
     * (unspecified) order `order`; a failed write is only logged, and the
     * loop goes on to the next player.
     */
    method BroadcastMessage(message: Bytes) returns (ghost order: seq<string>)
      modifies this`sendLog
      ensures Registry.Enumerates(order, players.Keys)
      ensures sendLog == old(sendLog) + Fanout(players, order, message)
    {
      var pending := players.Keys;
      order := [];
      while pending != {}
        invariant pending <= players.Keys
        invariant forall i :: 0 <= i < |order| ==> order[i] in players && order[i] !in pending
        invariant forall k :: k in players && k !in pending ==> k in order
        invariant forall i, j :: 0 <= i < j < |order| ==> order[i] != order[j]
        invariant sendLog == old(sendLog) + Fanout(players, order, message)
        decreases pending
      {
        var id :| id in pending;
        var player := players[id];
        var ok := player.conn.WriteMessage(message);
        FanoutSnoc(players, order, id, message);
        sendLog := sendLog + [Send(player.conn, message)];
        order := order + [id];
        pending := pending - {id};
      }
    }

    /**
     * Builds the envelope for a directed message and writes it to `playerId`.
     * `payloadJson` is the outcome of marshalling the caller's payload,
     * `encode` stands for marshalling the envelope, `now` for the clock.
     */
    method SendStructuredMessage(playerId: string, msgType: MessageType, payloadJson: Option<Bytes>,
                                 now: int, encode: StructuredMessage -> Option<Bytes>) returns (r: Outcome<Error>)
      modifies this`sendLog
      ensures payloadJson.None? ==> r == Fail(MarshalPayloadFailed) && sendLog == old(sendLog)
      ensures payloadJson.Some? ==>
        var bytes := encode(StructuredMessage(msgType, playerId, payloadJson.value, now));
        && (bytes.None? ==> r == Fail(MarshalMessageFailed) && sendLog == old(sendLog))
        && (bytes.Some? && playerId !in players ==> r == Fail(PlayerNotFound) && sendLog == old(sendLog))
        && (bytes.Some? && playerId in players ==>
              var conn := players[playerId].conn;
              && sendLog == old(sendLog) + [Send(conn, bytes.value)]
              && (r == Pass <==> conn.Accepts())
              && (r != Pass ==> r == Fail(WriteFailed)))
    {
      if payloadJson.None? {
        return Fail(MarshalPayloadFailed);
      }
      var msg := StructuredMessage(msgType, playerId, payloadJson.value, now);
      var bytes := encode(msg);
      if bytes.None? {
        return Fail(MarshalMessageFailed);
      }
      if playerId !in players {
        return Fail(PlayerNotFound);
      }
      var player := players[playerId];
      var ok := player.conn.WriteMessage(bytes.value);
      sendLog := sendLog + [Send(player.conn, bytes.value)];
      r := if ok then Pass else Fail(WriteFailed);
    }

    /**
     * Routing of one inbound frame: "invalid message format" when it does not
     * decode; a chat message is broadcast as the original bytes; every other
     * tag is accepted without a write.
     */
    method ProcessMessage(data: Bytes, decode: Decoder) returns (r: Outcome<Error>, ghost order: seq<string>)
      modifies this`sendLog
      ensures r == if decode(data).None? then Fail(InvalidMessageFormat) else Pass
      ensures IsChat(decode(data)) ==>
        Registry.Enumerates(order, players.Keys) && sendLog == old(sendLog) + Fanout(players, order, data)
      ensures !IsChat(decode(data)) ==> order == [] && sendLog == old(sendLog)
    {
      order := [];
      match React(decode(data), data)
      case Reject(e) =>
        r := Fail(e);
      case Relay(frame) =>
        order := BroadcastMessage(frame);
        r := Pass;
      case Noted(_) =>
        r := Pass;
    }

    /**
     * The `for` loop of the session: every frame before the first read error
     * is routed (a routing error does not stop the loop) and bumps
     * `lastActivity`; the registry itself is not touched.
     */
    method ReadLoop(player: Player, inbound: seq<ReadResult>, decode: Decoder)
      returns (ghost orders: seq<seq<string>>)
      modifies this`sendLog, player
      ensures player.lastActivity == old(player.lastActivity) + Handled(inbound)
      ensures Relaying(players, orders, Relays(decode, inbound), old(sendLog), sendLog)
    {
      var i := 0;
      orders := [];
      while i < |inbound| && inbound[i].Frame?
        invariant i <= Handled(inbound)
        invariant player.lastActivity == old(player.lastActivity) + i
        invariant Relaying(players, orders, Relays(decode, inbound[..i]), old(sendLog), sendLog)
      {
        ghost var log := sendLog;
        var err, order := ProcessMessage(inbound[i].data, decode);
        orders := SessionStep(decode, inbound, i, players, orders, order, old(sendLog), log, sendLog);
        player.lastActivity := player.lastActivity + 1;
        i := i + 1;
      }
      RelaysStopAtReadError(decode, inbound);
    }

    /**
     * The session of `player` over the outcomes of its reads: the read loop,
     * then the deferred unregistration of the player's id, whatever ended
     * the loop.
     */
    method HandlePlayerMessages(player: Player, inbound: seq<ReadResult>, decode: Decoder)
      returns (ghost orders: seq<seq<string>>)
      requires Valid()
      modifies this`players, this`sendLog, player
      modifies if player.id in players then {players[player.id].conn} else {}`closed
      ensures Valid()
      ensures players == Registry.Remove(old(players), player.id)
      ensures player.id in old(players) ==> old(players)[player.id].conn.closed
      ensures forall k :: k in old(players) && old(players)[k] == player ==> k !in players
      ensures player.lastActivity == old(player.lastActivity) + Handled(inbound)
      ensures Relaying(old(players), orders, Relays(decode, inbound), old(sendLog), sendLog)
    {
      KeyedById(player);
      orders := ReadLoop(player, inbound, decode);
      UnregisterPlayer(player.id);
    }
  }
}
