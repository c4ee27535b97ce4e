/**
 * The per-connection read loop of `HandlePlayerMessages`, as values: the
 * sequence of read outcomes one connection produces, how many frames the
 * loop handles before the first read error, and which frames it relays.
 */
module Session {
  import opened Wrappers
  import opened Protocol

  /** One `ReadMessage` call: a frame, or an error (close, deadline expiry, transport failure). */
  datatype ReadResult = Frame(data: Bytes) | ReadError

  /** The number of frames handled: the loop stops at the first read error, or when the reads run out. */
  function Handled(inbound: seq<ReadResult>): (n: nat)
    ensures n <= |inbound|
    ensures forall j :: 0 <= j < n ==> inbound[j].Frame?
    ensures n < |inbound| ==> inbound[n].ReadError?
  {
    if inbound == [] || inbound[0].ReadError? then 0 else 1 + Handled(inbound[1..])
  }

  /** The loop ends exactly where the first read error stands, or at the end of the reads. */
  lemma {:induction false} HandledAt(inbound: seq<ReadResult>, n: nat)
    requires n <= |inbound|
    requires forall j :: 0 <= j < n ==> inbound[j].Frame?
    requires n < |inbound| ==> inbound[n].ReadError?
    ensures Handled(inbound) == n
  {
    if n > 0 {
      HandledAt(inbound[1..], n - 1);
    }
  }

  /** What one handled frame contributes to the broadcasts: its own bytes when it is a chat message. */
  function RelayOf(decode: Decoder, data: Bytes): (r: seq<Bytes>)
    ensures r == if IsChat(decode(data)) then [data] else []
  {
    match React(decode(data), data)
    case Relay(frame) => [frame]
    case _ => []
  }

  /** The frames the loop relays, in the order they were read. */
  function Relays(decode: Decoder, inbound: seq<ReadResult>): seq<Bytes> {
    if inbound == [] || inbound[0].ReadError? then []
    else RelayOf(decode, inbound[0].data) + Relays(decode, inbound[1..])
  }

  /** Each handled frame is relayed at most once, and only handled frames are relayed. */
  lemma {:induction false} RelaysAtMostHandled(decode: Decoder, inbound: seq<ReadResult>)
    ensures |Relays(decode, inbound)| <= Handled(inbound)
  {
    if inbound != [] && inbound[0].Frame? {
      RelaysAtMostHandled(decode, inbound[1..]);
    }
  }

  /** Handling one more frame appends that frame's relay, if any. */
  lemma {:induction false} RelaysSnoc(decode: Decoder, inbound: seq<ReadResult>, data: Bytes)
    requires forall j :: 0 <= j < |inbound| ==> inbound[j].Frame?
    ensures Relays(decode, inbound + [Frame(data)]) == Relays(decode, inbound) + RelayOf(decode, data)
  {
    if inbound == [] {
      assert [] + [Frame(data)] == [Frame(data)];
    } else {
      assert (inbound + [Frame(data)])[1..] == inbound[1..] + [Frame(data)];
      RelaysSnoc(decode, inbound[1..], data);
    }
  }

  /** The relays of the first `i + 1` handled frames extend those of the first `i` by frame `i`'s relay. */
  lemma RelaysPrefix(decode: Decoder, inbound: seq<ReadResult>, i: nat)
    requires i < Handled(inbound)
    ensures Relays(decode, inbound[..i + 1]) == Relays(decode, inbound[..i]) + RelayOf(decode, inbound[i].data)
  {
    RelaysSnoc(decode, inbound[..i], inbound[i].data);
    assert inbound[..i + 1] == inbound[..i] + [Frame(inbound[i].data)];
  }

  /** Nothing after the first read error is relayed. */
  lemma {:induction false} RelaysStopAtReadError(decode: Decoder, inbound: seq<ReadResult>)
    ensures Relays(decode, inbound) == Relays(decode, inbound[..Handled(inbound)])
  {
    if inbound != [] && inbound[0].Frame? {
      RelaysStopAtReadError(decode, inbound[1..]);
      assert inbound[..Handled(inbound)][1..] == inbound[1..][..Handled(inbound[1..])];
    }
  }

  /**
   * A byte string is relayed exactly when it is one of the handled frames
   * and decodes to a chat message; undecodable frames and other tags are
   * never relayed, and they do not stop the later chat frames.
   */
  lemma {:induction false} RelaysExactlyChats(decode: Decoder, inbound: seq<ReadResult>, d: Bytes)
    ensures d in Relays(decode, inbound) <==>
      exists j :: 0 <= j < Handled(inbound) && inbound[j] == Frame(d) && IsChat(decode(d))
  {
    if inbound != [] && inbound[0].Frame? {
      RelaysExactlyChats(decode, inbound[1..], d);
      if exists j :: 0 <= j < Handled(inbound[1..]) && inbound[1..][j] == Frame(d) && IsChat(decode(d)) {
        var j :| 0 <= j < Handled(inbound[1..]) && inbound[1..][j] == Frame(d) && IsChat(decode(d));
        assert inbound[j + 1] == Frame(d);
      }
      if exists j :: 0 <= j < Handled(inbound) && inbound[j] == Frame(d) && IsChat(decode(d)) {
        var j :| 0 <= j < Handled(inbound) && inbound[j] == Frame(d) && IsChat(decode(d));
        if j > 0 {
          assert inbound[1..][j - 1] == Frame(d);
        }
      }
    }
  }

  /**
   * A malformed frame followed by a chat frame: the first is dropped with
   * an error, the session goes on, and the chat frame is relayed unchanged.
   */
  lemma MalformedThenChat(decode: Decoder, bad: Bytes, chat: Bytes, rest: seq<ReadResult>)
    requires decode(bad).None? && IsChat(decode(chat))
    ensures React(decode(bad), bad) == Reject(InvalidMessageFormat)
    ensures Handled([Frame(bad), Frame(chat)] + rest) >= 2
    ensures Relays(decode, [Frame(bad), Frame(chat)] + rest) == [chat] + Relays(decode, rest)
  {
    var inbound := [Frame(bad), Frame(chat)] + rest;
    assert inbound[1..] == [Frame(chat)] + rest;
    assert inbound[1..][1..] == rest;
  }
}
