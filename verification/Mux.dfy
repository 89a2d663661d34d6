/** The multiplexer's messages: how `mux::client::call` and the heartbeat build a packet,
    and what the receiving loops of mux_client.cpp and mux_server.cpp make of one. */
module Mux {
  import opened Bytes
  import opened Framing
  import opened Receiving
  import opened StreamSystem

  const HEARTBEAT: Word := 0xFFFF_FFFF

  datatype Message = Call(endpoint: Word, body: seq<Byte>) | Beat

  /** What a handler is given. */
  datatype Dispatch = Dispatch(endpoint: Word, body: seq<Byte>)

  /** A message has to fit a packet. */
  predicate Fits(m: Message) {
    m.Call? ==> |m.body| + 4 < WORD_LIMIT
  }

  function PacketOf(m: Message): Payload
    requires Fits(m)
  {
    match m
    case Call(endpoint, body) => EncodeWord(endpoint) + body
    case Beat => EncodeWord(HEARTBEAT)
  }

  /** The first bytes of a packet are its endpoint, low byte first; the heartbeat's are all
      0xFF.  The caller's bytes follow. */
  lemma PacketLayout(m: Message, i: nat)
    requires Fits(m) && i < 4
    ensures m.Call? ==>
              PacketOf(m)[i] == m.endpoint / Pow2(8 * i) % 0x100 && PacketOf(m)[4..] == m.body
    ensures m.Beat? ==> PacketOf(m) == [0xFF, 0xFF, 0xFF, 0xFF]
  {
    hide Pow2;
    if m.Call? {
      WordLayout(m.endpoint, i);
    } else {
      assert EncodeWord(0xFFFF_FFFF) == [0xFF, 0xFF, 0xFF, 0xFF];
    }
  }

  function PacketsOf(ms: seq<Message>): (ps: seq<Payload>)
    requires forall m :: m in ms ==> Fits(m)
    ensures |ps| == |ms|
  {
    seq(|ms|, i requires 0 <= i < |ms| => PacketOf(ms[i]))
  }

  /** One turn of the receiving loop.  A packet too short for an endpoint reads as endpoint 0
      with all its bytes unread. */
  function DispatchOf(packet: seq<Byte>, registered: set<Word>): seq<Dispatch> {
    var endpoint := if |packet| < 4 then 0 else DecodeWord(packet[..4]);
    var rest := if |packet| < 4 then packet else packet[4..];
    if endpoint != HEARTBEAT && rest != [] && endpoint in registered
    then [Dispatch(endpoint, rest)] else []
  }

  function Dispatches(packets: seq<seq<Byte>>, registered: set<Word>): seq<Dispatch> {
    if packets == [] then []
    else DispatchOf(packets[0], registered) + Dispatches(packets[1..], registered)
  }

  /** The calls that are meant to reach a handler. */
  function Expected(ms: seq<Message>, registered: set<Word>): seq<Dispatch> {
    if ms == [] then []
    else (match ms[0]
          case Call(endpoint, body) =>
            if endpoint != HEARTBEAT && body != [] && endpoint in registered
            then [Dispatch(endpoint, body)] else []
          case Beat => [])
         + Expected(ms[1..], registered)
  }

  lemma {:induction false} DispatchesConcat(ps: seq<seq<Byte>>, qs: seq<seq<Byte>>,
                                            registered: set<Word>)
    ensures Dispatches(ps + qs, registered) == Dispatches(ps, registered) + Dispatches(qs, registered)
  {
    hide DispatchOf;
    if ps == [] {
      assert ps + qs == qs;
    } else {
      assert (ps + qs)[1..] == ps[1..] + qs;
      DispatchesConcat(ps[1..], qs, registered);
    }
  }

  /** Every handler sees exactly the caller's bytes; heartbeats, calls to the heartbeat
      endpoint, empty calls and calls to unregistered endpoints reach no handler. */
  lemma {:induction false} DispatchesArePackets(ms: seq<Message>, registered: set<Word>)
    requires forall m :: m in ms ==> Fits(m)
    ensures Dispatches(PacketsOf(ms), registered) == Expected(ms, registered)
  {
    if ms != [] {
      var p := PacketOf(ms[0]);
      assert PacketsOf(ms)[1..] == PacketsOf(ms[1..]);
      DispatchesArePackets(ms[1..], registered);
      DecodeEncodeWord(HEARTBEAT);
      if ms[0].Call? {
        DecodeEncodeWord(ms[0].endpoint);
        assert p[..4] == EncodeWord(ms[0].endpoint) && p[4..] == ms[0].body;
      } else {
        assert p[..4] == EncodeWord(HEARTBEAT) && p[4..] == [];
      }
    }
  }

  lemma DispatchesPrefix(ps: seq<seq<Byte>>, qs: seq<seq<Byte>>, registered: set<Word>)
    requires ps <= qs
    ensures Dispatches(ps, registered) <= Dispatches(qs, registered)
  {
    hide Dispatches;
    DispatchesConcat(ps, qs[|ps|..], registered);
    assert qs == ps + qs[|ps|..];
  }

  /** End to end: in every state of every run in which only calls and heartbeats are
      enqueued, what the handlers have been given is a prefix of the calls made. */
  lemma HandlersSeePrefix(states: seq<System>, events: seq<Event>, i: nat,
                          ms: seq<Message>, registered: set<Word>)
    requires IsRun(states, events) && i < |states|
    requires forall m :: m in ms ==> Fits(m)
    requires states[i].enqueued == PacketsOf(ms)
    ensures Dispatches(states[i].delivered, registered) <= Expected(ms, registered)
  {
    hide Dispatches, Expected, IsRun, Inv, PacketsOf, Fits;
    Safety(states, events, i);
    DeliveredInOrder(states[i]);
    DispatchesArePackets(ms, registered);
    DispatchesPrefix(states[i].delivered, states[i].enqueued, registered);
  }

  /** ... and once the link has carried everything, draining the receiver completes it. */
  lemma HandlersSeeAll(states: seq<System>, events: seq<Event>, i: nat,
                       ms: seq<Message>, registered: set<Word>)
    requires IsRun(states, events) && i < |states|
    requires forall m :: m in ms ==> Fits(m)
    requires states[i].enqueued == PacketsOf(ms)
    requires states[i].up && states[i].sender.queue == []
    requires states[i].consumed == |states[i].wire|
    ensures Dispatches(states[i].delivered + Drain(states[i].receiver).packets, registered)
            == Expected(ms, registered)
  {
    hide Dispatches, Expected, IsRun, Inv, Drain;
    var s := states[i];
    Safety(states, events, i);
    Completeness(s);
    NoEmptyPackets(ms);
    DispatchesArePackets(ms, registered);
  }

  lemma NoEmptyPackets(ms: seq<Message>)
    requires forall m :: m in ms ==> Fits(m)
    ensures !EndsInEmpty(PacketsOf(ms))
  {
    if ms != [] {
      assert |PacketOf(ms[|ms| - 1])| >= 4;
    }
  }
}
