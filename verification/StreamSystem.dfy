/** Two endpoints joined by a byte stream: any number of threads enqueue and flush on one
    side, the other side reads.  Each mutex-protected body is one step. */
module StreamSystem {
  import opened Bytes
  import opened Framing
  import opened Receiving
  import opened Sending

  /** `wire` is every byte that ever left the sender, `consumed` how many of them the
      receiver has taken.  `enqueued` and `delivered` record the calls. */
  datatype System = System(
    sender: Sender, up: bool,
    wire: seq<Byte>, consumed: nat,
    receiver: Receiver,
    enqueued: seq<Payload>, delivered: seq<Payload>)

  const START := System(IDLE, true, [], 0, FRESH, [], [])

  /** A `ReadCall` takes the next bytes of the wire, or finds the link down. */
  datatype Event =
    | EnqueueCall(p: Payload)
    | FlushCall(reply: WriteReply)
    | ReadCall(answer: ReadReply)

  /** A link that went down takes nothing more. */
  ghost predicate Enabled(s: System, e: Event)
    requires s.consumed <= |s.wire|
  {
    match e
    case EnqueueCall(p) => Sendable(p)
    case FlushCall(reply) =>
      Sending.Valid(s.sender) && Possible(s.sender, reply) && (!s.up ==> reply == WriteDown(0))
    case ReadCall(answer) => answer.Got? ==> answer.data <= s.wire[s.consumed..]
  }

  /** The bytes a `ReadCall` consumes. */
  function ConsumedBy(s: System, reply: ReadReply): nat {
    |Taken(s.receiver, reply)|
  }

  ghost function Next(s: System, e: Event): System
    requires s.consumed <= |s.wire| && Enabled(s, e)
  {
    match e
    case EnqueueCall(p) =>
      s.(sender := Enqueue(s.sender, p), enqueued := s.enqueued + [p])
    case FlushCall(reply) =>
      s.(sender := Flush(s.sender, true, reply),
         up := s.up && reply.Wrote?,
         wire := s.wire + Emitted(s.sender, reply))
    case ReadCall(reply) =>
      var read := ReadStep(s.receiver, true, reply);
      s.(receiver := read.next,
         consumed := s.consumed + ConsumedBy(s, reply),
         delivered := s.delivered + AsSeq(read.packet))
  }

  /** `states` is a run: it starts at START and each state follows by one enabled event. */
  ghost predicate IsRun(states: seq<System>, events: seq<Event>) {
    && |states| == |events| + 1
    && states[0] == START
    && forall i :: 0 <= i < |events| ==> IsStep(states[i], events[i], states[i + 1])
  }

  ghost predicate IsStep(s: System, e: Event, t: System) {
    s.consumed <= |s.wire| && Enabled(s, e) && t == Next(s, e)
  }

  /** The bytes on the wire are frames of the packets that have left the queue, then a part
      of the front packet's frame: frames never interleave. */
  ghost predicate WireIsFrames(s: System, done: seq<Payload>) {
    && done + s.sender.queue == s.enqueued
    && Frames(done) + PartSent(s.sender) <= s.wire <= Frames(s.enqueued)
    && (s.up ==> s.wire == Frames(done) + PartSent(s.sender))
  }

  /** A parsed header is kept across calls only while some byte follows it. */
  predicate Settled(r: Receiver) {
    r.pending.Some? ==> r.buf != []
  }

  /** sent = delivered + in flight, byte for byte: what the receiver has consumed is the
      frames it delivered, the header it has parsed and the bytes it holds. */
  ghost predicate Accounted(s: System) {
    && s.consumed <= |s.wire|
    && s.delivered <= s.enqueued
    && Settled(s.receiver)
    && (EndsInEmpty(s.delivered) ==> Unparsed(s.receiver) != [])
    && Frames(s.delivered) + Unparsed(s.receiver) == s.wire[..s.consumed]
  }

  ghost predicate Inv(s: System) {
    && Sending.Valid(s.sender)
    && (exists done: seq<Payload> :: WireIsFrames(s, done))
    && Accounted(s)
  }

  lemma PrefixTrans<T>(a: seq<T>, b: seq<T>, c: seq<T>)
    requires a <= b <= c
    ensures a <= c
  {
  }

  lemma FramesPrefix(ps: seq<Payload>, qs: seq<Payload>)
    requires ps <= qs
    ensures Frames(ps) <= Frames(qs) && Frames(qs)[|Frames(ps)|..] == Frames(qs[|ps|..])
  {
    hide Frame;
    assert qs == ps + qs[|ps|..];
    FramesConcat(ps, qs[|ps|..]);
  }

  lemma EnqueueKeepsInv(s: System, p: Payload)
    requires Inv(s) && Sendable(p)
    ensures Inv(Next(s, EnqueueCall(p)))
  {
    hide Frames, Frame, Unparsed;
    var t := Next(s, EnqueueCall(p));
    var done: seq<Payload> :| WireIsFrames(s, done);
    FramesPrefix(s.enqueued, t.enqueued);
    PrefixTrans(s.wire, Frames(s.enqueued), Frames(t.enqueued));
    EnqueueValid(s.sender, p);
    assert done + t.sender.queue == (done + s.sender.queue) + [p];
    assert WireIsFrames(t, done);
  }

  lemma FlushKeepsInv(s: System, reply: WriteReply)
    requires Inv(s) && Enabled(s, FlushCall(reply))
    ensures Inv(Next(s, FlushCall(reply)))
  {
    hide Frames, Frame, Unparsed, Flush, Emitted, PartSent;
    var t := Next(s, FlushCall(reply));
    var done: seq<Payload> :| WireIsFrames(s, done);
    var done' := FlushExtendsStream(s.sender, done, reply);
    if s.up {
      assert t.wire == Frames(done) + PartSent(s.sender) + Emitted(s.sender, reply);
      if reply.WriteDown? {
        DownKeepsPart(s.sender, reply);
      }
    } else {
      DownKeepsPart(s.sender, reply);
      assert t.wire == s.wire;
    }
    assert WireIsFrames(t, done');
    assert t.wire[..t.consumed] == s.wire[..s.consumed];
  }

  lemma DownKeepsPart(s: Sender, reply: WriteReply)
    requires Sending.Valid(s) && Possible(s, reply) && reply.WriteDown?
    ensures PartSent(Flush(s, true, reply)) == PartSent(s)
    ensures reply == WriteDown(0) ==> Emitted(s, reply) == []
  {
    hide Frame;
  }

  /** What a read consumes lies on the wire behind what was consumed, and in the stream of the
      frames that are still to be delivered. */
  lemma ReadStaysInStream(s: System, reply: ReadReply)
    requires Inv(s) && Enabled(s, ReadCall(reply))
    ensures var taken := Taken(s.receiver, reply);
            && s.consumed + |taken| <= |s.wire|
            && s.wire[..s.consumed + |taken|] == s.wire[..s.consumed] + taken
            && Unparsed(s.receiver) + taken <= Frames(s.enqueued[|s.delivered|..])
  {
    hide Frames, Frame, Unparsed, Sending.Valid, PartSent, Scan, ReadStep, EndsInEmpty;
    var done: seq<Payload> :| WireIsFrames(s, done);
    var taken := Taken(s.receiver, reply);
    var upto := s.consumed + |taken|;
    assert s.wire[..upto] == s.wire[..s.consumed] + taken;
    FramesPrefix(s.delivered, s.enqueued);
    PrefixTrans(s.wire[..upto], s.wire, Frames(s.enqueued));
    Assoc(Frames(s.delivered), Unparsed(s.receiver), taken);
    PrefixOfRest(Frames(s.delivered), Unparsed(s.receiver) + taken, Frames(s.enqueued));
  }

  lemma PrefixOfRest(a: seq<Byte>, b: seq<Byte>, c: seq<Byte>)
    requires a + b <= c
    ensures b <= c[|a|..]
  {
    assert b == (a + b)[|a|..];
  }

  lemma ReadKeepsInv(s: System, reply: ReadReply)
    requires Inv(s) && Enabled(s, ReadCall(reply))
    ensures Inv(Next(s, ReadCall(reply)))
  {
    hide Frames, Frame, Unparsed, Sending.Valid, PartSent, Scan, ReadStep, Taken;
    var t := Next(s, ReadCall(reply));
    var done: seq<Payload> :| WireIsFrames(s, done);
    assert WireIsFrames(t, done);
    var rest := s.enqueued[|s.delivered|..];
    ReadStaysInStream(s, reply);
    ReadAligned(s.receiver, rest, reply);
    var out := AsSeq(ReadStep(s.receiver, true, reply).packet);
    FramesConcat(s.delivered, out);
    Assoc(Frames(s.delivered), Frames(out), Unparsed(t.receiver));
    Assoc(Frames(s.delivered), Unparsed(s.receiver), Taken(s.receiver, reply));
    assert s.enqueued == s.delivered + rest;
  }

  /** One `read_packet` inside a stream of frames. */
  lemma ReadAligned(r: Receiver, ps: seq<Payload>, reply: ReadReply)
    requires Settled(r) && Unparsed(r) + Taken(r, reply) <= Frames(ps)
    ensures var read := ReadStep(r, true, reply);
            && AsSeq(read.packet) <= ps
            && Frames(AsSeq(read.packet)) + Unparsed(read.next) == Unparsed(r) + Taken(r, reply)
            && Settled(read.next)
            && (read.packet == None ==> Unparsed(read.next) == Unparsed(r) + Taken(r, reply))
            && (read.packet == Some([]) ==> Unparsed(read.next) != [])
  {
    hide Frame, Header;
    ScanAligned(r, ps);
    var s := Scan(r);
    if Ready(s) {
      UnparsedReady(s);
      FramesOne(ps[0]);
    } else if reply.Got? {
      UnparsedAppend(s, reply.data);
    }
  }

  lemma UnparsedAppend(s: Receiver, data: seq<Byte>)
    ensures Unparsed(Append(s, data)) == Unparsed(s) + data
  {
    hide Header;
    if s.pending.Some? {
      Assoc(Header(s.pending.value), s.buf, data);
    }
  }

  lemma StepKeepsInv(s: System, e: Event)
    requires Inv(s) && Enabled(s, e)
    ensures Inv(Next(s, e))
  {
    hide Inv;
    match e
    case EnqueueCall(p) => EnqueueKeepsInv(s, p);
    case FlushCall(reply) => FlushKeepsInv(s, reply);
    case ReadCall(reply) => ReadKeepsInv(s, reply);
  }

  /** Safety over whole runs: however enqueues, flushes, partial writes and reads interleave,
      frames never interleave on the wire, every consumed byte is accounted for, and the
      payloads delivered are a prefix of those enqueued, in order. */
  lemma {:induction false} Safety(states: seq<System>, events: seq<Event>, i: nat)
    requires IsRun(states, events) && i < |states|
    ensures Inv(states[i])
  {
    hide Frames, Next, Enabled;
    if i == 0 {
      StartInv();
    } else {
      Safety(states, events, i - 1);
      assert IsStep(states[i - 1], events[i - 1], states[i]);
      StepKeepsInv(states[i - 1], events[i - 1]);
    }
  }

  lemma StartInv()
    ensures Inv(START)
  {
    assert WireIsFrames(START, []);
  }

  /** What the receiver has returned is what was enqueued, from the front. */
  lemma DeliveredInOrder(s: System)
    requires Inv(s)
    ensures s.delivered <= s.enqueued
  {
  }

  /** In every reachable state in which the link never failed, the queue is empty and the
      receiver has taken the whole wire, calling `read_packet` until it returns nothing
      completes the delivery, unless the last payload is empty: that one payload is held
      back as 12 buffered bytes. */
  lemma Completeness(s: System)
    requires Inv(s) && s.up && s.sender.queue == [] && s.consumed == |s.wire|
    ensures var d := Drain(s.receiver);
            if EndsInEmpty(s.enqueued)
            then s.delivered + d.packets == s.enqueued[..|s.enqueued| - 1]
                 && d.rest == Receiver(None, Header(0))
            else s.delivered + d.packets == s.enqueued && d.rest == FRESH
  {
    hide Inv, Drain, Frames;
    var rest := NothingOnTheWire(s);
    DrainUnparsed(s.receiver);
    DrainAllFrames(rest);
    assert EndsInEmpty(s.enqueued) ==> s.enqueued[..|s.enqueued| - 1] == s.delivered + rest[..|rest| - 1];
  }

  /** Once the wire is empty the receiver holds exactly the frames not delivered yet. */
  lemma NothingOnTheWire(s: System) returns (rest: seq<Payload>)
    requires Inv(s) && s.up && s.sender.queue == [] && s.consumed == |s.wire|
    ensures s.enqueued == s.delivered + rest
    ensures Unparsed(s.receiver) == Frames(rest) && Settled(s.receiver)
    ensures EndsInEmpty(s.enqueued) <==> EndsInEmpty(rest)
  {
    hide Frame, Header, Frames, Unparsed;
    rest := s.enqueued[|s.delivered|..];
    var done: seq<Payload> :| WireIsFrames(s, done);
    assert done == s.enqueued;
    assert s.wire == Frames(s.enqueued) == s.wire[..s.consumed];
    FramesPrefix(s.delivered, s.enqueued);
    assert Unparsed(s.receiver) == s.wire[|Frames(s.delivered)|..];
    assert s.enqueued == s.delivered + rest;
  }

  /** Writing a parsed header out again does not change what a drain returns. */
  lemma DrainUnparsed(r: Receiver)
    requires Settled(r)
    ensures Drain(Receiver(None, Unparsed(r))) == Drain(r)
  {
    hide Header, ValidHeader, HeaderSize;
    if r.pending.Some? {
      var w := Unparsed(r);
      HeaderIsValid(r.pending.value);
      assert w[..HEADER_SIZE] == Header(r.pending.value);
      assert w[HEADER_SIZE..] == r.buf;
      assert Scan(Receiver(None, w)) == r;
    } else {
      assert [] + r.buf == r.buf;
    }
  }
}
