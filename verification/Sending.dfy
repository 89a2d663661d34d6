/** What `packet_proto::write_packet` and `packet_proto::process` do to the sender's state. */
module Sending {
  import opened Bytes
  import opened Fnv1a
  import opened Framing

  /** `queue` holds the packets not sent to the end; `out` is the frame being sent, if it
      has been built, and `sent` how much of it the transport has taken. */
  datatype Sender = Sender(queue: seq<Payload>, out: Option<seq<Byte>>, sent: nat)

  /** What `write_raw` answers: some number of bytes taken, or that the link is down, in
      which case a few bytes may have gone out all the same. */
  datatype WriteReply = WriteDown(leaked: nat) | Wrote(count: nat)

  const IDLE := Sender([], None, 0)

  /** A frame must have a size that `write_raw` can take as an `int32_t`. */
  predicate Sendable(p: seq<Byte>) {
    |p| + HEADER_SIZE <= INT32_MAX
  }

  ghost predicate Valid(s: Sender) {
    && (s.out.None? ==> s.sent == 0)
    && (s.out.Some? ==> s.queue != [] && s.out.value == Frame(s.queue[0])
                        && s.sent < |s.out.value|)
  }

  function Enqueue(s: Sender, p: Payload): Sender {
    s.(queue := s.queue + [p])
  }

  /** The frame of the front packet, built once. */
  function Load(s: Sender): Sender {
    if s.queue != [] && s.out.None? then Sender(s.queue, Some(Frame(s.queue[0])), 0) else s
  }

  /** The bytes handed to `write_raw`. */
  function Offered(s: Sender): seq<Byte> {
    var l := Load(s);
    if l.queue == [] || l.out.None? || l.sent > |l.out.value| then [] else l.out.value[l.sent..]
  }

  /** The transport takes no more than it is offered. */
  predicate Possible(s: Sender, reply: WriteReply) {
    match reply
    case WriteDown(leaked) => leaked <= |Offered(s)|
    case Wrote(count) => count <= |Offered(s)|
  }

  /** The offered bytes that reach the wire. */
  function Emitted(s: Sender, reply: WriteReply): seq<Byte>
    requires Possible(s, reply)
  {
    match reply
    case WriteDown(leaked) => Offered(s)[..leaked]
    case Wrote(count) => Offered(s)[..count]
  }

  /** One `process` call that finds the client connected. */
  function Flush(s: Sender, stream: bool, reply: WriteReply): Sender {
    var l := Load(s);
    if l.queue == [] || l.out.None? || reply.WriteDown? then l
    else if l.sent + reply.count == |l.out.value| then Sender(l.queue[1..], None, 0)
    else if stream then l.(sent := l.sent + reply.count)
    else l.(sent := 0)
  }

  /** The part of the current frame that is out. */
  function PartSent(s: Sender): seq<Byte> {
    if s.out.None? || s.sent > |s.out.value| then [] else s.out.value[..s.sent]
  }

  lemma EnqueueValid(s: Sender, p: Payload)
    requires Valid(s)
    ensures Valid(Enqueue(s, p)) && PartSent(Enqueue(s, p)) == PartSent(s)
  {
  }

  /** What is out of the current frame and what a flush adds to it. */
  lemma EmittedExtendsPart(s: Sender, reply: WriteReply)
    requires Valid(s) && Possible(s, reply) && s.queue != []
    ensures PartSent(s) + Emitted(s, reply) <= Frame(s.queue[0])
    ensures reply.Wrote? ==>
              var t := Flush(s, true, reply);
              if |PartSent(s) + Emitted(s, reply)| == |Frame(s.queue[0])|
              then t == Sender(s.queue[1..], None, 0)
              else t.queue == s.queue && PartSent(t) == PartSent(s) + Emitted(s, reply)
    ensures reply.WriteDown? ==> Flush(s, true, reply) == Load(s)
  {
    hide Frame;
    var l := Load(s);
    var f := l.out.value;
    var count := match reply case WriteDown(n) => n case Wrote(n) => n;
    assert PartSent(s) == f[..l.sent];
    assert Emitted(s, reply) == f[l.sent..][..count];
    assert f[..l.sent] + f[l.sent..][..count] == f[..l.sent + count];
  }

  lemma FlushKeepsValid(s: Sender, reply: WriteReply)
    requires Valid(s) && Possible(s, reply)
    ensures Valid(Flush(s, true, reply))
  {
    hide Header;
  }

  /** The frames of a list, then a part of the next frame, are a part from the front of all
      the frames. */
  lemma PartOfStream(done: seq<Payload>, queue: seq<Payload>, part: seq<Byte>)
    requires queue != [] && part <= Frame(queue[0])
    ensures Frames(done) + part <= Frames(done + queue)
    ensures part == Frame(queue[0]) ==> Frames(done + [queue[0]]) == Frames(done) + part
  {
    hide Frame;
    FramesConcat(done, queue);
    FramesConcat(done, [queue[0]]);
    FramesOne(queue[0]);
    assert part <= Frames(queue);
  }

  /** One flush on a stream link: what reaches the wire is the next stretch of the stream of
      frames.  Here `done` are the packets that have left the queue. */
  lemma FlushExtendsStream(s: Sender, done: seq<Payload>, reply: WriteReply)
    returns (done': seq<Payload>)
    requires Valid(s) && Possible(s, reply)
    ensures Valid(Flush(s, true, reply))
    ensures done' + Flush(s, true, reply).queue == done + s.queue
    ensures reply.Wrote? ==>
              Frames(done) + PartSent(s) + Emitted(s, reply)
              == Frames(done') + PartSent(Flush(s, true, reply))
    ensures reply.WriteDown? ==> done' == done && PartSent(Flush(s, true, reply)) == PartSent(s)
    ensures Frames(done) + PartSent(s) + Emitted(s, reply) <= Frames(done + s.queue)
  {
    hide Frame, Frames, Emitted, Possible;
    FlushKeepsValid(s, reply);
    done' := done;
    if s.queue == [] {
      NothingEmitted(s, reply);
      assert done + s.queue == done;
    } else {
      var part := PartSent(s) + Emitted(s, reply);
      EmittedExtendsPart(s, reply);
      Assoc(Frames(done), PartSent(s), Emitted(s, reply));
      PartOfStream(done, s.queue, part);
      if reply.Wrote? && |part| == |Frame(s.queue[0])| {
        done' := done + [s.queue[0]];
        assert done' + s.queue[1..] == done + s.queue;
        assert Frames(done') + [] == Frames(done');
      }
    }
  }

  lemma NothingEmitted(s: Sender, reply: WriteReply)
    requires Valid(s) && Possible(s, reply) && s.queue == []
    ensures Emitted(s, reply) == [] && PartSent(s) == [] && Flush(s, true, reply) == s
  {
  }

  /** What is handed to the transport for a new front packet, byte by byte: 0xFF 00 00 00,
      the size with its low byte first, the hash of these eight bytes likewise, the payload. */
  lemma OfferedLayout(s: Sender, i: nat)
    requires Valid(s) && s.queue != [] && s.sent == 0 && i < 4
    ensures var f, p := Offered(s), s.queue[0];
            && |f| == HEADER_SIZE + |p|
            && f[i] == (if i == 0 then 0xFF else 0)
            && f[4 + i] == |p| / Pow2(8 * i) % 0x100
            && f[8 + i] == Hash(f[..8]) / Pow2(8 * i) % 0x100
            && f[HEADER_SIZE..] == p
  {
    hide Header, Pow2, Hash;
    var f, p := Offered(s), s.queue[0];
    HeaderLayout(|p|, i);
    assert f == Header(|p|) + p;
    assert f[..8] == Header(|p|)[..8];
  }

  /** On a datagram link every send starts at the first byte of a frame. */
  lemma DatagramSendsWholeFrames(s: Sender, reply: WriteReply)
    requires Valid(s) && s.sent == 0 && Possible(s, reply)
    ensures Offered(s) == if s.queue == [] then [] else Frame(s.queue[0])
    ensures Valid(Flush(s, false, reply)) && Flush(s, false, reply).sent == 0
    ensures Flush(s, false, reply).queue
            == if s.queue != [] && reply == Wrote(|Frame(s.queue[0])|) then s.queue[1..]
               else s.queue
  {
    hide Header;
  }
}
