/** The data path of `mux::client`: `call`, and the loop that `mux::client::process` and
    `mux::server::process_client` run over received packets. */
module MuxEndpoints {
  import opened Bytes
  import opened Framing
  import opened Receiving
  import opened Sending
  import opened Packets
  import opened PacketProtos
  import opened Mux

  /** A fresh packet: the endpoint, then the bytes of the caller's packet, whatever offset
      its buffer has; so a packet that a handler was given can be passed on as it is. */
  method BuildCall(endpoint: Word, p: Packet) returns (bytes: Payload)
    requires p.Valid() && |p.Written()| + INITIAL_CAPACITY < WORD_LIMIT
    ensures bytes == PacketOf(Call(endpoint, p.Written()))
  {
    var n := p.Size();
    var body := p.buffer.mem[p.buffer.offset..p.buffer.offset + n];
    bytes := Joined(EncodeWord(endpoint), body);
  }

  /** Two writes into a fresh packet. */
  method Joined(front: seq<Byte>, body: seq<Byte>) returns (bytes: Payload)
    requires |front| == 4 && |body| + INITIAL_CAPACITY < WORD_LIMIT
    ensures bytes == front + body
  {
    var op := new Packet();
    assert op.Valid() && op.writePos == 0 && fresh(op.buffer) && fresh(op.buffer.mem);
    op.WriteData(front);
    assert op.Written() == front && op.writePos == 4;
    op.WriteData(body);
    bytes := op.buffer.mem[op.buffer.offset..op.writePos];
  }

  /** `call` on a connected client. */
  method SendCall(proto: PacketProto, endpoint: Word, p: Packet, reply: WriteReply)
    returns (ok: bool)
    requires proto.Valid() && p.Valid()
    requires |p.Written()| + 4 + HEADER_SIZE <= INT32_MAX
    requires proto.link.connected ==>
               Possible(Enqueue(proto.SenderView(), PacketOf(Call(endpoint, p.Written()))), reply)
    modifies proto`outQueue, proto`outBuffer, proto`outSent, proto.link
    ensures proto.Valid() && proto.ReceiverView() == old(proto.ReceiverView())
    ensures var sent := Enqueue(old(proto.SenderView()), PacketOf(Call(endpoint, old(p.Written()))));
            proto.SenderView() == if old(proto.link.connected)
                                  then Flush(sent, proto.link.stream, reply)
                                  else old(proto.SenderView())
    ensures ok == proto.link.connected == (old(proto.link.connected) && reply.Wrote?)
  {
    hide Flush, Enqueue, Possible, Sending.Valid, PacketOf, Sendable;
    var bytes := BuildCall(endpoint, p);
    assert Sendable(bytes) by {
      PacketSize(Call(endpoint, p.Written()));
    }
    ok := proto.WritePacket(bytes, reply);
  }

  lemma PacketSize(m: Message)
    requires m.Call? && |m.body| + 4 + HEADER_SIZE <= INT32_MAX
    ensures Fits(m) && Sendable(PacketOf(m))
  {
  }

  /** A received packet, ready to be read from its start. */
  method Arrived(bytes: Payload) returns (p: Packet)
    ensures fresh(p) && fresh(p.buffer) && p.CanRead() && p.buffer.offset == 0
    ensures p.Unread() == p.Written() == bytes
  {
    var buf := new Buffer(|bytes|);
    forall i | 0 <= i < |bytes| {
      buf.mem[i] := bytes[i];
    }
    assert buf.mem[..] == bytes;
    p := new Packet.FromBuffer(buf);
    assert buf.mem[0..] == bytes;
  }

  /** What one received packet leads to, and the packet as its handler sees it. */
  method HandlePacket(bytes: Payload, registered: set<Word>)
    returns (handled: seq<Dispatch>, p: Packet)
    ensures handled == DispatchOf(bytes, registered)
    ensures fresh(p) && p.Valid()
    ensures handled != [] ==> p.CanRead() && p.Unread() == p.Written() == handled[0].body
  {
    hide Decode, DispatchOf;
    p := Arrived(bytes);
    handled := [];
    DispatchIsDecoded(bytes, registered);
    var endpoint := p.ReadWord();
    var left := p.ReadBytesleft();
    if endpoint != HEARTBEAT && left > 0 && endpoint in registered {
      ghost var rest := p.Unread();
      p.SetStart();
      assert p.CanRead() && p.Written() == rest;
      handled := [Dispatch(endpoint, p.buffer.mem[p.buffer.offset..p.writePos])];
    }
  }

  /** Reading the endpoint off a packet decides what it leads to. */
  lemma DispatchIsDecoded(bytes: Payload, registered: set<Word>)
    ensures var d := Decode(AWord, bytes);
            && d.item.WordItem?
            && DispatchOf(bytes, registered)
               == if d.item.w != HEARTBEAT && d.rest != [] && d.item.w in registered
                  then [Dispatch(d.item.w, d.rest)] else []
  {
  }

  /** A handler passes the packet it was given on to another endpoint, as it is: what is
      enqueued is a call with exactly the bytes that the handler was given. */
  method PassOn(proto: PacketProto, bytes: Payload, registered: set<Word>, endpoint: Word, reply: WriteReply)
    returns (ok: bool)
    requires proto.Valid() && DispatchOf(bytes, registered) != []
    requires |bytes| + HEADER_SIZE <= INT32_MAX
    requires proto.link.connected ==>
               Possible(Enqueue(proto.SenderView(), PassedOn(bytes, registered, endpoint)), reply)
    modifies proto`outQueue, proto`outBuffer, proto`outSent, proto.link
    ensures proto.Valid() && proto.ReceiverView() == old(proto.ReceiverView())
    ensures var sent := Enqueue(old(proto.SenderView()), PassedOn(bytes, registered, endpoint));
            proto.SenderView() == if old(proto.link.connected)
                                  then Flush(sent, proto.link.stream, reply)
                                  else old(proto.SenderView())
    ensures ok == proto.link.connected == (old(proto.link.connected) && reply.Wrote?)
  {
    hide Flush, Enqueue, Possible, PacketOf, PacketProto.SendValid, PacketProto.RecvValid;
    var handled, p := HandlePacket(bytes, registered);
    DispatchIsShort(bytes, registered);
    ok := SendCall(proto, endpoint, p, reply);
  }

  /** The packet that passing on sends. */
  function PassedOn(bytes: Payload, registered: set<Word>, endpoint: Word): Payload
    requires DispatchOf(bytes, registered) != []
  {
    DispatchIsShort(bytes, registered);
    PacketOf(Call(endpoint, DispatchOf(bytes, registered)[0].body))
  }

  lemma DispatchIsShort(bytes: Payload, registered: set<Word>)
    requires DispatchOf(bytes, registered) != []
    ensures |DispatchOf(bytes, registered)[0].body| + 4 <= |bytes| || |bytes| < 4
    ensures |DispatchOf(bytes, registered)[0].body| + 4 < WORD_LIMIT
  {
  }

  /** The next receiver's handler is given what the first one was given. */
  lemma PassedOnArrives(bytes: Payload, registered: set<Word>, endpoint: Word, next: set<Word>)
    requires DispatchOf(bytes, registered) != []
    requires endpoint != HEARTBEAT && endpoint in next
    ensures DispatchOf(PassedOn(bytes, registered, endpoint), next)
            == [Dispatch(endpoint, DispatchOf(bytes, registered)[0].body)]
  {
    var body := DispatchOf(bytes, registered)[0].body;
    var p := PassedOn(bytes, registered, endpoint);
    DecodeEncodeWord(endpoint);
    assert p[..4] == EncodeWord(endpoint) && p[4..] == body;
  }

  /** One `read_packet` call of the loop, in terms of what the loop drains. */
  method NextOfDrain(proto: PacketProto, reply: ReadReply) returns (p: Option<Payload>)
    requires proto.Valid() && proto.link.connected
    modifies proto`inMagic, proto`inSize, proto`inHash, proto.inBuffer, proto.link
    ensures proto.Valid() && proto.SenderView() == old(proto.SenderView())
    ensures p.Some? ==>
              && proto.link.connected
              && Drain(old(proto.ReceiverView()))
                 == Drained([p.value] + Drain(proto.ReceiverView()).packets,
                            Drain(proto.ReceiverView()).rest)
              && Backlog(proto.ReceiverView()) < Backlog(old(proto.ReceiverView()))
    ensures p.None? ==>
              && (proto.link.connected <==> reply.Got?)
              && Drain(old(proto.ReceiverView())).packets == []
              && proto.ReceiverView()
                 == ReadStep(Drain(old(proto.ReceiverView())).rest, proto.link.stream, reply).next
  {
    hide PacketProto.SendValid, Drain, ReadStep, Backlog;
    DrainOne(proto.ReceiverView(), proto.link.stream, reply);
    p := proto.ReadPacket(reply);
  }

  /** Reads and hands out packets until `read_packet` returns none. */
  method DispatchAll(proto: PacketProto, registered: set<Word>, reply: ReadReply)
    returns (handled: seq<Dispatch>)
    requires proto.Valid() && proto.link.connected
    modifies proto`inMagic, proto`inSize, proto`inHash, proto.inBuffer, proto.link
    ensures proto.Valid() && proto.SenderView() == old(proto.SenderView())
    ensures handled == Dispatches(Drain(old(proto.ReceiverView())).packets, registered)
    ensures proto.ReceiverView()
            == ReadStep(Drain(old(proto.ReceiverView())).rest, proto.link.stream, reply).next
    ensures proto.link.connected <==> reply.Got?
  {
    hide PacketProto.SendValid, PacketProto.SenderView, Drain, ReadStep, Backlog, Dispatches, DispatchOf;
    handled := [];
    ghost var packets: seq<Payload> := [];
    NoDispatches(registered);
    ghost var all := Drain(proto.ReceiverView());
    var more := true;
    while more
      invariant proto.Valid() && proto.SenderView() == old(proto.SenderView())
      invariant handled == Dispatches(packets, registered)
      invariant more ==>
                  && proto.link.connected
                  && all.packets == packets + Drain(proto.ReceiverView()).packets
                  && all.rest == Drain(proto.ReceiverView()).rest
      invariant !more ==>
                  && all.packets == packets
                  && proto.ReceiverView() == ReadStep(all.rest, proto.link.stream, reply).next
                  && (proto.link.connected <==> reply.Got?)
      decreases more, Backlog(proto.ReceiverView())
    {
      var p := NextOfDrain(proto, reply);
      if p == None {
        more := false;
        assert packets + [] == packets;
      } else {
        var one, _ := HandlePacket(p.value, registered);
        DispatchesConcat(packets, [p.value], registered);
        DispatchesOne(p.value, registered);
        Assoc(packets, [p.value], Drain(proto.ReceiverView()).packets);
        packets := packets + [p.value];
        handled := handled + one;
      }
    }
  }

  lemma NoDispatches(registered: set<Word>)
    ensures Dispatches([], registered) == []
  {
  }

  lemma DispatchesOne(p: Payload, registered: set<Word>)
    ensures Dispatches([p], registered) == DispatchOf(p, registered)
  {
    hide DispatchOf;
    assert [p][1..] == [];
  }

  /** One `read_packet` call on the way to a drained receiver. */
  lemma DrainOne(r: Receiver, stream: bool, reply: ReadReply)
    ensures var read := ReadStep(r, stream, reply);
            if read.packet.Some? then
              && Drain(r) == Drained([read.packet.value] + Drain(read.next).packets,
                                     Drain(read.next).rest)
              && Backlog(read.next) < Backlog(r)
            else
              && Drain(r).packets == []
              && read.next == ReadStep(Drain(r).rest, stream, reply).next
  {
    hide ValidHeader, Accepts, HeaderSize;
  }
}
