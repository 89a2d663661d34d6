/** `packet_proto` of src/proto/packet_proto.cpp.  What the transport answers to `read_raw`
    and `write_raw` is a parameter of the call that asks. */
module PacketProtos {
  import opened Bytes
  import opened Fnv1a
  import opened FifoBuffers
  import opened Framing
  import opened Receiving
  import opened Sending

  /** The part of `interfaces::client` that the protocol looks at. */
  class Link {
    const stream: bool
    var connected: bool

    constructor (stream: bool)
      ensures this.stream == stream && connected
    {
      this.stream := stream;
      connected := true;
    }

    method Close()
      modifies this
      ensures !connected
    {
      connected := false;
    }
  }

  lemma ScanPending(r: Receiver)
    ensures r.pending.Some? ==> Scan(r) == r
  {
  }

  class PacketProto {
    const link: Link
    // the receiving half
    const inBuffer: FifoBuffer
    var inMagic: Word
    var inSize: Word
    var inHash: Word
    // the sending half
    var outQueue: seq<Payload>
    var outBuffer: array?<Byte>
    var outSent: nat

    ghost predicate Valid()
      reads this, inBuffer, outBuffer
    {
      RecvValid() && SendValid()
    }

    ghost predicate RecvValid()
      reads this`inMagic, inBuffer
    {
      inBuffer.Valid() && (inMagic == 0 || inMagic == MAGIC)
    }

    ghost predicate SendValid()
      reads this`outQueue, this`outBuffer, this`outSent, outBuffer
    {
      Sending.Valid(SenderView()) && forall p :: p in outQueue ==> Sendable(p)
    }

    /** The receiving half as a value. */
    ghost function ReceiverView(): Receiver
      reads this`inMagic, this`inSize, inBuffer, inBuffer.buffer
      requires inBuffer.Valid()
    {
      Receiver(if inMagic == MAGIC then Some(inSize) else None, inBuffer.Contents())
    }

    /** The sending half as a value. */
    ghost function SenderView(): Sender
      reads this`outQueue, this`outBuffer, this`outSent, outBuffer
    {
      Sender(outQueue, if outBuffer == null then None else Some(outBuffer[..]), outSent)
    }

    constructor (link: Link)
      ensures Valid() && this.link == link && fresh(inBuffer)
      ensures ReceiverView() == FRESH && SenderView() == IDLE
    {
      this.link := link;
      inBuffer := new FifoBuffer();
      inMagic, inSize, inHash := 0, 0, 0;
      outQueue := [];
      outBuffer := null;
      outSent := 0;
    }

    method IsValidPktHeader(magic: Word, size: Word, hash: Word) returns (valid: bool)
      ensures valid <==> magic == MAGIC && Hash(EncodeWord(magic) + EncodeWord(size)) == hash
    {
      if magic != MAGIC {
        return false;
      }
      var h := ComputeFnv1a(EncodeWord(magic) + EncodeWord(size));
      valid := h == hash;
    }

    /** One turn of the loop that looks for a header. */
    method TryHeader() returns (found: bool)
      requires RecvValid() && inMagic == 0 && |inBuffer.Contents()| > HEADER_SIZE
      modifies this`inMagic, this`inSize, this`inHash, inBuffer
      ensures RecvValid()
      ensures var b := old(inBuffer.Contents());
              && (found <==> ValidHeader(b[..HEADER_SIZE]))
              && ReceiverView() == if found
                                   then Receiver(Some(HeaderSize(b[..HEADER_SIZE])), b[HEADER_SIZE..])
                                   else Receiver(None, b[1..])
      ensures inBuffer.buffer != old(inBuffer.buffer) && inBuffer.buffer != null ==>
                fresh(inBuffer.buffer)
    {
      hide Hash;
      var h := inBuffer.Peek(HEADER_SIZE);
      inMagic, inSize, inHash := DecodeWord(h[..4]), DecodeWord(h[4..8]), DecodeWord(h[8..]);
      EncodeDecodeWord(h[..4]);
      EncodeDecodeWord(h[4..8]);
      assert h[..4] + h[4..8] == h[..8];
      found := IsValidPktHeader(inMagic, inSize, inHash);
      if found {
        var rcvd := inBuffer.PopFront(HEADER_SIZE);
      } else {
        inMagic := 0;
        var rcvd := inBuffer.PopFront(1);
      }
    }

    /** The loop that looks for a header. */
    method FindHeader()
      requires RecvValid() && inMagic == 0
      modifies this`inMagic, this`inSize, this`inHash, inBuffer
      ensures RecvValid()
      ensures ReceiverView() == Scan(old(ReceiverView()))
      ensures inBuffer.buffer != old(inBuffer.buffer) && inBuffer.buffer != null ==>
                fresh(inBuffer.buffer)
    {
      hide ValidHeader, HeaderSize;
      var n := inBuffer.Size();
      var found := false;
      while !found && n > HEADER_SIZE
        invariant RecvValid() && n == |inBuffer.Contents()|
        invariant !found ==> inMagic == 0
        invariant found ==> inMagic == MAGIC
        invariant Scan(ReceiverView()) == Scan(old(ReceiverView()))
        invariant inBuffer.buffer != old(inBuffer.buffer) && inBuffer.buffer != null ==>
                    fresh(inBuffer.buffer)
        decreases n
      {
        found := TryHeader();
        n := inBuffer.Size();
      }
    }

    method PassesFilter(d: seq<Byte>) returns (ok: bool)
      ensures ok <==> Accepts(d)
    {
      hide Hash;
      if |d| < HEADER_SIZE {
        return false;
      }
      var h := d[..HEADER_SIZE];
      EncodeDecodeWord(h[..4]);
      EncodeDecodeWord(h[4..8]);
      assert h[..4] + h[4..8] == h[..8];
      var valid := IsValidPktHeader(DecodeWord(h[..4]), DecodeWord(h[4..8]), DecodeWord(h[8..]));
      return valid && DecodeWord(h[4..8]) == |d| - HEADER_SIZE;
    }

    /** Removes the packet that the parsed header announced. */
    method TakeComplete() returns (packet: Payload)
      requires RecvValid() && Ready(ReceiverView())
      modifies this`inMagic, inBuffer
      ensures RecvValid()
      ensures packet == NextPacket(old(ReceiverView()))
      ensures ReceiverView() == TakePacket(old(ReceiverView()))
    {
      var buf := new Byte[inSize];
      var rcvd := inBuffer.PopFrontInto(buf, inSize);
      inMagic := 0;
      packet := buf[..];
    }

    /** Puts what `read_raw` returned behind the buffered bytes, unless the link carries
        datagrams and this is not a whole packet. */
    method Fetch(data: seq<Byte>)
      requires RecvValid()
      modifies inBuffer
      ensures RecvValid()
      ensures ReceiverView() == if link.stream || Accepts(data)
                                then Append(old(ReceiverView()), data)
                                else old(ReceiverView())
    {
      hide Accepts;
      if !link.stream {
        var passes := PassesFilter(data);
        if !passes {
          return;
        }
      }
      inBuffer.PushBack(data, |data|);
      assert data[..|data|] == data;
    }

    /** `read_packet`: one step of the receiver, and the sender is not touched. */
    method ReadPacket(reply: ReadReply) returns (packet: Option<Payload>)
      requires Valid()
      modifies this`inMagic, this`inSize, this`inHash, inBuffer, link
      ensures Valid() && SenderView() == old(SenderView())
      ensures !old(link.connected) ==>
                packet == None && ReceiverView() == old(ReceiverView()) && !link.connected
      ensures old(link.connected) ==>
                Read(packet, ReceiverView()) == ReadStep(old(ReceiverView()), link.stream, reply)
      ensures old(link.connected) ==> (link.connected <==> packet.Some? || reply.Got?)
    {
      hide Scan, Accepts, SendValid;
      if !link.connected {
        return None;
      }
      ScanPending(ReceiverView());
      if inMagic == 0 {
        FindHeader();
      }
      assert ReceiverView() == Scan(old(ReceiverView()));
      var n := inBuffer.Size();
      if inMagic == MAGIC && n >= inSize {
        var p := TakeComplete();
        return Some(p);
      }
      if reply.ReadDown? {
        link.Close();
        return None;
      }
      Fetch(reply.data);
      return None;
    }

    /** `write_packet`: the packet joins the queue, then one `process`. */
    method WritePacket(p: Payload, reply: WriteReply) returns (ok: bool)
      requires Valid() && Sendable(p)
      requires link.connected ==> Possible(Enqueue(SenderView(), p), reply)
      modifies this`outQueue, this`outBuffer, this`outSent, link
      ensures Valid() && ReceiverView() == old(ReceiverView())
      ensures SenderView() == if old(link.connected)
                              then Flush(old(Enqueue(SenderView(), p)), link.stream, reply)
                              else old(SenderView())
      ensures link.connected == (old(link.connected) && reply.Wrote?)
      ensures ok == link.connected
    {
      if !link.connected {
        return false;
      }
      outQueue := outQueue + [p];
      ok := Process(reply);
    }

    /** `process`: sends what the transport takes of the current frame. */
    method Process(reply: WriteReply) returns (ok: bool)
      requires Valid()
      requires link.connected ==> Possible(SenderView(), reply)
      modifies this`outQueue, this`outBuffer, this`outSent, link
      ensures Valid() && ReceiverView() == old(ReceiverView())
      ensures SenderView() == if old(link.connected)
                              then Flush(old(SenderView()), link.stream, reply)
                              else old(SenderView())
      ensures link.connected
              == (old(link.connected) && (old(outQueue) == [] || reply.Wrote?))
      ensures ok == link.connected
    {
      hide Frame;
      if !link.connected {
        return false;
      }
      if outQueue == [] {
        return true;
      }
      if outBuffer == null {
        BuildFrame();
      }
      match reply
      case WriteDown(_) =>
        link.Close();
        return false;
      case Wrote(sent) =>
        outSent := outSent + sent;
        if outSent == outBuffer.Length {
          outQueue := outQueue[1..];
          outBuffer := null;
          outSent := 0;
        } else if !link.stream {
          // a datagram went out short: the next one starts over
          outSent := 0;
        }
        return true;
    }

    /** The front packet's header and payload in one buffer. */
    method BuildFrame()
      requires Valid() && outQueue != [] && outBuffer == null
      modifies this`outBuffer, this`outSent
      ensures SenderView() == Load(old(SenderView()))
      ensures outBuffer != null && fresh(outBuffer) && outBuffer.Length >= HEADER_SIZE
    {
      var p := outQueue[0];
      var fields := EncodeWord(MAGIC) + EncodeWord(|p|);
      var hash := ComputeFnv1a(fields);
      var bytes := fields + EncodeWord(hash);
      var buf := new Byte[HEADER_SIZE + |p|];
      forall i | 0 <= i < HEADER_SIZE {
        buf[i] := bytes[i];
      }
      forall i | 0 <= i < |p| {
        buf[HEADER_SIZE + i] := p[i];
      }
      assert buf[..] == Header(|p|) + p;
      outBuffer := buf;
      outSent := 0;
    }
  }
}
