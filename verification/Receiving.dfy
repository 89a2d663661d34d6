/** What `packet_proto::read_packet` computes, as functions on the receiver's state, and
    the stream properties of those functions. */
module Receiving {
  import opened Bytes
  import opened Framing

  /** `pending` is the size announced by a header that was parsed already; `buf` holds the
      bytes buffered behind it. */
  datatype Receiver = Receiver(pending: Option<Word>, buf: seq<Byte>)

  /** What `read_raw` answers: the link is down, or some bytes (possibly none). */
  datatype ReadReply = ReadDown | Got(data: seq<Byte>)

  /** One `read_packet` call, and a maximal series of calls that return packets. */
  datatype Read = Read(packet: Option<Payload>, next: Receiver)
  datatype Drained = Drained(packets: seq<Payload>, rest: Receiver)

  const FRESH := Receiver(None, [])

  /** The header loop: drop one byte at a time until a valid header is found or no more
      than a header's worth of bytes is left. */
  function Scan(r: Receiver): (s: Receiver)
    ensures |s.buf| <= |r.buf|
    ensures s.pending.None? ==> |s.buf| <= HEADER_SIZE
    ensures s.pending.Some? ==> s == r || |s.buf| + HEADER_SIZE <= |r.buf|
    decreases |r.buf|
  {
    if r.pending.Some? || |r.buf| <= HEADER_SIZE then r
    else if ValidHeader(r.buf[..HEADER_SIZE]) then
      Receiver(Some(HeaderSize(r.buf[..HEADER_SIZE])), r.buf[HEADER_SIZE..])
    else Scan(Receiver(None, r.buf[1..]))
  }

  predicate Ready(r: Receiver) {
    r.pending.Some? && |r.buf| >= r.pending.value
  }

  /** The datagram filter: a whole header, valid, announcing exactly the rest. */
  predicate Accepts(d: seq<Byte>) {
    && |d| >= HEADER_SIZE
    && ValidHeader(d[..HEADER_SIZE])
    && HeaderSize(d[..HEADER_SIZE]) == |d| - HEADER_SIZE
  }

  /** The state after the complete packet of a ready state has been taken. */
  function TakePacket(r: Receiver): Receiver
    requires Ready(r)
  {
    Receiver(None, r.buf[r.pending.value..])
  }

  function NextPacket(r: Receiver): Payload
    requires Ready(r)
  {
    r.buf[..r.pending.value]
  }

  function Append(r: Receiver, more: seq<Byte>): Receiver {
    Receiver(r.pending, r.buf + more)
  }

  /** One call of `read_packet`.  `reply` is what `read_raw` would answer; it is looked at
      only if no packet is complete. */
  function ReadStep(r: Receiver, stream: bool, reply: ReadReply): Read {
    var s := Scan(r);
    if Ready(s) then Read(Some(NextPacket(s)), TakePacket(s))
    else if reply.Got? && (stream || Accepts(reply.data)) then Read(None, Append(s, reply.data))
    else Read(None, s)
  }

  /** How many bytes and headers are still unread; every packet returned lowers it. */
  function Backlog(r: Receiver): nat {
    2 * |r.buf| + if r.pending.Some? then 1 else 0
  }

  /** Calling `read_packet` for as long as it returns packets. */
  function Drain(r: Receiver): (d: Drained)
    ensures !Ready(d.rest) && Scan(d.rest) == d.rest
    decreases Backlog(r)
  {
    var s := Scan(r);
    if Ready(s) then
      var d := Drain(TakePacket(s));
      Drained([NextPacket(s)] + d.packets, d.rest)
    else Drained([], s)
  }

  // ---------- how the bytes are cut into reads does not matter ----------

  /** Bytes that arrive later cannot change what the header loop already decided. */
  lemma {:induction false} ScanThenAppend(r: Receiver, more: seq<Byte>)
    ensures Scan(Append(r, more)) == Scan(Append(Scan(r), more))
    decreases |r.buf|
  {
    hide ValidHeader, HeaderSize, Accepts;
    if r.pending.None? && |r.buf| > HEADER_SIZE {
      assert (r.buf + more)[..HEADER_SIZE] == r.buf[..HEADER_SIZE];
      if ValidHeader(r.buf[..HEADER_SIZE]) {
        assert (r.buf + more)[HEADER_SIZE..] == r.buf[HEADER_SIZE..] + more;
      } else {
        assert (r.buf + more)[1..] == r.buf[1..] + more;
        ScanThenAppend(Receiver(None, r.buf[1..]), more);
      }
    }
  }

  lemma ReadyThenAppend(s: Receiver, more: seq<Byte>)
    requires Ready(s)
    ensures Scan(Append(s, more)) == Append(s, more) && Ready(Append(s, more))
    ensures NextPacket(Append(s, more)) == NextPacket(s)
    ensures TakePacket(Append(s, more)) == Append(TakePacket(s), more)
  {
    var n := s.pending.value;
    assert (s.buf + more)[..n] == s.buf[..n];
    assert (s.buf + more)[n..] == s.buf[n..] + more;
  }

  /** Draining a buffer, garbage included, equals draining a first part of it, then the
      rest: same packets, same final state. */
  lemma {:induction false} DrainInParts(r: Receiver, more: seq<Byte>)
    ensures Drain(Append(r, more)).packets
            == Drain(r).packets + Drain(Append(Drain(r).rest, more)).packets
    ensures Drain(Append(r, more)).rest == Drain(Append(Drain(r).rest, more)).rest
    decreases Backlog(r)
  {
    hide Scan, Drain, Append, Ready, NextPacket, TakePacket, Backlog;
    var s, whole := Scan(r), Append(r, more);
    ScanThenAppend(r, more);
    DrainUnfold(r);
    DrainUnfold(whole);
    if Ready(s) {
      var t := TakePacket(s);
      ReadyThenAppend(s, more);
      DrainInParts(t, more);
      Assoc([NextPacket(s)], Drain(t).packets, Drain(Append(Drain(t).rest, more)).packets);
    } else {
      DrainUnfold(Append(s, more));
      assert [] + Drain(Append(s, more)).packets == Drain(Append(s, more)).packets;
    }
  }

  lemma DrainUnfold(r: Receiver)
    ensures var s := Scan(r);
            && (!Ready(s) ==> Drain(r) == Drained([], s))
            && (Ready(s) ==>
                  && Backlog(TakePacket(s)) < Backlog(r)
                  && Drain(r).packets == [NextPacket(s)] + Drain(TakePacket(s)).packets
                  && Drain(r).rest == Drain(TakePacket(s)).rest)
  {
    hide Scan;
  }

  /** A run of `read_packet` calls. */
  datatype ReadRun = ReadRun(delivered: seq<Payload>, consumed: seq<Byte>, end: Receiver)

  function AsSeq(p: Option<Payload>): seq<Payload> {
    if p.None? then [] else [p.value]
  }

  /** The bytes this call takes from a stream link. */
  function Taken(r: Receiver, reply: ReadReply): seq<Byte> {
    if Ready(Scan(r)) || reply.ReadDown? then [] else reply.data
  }

  function RunReads(r: Receiver, replies: seq<ReadReply>): ReadRun
    decreases |replies|
  {
    if replies == [] then ReadRun([], [], r)
    else
      var read := ReadStep(r, true, replies[0]);
      var run := RunReads(read.next, replies[1..]);
      ReadRun(AsSeq(read.packet) + run.delivered, Taken(r, replies[0]) + run.consumed, run.end)
  }

  lemma DrainAfterRead(r: Receiver, reply: ReadReply, later: seq<Byte>)
    ensures var read := ReadStep(r, true, reply);
            var d := Drain(Append(read.next, later));
            Drain(Append(r, Taken(r, reply) + later))
            == Drained(AsSeq(read.packet) + d.packets, d.rest)
  {
    hide ValidHeader, HeaderSize, Accepts;
    var s := Scan(r);
    var taken := Taken(r, reply);
    ScanThenAppend(r, taken + later);
    if Ready(s) {
      assert taken + later == later;
      ReadyThenAppend(s, later);
    } else {
      assert s.buf + (taken + later) == (s.buf + taken) + later;
      assert s.buf + [] == s.buf;
      var t := ReadStep(r, true, reply).next;
      assert t == Append(s, taken);
      assert Append(s, taken + later) == Append(t, later);
      var d := Drain(Append(t, later));
      assert [] + d.packets == d.packets;
    }
  }

  /** What a run has returned plus what its final buffer would still yield is a function of
      the bytes consumed alone. */
  lemma {:induction false} RunIsDrain(r: Receiver, replies: seq<ReadReply>)
    ensures var run := RunReads(r, replies);
            Drain(Append(r, run.consumed))
            == Drained(run.delivered + Drain(run.end).packets, Drain(run.end).rest)
    decreases |replies|
  {
    hide ValidHeader, HeaderSize, Accepts;
    if replies == [] {
      assert Append(r, []) == r;
      assert [] + Drain(r).packets == Drain(r).packets;
    } else {
      var read := ReadStep(r, true, replies[0]);
      var later := RunReads(read.next, replies[1..]);
      RunIsDrain(read.next, replies[1..]);
      DrainAfterRead(r, replies[0], later.consumed);
      assert AsSeq(read.packet) + (later.delivered + Drain(later.end).packets)
          == (AsSeq(read.packet) + later.delivered) + Drain(later.end).packets;
    }
  }

  /** Chunking invariance: whatever bytes a link delivers, and however it cuts them, two
      receivers that have taken the same bytes and returned all they can have returned the
      same packets and are in the same state up to the header loop. */
  lemma ChunkingInvariance(r: Receiver, one: seq<ReadReply>, two: seq<ReadReply>)
    requires RunReads(r, one).consumed == RunReads(r, two).consumed
    requires !Ready(Scan(RunReads(r, one).end)) && !Ready(Scan(RunReads(r, two).end))
    ensures RunReads(r, one).delivered == RunReads(r, two).delivered
    ensures Scan(RunReads(r, one).end) == Scan(RunReads(r, two).end)
  {
    hide ValidHeader, HeaderSize, Accepts;
    RunIsDrain(r, one);
    RunIsDrain(r, two);
    var a, b := RunReads(r, one), RunReads(r, two);
    assert Drain(a.end) == Drained([], Scan(a.end)) && Drain(b.end) == Drained([], Scan(b.end));
    assert a.delivered + [] == a.delivered && b.delivered + [] == b.delivered;
  }

  // ---------- enough reads ----------

  /** Reads at which nothing new arrives. */
  function QuietReads(n: nat): (replies: seq<ReadReply>)
    ensures |replies| == n
  {
    seq(n, i => Got([]))
  }

  lemma ReadQuietly(r: Receiver)
    ensures var read := ReadStep(r, true, Got([]));
            && Drain(r).packets == AsSeq(read.packet) + Drain(read.next).packets
            && Drain(r).rest == Drain(read.next).rest
            && (read.packet.Some? ==> Backlog(read.next) < Backlog(r))
            && (read.packet.None? ==> Drain(read.next).packets == [])
  {
    hide ValidHeader, HeaderSize, Accepts;
    var s := Scan(r);
    if !Ready(s) {
      assert Append(s, []) == s;
      ScanTwice(r);
    }
  }

  lemma {:induction false} ScanTwice(r: Receiver)
    ensures Scan(Scan(r)) == Scan(r)
    decreases |r.buf|
  {
    hide ValidHeader, HeaderSize;
    if r.pending.None? && |r.buf| > HEADER_SIZE && !ValidHeader(r.buf[..HEADER_SIZE]) {
      ScanTwice(Receiver(None, r.buf[1..]));
    }
  }

  /** As many further calls as there is backlog return everything that can be returned. */
  lemma {:induction false} EnoughReads(r: Receiver, n: nat)
    requires n >= Backlog(r) || Drain(r).packets == []
    ensures RunReads(r, QuietReads(n)).delivered == Drain(r).packets
    decreases n
  {
    hide Scan, ReadStep, Drain;
    ReadQuietly(r);
    if n == 0 {
      NoBacklog(r);
    } else {
      var read := ReadStep(r, true, Got([]));
      assert QuietReads(n)[0] == Got([]) && QuietReads(n)[1..] == QuietReads(n - 1);
      EnoughReads(read.next, n - 1);
    }
  }

  lemma NoBacklog(r: Receiver)
    ensures Backlog(r) == 0 ==> Drain(r).packets == []
  {
  }

  // ---------- an uncorrupted stream ----------

  /** The bytes from the last packet boundary on: the parsed header, if any, written out
      again, then the buffer. */
  function Unparsed(r: Receiver): seq<Byte> {
    (if r.pending.Some? then Header(r.pending.value) else []) + r.buf
  }

  /** `r` stands inside a stream of frames. */
  ghost predicate Aligned(r: Receiver, ps: seq<Payload>) {
    Unparsed(r) <= Frames(ps)
  }

  lemma FrameHead(w: seq<Byte>, ps: seq<Payload>)
    requires w <= Frames(ps) && |w| >= HEADER_SIZE
    ensures ps != [] && w[..HEADER_SIZE] == Header(|ps[0]|)
    ensures |w| >= HEADER_SIZE + |ps[0]| ==>
              && w[HEADER_SIZE..HEADER_SIZE + |ps[0]|] == ps[0]
              && w[HEADER_SIZE + |ps[0]|..] <= Frames(ps[1..])
  {
    var f := Frame(ps[0]);
    assert w[..HEADER_SIZE] == Frames(ps)[..HEADER_SIZE] == f[..HEADER_SIZE];
    var n := HEADER_SIZE + |ps[0]|;
    assert |f| == n;
    if |w| >= n {
      assert w[..n] == Frames(ps)[..n] == f;
      assert w[HEADER_SIZE..n] == w[..n][HEADER_SIZE..] == ps[0];
      assert Frames(ps)[n..] == Frames(ps[1..]);
    }
  }

  lemma PendingAligned(s: Receiver, ps: seq<Payload>)
    requires Aligned(s, ps) && s.pending.Some?
    ensures ps != [] && s.pending.value == |ps[0]|
    ensures Ready(s) ==> NextPacket(s) == ps[0] && Aligned(TakePacket(s), ps[1..])
  {
    hide ValidHeader, HeaderSize, Header, Accepts;
    var w := Unparsed(s);
    FrameHead(w, ps);
    assert w[..HEADER_SIZE] == Header(s.pending.value);
    HeaderInjective(s.pending.value, |ps[0]|);
    assert w[HEADER_SIZE..] == s.buf;
    if Ready(s) {
      SlicesBehind(Header(s.pending.value), s.buf, |ps[0]|);
      assert Unparsed(TakePacket(s)) == w[HEADER_SIZE + |ps[0]|..];
    }
  }

  lemma SlicesBehind(front: seq<Byte>, s: seq<Byte>, k: nat)
    requires k <= |s|
    ensures (front + s)[|front|..|front| + k] == s[..k]
    ensures (front + s)[|front| + k..] == s[k..]
  {
  }

  /** Inside a stream of frames the header loop skips nothing, and a complete packet is the
      next one sent. */
  lemma ScanAligned(r: Receiver, ps: seq<Payload>)
    requires Aligned(r, ps)
    ensures Unparsed(Scan(r)) == Unparsed(r)
    ensures Ready(Scan(r)) ==> ps != [] && NextPacket(Scan(r)) == ps[0]
                               && Aligned(TakePacket(Scan(r)), ps[1..])
  {
    hide ValidHeader, HeaderSize, Header, Accepts;
    var s := Scan(r);
    if r.pending.None? && |r.buf| > HEADER_SIZE {
      assert Unparsed(r) == r.buf;
      FrameHead(r.buf, ps);
      HeaderIsValid(|ps[0]|);
      assert s == Receiver(Some(|ps[0]|), r.buf[HEADER_SIZE..]);
      assert r.buf == r.buf[..HEADER_SIZE] + r.buf[HEADER_SIZE..];
    }
    if s.pending.Some? {
      PendingAligned(s, ps);
    }
  }

  lemma UnparsedReady(s: Receiver)
    requires Ready(s)
    ensures Unparsed(s) == Frame(NextPacket(s)) + Unparsed(TakePacket(s))
  {
    hide ValidHeader, HeaderSize, Header, Accepts;
    var n := s.pending.value;
    assert s.buf == s.buf[..n] + s.buf[n..];
  }

  lemma FramesCons(p: Payload, ps: seq<Payload>)
    ensures Frames([p] + ps) == Frame(p) + Frames(ps)
  {
    assert ([p] + ps)[1..] == ps;
  }

  /** Draining any initial part of a stream of frames returns payloads from the front of
      the list sent, and accounts for every byte: delivered frames plus what is kept. */
  lemma {:induction false} DrainPrefix(r: Receiver, ps: seq<Payload>)
    requires Aligned(r, ps)
    ensures Drain(r).packets <= ps
    ensures Frames(Drain(r).packets) + Unparsed(Drain(r).rest) == Unparsed(r)
    decreases Backlog(r)
  {
    hide ValidHeader, HeaderSize, Header, Accepts;
    ScanAligned(r, ps);
    var s := Scan(r);
    if Ready(s) {
      var d := Drain(TakePacket(s));
      DrainPrefix(TakePacket(s), ps[1..]);
      UnparsedReady(s);
      FramesCons(ps[0], d.packets);
      assert ps == [ps[0]] + ps[1..];
      Assoc(Frame(ps[0]), Frames(d.packets), Unparsed(d.rest));
    } else {
      assert [] + Unparsed(s) == Unparsed(s);
    }
  }

  predicate EndsInEmpty(ps: seq<Payload>) {
    ps != [] && ps[|ps| - 1] == []
  }

  lemma DrainFrameThen(p: Payload, more: seq<Byte>)
    requires p != [] || more != []
    ensures var d := Drain(Receiver(None, more));
            Drain(Receiver(None, Frame(p) + more)) == Drained([p] + d.packets, d.rest)
  {
    hide ValidHeader, HeaderSize, Header, Accepts;
    var w := Frame(p) + more;
    assert w[..HEADER_SIZE] == Header(|p|);
    HeaderIsValid(|p|);
    var s := Scan(Receiver(None, w));
    assert s == Receiver(Some(|p|), w[HEADER_SIZE..]);
    assert w[HEADER_SIZE..] == p + more;
    assert NextPacket(s) == p && TakePacket(s) == Receiver(None, more);
  }

  /** When every byte has arrived, everything is returned, except that an empty payload at
      the very end stays behind as its 12 header bytes. */
  lemma {:induction false} DrainAllFrames(ps: seq<Payload>)
    ensures Drain(Receiver(None, Frames(ps)))
            == if EndsInEmpty(ps) then Drained(ps[..|ps| - 1], Receiver(None, Header(0)))
               else Drained(ps, FRESH)
  {
    hide Drain, Header, Frame;
    if ps == [] {
      DrainTooShort([]);
    } else {
      var tail := ps[1..];
      assert ps == [ps[0]] + tail;
      if ps == [[]] {
        assert Frames(tail) == [];
        HeaderOfNothing();
        DrainTooShort(Header(0));
      } else {
        FramesNotEmpty(tail);
        DrainFrameThen(ps[0], Frames(tail));
        DrainAllFrames(tail);
        if EndsInEmpty(ps) {
          assert [ps[0]] + tail[..|tail| - 1] == ps[..|ps| - 1];
        }
      }
    }
  }

  lemma FramesNotEmpty(ps: seq<Payload>)
    ensures ps != [] ==> Frames(ps) != []
  {
    hide Header;
  }

  lemma HeaderOfNothing()
    ensures Frame([]) + [] == Header(0)
  {
    hide Header;
    assert Header(0) + [] + [] == Header(0);
  }

  lemma DrainTooShort(b: seq<Byte>)
    requires |b| <= HEADER_SIZE
    ensures Drain(Receiver(None, b)) == Drained([], Receiver(None, b))
  {
  }

  // ---------- resynchronisation ----------

  /** How many bytes the header loop drops. */
  function Skipped(b: seq<Byte>): nat {
    if |b| <= HEADER_SIZE || ValidHeader(b[..HEADER_SIZE]) then 0 else 1 + Skipped(b[1..])
  }

  /** The header loop stops at offset `k`: too few bytes left there, or a valid header. */
  predicate StopsAt(b: seq<Byte>, k: nat) {
    k <= |b| && (|b| - k <= HEADER_SIZE || ValidHeader(b[k..k + HEADER_SIZE]))
  }

  lemma StopsInTail(b: seq<Byte>, i: nat)
    requires i < |b|
    ensures StopsAt(b, i + 1) <==> StopsAt(b[1..], i)
  {
    hide ValidHeader;
    if |b| - (i + 1) > HEADER_SIZE {
      WindowInTail(b, i, HEADER_SIZE);
    }
  }

  lemma WindowInTail(b: seq<Byte>, i: nat, n: nat)
    requires i + 1 + n <= |b|
    ensures b[i + 1..i + 1 + n] == b[1..][i..i + n]
  {
    var t := b[1..];
    var v, w := b[i + 1..i + 1 + n], t[i..i + n];
    forall k | 0 <= k < n
      ensures v[k] == w[k]
    {
      assert v[k] == b[i + 1 + k] == t[i + k];
    }
  }

  /** The loop drops bytes up to the first offset where it can stop, and no others. */
  lemma {:induction false} SkipsToFirstStop(b: seq<Byte>, k: nat)
    ensures Skipped(b) == k <==> StopsAt(b, k) && forall i: nat :: i < k ==> !StopsAt(b, i)
    ensures Skipped(b) <= |b| && Scan(Receiver(None, b)) == Scan(Receiver(None, b[Skipped(b)..]))
  {
    hide ValidHeader, HeaderSize, Accepts;
    assert StopsAt(b, 0) <==> |b| <= HEADER_SIZE || ValidHeader(b[..HEADER_SIZE]);
    if StopsAt(b, 0) {
      assert b[0..] == b;
    } else {
      var t := b[1..];
      SkipsToFirstStop(t, if k == 0 then 0 else k - 1);
      forall i: nat | i <= |t|
        ensures StopsAt(b, i + 1) <==> StopsAt(t, i)
      {
        StopsInTail(b, i);
      }
      assert t[Skipped(t)..] == b[Skipped(b)..];
      if k > 0 && StopsAt(t, k - 1) && forall i: nat :: i < k - 1 ==> !StopsAt(t, i) {
        forall i: nat | i < k
          ensures !StopsAt(b, i)
        {
          if i > 0 {
            assert !StopsAt(t, i - 1);
          }
        }
      }
      if k > 0 && StopsAt(b, k) && forall i: nat :: i < k ==> !StopsAt(b, i) {
        forall i: nat | i < k - 1
          ensures !StopsAt(t, i)
        {
          assert !StopsAt(b, i + 1);
        }
      }
    }
  }

  predicate HeaderAt(b: seq<Byte>, i: nat) {
    i + HEADER_SIZE <= |b| && ValidHeader(b[i..i + HEADER_SIZE])
  }

  /** No window of 12 bytes that starts inside the garbage is a valid header, windows that
      reach into the first frame included. */
  ghost predicate NoHeaderInside(garbage: seq<Byte>, after: seq<Byte>) {
    forall i: nat :: i < |garbage| ==> !HeaderAt(garbage + after, i)
  }

  /** Resynchronisation: garbage before a non-empty list of frames is dropped, exactly the
      garbage, and the frames are delivered as if it had not been there. */
  lemma Resynchronises(garbage: seq<Byte>, ps: seq<Payload>)
    requires ps != [] && NoHeaderInside(garbage, Frames(ps))
    ensures Skipped(garbage + Frames(ps)) == |garbage|
    ensures Drain(Receiver(None, garbage + Frames(ps))) == Drain(Receiver(None, Frames(ps)))
  {
    hide ValidHeader, HeaderSize, Header, Accepts;
    var b, w := garbage + Frames(ps), Frames(ps);
    var g := |garbage|;
    assert |w| >= HEADER_SIZE;
    assert b[g..] == w;
    forall i: nat | i < g
      ensures !StopsAt(b, i)
    {
      assert !HeaderAt(b, i);
    }
    FrameHead(w, ps);
    HeaderIsValid(|ps[0]|);
    assert b[g..g + HEADER_SIZE] == w[..HEADER_SIZE];
    SkipsToFirstStop(b, g);
    assert Scan(Receiver(None, b)) == Scan(Receiver(None, w));
  }

  // ---------- bounded buffering ----------

  const NET_MAX_MESSAGE := 262160 + 0x4000

  /** The most that can be buffered when no accepted header announces more than `limit`. */
  function BufferBound(limit: nat): nat {
    (if limit > HEADER_SIZE then limit - 1 else HEADER_SIZE) + NET_MAX_MESSAGE
  }

  /** Every header accepted along the run announces at most `limit`. */
  ghost predicate HeadersWithin(r: Receiver, replies: seq<ReadReply>, limit: nat)
    decreases |replies|
  {
    && (Scan(r).pending.Some? ==> Scan(r).pending.value <= limit)
    && (replies != [] ==>
          HeadersWithin(ReadStep(r, true, replies[0]).next, replies[1..], limit))
  }

  /** In every state of every stream run the buffer stays within the bound; so if
      `limit + NET_MAX_MESSAGE < 2^31` its signed 32-bit size never overflows. */
  lemma {:induction false} BoundedBuffering(r: Receiver, replies: seq<ReadReply>, limit: nat)
    requires |r.buf| <= BufferBound(limit)
    requires forall i :: 0 <= i < |replies| && replies[i].Got? ==>
                           |replies[i].data| <= NET_MAX_MESSAGE
    requires HeadersWithin(r, replies, limit)
    ensures |RunReads(r, replies).end.buf| <= BufferBound(limit)
    ensures limit + NET_MAX_MESSAGE <= INT32_MAX ==>
              |RunReads(r, replies).end.buf| <= INT32_MAX
    decreases |replies|
  {
    hide ValidHeader, HeaderSize, Accepts;
    if replies != [] {
      var s := ReadStep(r, true, replies[0]).next;
      BoundedBuffering(s, replies[1..], limit);
    }
  }

  // ---------- datagrams ----------

  /** A datagram passes the filter exactly when it is one frame, whole and alone. */
  lemma AcceptsIffFrame(d: seq<Byte>)
    ensures Accepts(d) <==> exists p: Payload :: d == Frame(p)
  {
    if Accepts(d) {
      var p: Payload := d[HEADER_SIZE..];
      ValidHeaderIffWritten(d[..HEADER_SIZE]);
      assert d == d[..HEADER_SIZE] + d[HEADER_SIZE..];
      assert d == Frame(p);
    }
    forall p: Payload | d == Frame(p)
      ensures Accepts(d)
    {
      HeaderIsValid(|p|);
      assert d[..HEADER_SIZE] == Header(|p|);
    }
  }

  /** A read in which a frame is followed by anything at all is dropped whole. */
  lemma MergedDatagramsDropped(p: Payload, more: seq<Byte>)
    ensures Accepts(Frame(p) + more) <==> more == []
  {
    var d := Frame(p) + more;
    HeaderIsValid(|p|);
    assert d[..HEADER_SIZE] == Header(|p|);
  }

  /** What an accepted datagram carries. */
  function Carried(reply: ReadReply): seq<Payload> {
    if reply.Got? && Accepts(reply.data) then [reply.data[HEADER_SIZE..]] else []
  }

  /** What this call takes in. */
  function TakenIn(r: Receiver, reply: ReadReply): seq<Payload> {
    if Ready(Scan(r)) then [] else Carried(reply)
  }

  /** A run of `read_packet` calls on a datagram link, and what it took in. */
  datatype DatagramRun = DatagramRun(accepted: seq<Payload>, delivered: seq<Payload>, end: Receiver)

  function RunDatagrams(r: Receiver, replies: seq<ReadReply>): DatagramRun
    decreases |replies|
  {
    if replies == [] then DatagramRun([], [], r)
    else
      var read := ReadStep(r, false, replies[0]);
      var run := RunDatagrams(read.next, replies[1..]);
      DatagramRun(TakenIn(r, replies[0]) + run.accepted, AsSeq(read.packet) + run.delivered,
                  run.end)
  }

  lemma CarriedIsFrame(d: seq<Byte>)
    requires Accepts(d)
    ensures Frames(Carried(Got(d))) == d
  {
    ValidHeaderIffWritten(d[..HEADER_SIZE]);
    assert d == d[..HEADER_SIZE] + d[HEADER_SIZE..];
    FramesOne(d[HEADER_SIZE..]);
  }

  /** With whole frames only, a parsed header is followed by its whole payload. */
  lemma WholeFramesAreReady(r: Receiver, kept: seq<Payload>)
    requires r.pending.None? && r.buf == Frames(kept)
    ensures Scan(r).pending.Some? ==> Ready(Scan(r))
  {
    hide ValidHeader, HeaderSize, Header;
    ScanAligned(r, kept);
    var s := Scan(r);
    if s.pending.Some? {
      PendingAligned(s, kept);
      assert |Frames(kept)| >= |Frame(kept[0])|;
    }
  }

  lemma DatagramStep(r: Receiver, kept: seq<Payload>, reply: ReadReply)
    returns (left: seq<Payload>)
    requires r.pending.None? && r.buf == Frames(kept)
    ensures Unparsed(Scan(r)) == Unparsed(r)
    ensures ReadStep(r, false, reply).next == Receiver(None, Frames(left))
    ensures kept + TakenIn(r, reply) == AsSeq(ReadStep(r, false, reply).packet) + left
  {
    hide ValidHeader, HeaderSize, Header, Accepts;
    WholeFramesAreReady(r, kept);
    ScanAligned(r, kept);
    var s := Scan(r);
    if Ready(s) {
      left := kept[1..];
      assert kept == [kept[0]] + left;
      FramesCons(kept[0], left);
      UnparsedReady(s);
      assert Frames(left) == Frames(kept)[|Frame(kept[0])|..];
      assert Unparsed(TakePacket(s)) == Unparsed(s)[|Frame(kept[0])|..];
    } else {
      left := kept + Carried(reply);
      FramesConcat(kept, Carried(reply));
      if Carried(reply) != [] {
        CarriedIsFrame(reply.data);
        assert Unparsed(Append(s, reply.data)) == Unparsed(s) + reply.data;
      } else {
        assert left == kept;
      }
    }
  }

  /** Datagram mode, for any datagrams whatever (lost, repeated, reordered, junk): the
      payloads returned so far, followed by those still buffered, are the payloads of the
      accepted datagrams in arrival order; between calls the buffer is whole frames and no
      header is kept, so the header loop never skips a byte. */
  lemma {:induction false} DatagramsInOrder(r: Receiver, kept: seq<Payload>,
                                            replies: seq<ReadReply>)
    returns (left: seq<Payload>)
    requires r.pending.None? && r.buf == Frames(kept)
    ensures var run := RunDatagrams(r, replies);
            && kept + run.accepted == run.delivered + left
            && run.end == Receiver(None, Frames(left))
            && Unparsed(Scan(run.end)) == run.end.buf
    decreases |replies|
  {
    hide ValidHeader, HeaderSize, Header, Accepts, Scan, ReadStep, TakenIn;
    if replies == [] {
      left := kept;
      ScanAligned(r, kept);
      assert kept + [] == [] + kept;
    } else {
      var read := ReadStep(r, false, replies[0]);
      var mid := DatagramStep(r, kept, replies[0]);
      left := DatagramsInOrder(read.next, mid, replies[1..]);
      var run := RunDatagrams(read.next, replies[1..]);
      var now, out := TakenIn(r, replies[0]), AsSeq(read.packet);
      Assoc(kept, now, run.accepted);
      Assoc(out, mid, run.accepted);
      Assoc(out, run.delivered, left);
    }
  }

  /** Every datagram is a frame that was sent, or is rejected. */
  ghost predicate SentOrRejected(replies: seq<ReadReply>, sent: set<Payload>) {
    forall i :: 0 <= i < |replies| ==> forall p :: p in Carried(replies[i]) ==> p in sent
  }

  lemma {:induction false} AcceptedWereSent(r: Receiver, replies: seq<ReadReply>, sent: set<Payload>)
    requires SentOrRejected(replies, sent)
    ensures forall p :: p in RunDatagrams(r, replies).accepted ==> p in sent
    decreases |replies|
  {
    hide Scan, ReadStep, Carried;
    if replies != [] {
      var rest := replies[1..];
      forall i | 0 <= i < |rest|
        ensures forall p :: p in Carried(rest[i]) ==> p in sent
      {
        assert rest[i] == replies[i + 1];
      }
      AcceptedWereSent(ReadStep(r, false, replies[0]).next, rest, sent);
    }
  }

  /** So a fresh datagram receiver returns nothing but payloads that were sent, in the order
      in which their datagrams arrived, and draining it returns all of them, except for one
      empty payload at the end. */
  lemma DatagramDelivery(replies: seq<ReadReply>, sent: set<Payload>)
    requires SentOrRejected(replies, sent)
    ensures var run := RunDatagrams(FRESH, replies);
            var all := run.delivered + Drain(run.end).packets;
            && (forall p :: p in run.delivered ==> p in sent)
            && all <= run.accepted
            && (!EndsInEmpty(run.accepted) ==> all == run.accepted)
  {
    assert Frames([]) == [];
    hide Drain, RunDatagrams, Header, Frames, SentOrRejected, EndsInEmpty;
    var run := RunDatagrams(FRESH, replies);
    var left := DatagramsInOrder(FRESH, [], replies);
    assert [] + run.accepted == run.accepted;
    AcceptedWereSent(FRESH, replies, sent);
    DrainAllFrames(left);
    AllAccountedFor(run.accepted, run.delivered, left, Drain(run.end).packets, sent);
  }

  lemma AllAccountedFor(accepted: seq<Payload>, delivered: seq<Payload>, left: seq<Payload>,
                        drained: seq<Payload>, sent: set<Payload>)
    requires accepted == delivered + left && forall p :: p in accepted ==> p in sent
    requires drained == if EndsInEmpty(left) then left[..|left| - 1] else left
    ensures forall p :: p in delivered ==> p in sent
    ensures delivered + drained <= accepted
    ensures !EndsInEmpty(accepted) ==> delivered + drained == accepted
  {
    assert forall p :: p in delivered ==> p in accepted;
    if EndsInEmpty(left) {
      assert accepted[|accepted| - 1] == left[|left| - 1];
      assert delivered + drained == accepted[..|accepted| - 1];
    }
  }
}
