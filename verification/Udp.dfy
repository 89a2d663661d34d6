/** Address comparison of src/socket/socket.cpp and the demultiplexing of src/socket/udp.cpp:
    one socket, many peers, one byte queue for each. */
module Udp {
  import opened Bytes
  import opened Receiving

  // ---------- addresses ----------

  /** A socket address with its numbers in host byte order; `Other` is any family that the
      comparison does not know. */
  datatype SockAddr =
    | Unix(path: seq<Byte>)
    | Inet(host: Word, port: nat)
    | Inet6(bytes: seq<Byte>, port6: nat, flow: Word, scope: Word)
    | Other(number: nat)

  const AF_UNIX := 1
  const AF_INET := 2
  const AF_INET6 := 10

  function Family(x: SockAddr): nat {
    match x
    case Unix(_) => AF_UNIX
    case Inet(_, _) => AF_INET
    case Inet6(_, _, _, _) => AF_INET6
    case Other(n) => n
  }

  /** An address as the system makes it; a path is the string in front of its NUL. */
  predicate ValidAddr(x: SockAddr) {
    match x
    case Unix(path) => 0 !in path
    case Inet6(bytes, _, _, _) => |bytes| == 16
    case Other(n) => n != AF_UNIX && n != AF_INET && n != AF_INET6
    case _ => true
  }

  /** The `CMP` macro, with 0 for falling through. */
  function Cmp(a: int, b: int): int {
    if a == b then 0 else if a < b then -1 else 1
  }

  /** `memcmp` on equal lengths, and `strcmp` on strings without their NUL; only the sign of
      what these return is fixed, here it is -1, 0 or 1. */
  function CmpBytes(a: seq<Byte>, b: seq<Byte>): int {
    if a == [] && b == [] then 0
    else if a == [] then -1
    else if b == [] then 1
    else if a[0] != b[0] then Cmp(a[0], b[0])
    else CmpBytes(a[1..], b[1..])
  }

  /** The first comparison that decides. */
  function Then(first: int, second: int): int {
    if first != 0 then first else second
  }

  function SockaddrCmp(x: SockAddr, y: SockAddr): int {
    if Family(x) != Family(y) then Cmp(Family(x), Family(y))
    else match (x, y)
      case (Unix(p), Unix(q)) => CmpBytes(p, q)
      case (Inet(h, p), Inet(g, q)) => Then(Cmp(h, g), Cmp(p, q))
      case (Inet6(b, p, f, s), Inet6(c, q, g, t)) =>
        Then(CmpBytes(b, c), Then(Cmp(p, q), Then(Cmp(f, g), Cmp(s, t))))
      case _ => -1
  }

  predicate Known(x: SockAddr) {
    !x.Other?
  }

  lemma {:induction false} CmpBytesOrder(a: seq<Byte>, b: seq<Byte>)
    ensures CmpBytes(a, b) == 0 <==> a == b
    ensures CmpBytes(a, b) == -CmpBytes(b, a)
    decreases |a|
  {
    if a != [] && b != [] && a[0] == b[0] {
      CmpBytesOrder(a[1..], b[1..]);
      assert a == [a[0]] + a[1..] && b == [b[0]] + b[1..];
    }
  }

  lemma {:induction false} CmpBytesTransitive(a: seq<Byte>, b: seq<Byte>, c: seq<Byte>)
    requires CmpBytes(a, b) <= 0 && CmpBytes(b, c) <= 0
    ensures CmpBytes(a, c) <= 0
    decreases |a|
  {
    if a != [] && b != [] && c != [] && a[0] == b[0] == c[0] {
      CmpBytesTransitive(a[1..], b[1..], c[1..]);
    }
  }

  /** On known families the comparison is a total order whose equality is equality; opposite
      arguments give results of opposite sign. */
  lemma SockaddrOrder(x: SockAddr, y: SockAddr)
    requires ValidAddr(x) && ValidAddr(y) && Known(x)
    ensures SockaddrCmp(x, y) == 0 <==> x == y
    ensures SockaddrCmp(x, y) < 0 <==> SockaddrCmp(y, x) > 0
  {
    match (x, y)
    case (Unix(p), Unix(q)) => CmpBytesOrder(p, q);
    case (Inet6(b, _, _, _), Inet6(c, _, _, _)) => CmpBytesOrder(b, c);
    case _ =>
  }

  /** Byte strings compare by their first difference, or by length if there is none. */
  lemma {:induction false} CmpBytesLess(a: seq<Byte>, b: seq<Byte>)
    ensures CmpBytes(a, b) < 0 <==> (a < b || exists i: nat :: DiffersFirstAt(a, b, i) && a[i] < b[i])
    decreases |a|
  {
    if a != [] && b != [] && a[0] == b[0] {
      var s, t := a[1..], b[1..];
      CmpBytesLess(s, t);
      assert a == [a[0]] + s && b == [b[0]] + t;
      assert a < b <==> s < t;
      forall i: nat
        ensures DiffersFirstAt(a, b, i + 1) <==> DiffersFirstAt(s, t, i)
      {
        DiffersInTail(a, b, i);
      }
      if exists i: nat :: DiffersFirstAt(a, b, i) && a[i] < b[i] {
        var i: nat :| DiffersFirstAt(a, b, i) && a[i] < b[i];
        assert i > 0;
        assert DiffersFirstAt(s, t, i - 1) && s[i - 1] < t[i - 1];
      }
      if exists i: nat :: DiffersFirstAt(s, t, i) && s[i] < t[i] {
        var i: nat :| DiffersFirstAt(s, t, i) && s[i] < t[i];
        assert DiffersFirstAt(a, b, i + 1) && a[i + 1] < b[i + 1];
      }
    } else if a != [] && b != [] {
      assert DiffersFirstAt(a, b, 0);
      assert forall i: nat :: DiffersFirstAt(a, b, i) ==> i == 0;
    }
  }

  predicate DiffersFirstAt(a: seq<Byte>, b: seq<Byte>, i: nat) {
    i < |a| && i < |b| && a[..i] == b[..i] && a[i] != b[i]
  }

  lemma DiffersInTail(a: seq<Byte>, b: seq<Byte>, i: nat)
    requires a != [] && b != [] && a[0] == b[0]
    ensures DiffersFirstAt(a, b, i + 1) <==> DiffersFirstAt(a[1..], b[1..], i)
  {
    if i + 1 < |a| && i + 1 < |b| {
      assert a[..i + 1] == [a[0]] + a[1..][..i];
      assert b[..i + 1] == [b[0]] + b[1..][..i];
    }
  }

  /** Which address comes first: families in order of their numbers, IPv4 addresses by host,
      then port, paths and IPv6 addresses by their bytes, then port, flow and scope. */
  lemma SockaddrLess(x: SockAddr, y: SockAddr)
    requires ValidAddr(x) && ValidAddr(y)
    ensures Family(x) != Family(y) ==> (SockaddrCmp(x, y) < 0 <==> Family(x) < Family(y))
    ensures x.Inet? && y.Inet? ==>
              (SockaddrCmp(x, y) < 0 <==> x.host < y.host || (x.host == y.host && x.port < y.port))
    ensures x.Unix? && y.Unix? ==> (SockaddrCmp(x, y) < 0 <==> CmpBytes(x.path, y.path) < 0)
    ensures x.Inet6? && y.Inet6? && x.bytes != y.bytes ==>
              (SockaddrCmp(x, y) < 0 <==> CmpBytes(x.bytes, y.bytes) < 0)
    ensures x.Inet6? && y.Inet6? && x.bytes == y.bytes ==>
              (SockaddrCmp(x, y) < 0 <==>
               || x.port6 < y.port6
               || (x.port6 == y.port6 && (x.flow < y.flow || (x.flow == y.flow && x.scope < y.scope))))
  {
    hide CmpBytes;
    if x.Inet6? && y.Inet6? {
      CmpBytesOrder(x.bytes, y.bytes);
    }
  }

  lemma SockaddrTransitive(x: SockAddr, y: SockAddr, z: SockAddr)
    requires ValidAddr(x) && ValidAddr(y) && ValidAddr(z)
    requires Known(x) && Known(y) && Known(z)
    requires SockaddrCmp(x, y) <= 0 && SockaddrCmp(y, z) <= 0
    ensures SockaddrCmp(x, z) <= 0
  {
    match (x, y, z)
    case (Unix(p), Unix(q), Unix(r)) => CmpBytesTransitive(p, q, r);
    case (Inet6(b, _, _, _), Inet6(c, _, _, _), Inet6(d, _, _, _)) =>
      CmpBytesTransitive(b, c, d);
      CmpBytesOrder(b, c);
      CmpBytesOrder(c, d);
      CmpBytesOrder(b, d);
    case _ =>
  }

  /** An address of an unknown family is not even equal to itself. */
  lemma ReflexiveIffKnown(x: SockAddr)
    requires ValidAddr(x)
    ensures SockaddrCmp(x, x) == 0 <==> Known(x)
  {
    if Known(x) {
      SockaddrOrder(x, x);
    }
  }

  // ---------- the server ----------

  datatype Datagram = Datagram(from: SockAddr, data: seq<Byte>)

  /** A peer and the bytes queued for it. */
  datatype Peer = Peer(addr: SockAddr, queue: seq<Byte>)

  /** `peers` in the order in which they were added; `pending` are those that `accept` has not
      returned. */
  datatype Server = Server(peers: seq<Peer>, pending: seq<SockAddr>)

  const EMPTY := Server([], [])

  /** Every peer with the sender's address gets the data. */
  function PushTo(peers: seq<Peer>, d: Datagram): (r: seq<Peer>)
    ensures |r| == |peers|
  {
    seq(|peers|, i requires 0 <= i < |peers| =>
      if SockaddrCmp(peers[i].addr, d.from) == 0
      then Peer(peers[i].addr, peers[i].queue + d.data) else peers[i])
  }

  predicate Has(peers: seq<Peer>, addr: SockAddr) {
    exists i :: 0 <= i < |peers| && SockaddrCmp(peers[i].addr, addr) == 0
  }

  /** `_recv`; nothing may be waiting. */
  function Receive(s: Server, d: Option<Datagram>): Server {
    if d.None? || |d.value.data| >= NET_MAX_MESSAGE then s
    else if Has(s.peers, d.value.from) then s.(peers := PushTo(s.peers, d.value))
    else Server(s.peers + [Peer(d.value.from, [])], s.pending + [d.value.from])
  }

  /** The receive buffer: a datagram that would fill it is dropped, the longest that is not has
      278543 bytes. */
  lemma ReceiveLimit(s: Server, d: Datagram)
    ensures |d.data| >= 278544 ==> Receive(s, Some(d)) == s
    ensures |d.data| <= 278543 ==>
              |Receive(s, Some(d)).peers| == |s.peers| + if Has(s.peers, d.from) then 0 else 1
  {
  }

  /** How many bytes a peer's `pop_front` gives. */
  function Popped(queue: seq<Byte>, size: int): nat {
    if size <= 0 then 0 else if size < |queue| then size else |queue|
  }

  lemma PoppedIsMin(queue: seq<Byte>, size: int)
    ensures size >= 0 ==> Popped(queue, size) == Min(size, |queue|)
    ensures size < 0 ==> Popped(queue, size) == 0
  {
  }

  class UdpServer {
    var peers: seq<Peer>
    var pending: seq<SockAddr>

    ghost function View(): Server
      reads this
    {
      Server(peers, pending)
    }

    constructor ()
      ensures View() == EMPTY
    {
      peers, pending := [], [];
    }

    method Recv(d: Option<Datagram>)
      modifies this
      ensures View() == Receive(old(View()), d)
    {
      if d == None {
        return;
      }
      var from, data := d.value.from, d.value.data;
      if |data| >= NET_MAX_MESSAGE {
        return;
      }
      var newClient := true;
      ghost var was := peers;
      for i := 0 to |peers|
        invariant |peers| == |was| && pending == old(pending)
        invariant forall k :: 0 <= k < i ==> peers[k] == PushTo(was, d.value)[k]
        invariant forall k :: i <= k < |peers| ==> peers[k] == was[k]
        invariant newClient <==> forall k :: 0 <= k < i ==> SockaddrCmp(was[k].addr, from) != 0
      {
        if SockaddrCmp(peers[i].addr, from) == 0 {
          peers := peers[i := Peer(peers[i].addr, peers[i].queue + data)];
          newClient := false;
        }
      }
      if newClient {
        assert peers == was;
        peers := peers + [Peer(from, [])];
        pending := pending + [from];
      } else {
        assert peers == PushTo(was, d.value);
      }
    }

    method Accept(d: Option<Datagram>) returns (r: Option<SockAddr>)
      modifies this
      ensures var s := Receive(old(View()), d);
              if s.pending == [] then r == None && View() == s
              else r == Some(s.pending[0]) && View() == s.(pending := s.pending[1..])
    {
      Recv(d);
      if pending == [] {
        return None;
      }
      r := Some(pending[0]);
      pending := pending[1..];
    }

    /** `read_raw` of the peer at position `i`. */
    method ReadRaw(i: nat, size: int, d: Option<Datagram>) returns (data: seq<Byte>)
      requires i < |peers|
      modifies this
      ensures var s := Receive(old(View()), d);
              && i < |s.peers|
              && var p := s.peers[i];
                 var n := Popped(p.queue, size);
                 && data == p.queue[..n]
                 && View() == s.(peers := s.peers[i := Peer(p.addr, p.queue[n..])])
    {
      Recv(d);
      var p := peers[i];
      var n := if size <= 0 then 0 else if size < |p.queue| then size else |p.queue|;
      data := p.queue[..n];
      peers := peers[i := Peer(p.addr, p.queue[n..])];
    }
  }

  // ---------- runs ----------

  /** A call, and the datagram that `_recv` finds waiting in it. */
  datatype Call = AcceptCall(d: Option<Datagram>) | ReadCall(i: nat, size: int, d: Option<Datagram>)

  /** The server with what went in and what came out: the usable datagrams in arrival order,
      the addresses that `accept` returned, and what each peer has read. */
  datatype Trace = Trace(server: Server, arrived: seq<Datagram>, accepted: seq<SockAddr>, read: seq<seq<Byte>>)

  const START := Trace(EMPTY, [], [], [])

  function Waiting(c: Call): Option<Datagram> {
    match c
    case AcceptCall(d) => d
    case ReadCall(_, _, d) => d
  }

  /** A read is made by a peer that exists. */
  predicate Possible(t: Trace, c: Call) {
    && (c.ReadCall? ==> c.i < |t.server.peers|)
    && (Waiting(c).Some? ==> Waiting(c).value.from.Inet?)
  }

  function Arrive(t: Trace, d: Option<Datagram>): Trace {
    var s := Receive(t.server, d);
    Trace(s,
          if d.Some? && |d.value.data| < NET_MAX_MESSAGE then t.arrived + [d.value] else t.arrived,
          t.accepted,
          t.read + if |s.peers| > |t.server.peers| then [[]] else [])
  }

  function Next(t: Trace, c: Call): Trace {
    var u := Arrive(t, Waiting(c));
    match c
    case AcceptCall(_) =>
      if u.server.pending == [] then u
      else u.(accepted := u.accepted + [u.server.pending[0]],
              server := u.server.(pending := u.server.pending[1..]))
    case ReadCall(i, size, _) =>
      if i >= |u.server.peers| || i >= |u.read| then u
      else
        var p := u.server.peers[i];
        var n := Popped(p.queue, size);
        u.(read := u.read[i := u.read[i] + p.queue[..n]],
           server := u.server.(peers := u.server.peers[i := Peer(p.addr, p.queue[n..])]))
  }

  /** The senders in the order of their first datagrams. */
  function FirstContacts(ds: seq<Datagram>): seq<SockAddr> {
    if ds == [] then []
    else
      var before := FirstContacts(ds[..|ds| - 1]);
      var from := ds[|ds| - 1].from;
      if from in before then before else before + [from]
  }

  /** What a sender has sent after its first datagram. */
  function StreamOf(addr: SockAddr, ds: seq<Datagram>): seq<Byte> {
    if ds == [] then []
    else
      var before, d := ds[..|ds| - 1], ds[|ds| - 1];
      StreamOf(addr, before)
      + if d.from == addr && addr in FirstContacts(before) then d.data else []
  }

  lemma {:induction false} ContactsDistinct(ds: seq<Datagram>)
    ensures forall i, j :: 0 <= i < j < |FirstContacts(ds)| ==>
                             FirstContacts(ds)[i] != FirstContacts(ds)[j]
  {
    if ds != [] {
      ContactsDistinct(ds[..|ds| - 1]);
    }
  }

  lemma {:induction false} NoStreamBefore(addr: SockAddr, ds: seq<Datagram>)
    requires addr !in FirstContacts(ds)
    ensures StreamOf(addr, ds) == []
  {
    if ds != [] {
      NoStreamBefore(addr, ds[..|ds| - 1]);
    }
  }

  /** The peers are the senders in first-contact order, `accept` has returned a first part of
      them and will return the rest, and what a peer has read and what is queued for it make
      up what its sender has sent after the first datagram. */
  ghost predicate Inv(t: Trace) {
    var contacts := FirstContacts(t.arrived);
    && (forall c :: c in contacts ==> c.Inet?)
    && |t.server.peers| == |t.read| == |contacts|
    && (forall i :: 0 <= i < |contacts| ==> t.server.peers[i].addr == contacts[i])
    && t.accepted + t.server.pending == contacts
    && forall i :: 0 <= i < |contacts| ==>
                     t.read[i] + t.server.peers[i].queue == StreamOf(contacts[i], t.arrived)
  }

  lemma ArriveOne(ds: seq<Datagram>, d: Datagram)
    ensures FirstContacts(ds + [d])
            == FirstContacts(ds) + if d.from in FirstContacts(ds) then [] else [d.from]
    ensures forall a :: StreamOf(a, ds + [d])
                        == StreamOf(a, ds) + if d.from == a && a in FirstContacts(ds) then d.data else []
  {
    assert (ds + [d])[..|ds|] == ds;
    var c := FirstContacts(ds);
    assert c + [] == c;
  }

  lemma ArriveKeepsInv(t: Trace, d: Option<Datagram>)
    requires Inv(t) && (d.Some? ==> d.value.from.Inet?)
    ensures Inv(Arrive(t, d))
  {
    hide FirstContacts, StreamOf, SockaddrCmp;
    var u := Arrive(t, d);
    var contacts := FirstContacts(t.arrived);
    assert t.read + [] == t.read;
    if d.Some? && |d.value.data| < NET_MAX_MESSAGE {
      var from := d.value.from;
      forall i | 0 <= i < |contacts|
        ensures SockaddrCmp(t.server.peers[i].addr, from) == 0 <==> contacts[i] == from
      {
        assert contacts[i] in contacts;
        SockaddrOrder(contacts[i], from);
      }
      ArriveOne(t.arrived, d.value);
      NoStreamForNew(from, t.arrived);
      assert contacts + [] == contacts;
      if from !in contacts {
        assert t.accepted + (t.server.pending + [from]) == (t.accepted + t.server.pending) + [from];
      }
      forall i | 0 <= i < |FirstContacts(u.arrived)|
        ensures u.read[i] + u.server.peers[i].queue == StreamOf(FirstContacts(u.arrived)[i], u.arrived)
      {
        if i < |contacts| {
          Assoc(t.read[i], t.server.peers[i].queue, d.value.data);
          assert StreamOf(contacts[i], t.arrived) + [] == StreamOf(contacts[i], t.arrived);
        }
      }
    }
  }

  lemma NoStreamForNew(addr: SockAddr, ds: seq<Datagram>)
    ensures addr !in FirstContacts(ds) ==> StreamOf(addr, ds) == []
  {
    if addr !in FirstContacts(ds) {
      NoStreamBefore(addr, ds);
    }
  }

  lemma NextKeepsInv(t: Trace, c: Call)
    requires Inv(t) && Possible(t, c)
    ensures Inv(Next(t, c))
  {
    hide FirstContacts, StreamOf, Arrive;
    ArriveKeepsInv(t, Waiting(c));
    var u := Arrive(t, Waiting(c));
    match c
    case AcceptCall(_) =>
      if u.server.pending != [] {
        Assoc(u.accepted, [u.server.pending[0]], u.server.pending[1..]);
        assert u.server.pending == [u.server.pending[0]] + u.server.pending[1..];
      }
    case ReadCall(i, size, _) =>
      if i < |u.server.peers| {
        var q := u.server.peers[i].queue;
        var n := Popped(q, size);
        assert q == q[..n] + q[n..];
        Assoc(u.read[i], q[..n], q[n..]);
      }
  }

  function RunCalls(t: Trace, calls: seq<Call>): Trace
    decreases |calls|
  {
    if calls == [] then t else RunCalls(Next(t, calls[0]), calls[1..])
  }

  ghost predicate AllPossible(t: Trace, calls: seq<Call>)
    decreases |calls|
  {
    calls != [] ==> Possible(t, calls[0]) && AllPossible(Next(t, calls[0]), calls[1..])
  }

  /** Demultiplexing over every run: peers are pairwise distinct, `accept` returns each once
      and in first-contact order, and each peer's bytes are its own sender's and no other's. */
  lemma {:induction false} Demultiplexing(t: Trace, calls: seq<Call>)
    requires Inv(t) && AllPossible(t, calls)
    ensures Inv(RunCalls(t, calls))
    decreases |calls|
  {
    hide Inv, Next;
    if calls != [] {
      NextKeepsInv(t, calls[0]);
      Demultiplexing(Next(t, calls[0]), calls[1..]);
    }
  }

  /** What the invariant says from the start on. */
  lemma FromTheStart(calls: seq<Call>)
    requires AllPossible(START, calls)
    ensures var t := RunCalls(START, calls);
            && t.accepted <= FirstContacts(t.arrived)
            && (forall i, j :: 0 <= i < j < |t.server.peers| ==>
                                 SockaddrCmp(t.server.peers[i].addr, t.server.peers[j].addr) != 0)
            && |t.read| == |t.server.peers|
            && (forall i :: 0 <= i < |t.server.peers| ==>
                              t.read[i] <= StreamOf(t.server.peers[i].addr, t.arrived))
  {
    hide FirstContacts, StreamOf, SockaddrCmp, RunCalls;
    var t := RunCalls(START, calls);
    assert Inv(START) by {
      NothingYet();
    }
    Demultiplexing(START, calls);
    ContactsDistinct(t.arrived);
    forall i, j | 0 <= i < j < |t.server.peers|
      ensures SockaddrCmp(t.server.peers[i].addr, t.server.peers[j].addr) != 0
    {
      var contacts := FirstContacts(t.arrived);
      assert contacts[i] in contacts && contacts[j] in contacts;
      SockaddrOrder(t.server.peers[i].addr, t.server.peers[j].addr);
    }
  }

  lemma NothingYet()
    ensures Inv(START)
  {
    assert FirstContacts([]) == [];
  }
}
