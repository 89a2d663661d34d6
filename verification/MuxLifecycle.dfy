/** The connection state machine of src/mux/mux_client.cpp: which events fire, in which
    order, across `connect`, `process`, `call`, `disconnect` and auto-reconnect. */
module MuxLifecycles {

  datatype EventType = ConnectEvent | DisconnectEvent | ReconnectEvent

  /** Reads a log of events as alternating connects and disconnects, connects first; a
      reconnect event counts for nothing.  The result says whether a connect is open;
      there is none if the log does not alternate. */
  datatype Track = Broken | Closed | Open

  function Advance(t: Track, e: EventType): Track {
    match e
    case ConnectEvent => if t == Closed then Open else Broken
    case DisconnectEvent => if t == Open then Closed else Broken
    case ReconnectEvent => t
  }

  function TrackOf(log: seq<EventType>): Track {
    if log == [] then Closed else Advance(TrackOf(log[..|log| - 1]), log[|log| - 1])
  }

  function CountOf(e: EventType, log: seq<EventType>): nat {
    if log == [] then 0
    else CountOf(e, log[..|log| - 1]) + if log[|log| - 1] == e then 1 else 0
  }

  lemma TrackOne(log: seq<EventType>, e: EventType)
    ensures TrackOf(log + [e]) == Advance(TrackOf(log), e)
  {
    assert (log + [e])[..|log|] == log;
  }

  /** A log that alternates has at most one connect more than disconnects, and so has every
      part of it that lies in the past. */
  lemma {:induction false} AlternatingCounts(log: seq<EventType>, k: nat)
    requires TrackOf(log) != Broken && k <= |log|
    ensures TrackOf(log[..k]) != Broken
    ensures CountOf(ConnectEvent, log[..k]) - CountOf(DisconnectEvent, log[..k])
            == if TrackOf(log[..k]) == Open then 1 else 0
  {
    if k == |log| {
      assert log[..k] == log;
      if k > 0 {
        AlternatingCounts(log[..k - 1], k - 1);
        assert log[..k - 1][..k - 1] == log[..k - 1];
      }
    } else {
      AlternatingCounts(log[..|log| - 1], k);
      assert log[..|log| - 1][..k] == log[..k];
    }
  }

  /** Between two connects of an alternating log there is a disconnect. */
  lemma {:induction false} ConnectsAreSeparated(log: seq<EventType>, i: nat, j: nat)
    requires TrackOf(log) != Broken
    requires i < j < |log| && log[i] == ConnectEvent && log[j] == ConnectEvent
    ensures exists k :: i < k < j && log[k] == DisconnectEvent
  {
    AlternatingCounts(log, i + 1);
    AlternatingCounts(log, j + 1);
    assert log[..i + 1][..i] == log[..i] && log[..j + 1][..j] == log[..j];
    if forall k :: i < k < j ==> log[k] != DisconnectEvent {
      StaysOpen(log, i + 1, j);
      assert false;
    }
  }

  lemma {:induction false} StaysOpen(log: seq<EventType>, i: nat, j: nat)
    requires TrackOf(log) != Broken && i <= j <= |log| && TrackOf(log[..i]) == Open
    requires forall k :: i <= k < j ==> log[k] != DisconnectEvent
    ensures TrackOf(log[..j]) == Open
  {
    AlternatingCounts(log, j);
    if i < j {
      StaysOpen(log, i, j - 1);
      assert log[..j][..j - 1] == log[..j - 1];
    }
  }

  // ---------- what the answers lead to ----------

  /** The answers left after a stretch of the run, and whether a connect is open then; or the
      answers do not reach to its end. */
  datatype Outcome = CutShort | Went(world: seq<bool>, open: bool)

  /** A callback that makes calls: each round asks whether it goes on, then, on an open
      connection with a protocol object, whether the call is written; if not, the connection
      is closed. */
  function CallsLead(w: seq<bool>, open: bool, hasProto: bool): (o: Outcome)
    ensures o.Went? ==> |o.world| < |w| && (o.open ==> open)
  {
    if w == [] then CutShort
    else if !w[0] then Went(w[1..], open)
    else if !open || !hasProto then CallsLead(w[1..], open, hasProto)
    else if |w| == 1 then CutShort
    else CallsLead(w[2..], w[1], hasProto)
  }

  /** The packet loop: each round asks for a packet, whose handler may make calls. */
  function PacketsLead(w: seq<bool>, open: bool, hasProto: bool): (o: Outcome)
    ensures o.Went? ==> |o.world| < |w| && (o.open ==> open)
    decreases |w|
  {
    if w == [] then CutShort
    else if !w[0] then Went(w[1..], open)
    else match CallsLead(w[1..], open, hasProto)
      case CutShort => CutShort
      case Went(v, still) => PacketsLead(v, still, hasProto)
  }

  /** Whether a call fails in a callback to which the world answers `w`, on an open connection. */
  predicate CallFails(w: seq<bool>, hasProto: bool) {
    && w != [] && w[0]
    && if hasProto then |w| > 1 && (!w[1] || CallFails(w[2..], hasProto))
       else CallFails(w[1..], hasProto)
  }

  lemma CallFailsOn(more: bool, w: seq<bool>, hasProto: bool)
    ensures !CallFails([], hasProto)
    ensures CallFails([more] + w, hasProto)
            <==> more && if hasProto then w != [] && (!w[0] || CallFails(w[1..], hasProto))
                         else CallFails(w, hasProto)
  {
    assert ([more] + w)[1..] == w && (w != [] ==> ([more] + w)[2..] == w[1..]);
  }

  lemma CallsLeadOn(more: bool, w: seq<bool>, open: bool, hasProto: bool)
    ensures CallsLead([], open, hasProto) == CutShort
    ensures CallsLead([more] + w, open, hasProto)
            == if !more then Went(w, open)
               else if !open || !hasProto then CallsLead(w, open, hasProto)
               else if w == [] then CutShort else CallsLead(w[1..], w[0], hasProto)
  {
    assert ([more] + w)[1..] == w && (w != [] ==> ([more] + w)[2..] == w[1..]);
  }

  lemma PacketsLeadOn(more: bool, w: seq<bool>, open: bool, hasProto: bool)
    ensures PacketsLead([], open, hasProto) == CutShort
    ensures PacketsLead([more] + w, open, hasProto)
            == if !more then Went(w, open)
               else match CallsLead(w, open, hasProto)
                 case CutShort => CutShort
                 case Went(v, still) => PacketsLead(v, still, hasProto)
  {
    hide CallsLead;
    assert ([more] + w)[1..] == w;
  }

  /** The connect event, if the transport is up and no connect is open. */
  function RaiseLeads(w: seq<bool>, open: bool, hasProto: bool): Outcome {
    if w == [] then CutShort
    else if w[0] && !open then CallsLead(w[1..], true, hasProto)
    else Went(w[1..], open)
  }

  /** The heartbeat: is it due, and then, is it written? */
  function BeatLeads(w: seq<bool>, open: bool): Outcome {
    if w == [] || (w[0] && |w| == 1) then CutShort
    else if !w[0] then Went(w[1..], open)
    else Went(w[2..], open && w[1])
  }

  function BeatFails(w: seq<bool>): bool {
    |w| > 1 && w[0] && !w[1]
  }

  /** Up to the heartbeat of a `process` call that finds its transport alive. */
  function BeforeBeat(w: seq<bool>, open: bool, hasProto: bool): Outcome {
    match RaiseLeads(w, open, hasProto)
    case CutShort => CutShort
    case Went(v, raised) => PacketsLead(v, raised, hasProto)
  }

  /** What the caller of the class does. */
  datatype Operation = DoConnect | DoProcess | DoCall | DoDisconnect

  /** The events of a `process` call with a live transport. */
  function Raised(connect: bool, wasOpen: bool, isOpen: bool): seq<EventType> {
    (if connect then [ConnectEvent] else []) + if wasOpen && !isOpen then [DisconnectEvent] else []
  }

  function IfOpen(connectionState: int): seq<EventType> {
    if connectionState == 1 then [DisconnectEvent] else []
  }

  /** `process` finds no protocol object, or that its transport is gone. */
  predicate Lost(hasProto: bool, w: seq<bool>) {
    !hasProto || (w != [] && !w[0])
  }

  /** The answers behind that one. */
  function Behind(hasProto: bool, w: seq<bool>): seq<bool>
    requires Lost(hasProto, w)
  {
    if hasProto then w[1..] else w
  }

  /** `mux::client`, as far as its connection state goes.  Every question that the outside
      world decides (does the transport connect, is it still connected, does a write
      succeed, has a timer run out, is there another packet, does a callback make another
      call) is answered by the next boolean of `world`; when no answer is left the run is
      `cut` there.  So all runs are covered, and all their prefixes. */
  class MuxClient {
    var hasProto: bool
    var hasServer: bool
    var autoReconnect: int
    var connectionState: int
    var world: seq<bool>
    var cut: bool
    ghost var log: seq<EventType>
    // how often `connect` was called while connected
    ghost var misuses: nat

    ghost predicate Sound()
      reads this
    {
      -1 <= connectionState <= 1 && (hasServer ==> hasProto)
    }

    /** Connect and disconnect events alternate, connects first, and the connection state is
        1 exactly while a connect is open. */
    ghost predicate Valid()
      reads this
    {
      && Sound()
      && TrackOf(log) == (if connectionState == 1 then Open else Closed)
    }

    /** They no longer do, or a connect is open that the connection state knows nothing of;
        no operation leads out of this. */
    ghost predicate Desynced()
      reads this
    {
      && Sound()
      && (TrackOf(log) == Broken || (TrackOf(log) == Open && connectionState != 1))
    }

    /** Every operation consumes answers and appends events. */
    twostate predicate Moves()
      reads this
    {
      && old(log) <= log
      && |world| <= old(|world|)
      && (old(cut) ==> cut)
      && (cut ==> world == [])
      && (old(hasProto) ==> hasProto)
      && (old(hasServer) ==> hasServer)
      && autoReconnect == old(autoReconnect)
    }

    /** A stretch of the run led where its answers lead. */
    ghost predicate Led(o: Outcome)
      reads this
    {
      if o.CutShort? then cut
      else !cut && world == o.world && (o.open <==> connectionState == 1)
    }

    /** Every operation but `connect` keeps the invariant, and its absence. */
    twostate predicate Progress()
      reads this
    {
      && Moves()
      && misuses == old(misuses)
      && (old(Valid()) ==> Valid())
      && (old(Desynced()) ==> Desynced())
    }

    /** The only event that calls can lead to: a failed write closes an open connection. */
    twostate predicate AtMostDropped()
      reads this
    {
      && (connectionState == old(connectionState) || connectionState == -1)
      && log == old(log) + (if old(connectionState) == 1 && connectionState == -1
                            then [DisconnectEvent] else [])
    }

    constructor (hasProto: bool, autoReconnect: int, world: seq<bool>)
      ensures Valid() && log == [] && !cut && this.world == world && misuses == 0
    {
      this.hasProto := hasProto;
      hasServer := false;
      this.autoReconnect := autoReconnect;
      connectionState := -1;
      this.world := world;
      cut := false;
      log := [];
      misuses := 0;
    }

    /** Asks the world a question. */
    method Ask() returns (yes: bool)
      requires !cut
      modifies this`world, this`cut
      ensures (old(Valid()) ==> Valid()) && (old(Desynced()) ==> Desynced())
      ensures if old(world) == [] then cut && !yes && world == []
              else !cut && yes == old(world)[0] && world == old(world)[1..]
    {
      if world == [] {
        cut := true;
        return false;
      }
      yes := world[0];
      world := world[1..];
    }

    ghost method Fire(e: EventType)
      modifies this`log
      ensures log == old(log) + [e] && TrackOf(log) == Advance(TrackOf(old(log)), e)
    {
      TrackOne(log, e);
      log := log + [e];
    }

    method IsConnected() returns (yes: bool)
      ensures yes <==> connectionState == 1
    {
      yes := connectionState == 1;
    }

    method HandleDisconnect()
      requires (Valid() || Desynced()) && !cut
      modifies this`connectionState, this`log
      ensures (old(Valid()) ==> Valid()) && (old(Desynced()) ==> Desynced()) && connectionState == -1
      ensures log == old(log) + if old(connectionState) == 1 then [DisconnectEvent] else []
    {
      if connectionState > 0 {
        Fire(DisconnectEvent);
      }
      connectionState := -1;
      assert log == old(log) || log == old(log) + [DisconnectEvent];
    }

    /** `disconnect` by the user. */
    method Disconnect()
      requires (Valid() || Desynced()) && !cut
      modifies this`connectionState, this`log
      ensures (old(Valid()) ==> Valid()) && (old(Desynced()) ==> Desynced()) && connectionState == -1
      ensures log == old(log) + if old(connectionState) == 1 then [DisconnectEvent] else []
    {
      var connected := IsConnected();
      if connected {
        Fire(DisconnectEvent);
      }
      connectionState := -1;
    }

    /** `call`: a write that fails is a disconnect. */
    method Call() returns (ok: bool)
      requires (Valid() || Desynced()) && !cut
      modifies this
      ensures Progress() && hasProto == old(hasProto) && hasServer == old(hasServer)
      ensures ok ==> connectionState == 1 && old(connectionState) == 1
      ensures old(connectionState) != 1 ==> !ok
      ensures AtMostDropped()
      ensures old(connectionState) == 1 && old(hasProto) && old(world) != [] ==>
                !cut && ok == old(world)[0]
                && log == old(log) + (if ok then [] else [DisconnectEvent])
      ensures old(connectionState) == 1 && old(hasProto) ==>
                if old(world) == [] then cut
                else !cut && world == old(world)[1..] && (ok <==> connectionState == 1)
      ensures !(old(connectionState) == 1 && old(hasProto)) ==>
                !cut && world == old(world) && connectionState == old(connectionState)
    {
      var connected := IsConnected();
      if !connected || !hasProto {
        return false;
      }
      ok := Ask(); // write_packet
      if cut {
        return false;
      }
      if !ok {
        HandleDisconnect();
      }
    }

    /** A callback that makes any number of calls. */
    method Callback()
      requires (Valid() || Desynced()) && !cut
      modifies this
      ensures Progress() && hasProto == old(hasProto) && hasServer == old(hasServer)
      ensures AtMostDropped()
      ensures Led(CallsLead(old(world), old(connectionState) == 1, hasProto))
    {
      hide Valid, Desynced, CallsLead;
      CallsLeadOn(false, [], connectionState == 1, hasProto);
      ghost var o := CallsLead(world, connectionState == 1, hasProto);
      var more := Ask();
      assert !cut ==> [more] + world == old(world);
      while more && !cut
        invariant Progress() && hasProto == old(hasProto) && hasServer == old(hasServer)
        invariant AtMostDropped()
        invariant o == if cut then CutShort else CallsLead([more] + world, connectionState == 1, hasProto)
        decreases |world|, !cut
      {
        CallsLeadOn(more, world, connectionState == 1, hasProto);
        CallsLeadOn(false, [], connectionState == 1, hasProto);
        more := CallOne();
      }
      CallsLeadOn(more, world, connectionState == 1, hasProto);
    }

    /** One call, then whether there is another. */
    method CallOne() returns (more: bool)
      requires (Valid() || Desynced()) && !cut
      modifies this
      ensures Progress() && hasProto == old(hasProto) && hasServer == old(hasServer)
      ensures AtMostDropped()
      ensures |world| < old(|world|) || cut
      ensures var w := old(world);
              var called := old(connectionState) == 1 && hasProto;
              if called && w == [] then cut
              else
                var rest := if called then w[1..] else w;
                && (if cut then rest == [] else [more] + world == rest)
                && (!cut ==> (connectionState == 1 <==> old(connectionState) == 1 && (called ==> w[0])))
    {
      hide Valid, Desynced;
      more := false;
      var _ := Call();
      if !cut {
        ghost var w := world;
        more := Ask();
        assert !cut ==> [more] + world == w;
      }
    }

    method CheckHeartbeat() returns (ok: bool)
      requires (Valid() || Desynced()) && !cut
      modifies this
      ensures Progress() && hasProto == old(hasProto) && hasServer == old(hasServer)
      ensures AtMostDropped()
      ensures !cut ==> |old(world)| > 0
      ensures !cut ==> (ok <==> !old(world)[0] || (|old(world)| > 1 && old(world)[1]))
      ensures !cut ==> if ok then connectionState == old(connectionState) else connectionState == -1
      ensures Led(BeatLeads(old(world), old(connectionState) == 1))
      ensures !cut ==> (ok <==> !BeatFails(old(world)))
    {
      var due := Ask(); // elapsed.count() > 1.0
      if cut || !due {
        return !cut;
      }
      ok := Ask(); // write_packet
      if cut {
        return false;
      }
      if !ok {
        HandleDisconnect();
      }
    }

    /** `connect`.  Called while connected, it loses track of the open connection, whatever
        the transport answers. */
    method Connect() returns (ok: bool)
      requires (Valid() || Desynced()) && !cut
      modifies this
      ensures Moves()
      ensures misuses == old(misuses) + if old(connectionState) == 1 && old(world) != [] then 1 else 0
      ensures old(Valid()) && (old(connectionState) != 1 || old(world) == []) ==> Valid()
      ensures old(Desynced()) || (old(connectionState) == 1 && old(world) != []) ==> Desynced()
      ensures |world| < old(|world|) || cut
      ensures !cut ==> |old(world)| > 0 && ok == old(world)[0] && connectionState != 0
      ensures !ok && !cut ==> connectionState == -1 && log == old(log)
      ensures !ok && !cut ==> world == old(world)[1..] && hasServer == old(hasServer)
      ensures ok && !cut ==> hasServer && hasProto
      decreases |world|, 0
    {
      hide PacketsLead, CallsLead;
      ok := Ask(); // m_client->connect(address)
      if cut {
        return false;
      }
      if connectionState == 1 {
        misuses := misuses + 1;
      }
      if !ok {
        connectionState := -1;
        return false;
      }
      connectionState := 0;
      hasServer := true;
      hasProto := true;
      while connectionState == 0 && !cut
        invariant Moves() && hasProto && hasServer
        invariant misuses == old(misuses) + if old(connectionState) == 1 then 1 else 0
        invariant old(Valid()) && old(connectionState) != 1 ==> Valid()
        invariant old(Desynced()) || old(connectionState) == 1 ==> Desynced()
        invariant |world| < old(|world|) || cut
        decreases |world|, !cut
      {
        var _ := Process();
      }
      return !cut;
    }

    method Process() returns (ok: bool)
      requires (Valid() || Desynced()) && !cut
      modifies this
      ensures Progress()
      ensures hasProto && old(hasProto) ==> |world| < old(|world|) || cut
      // a call that fails leaves the client disconnected
      ensures !ok && !cut ==> connectionState == -1
      // the transport is gone: an open connection is closed first
      ensures old(hasProto) && !cut ==> |old(world)| > 0
      ensures !cut && !old(hasProto && world[0]) && old(connectionState) == 1 ==>
                old(log) + [DisconnectEvent] <= log
      // the transport is up: a connection that was not open is opened first
      ensures !cut && old(hasProto && |world| > 1 && world[0] && world[1] && connectionState <= 0) ==>
                old(log) + [ConnectEvent] <= log
      // an open connection is not opened again
      ensures !cut && old(hasProto && world[0] && connectionState == 1) ==>
                log == old(log) || log == old(log) + [DisconnectEvent]
      // a live transport: the answers decide the outcome, the heartbeat's the result
      ensures old(hasProto && world != [] && world[0]) ==>
                var before := BeforeBeat(old(world)[1..], old(connectionState) == 1, true);
                && (cut <==> before.CutShort? || BeatLeads(before.world, before.open).CutShort?)
                && (!cut ==> Led(BeatLeads(before.world, before.open))
                             && (ok <==> !BeatFails(before.world)))
      ensures !cut && old(hasProto && world[0]) ==>
                |old(world)| > 1
                && log == old(log) + Raised(old(world)[1] && old(connectionState) <= 0,
                                            old(world)[1] || old(connectionState) == 1,
                                            connectionState == 1)
      // a lost transport: without auto-reconnect that is all
      ensures Lost(old(hasProto), old(world)) && !(autoReconnect > 0 && old(hasServer)) ==>
                !cut && !ok && world == Behind(old(hasProto), old(world))
                && log == old(log) + IfOpen(old(connectionState))
      // with it, the delay and the new connection decide
      ensures !cut && Lost(old(hasProto), old(world)) && autoReconnect > 0 && old(hasServer) ==>
                var w := Behind(old(hasProto), old(world));
                && w != []
                && (ok <==> w[0] && |w| > 1 && w[1])
                && (if ok then
                      && old(log) + IfOpen(old(connectionState)) <= log
                      && ReconnectEvent in log[|old(log) + IfOpen(old(connectionState))|..]
                    else
                      && log == old(log) + IfOpen(old(connectionState))
                      && (if w[0] then |w| > 1 && world == w[2..] else world == w[1..]))
      decreases |world|, 2
    {
      hide TrackOf, PacketsLead, CallsLead;
      var sent := false;
      if hasProto {
        sent := Ask(); // m_proto->process()
        if cut {
          return false;
        }
      }
      if !sent {
        HandleDisconnect();
        ok := TryReconnect();
        return;
      }
      ok := ProcessLive();
    }

    /** `process` on a live transport. */
    method ProcessLive() returns (ok: bool)
      requires (Valid() || Desynced()) && !cut
      modifies this
      ensures Progress() && hasProto == old(hasProto)
      ensures !ok && !cut ==> connectionState == -1
      ensures var before := BeforeBeat(old(world), old(connectionState) == 1, hasProto);
              && (cut <==> before.CutShort? || BeatLeads(before.world, before.open).CutShort?)
              && (!cut ==> Led(BeatLeads(before.world, before.open))
                           && (ok <==> !BeatFails(before.world)))
      ensures !cut ==>
                |old(world)| > 0
                && log == old(log) + Raised(old(world)[0] && old(connectionState) <= 0,
                                            old(world)[0] || old(connectionState) == 1,
                                            connectionState == 1)
    {
      hide TrackOf, PacketsLead, CallsLead;
      RaiseConnect();
      if cut {
        return false;
      }
      ReadPackets();
      if cut {
        return false;
      }
      ok := CheckHeartbeat();
    }

    /** The auto-reconnect branch of `process`. */
    method TryReconnect() returns (ok: bool)
      requires (Valid() || Desynced()) && !cut && connectionState == -1
      modifies this
      ensures Progress()
      ensures !ok && !cut ==> connectionState == -1
      ensures !(autoReconnect > 0 && old(hasServer)) ==>
                !cut && !ok && world == old(world) && log == old(log)
      ensures !cut && autoReconnect > 0 && old(hasServer) ==>
                && old(world) != []
                && (ok <==> old(world)[0] && |old(world)| > 1 && old(world)[1])
                && (if ok then ReconnectEvent in log[|old(log)|..]
                    else log == old(log)
                         && if old(world)[0] then |old(world)| > 1 && world == old(world)[2..]
                            else world == old(world)[1..])
      decreases |world|, 1
    {
      if autoReconnect > 0 && hasServer {
        var elapsed := Ask();
        if cut || !elapsed {
          return false;
        }
        ok := Connect();
        if ok && !cut {
          ghost var n := |log|;
          Fire(ReconnectEvent);
          assert log[n] == ReconnectEvent;
          Callback();
          assert log[|old(log)|..][n - |old(log)|] == ReconnectEvent;
        }
        return ok && !cut;
      }
      return false;
    }

    /** The connect event of `process`. */
    method RaiseConnect()
      requires (Valid() || Desynced()) && !cut
      modifies this
      ensures Progress() && hasProto == old(hasProto)
      ensures Led(RaiseLeads(old(world), old(connectionState) == 1, hasProto))
      ensures !cut ==> |old(world)| > 0
      ensures !cut && old(world)[0] && old(connectionState) <= 0 ==>
                log == old(log) + [ConnectEvent] + (if connectionState == 1 then [] else [DisconnectEvent])
      ensures !cut && !(old(world)[0] && old(connectionState) <= 0) ==>
                log == old(log) && connectionState == old(connectionState)
      ensures old(connectionState) == 1 ==> log == old(log) && connectionState == 1
    {
      var up := Ask(); // m_client->is_connected()
      if cut {
        return;
      }
      if up {
        if connectionState <= 0 {
          // the callback below may already make calls
          connectionState := 1;
          Fire(ConnectEvent);
          Callback();
        }
      }
    }

    /** The packet loop of `process`; each handler may make calls. */
    method ReadPackets()
      requires (Valid() || Desynced()) && !cut
      modifies this
      ensures Progress() && hasProto == old(hasProto) && AtMostDropped()
      ensures Led(PacketsLead(old(world), old(connectionState) == 1, hasProto))
    {
      hide Valid, Desynced, CallsLead, PacketsLead;
      PacketsLeadOn(false, [], connectionState == 1, hasProto);
      ghost var o := PacketsLead(world, connectionState == 1, hasProto);
      var more := Ask();
      assert !cut ==> [more] + world == old(world);
      while more && !cut
        invariant Progress() && hasProto == old(hasProto) && AtMostDropped()
        invariant o == if cut then CutShort else PacketsLead([more] + world, connectionState == 1, hasProto)
        decreases |world|, !cut
      {
        PacketsLeadOn(more, world, connectionState == 1, hasProto);
        PacketsLeadOn(false, [], connectionState == 1, hasProto);
        more := HandleOne();
      }
      PacketsLeadOn(more, world, connectionState == 1, hasProto);
    }

    /** The endpoint's handler, then a look for another packet. */
    method HandleOne() returns (more: bool)
      requires (Valid() || Desynced()) && !cut
      modifies this
      ensures Progress() && hasProto == old(hasProto) && AtMostDropped()
      ensures |world| < old(|world|) || cut
      ensures var o := CallsLead(old(world), old(connectionState) == 1, hasProto);
              if cut then o.CutShort? || o.world == []
              else o == Went([more] + world, connectionState == 1)
    {
      hide Valid, Desynced, CallsLead;
      more := false;
      Callback();
      if !cut {
        ghost var w := world;
        more := Ask();
        assert !cut ==> [more] + world == w;
      }
    }

    /** `handle_disconnect` with a disconnect callback that makes calls.  The connection state
        is still 1 while it runs, so a call that fails raises the event a second time. */
    method HandleDisconnectCalling() returns (failed: bool)
      requires Sound() && !cut
      modifies this
      ensures Moves() && Sound() && misuses == old(misuses) && hasProto == old(hasProto)
      ensures !cut ==> connectionState == -1
      ensures TrackOf(old(log)) == Broken ==> TrackOf(log) == Broken
      ensures old(connectionState) == 1 && TrackOf(old(log)) != Open ==> TrackOf(log) == Broken
      ensures !cut && old(connectionState) == 1 ==> (failed <==> CallFails(old(world), hasProto))
      ensures !cut && old(Valid()) && old(connectionState) == 1 ==>
                if failed then TrackOf(log) == Broken
                else Valid() && log == old(log) + [DisconnectEvent]
      decreases |world|
    {
      hide TrackOf, CallFails;
      failed := false;
      if connectionState > 0 {
        Fire(DisconnectEvent);
        ghost var first := log;
        var more := Ask();
        assert !cut ==> [more] + world == old(world);
        while more && !cut
          invariant Moves() && Sound() && first <= log
          invariant misuses == old(misuses) && hasProto == old(hasProto)
          invariant |world| < old(|world|) || cut
          invariant TrackOf(first) == Broken ==> TrackOf(log) == Broken
          invariant failed ==> TrackOf(log) == Broken
          invariant !failed ==> log == first && connectionState == 1
          invariant !cut ==>
                      (CallFails(old(world), hasProto) <==> failed || CallFails([more] + world, hasProto))
          decreases |world|, !cut
        {
          CallFailsOn(more, world, hasProto);
          if connectionState == 1 && hasProto {
            var sent := Ask(); // write_packet
            if !cut && !sent {
              var _ := HandleDisconnectCalling();
              failed := true;
            }
          }
          if !cut {
            ghost var w' := world;
            more := Ask();
            assert !cut ==> [more] + world == w';
          }
        }
        if cut {
          return;
        }
        CallFailsOn(more, world, hasProto);
      }
      connectionState := -1;
    }

    /** Any program over the class.  The events alternate and the connection state follows
        them exactly if `connect` was never called while connected. */
    method Run(ops: seq<Operation>)
      requires Valid() && !cut
      modifies this
      ensures Moves() && misuses >= old(misuses)
      ensures if misuses > old(misuses) then Desynced() && !Valid() else Valid()
      ensures DoConnect !in ops ==> misuses == old(misuses)
      ensures misuses == old(misuses) ==>
                (connectionState == 1 <==> CountOf(ConnectEvent, log) == CountOf(DisconnectEvent, log) + 1)
    {
      var i := 0;
      while i < |ops| && !cut
        invariant Moves() && misuses >= old(misuses)
        invariant if misuses > old(misuses) then Desynced() else Valid()
        invariant DoConnect !in ops ==> misuses == old(misuses)
        decreases |ops| - i
      {
        match ops[i] {
          case DoConnect =>
            var _ := Connect();
          case DoProcess =>
            var _ := Process();
          case DoCall =>
            var _ := Call();
          case DoDisconnect =>
            Disconnect();
        }
        i := i + 1;
      }
      if misuses == old(misuses) {
        AlternatingCounts(log, |log|);
        assert log[..|log|] == log;
      }
    }
  }
}
