/** `http::server_handler` of src/http/http_server.cpp: it collects a request, has it
    answered, and pumps the response out, over a connection that may be kept alive. */
module HttpServers {
  import opened Bytes
  import opened StringUtil
  import opened Url
  import opened Decimals
  import opened HttpParsers
  import opened HttpRequests

  /** What the transport answers to `read_raw` and `write_raw`; before a write fails, a few
      bytes may have gone out. */
  datatype Inbound = ReadFailed | Received(data: string)
  datatype Outbound = WriteFailed(leaked: nat) | Took(count: nat)

  /** What the outside decides in one `process` call. */
  datatype Turn = Turn(timedOut: bool, protoOk: bool, inbound: Inbound, outbound: Outbound)

  /** The server: its endpoints, as the response text they produce for a request and for the
      fields already set on the response, and its keep-alive settings. */
  datatype App = App(answer: (Request, map<string, string>) -> string,
                     keepAliveTimeout: int, keepAliveMax: int)

  /** The fields that are set on a response before an endpoint sees it. */
  function PresetFields(connection: string, app: App): map<string, string> {
    var fields := map["connection" := connection];
    if connection != "keep-alive" then fields
    else fields["keep-alive" := "timeout=" + ToString(app.keepAliveTimeout)
                                + ", max=" + ToString(app.keepAliveMax)]
  }

  datatype Conn = Conn(
    keepAlive: bool, requestCount: nat, request: string, complete: bool,
    response: string, sent: nat, left: nat)

  const FRESH := Conn(false, 0, "", false, "", 0, 0)

  /** How a `process` call ends: the handler stays, is closed and removed, or an exception
      leaves it. */
  datatype Ending = Stays | Closes | Throws

  datatype Handled = Handled(status: Status, conn: Conn)

  /** `handle_request`: parses all that has been collected, from scratch. */
  function HandleRequest(c: Conn, app: App): Handled {
    var p := FromText(EMPTY, c.request);
    if p.status != ParseSuccess then Handled(p.status, c)
    else
      var r := TouchField(p.request, "connection");
      var connection := LowerAll(FieldOf(r, "connection"));
      var d := c.(keepAlive := connection == "keep-alive");
      if r.kind == "GET" || r.kind == "POST"
      then Handled(ParseSuccess, d.(response := app.answer(r, PresetFields(connection, app))))
      else Handled(ParseError, d)
  }

  datatype Progress = Progress(ending: Ending, conn: Conn, dispatched: bool, emitted: string)

  /** The reading half of a `process` call; `None` as the ending means that it goes on to
      write. */
  datatype ReadHalf = ReadHalf(ending: Option<Ending>, conn: Conn)

  function ReadRequest(c: Conn, inbound: Inbound, app: App): ReadHalf {
    if c.complete then ReadHalf(None, c)
    else match inbound
      case ReadFailed => ReadHalf(Some(Closes), c)
      case Received(data) =>
        if data == "" then ReadHalf(Some(Stays), c)
        else
          var h := HandleRequest(c.(request := c.request + data), app);
          match h.status
          case ParseError => ReadHalf(Some(Closes), h.conn)
          case ParseErrorAgain => ReadHalf(Some(Stays), h.conn)
          case Threw => ReadHalf(Some(Throws), h.conn)
          case ParseSuccess =>
            ReadHalf(None, h.conn.(complete := true, sent := 0, left := |h.conn.response|))
  }

  /** How many bytes of the response the transport takes: no more than it is offered. */
  function Accepted(c: Conn, outbound: Outbound): nat {
    var n := match outbound case WriteFailed(leaked) => leaked case Took(count) => count;
    if n <= c.left then n else c.left
  }

  datatype WriteHalf = WriteHalf(ending: Ending, conn: Conn)

  function WriteResponse(c: Conn, outbound: Outbound, app: App): WriteHalf {
    if outbound.WriteFailed? then WriteHalf(Closes, c)
    else
      var d := c.(sent := c.sent + Accepted(c, outbound), left := c.left - Accepted(c, outbound));
      if d.left > 0 then WriteHalf(Stays, d)
      else if !d.keepAlive then WriteHalf(Closes, d)
      else
        var e := d.(requestCount := d.requestCount + 1);
        if app.keepAliveMax > 0 && e.requestCount >= app.keepAliveMax then WriteHalf(Closes, e)
        else WriteHalf(Stays, e.(request := "", complete := false, response := ""))
  }

  /** One `process` call. */
  function Step(c: Conn, t: Turn, app: App): Progress {
    if c.keepAlive && t.timedOut then Progress(Closes, c, false, "")
    else if !t.protoOk then Progress(Closes, c, false, "")
    else
      var r := ReadRequest(c, t.inbound, app);
      if r.ending.Some? then Progress(r.ending.value, r.conn, false, "")
      else
        var w := WriteResponse(r.conn, t.outbound, app);
        Progress(w.ending, w.conn, !c.complete, Slice(r.conn.response, r.conn.sent, Accepted(r.conn, t.outbound)))
  }

  /** `n` characters from position `from`, as far as there are any. */
  function Slice(s: string, from: nat, n: nat): string {
    if from + n <= |s| then s[from..from + n] else ""
  }

  // ---------- whole connections ----------

  /** A connection up to now: the responses of all requests dispatched, in order, and every
      byte the transport has taken. */
  datatype History = History(ending: Ending, conn: Conn, answers: seq<string>, emitted: string)

  const START := History(Stays, FRESH, [], "")

  /** The response that a turn dispatches a request for. */
  function AnswerOf(c: Conn, t: Turn, app: App): string {
    ReadRequest(c, t.inbound, app).conn.response
  }

  function Extend(h: History, t: Turn, app: App): History {
    if h.ending != Stays then h
    else
      var p := Step(h.conn, t, app);
      History(p.ending, p.conn,
              if p.dispatched then h.answers + [AnswerOf(h.conn, t, app)] else h.answers,
              h.emitted + p.emitted)
  }

  function Run(h: History, turns: seq<Turn>, app: App): History
    decreases |turns|
  {
    if turns == [] then h else Run(Extend(h, turns[0], app), turns[1..], app)
  }

  /** While a response is going out, what is sent and what is left make up the response, and
      what has been emitted is every earlier response complete, then the part sent. */
  ghost predicate Pumping(c: Conn, answers: seq<string>, emitted: string) {
    if c.complete then
      && answers != [] && answers[|answers| - 1] == c.response
      && c.sent + c.left == |c.response|
      && emitted == Concat(answers[..|answers| - 1]) + c.response[..c.sent]
    else emitted == Concat(answers)
  }

  /** Every response but the last has been emitted, and nothing but responses. */
  ghost predicate InOrder(answers: seq<string>, emitted: string) {
    && emitted <= Concat(answers)
    && (answers != [] ==> Concat(answers[..|answers| - 1]) <= emitted)
  }

  /** Responses complete one after the other, and never more than the limit. */
  ghost predicate Counted(h: History, app: App) {
    && (h.ending == Stays ==>
          && |h.answers| == h.conn.requestCount + (if h.conn.complete then 1 else 0)
          && (app.keepAliveMax > 0 ==> h.conn.requestCount < app.keepAliveMax))
    && (app.keepAliveMax > 0 ==> |h.answers| <= app.keepAliveMax)
  }

  ghost predicate Inv(h: History, app: App) {
    && (h.ending == Stays ==> Pumping(h.conn, h.answers, h.emitted))
    && InOrder(h.answers, h.emitted)
    && Counted(h, app)
  }

  lemma PumpingIsInOrder(c: Conn, answers: seq<string>, emitted: string)
    requires Pumping(c, answers, emitted)
    ensures InOrder(answers, emitted)
  {
    if answers != [] {
      var front, last := answers[..|answers| - 1], answers[|answers| - 1];
      assert answers == front + [last];
      ConcatOne(front, last);
    }
  }

  lemma ConcatOne(ts: seq<string>, t: string)
    ensures Concat(ts + [t]) == Concat(ts) + t
  {
    ConcatSplit(ts, [t]);
    assert [t][1..] == [];
  }

  /** The reading half keeps the emitted bytes in step with the answers. */
  lemma ReadKeepsPumping(c: Conn, answers: seq<string>, emitted: string, inbound: Inbound, app: App)
    requires Pumping(c, answers, emitted)
    ensures var r := ReadRequest(c, inbound, app);
            && r.conn.requestCount == c.requestCount
            && (r.ending.Some? ==> !r.conn.complete)
            && (r.ending.None? ==>
                  && r.conn.complete
                  && Pumping(r.conn, if c.complete then answers else answers + [r.conn.response], emitted))
  {
    hide FromText;
    var r := ReadRequest(c, inbound, app);
    if r.ending.None? && !c.complete {
      var more := answers + [r.conn.response];
      assert more[..|more| - 1] == answers;
      assert emitted + "" == emitted;
      assert r.conn.response[..0] == "";
    }
  }

  lemma PrefixGrows(s: string, k: nat, n: nat)
    requires k + n <= |s|
    ensures s[..k] + s[k..k + n] == s[..k + n]
  {
    var t := s[..k] + s[k..k + n];
    forall i | 0 <= i < |t|
      ensures t[i] == s[..k + n][i]
    {
    }
  }

  lemma WriteKeepsPumping(c: Conn, answers: seq<string>, emitted: string, outbound: Outbound,
                          app: App)
    requires Pumping(c, answers, emitted) && c.complete
    ensures var w := WriteResponse(c, outbound, app);
            var out := emitted + Slice(c.response, c.sent, Accepted(c, outbound));
            && InOrder(answers, out)
            && (w.ending == Stays ==> Pumping(w.conn, answers, out))
  {
    hide Concat;
    var n := Accepted(c, outbound);
    var part := Slice(c.response, c.sent, n);
    var front := answers[..|answers| - 1];
    var d := c.(sent := c.sent + n, left := c.left - n);
    PrefixGrows(c.response, c.sent, n);
    Assoc(Concat(front), c.response[..c.sent], part);
    assert Pumping(d, answers, emitted + part);
    PumpingIsInOrder(d, answers, emitted + part);
    if c.left == n {
      assert c.response[..|c.response|] == c.response;
      assert answers == front + [c.response];
      ConcatOne(front, c.response);
    }
  }

  lemma StepKeepsInv(h: History, t: Turn, app: App)
    requires Inv(h, app)
    ensures Inv(Extend(h, t, app), app)
  {
    hide ReadRequest, Concat, Slice, InOrder;
    assert h.emitted + "" == h.emitted;
    if h.ending == Stays && !(h.conn.keepAlive && t.timedOut) && t.protoOk {
      var r := ReadRequest(h.conn, t.inbound, app);
      ReadKeepsPumping(h.conn, h.answers, h.emitted, t.inbound, app);
      ReadStops(h.conn, t.inbound, app);
      if r.ending.None? {
        var answers := if h.conn.complete then h.answers else h.answers + [r.conn.response];
        WriteKeepsPumping(r.conn, answers, h.emitted, t.outbound, app);
      } else if r.ending == Some(Stays) {
        ReadWaits(h.conn, t.inbound, app);
      }
    }
  }

  /** Waiting for more of a request changes only what has been collected. */
  lemma ReadWaits(c: Conn, inbound: Inbound, app: App)
    requires ReadRequest(c, inbound, app).ending == Some(Stays)
    ensures var d := ReadRequest(c, inbound, app).conn;
            d == c.(request := d.request) && !c.complete
  {
    hide FromText;
  }

  lemma ReadStops(c: Conn, inbound: Inbound, app: App)
    ensures c.complete ==> ReadRequest(c, inbound, app) == ReadHalf(None, c)
  {
  }

  /** The response pump over a whole keep-alive connection: for any partial writes, any reads
      and any failures, the bytes emitted are the complete responses in request order, then
      a part from the front of the current one, and at most `keepAliveMax` requests are
      answered before the connection is closed. */
  lemma {:induction false} ResponsePump(h: History, turns: seq<Turn>, app: App)
    requires Inv(h, app)
    ensures Inv(Run(h, turns, app), app)
    decreases |turns|
  {
    hide Extend, Inv;
    if turns != [] {
      StepKeepsInv(h, turns[0], app);
      ResponsePump(Extend(h, turns[0], app), turns[1..], app);
    }
  }

  lemma StartInv(app: App)
    ensures Inv(START, app)
  {
  }

  // ---------- a request that arrives in pieces ----------

  /** Each turn brings one piece, or finds nothing to read yet and brings an empty one; nothing
      times out, and the writes may go as they like. */
  ghost predicate Deliver(turns: seq<Turn>, pieces: seq<string>) {
    && |turns| == |pieces|
    && forall i :: 0 <= i < |turns| ==> Delivers(turns[i], pieces[i])
  }

  predicate Delivers(t: Turn, piece: string) {
    !t.timedOut && t.protoOk && t.inbound == Received(piece)
  }

  /** No turn reads anything more: the response is still going out, or the handler is gone, or
      there is nothing to read or no way to read it. */
  ghost predicate ReadsNothing(h: History, turns: seq<Turn>, app: App)
    decreases |turns|
  {
    turns != [] ==>
      && (h.ending != Stays || h.conn.complete || turns[0].inbound in {ReadFailed, Received("")})
      && ReadsNothing(Extend(h, turns[0], app), turns[1..], app)
  }

  /** A GET or POST request that the parser accepts and whose body ends where the text ends. */
  predicate Servable(text: string) {
    var p := FromText(EMPTY, text);
    && p.status == ParseSuccess && BodyEnds(text)
    && (p.request.kind == "GET" || p.request.kind == "POST")
  }

  /** What the endpoint is given for a request text. */
  function RequestOf(text: string): Request {
    TouchField(FromText(EMPTY, text).request, "connection")
  }

  /** What it answers. */
  function AnswerTo(text: string, app: App): string {
    var r := RequestOf(text);
    app.answer(r, PresetFields(LowerAll(FieldOf(r, "connection")), app))
  }

  /** Every GET or POST request that RFC 9112 allows is one. */
  lemma WellFormedIsServable(start: string, fs: seq<FieldText>, body: string)
    requires !Contains(start, CRLF) && GoodStartLine(start) && forall f :: f in fs ==> IsLine(f)
    requires LengthMatches(Message(start, FieldsOf(fs, map[]), body))
    requires Tokens(start, ' ')[0] == "GET" || Tokens(start, ' ')[0] == "POST"
    ensures Servable(Written(start, fs, body))
    ensures RequestOf(Written(start, fs, body)).message.body == body
  {
    hide FromText, Written, BodyEnds, Contains, GoodStartLine, FieldsOf, LengthMatches;
    FullRequestSucceeds(start, fs, body);
  }

  lemma PieceWaits(c: Conn, t: Turn, piece: string, text: string, app: App)
    requires Servable(text) && !c.complete && Delivers(t, piece)
    requires c.request + piece < text
    ensures Step(c, t, app) == Progress(Stays, c.(request := c.request + piece), false, "")
  {
    hide FromText, BodyEnds;
    var part := c.request + piece;
    if piece == "" {
      assert part == c.request;
    }
    assert part == text[..|part|];
    PartsWaitIff(text);
  }

  lemma LastPieceDispatches(c: Conn, t: Turn, piece: string, text: string, app: App)
    requires Servable(text) && !c.complete && Delivers(t, piece) && piece != ""
    requires c.request + piece == text
    ensures Step(c, t, app).dispatched
    ensures AnswerOf(c, t, app) == AnswerTo(text, app)
  {
    hide FromText, BodyEnds;
  }

  lemma {:induction false} ConcatOfLast(pieces: seq<string>)
    requires pieces != [] && pieces[|pieces| - 1] != ""
    ensures Concat(pieces) != ""
  {
    if |pieces| > 1 {
      ConcatOfLast(pieces[1..]);
    }
  }

  /** The turns that bring a servable request dispatch it at its last piece, and not before. */
  lemma {:induction false} DispatchedAtLastPiece(h: History, turns: seq<Turn>, pieces: seq<string>,
                                                 text: string, app: App)
    requires Servable(text) && h.ending == Stays && !h.conn.complete
    requires pieces != [] && pieces[|pieces| - 1] != "" && Deliver(turns, pieces)
    requires h.conn.request + Concat(pieces) == text
    ensures Run(h, turns, app).answers == h.answers + [AnswerTo(text, app)]
    ensures forall n: nat :: n < |turns| ==> Run(h, turns[..n], app).answers == h.answers
    decreases |pieces|
  {
    hide Step, AnswerOf, AnswerTo, Servable;
    var t, piece, rest := turns[0], pieces[0], pieces[1..];
    var h' := Extend(h, t, app);
    assert Delivers(t, piece);
    Assoc(h.conn.request, piece, Concat(rest));
    if rest == [] {
      assert h.conn.request + piece + "" == h.conn.request + piece;
      LastPieceDispatches(h.conn, t, piece, text, app);
      assert turns[1..] == [] && turns[..0] == [];
    } else {
      ConcatOfLast(rest);
      PieceWaits(h.conn, t, piece, text, app);
      DispatchedAtLastPiece(h', turns[1..], rest, text, app);
      forall n: nat | n < |turns|
        ensures Run(h, turns[..n], app).answers == h.answers
      {
        if n > 0 {
          assert turns[..n][1..] == turns[1..][..n - 1];
        }
      }
    }
  }

  /** A turn that reads nothing dispatches nothing. */
  lemma NothingReadIsNotDispatched(c: Conn, t: Turn, app: App)
    requires c.complete || t.inbound in {ReadFailed, Received("")}
    ensures !Step(c, t, app).dispatched
  {
    hide FromText;
  }

  lemma {:induction false} NothingMore(h: History, turns: seq<Turn>, app: App, n: nat)
    requires ReadsNothing(h, turns, app) && n <= |turns|
    ensures Run(h, turns[..n], app).answers == h.answers
    decreases |turns|
  {
    hide Step, AnswerOf;
    if n > 0 {
      if h.ending == Stays {
        NothingReadIsNotDispatched(h.conn, turns[0], app);
      }
      NothingMore(Extend(h, turns[0], app), turns[1..], app, n - 1);
      assert turns[..n][1..] == turns[1..][..n - 1];
    }
  }

  lemma {:induction false} RunConcat(h: History, turns: seq<Turn>, more: seq<Turn>, app: App)
    ensures Run(h, turns + more, app) == Run(Run(h, turns, app), more, app)
    decreases |turns|
  {
    hide Extend;
    if turns == [] {
      assert turns + more == more;
    } else {
      assert (turns + more)[1..] == turns[1..] + more;
      RunConcat(Extend(h, turns[0], app), turns[1..], more, app);
    }
  }

  /** However a servable request is cut into pieces, and whatever happens while and after its
      response goes out: as long as nothing more is read, `process` has dispatched nothing
      before the last piece has arrived and the request exactly once from then on. */
  lemma DispatchedExactlyOnce(h: History, turns: seq<Turn>, pieces: seq<string>, after: seq<Turn>,
                              text: string, app: App, n: nat)
    requires Servable(text) && h.ending == Stays && !h.conn.complete
    requires pieces != [] && pieces[|pieces| - 1] != "" && Deliver(turns, pieces)
    requires h.conn.request + Concat(pieces) == text
    requires ReadsNothing(Run(h, turns, app), after, app)
    requires n <= |turns + after|
    ensures Run(h, (turns + after)[..n], app).answers
            == if n < |turns| then h.answers else h.answers + [AnswerTo(text, app)]
  {
    hide Run, AnswerTo, Servable, ReadsNothing;
    DispatchedAtLastPiece(h, turns, pieces, text, app);
    if n < |turns| {
      assert (turns + after)[..n] == turns[..n];
    } else {
      var k := n - |turns|;
      assert (turns + after)[..n] == turns + after[..k];
      RunConcat(h, turns, after[..k], app);
      NothingMore(Run(h, turns, app), after, app, k);
    }
  }

  // ---------- one request after the other ----------

  /** The client asks for the connection to be kept. */
  predicate KeepsAlive(text: string) {
    LowerAll(FieldOf(RequestOf(text), "connection")) == "keep-alive"
  }

  /** The connection is closed behind the answer to this request. */
  predicate ClosesAfter(text: string, requestCount: nat, app: App) {
    !KeepsAlive(text) || (app.keepAliveMax > 0 && requestCount + 1 >= app.keepAliveMax)
  }

  /** One request: the turns that bring its pieces, and those in which its response goes out. */
  datatype Exchange = Exchange(feed: seq<Turn>, pieces: seq<string>, pump: seq<Turn>)

  function TextOf(x: Exchange): string {
    Concat(x.pieces)
  }

  function TotalTaken(turns: seq<Turn>): nat {
    if turns == [] then 0
    else (if turns[0].outbound.Took? then turns[0].outbound.count else 0) + TotalTaken(turns[1..])
  }

  /** Nothing goes wrong in a turn, and it reads nothing more. */
  predicate Calm(h: History, t: Turn) {
    && !t.timedOut && t.protoOk && t.outbound.Took?
    && (h.ending != Stays || h.conn.complete || t.inbound == Received(""))
  }

  ghost predicate AllCalm(h: History, turns: seq<Turn>, app: App)
    decreases |turns|
  {
    turns != [] ==> Calm(h, turns[0]) && AllCalm(Extend(h, turns[0], app), turns[1..], app)
  }

  /** A servable request arrives in pieces, and the transport takes the whole response. */
  ghost predicate Completed(h: History, x: Exchange, app: App) {
    && Deliver(x.feed, x.pieces) && x.pieces != [] && x.pieces[|x.pieces| - 1] != ""
    && Servable(TextOf(x))
    && x.feed[|x.feed| - 1].outbound.Took?
    && AllCalm(Run(h, x.feed, app), x.pump, app)
    && TotalTaken([x.feed[|x.feed| - 1]]) + TotalTaken(x.pump) >= |AnswerTo(TextOf(x), app)|
  }

  /** The state in which a connection can take the next request: nothing is left of the last. */
  predicate Idle(h: History) {
    h.ending == Stays && !h.conn.complete && h.conn.request == ""
  }

  /** How the exchange ended. */
  predicate Over(h: History, closes: bool, requestCount: nat) {
    if closes then h.ending == Closes else Idle(h) && h.conn.requestCount == requestCount + 1
  }

  lemma {:induction false} FeedWaits(h: History, turns: seq<Turn>, pieces: seq<string>, text: string, app: App)
    requires Servable(text) && h.ending == Stays && !h.conn.complete && Deliver(turns, pieces)
    requires h.conn.request + Concat(pieces) < text
    ensures Run(h, turns, app) == h.(conn := h.conn.(request := h.conn.request + Concat(pieces)))
    decreases |pieces|
  {
    hide Step, AnswerOf, Servable;
    if pieces == [] {
      assert h.conn.request + "" == h.conn.request;
    } else {
      var t, piece, rest := turns[0], pieces[0], pieces[1..];
      assert Delivers(t, piece);
      Assoc(h.conn.request, piece, Concat(rest));
      PieceWaits(h.conn, t, piece, text, app);
      assert h.emitted + "" == h.emitted;
      FeedWaits(Extend(h, t, app), turns[1..], rest, text, app);
    }
  }

  /** The state in which a response begins to go out. */
  function Answered(c: Conn, text: string, app: App): Conn {
    var a := AnswerTo(text, app);
    c.(keepAlive := KeepsAlive(text), request := text, complete := true, response := a,
       sent := 0, left := |a|)
  }

  /** The turn of the last piece: the request is answered, and writing begins. */
  lemma LastPieceAnswers(c: Conn, t: Turn, piece: string, text: string, app: App)
    requires Servable(text) && !c.complete && Delivers(t, piece) && piece != ""
    requires c.request + piece == text
    ensures var d := Answered(c, text, app);
            var w := WriteResponse(d, t.outbound, app);
            && Step(c, t, app)
               == Progress(w.ending, w.conn, true, Slice(d.response, 0, Accepted(d, t.outbound)))
            && AnswerOf(c, t, app) == d.response
  {
    hide FromText, BodyEnds, WriteResponse;
  }

  /** What writing leads to, from a connection whose response is going out: a turn that takes
      all that is left ends the exchange, any other leaves it going. */
  lemma WriteOnce(c: Conn, n: nat, app: App)
    requires c.sent + c.left == |c.response|
    ensures var w := WriteResponse(c, Took(n), app);
            var closes := !c.keepAlive || (app.keepAliveMax > 0 && c.requestCount + 1 >= app.keepAliveMax);
            && (n >= c.left && closes ==> w.ending == Closes)
            && (n >= c.left && !closes ==>
                  && w.ending == Stays && !w.conn.complete && w.conn.request == ""
                  && w.conn.requestCount == c.requestCount + 1)
            && (n < c.left ==> w == WriteHalf(Stays, c.(sent := c.sent + n, left := c.left - n)))
  {
  }

  /** Behind its end, calm turns change nothing. */
  lemma {:induction false} CalmBehind(h: History, turns: seq<Turn>, app: App)
    requires AllCalm(h, turns, app) && (h.ending != Stays || !h.conn.complete)
    ensures Run(h, turns, app) == h
    decreases |turns|
  {
    if turns != [] {
      if h.ending == Stays {
        CalmTurn(h.conn, turns[0], app);
        assert h.emitted + "" == h.emitted;
      }
      CalmBehind(h, turns[1..], app);
    }
  }

  lemma CalmTurn(c: Conn, t: Turn, app: App)
    requires !t.timedOut && t.protoOk && t.inbound == Received("") && !c.complete
    ensures Step(c, t, app) == Progress(Stays, c, false, "")
  {
    hide FromText;
  }

  lemma PumpTurn(c: Conn, t: Turn, app: App)
    requires !t.timedOut && t.protoOk && c.complete
    ensures var w := WriteResponse(c, t.outbound, app);
            Step(c, t, app)
            == Progress(w.ending, w.conn, false, Slice(c.response, c.sent, Accepted(c, t.outbound)))
  {
    hide FromText, WriteResponse;
  }

  /** Calm turns that take as much as is left pump the response out. */
  lemma {:induction false} PumpedOut(h: History, turns: seq<Turn>, app: App)
    requires h.ending == Stays && h.conn.complete && 0 < h.conn.left <= TotalTaken(turns)
    requires h.conn.sent + h.conn.left == |h.conn.response|
    requires AllCalm(h, turns, app)
    ensures var k := Run(h, turns, app);
            && k.answers == h.answers
            && k.emitted == h.emitted + h.conn.response[h.conn.sent..]
            && Over(k, !h.conn.keepAlive || (app.keepAliveMax > 0 && h.conn.requestCount + 1 >= app.keepAliveMax),
                    h.conn.requestCount)
    decreases |turns|
  {
    hide Step, WriteResponse, Calm;
    var c, t := h.conn, turns[0];
    assert Calm(h, t);
    IsCalm(h, t);
    var n := t.outbound.count;
    PumpTurn(c, t, app);
    WriteOnce(c, n, app);
    var h' := Extend(h, t, app);
    var all := c.response[c.sent..];
    if n >= c.left {
      assert Slice(c.response, c.sent, c.left) == all;
      CalmBehind(h', turns[1..], app);
    } else {
      assert h'.emitted == h.emitted + c.response[c.sent..c.sent + n];
      PumpedOut(h', turns[1..], app);
      assert all == c.response[c.sent..c.sent + n] + c.response[c.sent + n..];
      Assoc(h.emitted, c.response[c.sent..c.sent + n], c.response[c.sent + n..]);
    }
  }

  lemma IsCalm(h: History, t: Turn)
    requires Calm(h, t)
    ensures !t.timedOut && t.protoOk && t.outbound.Took?
  {
  }

  lemma DeliverInTwo(turns: seq<Turn>, pieces: seq<string>)
    requires Deliver(turns, pieces) && pieces != []
    ensures var n := |turns| - 1;
            n + 1 == |pieces| && Deliver(turns[..n], pieces[..n]) && Delivers(turns[n], pieces[n])
  {
    var n := |turns| - 1;
    forall i | 0 <= i < n
      ensures Delivers(turns[..n][i], pieces[..n][i])
    {
      assert Delivers(turns[i], pieces[i]);
    }
  }

  /** The turns that bring a request to an idle connection: at the last of them it is answered,
      and writing begins. */
  lemma FeedAnswers(h: History, turns: seq<Turn>, pieces: seq<string>, app: App)
    requires Idle(h) && Deliver(turns, pieces) && pieces != [] && pieces[|pieces| - 1] != ""
    requires Servable(Concat(pieces))
    ensures var text := Concat(pieces);
            var out := turns[|turns| - 1].outbound;
            var d := Answered(h.conn, text, app);
            var w := WriteResponse(d, out, app);
            Run(h, turns, app)
            == History(w.ending, w.conn, h.answers + [d.response],
                       h.emitted + Slice(d.response, 0, Accepted(d, out)))
  {
    hide Run, Step, WriteResponse, AnswerOf, AnswerTo, KeepsAlive, Servable, Slice, Concat, Deliver, Delivers;
    DeliverInTwo(turns, pieces);
    var text, n := Concat(pieces), |turns| - 1;
    var front, t, piece := turns[..n], turns[n], pieces[n];
    LastOfConcat(pieces);
    assert h.conn.request + Concat(pieces[..n]) == Concat(pieces[..n]);
    FeedWaits(h, front, pieces[..n], text, app);
    var g := Run(h, front, app);
    LastPieceAnswers(g.conn, t, piece, text, app);
    assert Answered(g.conn, text, app) == Answered(h.conn, text, app);
    assert turns == front + [t];
    RunConcat(h, front, [t], app);
    RunOne(g, t, app);
  }

  /** One exchange on an idle connection: the request is answered once, the response goes out
      complete, and the connection is closed or idle again, with nothing left of the request. */
  lemma ExchangeRuns(h: History, x: Exchange, app: App)
    requires Idle(h) && Completed(h, x, app)
    ensures var k := Run(h, x.feed + x.pump, app);
            var a := AnswerTo(TextOf(x), app);
            && k.answers == h.answers + [a] && k.emitted == h.emitted + a
            && Over(k, ClosesAfter(TextOf(x), h.conn.requestCount, app), h.conn.requestCount)
  {
    hide Run, WriteResponse, AnswerTo, KeepsAlive, Servable, AllCalm, Deliver, Concat, TotalTaken;
    DeliverInTwo(x.feed, x.pieces);
    var a, t := AnswerTo(TextOf(x), app), x.feed[|x.feed| - 1];
    var d := Answered(h.conn, TextOf(x), app);
    var n := t.outbound.count;
    var k := Run(h, x.feed, app);
    FeedAnswers(h, x.feed, x.pieces, app);
    WriteOnce(d, n, app);
    RunConcat(h, x.feed, x.pump, app);
    TookOne(t);
    if n >= d.left {
      assert Slice(a, 0, |a|) == a;
      CalmBehind(k, x.pump, app);
    } else {
      assert k.emitted == h.emitted + a[..n];
      PumpedOut(k, x.pump, app);
      assert a == a[..n] + a[n..];
      Assoc(h.emitted, a[..n], a[n..]);
    }
  }

  lemma LastOfConcat(pieces: seq<string>)
    requires pieces != []
    ensures var n := |pieces| - 1; Concat(pieces[..n]) + pieces[n] == Concat(pieces)
  {
    var n := |pieces| - 1;
    assert pieces == pieces[..n] + [pieces[n]];
    ConcatOne(pieces[..n], pieces[n]);
  }

  lemma RunOne(h: History, t: Turn, app: App)
    ensures Run(h, [t], app) == Extend(h, t, app)
  {
    hide Extend;
    assert [t][1..] == [];
  }

  lemma TookOne(t: Turn)
    ensures TotalTaken([t]) == if t.outbound.Took? then t.outbound.count else 0
  {
    assert [t][1..] == [];
  }

  function Turns(xs: seq<Exchange>): seq<Turn> {
    if xs == [] then [] else (xs[0].feed + xs[0].pump) + Turns(xs[1..])
  }

  function Answers(xs: seq<Exchange>, app: App): (rs: seq<string>)
    ensures |rs| == |xs|
  {
    seq(|xs|, i requires 0 <= i < |xs| => AnswerTo(TextOf(xs[i]), app))
  }

  ghost predicate AllCompleted(h: History, xs: seq<Exchange>, app: App)
    decreases |xs|
  {
    xs != [] ==>
      Completed(h, xs[0], app) && AllCompleted(Run(h, xs[0].feed + xs[0].pump, app), xs[1..], app)
  }

  /** A keep-alive connection serves any number of requests below its limit, each of them in
      any pieces: the answers are those to the requests, in order, they go out one behind the
      other and complete, and nothing is left of any request behind it. */
  lemma {:induction false} KeepAliveServesAll(h: History, xs: seq<Exchange>, app: App)
    requires Idle(h) && AllCompleted(h, xs, app)
    requires forall i :: 0 <= i < |xs| ==> KeepsAlive(TextOf(xs[i]))
    requires app.keepAliveMax > 0 ==> h.conn.requestCount + |xs| < app.keepAliveMax
    ensures var k := Run(h, Turns(xs), app);
            && Idle(k) && k.conn.requestCount == h.conn.requestCount + |xs|
            && k.answers == h.answers + Answers(xs, app)
            && k.emitted == h.emitted + Concat(Answers(xs, app))
    decreases |xs|
  {
    hide AnswerTo, KeepsAlive, Completed, Run;
    if xs == [] {
      NoTurns(h, app);
      assert h.answers + [] == h.answers && h.emitted + "" == h.emitted;
    } else {
      var x, rest := xs[0], xs[1..];
      var turns, a := x.feed + x.pump, AnswerTo(TextOf(x), app);
      ExchangeRuns(h, x, app);
      var g := Run(h, turns, app);
      KeepAliveServesAll(g, rest, app);
      RunConcat(h, turns, Turns(rest), app);
      assert Answers(xs, app) == [a] + Answers(rest, app);
      Assoc(h.answers, [a], Answers(rest, app));
      Assoc(h.emitted, a, Concat(Answers(rest, app)));
    }
  }

  lemma NoTurns(h: History, app: App)
    ensures Run(h, [], app) == h
  {
  }

  /** From the first turn of a connection on. */
  lemma KeepAliveFromTheStart(xs: seq<Exchange>, app: App)
    requires AllCompleted(START, xs, app)
    requires forall i :: 0 <= i < |xs| ==> KeepsAlive(TextOf(xs[i]))
    requires app.keepAliveMax > 0 ==> |xs| < app.keepAliveMax
    ensures var k := Run(START, Turns(xs), app);
            k.answers == Answers(xs, app) && k.emitted == Concat(Answers(xs, app)) && k.conn.request == ""
  {
    hide Run, Answers, AllCompleted, KeepsAlive;
    KeepAliveServesAll(START, xs, app);
    assert [] + Answers(xs, app) == Answers(xs, app);
    assert "" + Concat(Answers(xs, app)) == Concat(Answers(xs, app));
  }

  // ---------- how a connection ends ----------

  /** Exactly when a turn in which nothing is read ends the connection before it writes: the
      protocol object fails, or the connection is kept alive and its time is up. */
  lemma EndsUnreadIff(c: Conn, t: Turn, app: App)
    requires !c.complete && t.inbound == Received("")
    ensures Step(c, t, app).ending == Closes <==> !t.protoOk || (c.keepAlive && t.timedOut)
    ensures Step(c, t, app).ending != Throws && Step(c, t, app).conn == c
  {
    hide FromText;
  }

  /** A link that is down closes the connection, whether it was to be read or written. */
  lemma BrokenLinkCloses(c: Conn, t: Turn, app: App)
    requires if c.complete then t.outbound.WriteFailed? else t.inbound.ReadFailed?
    ensures Step(c, t, app).ending == Closes && !Step(c, t, app).dispatched
    ensures Step(c, t, app).conn.requestCount == c.requestCount
  {
    hide FromText;
  }

  /** A request that is wrong, or of another type than GET and POST, closes the connection
      without an answer; one whose announced length is no number throws. */
  lemma WrongRequestCloses(c: Conn, t: Turn, piece: string, app: App)
    requires !c.complete && Delivers(t, piece) && piece != ""
    ensures var p := FromText(EMPTY, c.request + piece);
            var s := Step(c, t, app);
            && (p.status == ParseError || (p.status == ParseSuccess && p.request.kind !in {"GET", "POST"}) ==>
                  s.ending == Closes && !s.dispatched && s.emitted == "")
            && (p.status == Status.Threw ==> s.ending == Throws && !s.dispatched && s.emitted == "")
  {
    hide FromText;
  }

  /** The fields of a response that announce the connection, with the default settings. */
  lemma DefaultPresets(app: App, connection: string)
    requires app.keepAliveTimeout == 5 && app.keepAliveMax == 1000
    ensures PresetFields("keep-alive", app)
            == map["connection" := "keep-alive", "keep-alive" := "timeout=5, max=1000"]
    ensures connection != "keep-alive" ==> PresetFields(connection, app) == map["connection" := connection]
  {
    SmallNumerals();
    assert "timeout=" + "5" + ", max=" + "1000" == "timeout=5, max=1000";
  }

  lemma SmallNumerals()
    ensures ToString(5) == "5" && ToString(1000) == "1000"
  {
    assert Digits(1) == "1";
    assert Digits(10) == "10";
    assert Digits(100) == "100";
    assert Digits(1000) == "1000";
  }

  // ---------- the object ----------

  class ServerHandler {
    const app: App
    var keepAlive: bool
    var requestCount: nat
    var request: string
    var requestComplete: bool
    var response: string
    var responseSent: nat
    var responseBytesLeft: nat
    var closed: bool

    ghost function View(): Conn
      reads this
    {
      Conn(keepAlive, requestCount, request, requestComplete, response, responseSent, responseBytesLeft)
    }

    constructor (app: App)
      ensures View() == FRESH && !closed && this.app == app
    {
      this.app := app;
      keepAlive, requestCount, request, requestComplete := false, 0, "", false;
      response, responseSent, responseBytesLeft, closed := "", 0, 0, false;
    }

    method ServeRequest() returns (status: Status)
      modifies this`keepAlive, this`response
      ensures Handled(status, View()) == HandleRequest(old(View()), app)
    {
      hide FromText, LowerAll, ToString;
      var conn := new HttpRequest();
      status := conn.FromString(request);
      if status != ParseSuccess {
        return;
      }
      var connection := conn.Lookup("connection");
      connection := LowerAll(connection);
      keepAlive := connection == "keep-alive";
      var fields := map["connection" := connection];
      if keepAlive {
        fields := fields["keep-alive" := "timeout=" + ToString(app.keepAliveTimeout)
                                         + ", max=" + ToString(app.keepAliveMax)];
      }
      if conn.kind == "GET" || conn.kind == "POST" {
        response := app.answer(conn.View(), fields);
        return ParseSuccess;
      }
      return ParseError;
    }

    /** The reading half of `process`. */
    method ReadPart(inbound: Inbound) returns (ending: Option<Ending>)
      requires !closed
      modifies this
      ensures ReadHalf(ending, View()) == ReadRequest(old(View()), inbound, app)
      ensures closed <==> ending == Some(Closes)
    {
      hide HandleRequest;
      if requestComplete {
        return None;
      }
      if inbound.ReadFailed? {
        closed := true;
        return Some(Closes);
      }
      if inbound.data == "" {
        return Some(Stays);
      }
      request := request + inbound.data;
      var result := ServeRequest();
      match result {
        case ParseError =>
          closed := true;
          return Some(Closes);
        case ParseErrorAgain =>
          return Some(Stays);
        case Threw =>
          return Some(Throws);
        case ParseSuccess =>
          requestComplete := true;
          responseSent := 0;
          responseBytesLeft := |response|;
          return None;
      }
    }

    /** The writing half of `process`. */
    method WritePart(outbound: Outbound) returns (ending: Ending)
      requires !closed
      modifies this
      ensures WriteHalf(ending, View()) == WriteResponse(old(View()), outbound, app)
      ensures closed <==> ending == Closes
    {
      if outbound.WriteFailed? {
        closed := true;
        return Closes;
      }
      var count := if outbound.count <= responseBytesLeft then outbound.count else responseBytesLeft;
      responseSent := responseSent + count;
      responseBytesLeft := responseBytesLeft - count;
      if responseBytesLeft <= 0 {
        if !keepAlive {
          closed := true;
          return Closes;
        }
        requestCount := requestCount + 1;
        if app.keepAliveMax > 0 && requestCount >= app.keepAliveMax {
          closed := true;
          return Closes;
        }
        request := "";
        requestComplete := false;
        response := "";
      }
      return Stays;
    }

    /** `process`; `emitted` is what the transport took in this call. */
    method Process(t: Turn) returns (ending: Ending, ghost emitted: string, ghost dispatched: bool)
      requires !closed
      modifies this
      ensures Progress(ending, View(), dispatched, emitted) == Step(old(View()), t, app)
      // a handler that is removed has closed its client, unless the protocol object failed
      ensures closed <==> ending == Closes && ((old(keepAlive) && t.timedOut) || t.protoOk)
    {
      hide ReadRequest, WriteResponse, Slice;
      emitted, dispatched := "", false;
      if keepAlive && t.timedOut {
        closed := true;
        return Closes, emitted, dispatched;
      }
      if !t.protoOk {
        return Closes, emitted, dispatched;
      }
      ghost var reading := !requestComplete;
      var early := ReadPart(t.inbound);
      if early.Some? {
        return early.value, emitted, dispatched;
      }
      dispatched := reading;
      emitted := Slice(response, responseSent, Accepted(View(), t.outbound));
      ending := WritePart(t.outbound);
    }
  }
}
