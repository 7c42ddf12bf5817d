/** One connection from its first request to its close (core/connection.go), with the write-once response
  * writer (core/response.go) and the counters it feeds (core/metrics.go). */
module Connection {
  import opened Text
  import opened Blanks
  import opened HttpText
  import opened CommaList
  import opened Rules
  import opened Http
  import A = Automaton
  import P = Parser
  import R = RoundTrip
  import E = Witnesses
  import opened Words
  import W = Wire
  import F = Forms
  import G = FramingRules

  /** What the peer sees of a response: the status and the connection headers. */
  datatype Response = Response(status: int, keepAlive: bool, max: int)

  /** The open write side of a connection; any write may fail, and a failed write delivers nothing. */
  class Conn {
    var sent: seq<Response>

    constructor ()
      ensures sent == []
    {
      sent := [];
    }

    method Write(r: Response) returns (ok: bool)
      modifies this
      ensures sent == if ok then old(sent) + [r] else old(sent)
    {
      ok := *;
      if ok {
        sent := sent + [r];
      }
    }
  }

  class Metrics {
    var active: Word
    var requests: nat
    var wafBlocks: nat
    var parseRejects: nat
    var responses2xx: nat
    var responses3xx: nat
    var responses4xx: nat
    var responses5xx: nat

    constructor ()
      ensures active == requests == wafBlocks == parseRejects == 0 && Responses() == 0
    {
      active, requests, wafBlocks, parseRejects := 0, 0, 0, 0;
      responses2xx, responses3xx, responses4xx, responses5xx := 0, 0, 0, 0;
    }

    ghost function Responses(): nat
      reads this
    {
      responses2xx + responses3xx + responses4xx + responses5xx
    }

    method IncActive()
      modifies this`active
      ensures active == Add(old(active), 1)
    {
      active := Add(active, 1);
    }

    /** There is no subtraction on the counter: adding the complement of zero takes back one increment. */
    method DecActive()
      modifies this`active
      ensures Add(active, 1) == old(active)
      ensures active == if old(active) == 0 then ALL_ONES else old(active) - 1
    {
      AddAllOnesUndoes(active);
      active := Add(active, ALL_ONES);
    }

    /** Exactly one class counter moves for a status of at least 200, none below. */
    method RecordResponse(status: int)
      modifies this`responses2xx, this`responses3xx, this`responses4xx, this`responses5xx
      ensures Responses() == old(Responses()) + (if status >= 200 then 1 else 0)
      ensures responses2xx == old(responses2xx) + (if 200 <= status < 300 then 1 else 0)
      ensures responses3xx == old(responses3xx) + (if 300 <= status < 400 then 1 else 0)
      ensures responses4xx == old(responses4xx) + (if 400 <= status < 500 then 1 else 0)
      ensures responses5xx == old(responses5xx) + (if status >= 500 then 1 else 0)
    {
      if 200 <= status < 300 {
        responses2xx := responses2xx + 1;
      } else if 300 <= status < 400 {
        responses3xx := responses3xx + 1;
      } else if 400 <= status < 500 {
        responses4xx := responses4xx + 1;
      } else if status >= 500 {
        responses5xx := responses5xx + 1;
      }
    }
  }

  /** The number of counted responses in a list. */
  function Counted(rs: seq<Response>): nat {
    if rs == [] then 0 else Counted(Init(rs)) + (if Last(rs).status >= 200 then 1 else 0)
  }

  lemma {:induction false} CountedAtMost(rs: seq<Response>)
    ensures Counted(rs) <= |rs|
    ensures Counted(rs) == |rs| <==> forall i :: 0 <= i < |rs| ==> rs[i].status >= 200
  {
    if rs != [] {
      CountedAtMost(Init(rs));
      forall i | 0 <= i < |rs| - 1 ensures Init(rs)[i] == rs[i] {
      }
    }
  }

  lemma CountedSnoc(a: seq<Response>, x: Exchange)
    ensures Counted(a + ResponseOf(x)) == Counted(a) + Counted(ResponseOf(x))
  {
    if x.response.Some? {
      InitAppend(a, x.response.value);
      InitAppend([], x.response.value);
      assert [] + [x.response.value] == [x.response.value];
    } else {
      assert a + ResponseOf(x) == a;
    }
  }

  /** At most one response per writer, counted if and only if it was sent. */
  class ResponseWriter {
    const conn: Conn
    const metrics: Metrics
    const keepAlive: bool
    const max: int
    var wrote: bool
    ghost const before: seq<Response>  // what the connection had sent when the writer was made
    ghost const counted: nat           // what the metrics had counted then
    ghost var response: Option<Response>

    ghost predicate Valid()
      reads this, conn, metrics
    {
      && wrote == response.Some?
      && conn.sent == before + (if response.Some? then [response.value] else [])
      && (response.Some? ==> response.value.keepAlive == keepAlive && response.value.max == max)
      && metrics.Responses() == counted + Counted(if response.Some? then [response.value] else [])
    }

    constructor (conn: Conn, metrics: Metrics, keepAlive: bool, max: int)
      ensures Valid() && this.conn == conn && this.metrics == metrics && this.keepAlive == keepAlive && this.max == max
      ensures response == None && before == conn.sent && counted == metrics.Responses()
    {
      this.conn, this.metrics, this.keepAlive, this.max := conn, metrics, keepAlive, max;
      before, counted := conn.sent, metrics.Responses();
      wrote, response := false, None;
      new;
      assert conn.sent + [] == conn.sent;
    }

    method Write(status: int) returns (ok: bool)
      requires Valid()
      modifies this, conn, metrics`responses2xx, metrics`responses3xx, metrics`responses4xx, metrics`responses5xx
      ensures Valid()
      ensures ok ==> old(response) == None && response == Some(Response(status, keepAlive, max))
      ensures !ok ==> response == old(response)
    {
      if wrote {
        return false;
      }
      var deadlineSet: bool := *;
      if !deadlineSet {
        return false;
      }
      ok := conn.Write(Response(status, keepAlive, max));
      if !ok {
        return;
      }
      wrote := true;
      response := Some(Response(status, keepAlive, max));
      metrics.RecordResponse(status);
      assert [Response(status, keepAlive, max)] == [] + [Response(status, keepAlive, max)];
    }
  }

  /** Any handler: it may try to write any number of responses of any status, or none. */
  method ServeHTTP(w: ResponseWriter)
    requires w.Valid() && w.response == None
    modifies w, w.conn, w.metrics`responses2xx, w.metrics`responses3xx, w.metrics`responses4xx, w.metrics`responses5xx
    ensures w.Valid()
  {
    var attempts: nat := *;
    while attempts > 0
      invariant w.Valid()
    {
      var status: int := *;
      var ok := w.Write(status);
      attempts := attempts - 1;
    }
  }

  // ---- Keep-alive. ----

  datatype Options = Options(max: int, disableKeepAlive: bool, hasRouter: bool)

  /** The request limit, with the default for a non-positive setting. */
  function Limit(o: Options): nat {
    if o.max <= 0 then 100 else o.max
  }

  predicate AsksToClose(q: Request) {
    PieceSays(LowerAll(if "Connection" in q.headers then q.headers["Connection"] else []), "close")
  }

  /** One element of the Connection header is "close", in any case and with white space around it or not. */
  ghost predicate SaysClose(q: Request) {
    "Connection" in q.headers && ElementSays(q.headers["Connection"], "close")
  }

  /** A request asks to close exactly when it says so. */
  lemma AsksToCloseExactly(q: Request)
    ensures AsksToClose(q) <==> SaysClose(q)
  {
    hide PieceSays, ElementSays;
    if "Connection" in q.headers {
      SaysExactly(q.headers["Connection"], "close");
    } else {
      NothingSaysClose();
    }
  }

  lemma NothingSaysClose()
    ensures !PieceSays(LowerAll([]), "close")
  {
    PlainTrims([]);
    assert SplitComma(LowerAll([])) == [[]];
  }

  predicate ShouldKeepAlive(q: Request, o: Options, remaining: int) {
    !o.disableKeepAlive && remaining > 0 && !AsksToClose(q)
  }

  // ---- What a whole connection may do. ----

  /** One parsed request, whether the handler answered it, and the response delivered for it. */
  datatype Exchange = Exchange(request: Request, handled: bool, response: Option<Response>)

  /** Why the loop ended. */
  datatype Ending =
    | PeerDone                                             // end of stream between requests: nothing is sent
    | Rejected(error: ParseError, reply: Option<Response>)  // 403 or 400, then close
    | Closed                                               // after the last exchange
    | DeadlineFailed                                       // the read deadline could not be set

  predicate IsReply(e: ParseError, reply: Option<Response>) {
    reply.Some? ==> reply.value == Response(if e.Blocked? then 403 else 400, false, 0)
  }

  /** The answer to request number `served`: its headers advertise the remaining requests. */
  predicate IsAnswer(o: Options, served: nat, x: Exchange) {
    var remaining := Limit(o) - served - 1;
    if !o.hasRouter then
      !x.handled && (x.response.Some? ==> x.response.value == Response(500, false, 0))
    else
      && (x.handled ==> x.response.Some?)
      && (x.response.Some? ==>
            x.response.value.keepAlive == ShouldKeepAlive(x.request, o, remaining) && x.response.value.max == remaining)
      && (x.response.Some? && !x.handled ==> x.response.value.status == 500)
  }

  /** The loop goes on after an exchange only if a handler answered it and the connection is kept alive. */
  predicate GoesOn(o: Options, served: nat, x: Exchange) {
    o.hasRouter && x.handled && ShouldKeepAlive(x.request, o, Limit(o) - served - 1)
  }

  /** From the bytes `s`, with `served` requests behind it, the connection does `trace` and then ends. */
  predicate IsRun(rules: seq<Rule>, s: Bytes, end: ReadEnd, o: Options, served: nat, trace: seq<Exchange>, ending: Ending)
    decreases |trace|
  {
    hide Parse, AsksToClose, IsEof;
    var p := Parse(rules, s, end);
    if trace == [] then
      match ending
      case PeerDone => served > 0 && p.Err? && IsEof(p.error)
      case Rejected(e, reply) => p == Err(e) && !(served > 0 && IsEof(e)) && IsReply(e, reply)
      case Closed => false
      case DeadlineFailed => true
    else
      && p.Ok? && p.value == trace[0].request && IsAnswer(o, served, trace[0])
      && (if GoesOn(o, served, trace[0]) then IsRun(rules, p.rest, end, o, served + 1, trace[1..], ending)
          else |trace| == 1 && ending == Closed)
  }

  function ResponseOf(x: Exchange): seq<Response> {
    if x.response.Some? then [x.response.value] else []
  }

  /** Everything sent, in order. */
  function Sent(trace: seq<Exchange>, ending: Ending): seq<Response> {
    if trace == [] then (if ending.Rejected? && ending.reply.Some? then [ending.reply.value] else [])
    else ResponseOf(trace[0]) + Sent(trace[1..], ending)
  }

  function RequestsIn(trace: seq<Exchange>): (r: seq<Request>)
    ensures |r| == |trace|
  {
    if trace == [] then [] else [trace[0].request] + RequestsIn(trace[1..])
  }

  /** At most the configured number of requests is served. */
  lemma {:induction false} ServesAtMost(rules: seq<Rule>, s: Bytes, end: ReadEnd, o: Options, served: nat,
                                        trace: seq<Exchange>, ending: Ending)
    requires IsRun(rules, s, end, o, served, trace, ending) && served < Limit(o)
    ensures served + |trace| <= Limit(o)
    decreases |trace|
  {
    hide Parse, AsksToClose, IsAnswer;
    if trace != [] && GoesOn(o, served, trace[0]) {
      ServesAtMost(rules, Parse(rules, s, end).rest, end, o, served + 1, trace[1..], ending);
    }
  }

  /** The requests served are the requests of the stream, in order and without gaps. A refusal is that of the very
    * next bytes, and after it nothing is served. */
  lemma {:induction false} ServesInOrder(rules: seq<Rule>, s: Bytes, end: ReadEnd, o: Options, served: nat,
                                         trace: seq<Exchange>, ending: Ending)
    requires IsRun(rules, s, end, o, served, trace, ending)
    ensures R.ParseMany(rules, s, end, |trace|).Ok? && R.ParseMany(rules, s, end, |trace|).value == RequestsIn(trace)
    ensures var next := Parse(rules, R.ParseMany(rules, s, end, |trace|).rest, end);
            && (ending.Rejected? ==> next == Err(ending.error))
            && (ending.PeerDone? ==> next.Err? && IsEof(next.error))
    decreases |trace|
  {
    hide Parse, AsksToClose, IsAnswer, GoesOn;
    if trace != [] {
      var rest := Parse(rules, s, end).rest;
      if GoesOn(o, served, trace[0]) {
        ServesInOrder(rules, rest, end, o, served + 1, trace[1..], ending);
      } else {
        assert trace[1..] == [];
      }
    }
  }

  /** Request number `n` of a connection, counted from zero, may be followed by another. */
  ghost predicate MayFollow(q: Request, o: Options, n: nat) {
    !o.disableKeepAlive && n + 1 < (if o.max <= 0 then 100 else o.max) && !SaysClose(q)
  }

  /** The connection goes on after a request exactly when a handler answered it and another may follow; the response
    * says keep-alive exactly when another may follow and there is a router. */
  lemma {:induction false} GoesOnExactly(rules: seq<Rule>, s: Bytes, end: ReadEnd, o: Options, served: nat,
                                         trace: seq<Exchange>, ending: Ending, i: nat)
    requires IsRun(rules, s, end, o, served, trace, ending) && i < |trace|
    ensures (i < |trace| - 1 || !ending.Closed?) <==>
            o.hasRouter && trace[i].handled && MayFollow(trace[i].request, o, served + i)
    ensures trace[i].response.Some? ==>
              (trace[i].response.value.keepAlive <==> o.hasRouter && MayFollow(trace[i].request, o, served + i))
    decreases |trace|
  {
    hide Parse, AsksToClose, SaysClose;
    AsksToCloseExactly(trace[0].request);
    if i > 0 {
      GoesOnExactly(rules, Parse(rules, s, end).rest, end, o, served + 1, trace[1..], ending, i - 1);
    }
  }

  /** After a request that says close nothing more is read, and its response does not say keep-alive. */
  lemma CloseIsHonoured(rules: seq<Rule>, s: Bytes, end: ReadEnd, o: Options, served: nat,
                        trace: seq<Exchange>, ending: Ending, i: nat)
    requires IsRun(rules, s, end, o, served, trace, ending) && i < |trace| && SaysClose(trace[i].request)
    ensures i == |trace| - 1 && ending.Closed?
    ensures trace[i].response.Some? ==> !trace[i].response.value.keepAlive
  {
    hide IsRun, SaysClose;
    GoesOnExactly(rules, s, end, o, served, trace, ending, i);
  }

  /** What the responses look like: the fallback is a 500, without a router there is one 500 that closes, a refusal is
    * a 403 for the firewall and a 400 for anything else. */
  lemma {:induction false} AnswersExactly(rules: seq<Rule>, s: Bytes, end: ReadEnd, o: Options, served: nat,
                                          trace: seq<Exchange>, ending: Ending, i: nat)
    requires IsRun(rules, s, end, o, served, trace, ending)
    ensures i < |trace| && trace[i].handled ==> o.hasRouter && trace[i].response.Some?
    ensures i < |trace| && trace[i].response.Some? && !trace[i].handled ==> trace[i].response.value.status == 500
    ensures i < |trace| && trace[i].response.Some? && !o.hasRouter ==>
              trace[i].response.value.max == 0 && !trace[i].response.value.keepAlive && |trace| == 1
    ensures ending.Rejected? && ending.reply.Some? ==>
              ending.reply.value == Response(if ending.error.Blocked? then 403 else 400, false, 0)
    decreases |trace|
  {
    hide Parse, AsksToClose;
    if trace != [] && GoesOn(o, served, trace[0]) {
      AnswersExactly(rules, Parse(rules, s, end).rest, end, o, served + 1, trace[1..], ending, if i > 0 then i - 1 else 0);
    }
  }

  /** A stream that ends between requests ends the connection silently, except before the first request. One that ends
    * inside a request line is refused. */
  lemma StreamEnds(rules: seq<Rule>, s: Bytes, o: Options, served: nat, trace: seq<Exchange>, ending: Ending)
    requires IsRun(rules, s, Eof, o, served, trace, ending) && !ending.DeadlineFailed?
    requires |s| <= MAX_REQUEST_LINE && LineEnd(s) == None
    ensures trace == []
    ensures s == [] && served > 0 ==> ending == PeerDone
    ensures s == [] && served == 0 ==> ending.Rejected? && ending.error == EndOfStream
    ensures s != [] ==> ending.Rejected? && ending.error == IncompleteLine
  {
    hide LineEnd, AsksToClose;
    var e := if s == [] then EndOfStream else IncompleteLine;
    assert ReadLine(s, MAX_REQUEST_LINE, Eof) == Err(e);
    assert Parse(rules, s, Eof) == Err(e);
  }

  /** A connection whose stream breaks off in a body ends silently after its first request; in the data of a chunk it does
    * so only if nothing of the chunk arrived. */
  lemma StreamBreaksOff(rules: seq<Rule>, w: W.WireRequest, f: F.SizeForm, n: nat, part: Bytes, o: Options, served: nat,
                        trace: seq<Exchange>, ending: Ending)
    requires F.IsRequestForm(rules, w.line) && W.IsLine(TripleText(w.line), MAX_REQUEST_LINE) && w.line.third == "HTTP/1.1"
    requires W.AreFields(rules, Headers, w.fields) && w.body.Empty? && |part| < n && served > 0 && !ending.DeadlineFailed?
    requires F.IsSizeForm(f, n) && W.IsLine(F.SizeLine(f), MAX_HEADER_LINE) && ScanOpen(rules, part) == None
    ensures G.Frames(W.FieldMapOf(w.fields), Length(n)) && IsRun(rules, W.WireBytes(w) + part, Eof, o, served, trace, ending) ==>
              trace == [] && ending == PeerDone
    ensures G.Frames(W.FieldMapOf(w.fields), Chunked)
            && IsRun(rules, W.WireBytes(w) + (F.SizeLine(f) + W.CRLF + part), Eof, o, served, trace, ending) ==>
              trace == [] && (ending == PeerDone <==> part == []) && (ending.Rejected? <==> part != [])
  {
    hide AsksToClose, Parse, G.Frames, W.AreFields, F.IsRequestForm, F.IsSizeForm, W.WireBytes, ScanOpen, TripleText, LineEnd;
    if G.Frames(W.FieldMapOf(w.fields), Length(n)) {
      W.CutBodyIsRefused(rules, w, n, part, Eof);
    }
    if G.Frames(W.FieldMapOf(w.fields), Chunked) {
      W.CutChunkIsRefused(rules, w, f, n, part, Eof);
    }
  }

  /** A router answer advertises exactly the requests that remain, so the advertised number goes down by one each time. */
  lemma {:induction false} AdvertisesRemaining(rules: seq<Rule>, s: Bytes, end: ReadEnd, o: Options, served: nat,
                                               trace: seq<Exchange>, ending: Ending, i: nat)
    requires IsRun(rules, s, end, o, served, trace, ending) && o.hasRouter
    requires i < |trace| && trace[i].response.Some?
    ensures trace[i].response.value.max == Limit(o) - served - i - 1
    ensures i < |trace| - 1 ==> trace[i].response.value.keepAlive && trace[i].handled
    decreases |trace|
  {
    hide Parse, AsksToClose;
    if i > 0 {
      AdvertisesRemaining(rules, Parse(rules, s, end).rest, end, o, served + 1, trace[1..], ending, i - 1);
    }
  }

  /** The keep-alive header tells whether the connection goes on, except exactly for a fallback answer on a
    * connection that would have been kept alive: it is advertised as kept and then closed. */
  lemma {:induction false} KeepAliveHeaderExactly(rules: seq<Rule>, s: Bytes, end: ReadEnd, o: Options, served: nat,
                                                  trace: seq<Exchange>, ending: Ending, i: nat)
    requires IsRun(rules, s, end, o, served, trace, ending) && o.hasRouter
    requires i < |trace| && trace[i].response.Some?
    ensures (trace[i].response.value.keepAlive <==> i < |trace| - 1 || !ending.Closed?) <==>
            (trace[i].handled || !ShouldKeepAlive(trace[i].request, o, Limit(o) - served - i - 1))
    decreases |trace|
  {
    hide Parse, AsksToClose;
    if i > 0 {
      KeepAliveHeaderExactly(rules, Parse(rules, s, end).rest, end, o, served + 1, trace[1..], ending, i - 1);
    }
  }

  /** The keep-alive header of response `i` does not tell whether the connection goes on. */
  predicate HeaderMisleads(trace: seq<Exchange>, ending: Ending, i: nat) {
    && i < |trace| && trace[i].response.Some?
    && trace[i].response.value.keepAlive != (i < |trace| - 1 || !ending.Closed?)
  }

  /** A handler that writes nothing on a request that may be followed by others: the fallback answer is advertised
    * as kept alive, and the connection is closed after it. */
  lemma FallbackAdvertisesKeepAlive(rules: seq<Rule>, s: Bytes, end: ReadEnd, o: Options, q: Request, rest: Bytes)
    requires Parse(rules, s, end) == Ok(q, rest) && o.hasRouter && ShouldKeepAlive(q, o, Limit(o) - 1)
    ensures var trace := [Exchange(q, false, Some(Response(500, true, Limit(o) - 1)))];
            IsRun(rules, s, end, o, 0, trace, Closed) && HeaderMisleads(trace, Closed, 0)
  {
    hide Parse, AsksToClose;
  }

  lemma PlainGetKeepsAlive(host: Bytes)
    ensures !AsksToClose(R.RequestOf(E.PlainGet(host)))
  {
    E.OnlyHost(host);
    AsksToCloseExactly(R.RequestOf(E.PlainGet(host)));
  }

  /** There is a request that does not ask to close. */
  lemma PlainRequest() returns (s: Bytes, q: Request)
    ensures Parse([], s, Eof) == Ok(q, []) && !AsksToClose(q)
  {
    PlainTrims("a");
    hide Parse, AsksToClose, R.SendableMessage;
    E.PlainGetIsSendable("a");
    R.ReadsBack([], E.PlainGet("a"), [], Eof);
    PlainGetKeepsAlive("a");
    s, q := W.WireBytes(R.WireOf(E.PlainGet("a"))) + [], R.RequestOf(E.PlainGet("a"));
  }

  /** The header can mislead exactly on servers with a router that keep connections for more than one request. */
  lemma MisleadingHeaderExactly(o: Options)
    ensures (exists rules, s, end, trace, ending, i ::
               IsRun(rules, s, end, o, 0, trace, ending) && HeaderMisleads(trace, ending, i))
            <==> o.hasRouter && !o.disableKeepAlive && Limit(o) > 1
  {
    hide Parse, AsksToClose;
    if o.hasRouter && !o.disableKeepAlive && Limit(o) > 1 {
      var s, q := PlainRequest();
      FallbackAdvertisesKeepAlive([], s, Eof, o, q, []);
    }
    forall rules, s, end, trace, ending, i | IsRun(rules, s, end, o, 0, trace, ending) && HeaderMisleads(trace, ending, i)
      ensures o.hasRouter && !o.disableKeepAlive && Limit(o) > 1
    {
      if o.hasRouter {
        KeepAliveHeaderExactly(rules, s, end, o, 0, trace, ending, i);
      }
    }
  }

  /** One response per request when every write succeeds, and at most one more, for a rejection. */
  lemma {:induction false} OneResponseEach(trace: seq<Exchange>, ending: Ending)
    ensures |Sent(trace, ending)| <= |trace| + (if ending.Rejected? then 1 else 0)
    ensures (forall i :: 0 <= i < |trace| ==> trace[i].response.Some?) && (ending.Rejected? ==> ending.reply.Some?) ==>
              && |Sent(trace, ending)| == |trace| + (if ending.Rejected? then 1 else 0)
              && (forall i :: 0 <= i < |trace| ==> Sent(trace, ending)[i] == trace[i].response.value)
              && (ending.Rejected? ==> Last(Sent(trace, ending)) == ending.reply.value)
  {
    if trace != [] {
      OneResponseEach(trace[1..], ending);
      assert forall i :: 0 < i < |trace| ==> trace[i] == trace[1..][i - 1];
    }
  }

  /** Messages sent back to back on a fresh connection are served in order: what is served is a prefix of them. */
  lemma PipelineIsServed(rules: seq<Rule>, ms: seq<R.Message>, rest: Bytes, end: ReadEnd, o: Options,
                         trace: seq<Exchange>, ending: Ending)
    requires forall i :: 0 <= i < |ms| ==> R.SendableMessage(rules, ms[i])
    requires IsRun(rules, R.Stream(ms) + rest, end, o, 0, trace, ending) && |trace| <= |ms|
    ensures RequestsIn(trace) <= R.RequestsOf(ms)
  {
    hide Parse, IsRun, R.SendableMessage, R.WireOf, R.RequestOf, R.Stream, R.RequestsOf, R.ParseMany, RequestsIn;
    var n := |trace|;
    var first, later := ms[..n], ms[n..];
    ServesInOrder(rules, R.Stream(ms) + rest, end, o, 0, trace, ending);
    R.PipelineRoundTrip(rules, first, R.Stream(later) + rest, end);
    StreamSplits(ms, n);
    RequestsSplit(ms, n);
    Assoc(R.Stream(first), R.Stream(later), rest);
    assert |first| == n;
  }

  /** A request that is there is served, and unless it asks otherwise or the limit is reached the loop goes on. */
  lemma NextIsServed(rules: seq<Rule>, s: Bytes, end: ReadEnd, o: Options, served: nat, q: Request, rest: Bytes,
                     trace: seq<Exchange>, ending: Ending)
    requires Parse(rules, s, end) == Ok(q, rest)
    requires IsRun(rules, s, end, o, served, trace, ending) && !ending.DeadlineFailed?
    ensures trace != [] && trace[0].request == q
    ensures o.hasRouter && trace[0].handled && ShouldKeepAlive(q, o, Limit(o) - served - 1) ==>
              IsRun(rules, rest, end, o, served + 1, trace[1..], ending)
  {
    hide Parse, AsksToClose, IsAnswer;
  }

  /** When every request is handled and none asks to close, within the limit, the whole pipeline is served. */
  lemma {:induction false} WholePipelineIsServed(rules: seq<Rule>, ms: seq<R.Message>, rest: Bytes, end: ReadEnd,
                                                 o: Options, served: nat, trace: seq<Exchange>, ending: Ending)
    requires forall i :: 0 <= i < |ms| ==> R.SendableMessage(rules, ms[i]) && !AsksToClose(R.RequestOf(ms[i]))
    requires IsRun(rules, R.Stream(ms) + rest, end, o, served, trace, ending) && !ending.DeadlineFailed?
    requires o.hasRouter && !o.disableKeepAlive && served + |ms| <= Limit(o)
    requires forall i :: 0 <= i < |trace| ==> trace[i].handled
    ensures R.RequestsOf(ms) <= RequestsIn(trace)
    decreases |ms|
  {
    hide Parse, AsksToClose, IsRun, R.SendableMessage, R.WireOf, R.RequestOf, W.WireBytes, Limit;
    if ms != [] {
      var head, tail := W.WireBytes(R.WireOf(ms[0])), ms[1..];
      Assoc(head, R.Stream(tail), rest);
      R.ReadsBack(rules, ms[0], R.Stream(tail) + rest, end);
      NextIsServed(rules, R.Stream(ms) + rest, end, o, served, R.RequestOf(ms[0]), R.Stream(tail) + rest, trace, ending);
      if tail != [] {
        WholePipelineIsServed(rules, tail, rest, end, o, served + 1, trace[1..], ending);
      }
    }
  }

  lemma {:induction false} StreamSplits(ms: seq<R.Message>, n: nat)
    requires n <= |ms|
    ensures R.Stream(ms) == R.Stream(ms[..n]) + R.Stream(ms[n..])
    decreases n
  {
    hide R.WireOf, W.WireBytes;
    if n == 0 {
      assert ms[..0] == [] && ms[0..] == ms && [] + R.Stream(ms) == R.Stream(ms);
    } else {
      var head, tail := W.WireBytes(R.WireOf(ms[0])), ms[1..];
      StreamSplits(tail, n - 1);
      assert ms[..n][1..] == tail[..n - 1] && tail[n - 1..] == ms[n..];
      Assoc(head, R.Stream(tail[..n - 1]), R.Stream(ms[n..]));
    }
  }

  lemma {:induction false} RequestsSplit(ms: seq<R.Message>, n: nat)
    requires n <= |ms|
    ensures R.RequestsOf(ms[..n]) <= R.RequestsOf(ms)
    decreases n
  {
    hide R.RequestOf;
    if n > 0 {
      RequestsSplit(ms[1..], n - 1);
      assert ms[..n][1..] == ms[1..][..n - 1];
    }
  }

  // ---- The loop. ----

  /** A run extended by one exchange after which the loop goes on. */
  ghost predicate RunsOn(rules: seq<Rule>, s: Bytes, end: ReadEnd, o: Options, done: seq<Exchange>, rest: Bytes)
    decreases |done|
  {
    hide Parse, AsksToClose;
    if done == [] then s == rest
    else
      exists s' :: RunsOn(rules, s, end, o, Init(done), s')
                   && Parse(rules, s', end) == Ok(Last(done).request, rest)
                   && IsAnswer(o, |done| - 1, Last(done)) && GoesOn(o, |done| - 1, Last(done))
  }

  /** Going on and then running to an end is a run from the start. */
  lemma {:induction false} CompleteRun(rules: seq<Rule>, s: Bytes, end: ReadEnd, o: Options, done: seq<Exchange>,
                                       rest: Bytes, tail: seq<Exchange>, ending: Ending)
    requires RunsOn(rules, s, end, o, done, rest) && IsRun(rules, rest, end, o, |done|, tail, ending)
    ensures IsRun(rules, s, end, o, 0, done + tail, ending)
    decreases |done|
  {
    hide Parse, AsksToClose, IsAnswer, GoesOn;
    if done == [] {
      assert done + tail == tail;
    } else {
      var s' :| RunsOn(rules, s, end, o, Init(done), s')
                && Parse(rules, s', end) == Ok(Last(done).request, rest)
                && IsAnswer(o, |done| - 1, Last(done)) && GoesOn(o, |done| - 1, Last(done));
      var longer := [Last(done)] + tail;
      assert longer[1..] == tail;
      CompleteRun(rules, s, end, o, Init(done), s', longer, ending);
      assert Init(done) + longer == done + tail;
    }
  }

  lemma {:induction false} SentSnoc(done: seq<Exchange>, x: Exchange, ending: Ending)
    requires !ending.Rejected?
    ensures Sent(done + [x], ending) == Sent(done, ending) + ResponseOf(x)
  {
    if done == [] {
      assert [x][1..] == [] && [] + [x] == [x];
      assert Sent([x], ending) == ResponseOf(x) + [] == [] + ResponseOf(x);
    } else {
      assert (done + [x])[1..] == done[1..] + [x];
      SentSnoc(done[1..], x, ending);
      Assoc(ResponseOf(done[0]), Sent(done[1..], ending), ResponseOf(x));
    }
  }

  lemma {:induction false} SentRejected(done: seq<Exchange>, ending: Ending)
    ensures Sent(done, ending) ==
            Sent(done, Closed) + (if ending.Rejected? && ending.reply.Some? then [ending.reply.value] else [])
  {
    if done != [] {
      SentRejected(done[1..], ending);
      Assoc(ResponseOf(done[0]), Sent(done[1..], Closed), Sent([], ending));
    } else {
      assert [] + Sent([], ending) == Sent([], ending);
    }
  }

  /** Runs the handler on one request; a handler that wrote nothing gets a fallback 500. */
  method Answer(conn: Conn, metrics: Metrics, o: Options, q: Request, served: nat)
    returns (ghost x: Exchange, goesOn: bool)
    modifies conn, metrics`responses2xx, metrics`responses3xx, metrics`responses4xx, metrics`responses5xx
    ensures x.request == q && IsAnswer(o, served, x) && goesOn == GoesOn(o, served, x)
    ensures conn.sent == old(conn.sent) + ResponseOf(x)
    ensures metrics.Responses() == old(metrics.Responses()) + Counted(ResponseOf(x))
  {
    hide AsksToClose;
    if !o.hasRouter {
      var error := new ResponseWriter(conn, metrics, false, 0);
      var _ := error.Write(500);
      return Exchange(q, false, error.response), false;
    }
    var remaining := Limit(o) - served - 1;
    var keepAlive := ShouldKeepAlive(q, o, remaining);
    var writer := new ResponseWriter(conn, metrics, keepAlive, remaining);
    ServeHTTP(writer);
    ghost var handled := writer.wrote;
    if !writer.wrote {
      var _ := writer.Write(500);
      keepAlive := false;
    }
    x, goesOn := Exchange(q, handled, writer.response), keepAlive;
  }

  /** Counts the refusal and answers 403 to a firewall hit, 400 to anything else. */
  method Reject(conn: Conn, metrics: Metrics, e: ParseError) returns (ghost reply: Option<Response>)
    modifies conn, metrics`wafBlocks, metrics`parseRejects
    modifies metrics`responses2xx, metrics`responses3xx, metrics`responses4xx, metrics`responses5xx
    ensures IsReply(e, reply)
    ensures conn.sent == old(conn.sent) + (if reply.Some? then [reply.value] else [])
    ensures metrics.wafBlocks == old(metrics.wafBlocks) + (if e.Blocked? then 1 else 0)
    ensures metrics.parseRejects == old(metrics.parseRejects) + (if e.Blocked? then 0 else 1)
    ensures metrics.Responses() == old(metrics.Responses()) + Counted(if reply.Some? then [reply.value] else [])
  {
    var status := 400;
    if e.Blocked? {
      metrics.wafBlocks := metrics.wafBlocks + 1;
      status := 403;
    } else {
      metrics.parseRejects := metrics.parseRejects + 1;
    }
    var error := new ResponseWriter(conn, metrics, false, 0);
    var _ := error.Write(status);
    reply := error.response;
  }

  /** The loop as the source runs it. Whatever the handlers do and whichever writes fail, what happens on the wire
    * is a run, the metrics count it exactly, and the gauge ends where it began. */
  method HandleConnection(conn: Conn, reader: P.Reader, a: A.Automaton, o: Options, metrics: Metrics)
    returns (ghost trace: seq<Exchange>, ghost ending: Ending)
    requires reader.Valid() && a.Valid()
    modifies conn, reader, metrics
    ensures IsRun(a.rules, old(reader.Rest()), reader.end, o, 0, trace, ending)
    ensures conn.sent == old(conn.sent) + Sent(trace, ending)
    ensures metrics.active == old(metrics.active) && metrics.requests == old(metrics.requests) + |trace|
    ensures metrics.wafBlocks == old(metrics.wafBlocks) + (if ending.Rejected? && ending.error.Blocked? then 1 else 0)
    ensures metrics.parseRejects == old(metrics.parseRejects) + (if ending.Rejected? && !ending.error.Blocked? then 1 else 0)
    ensures metrics.Responses() == old(metrics.Responses()) + Counted(Sent(trace, ending))
  {
    AddAllOnesUndoes(metrics.active);
    metrics.IncActive();
    AddAllOnesUndoes(metrics.active);
    trace, ending := ServeRequests(conn, reader, a, o, metrics);
    metrics.DecActive();
  }

  method ServeRequests(conn: Conn, reader: P.Reader, a: A.Automaton, o: Options, metrics: Metrics)
    returns (ghost trace: seq<Exchange>, ghost ending: Ending)
    requires reader.Valid() && a.Valid()
    modifies conn, reader
    modifies metrics`requests, metrics`wafBlocks, metrics`parseRejects
    modifies metrics`responses2xx, metrics`responses3xx, metrics`responses4xx, metrics`responses5xx
    ensures IsRun(a.rules, old(reader.Rest()), reader.end, o, 0, trace, ending)
    ensures conn.sent == old(conn.sent) + Sent(trace, ending)
    ensures metrics.requests == old(metrics.requests) + |trace|
    ensures metrics.wafBlocks == old(metrics.wafBlocks) + (if ending.Rejected? && ending.error.Blocked? then 1 else 0)
    ensures metrics.parseRejects == old(metrics.parseRejects) + (if ending.Rejected? && !ending.error.Blocked? then 1 else 0)
    ensures metrics.Responses() == old(metrics.Responses()) + Counted(Sent(trace, ending))
  {
    hide Parse, IsRun, IsAnswer, GoesOn, RunsOn, Sent, Counted, IsReply, IsEof, ResponseOf;
    ghost var s0 := reader.Rest();
    ghost var sent0 := conn.sent;
    trace := [];
    var served := 0;
    StartOfRun(a.rules, s0, reader.end, o);
    assert sent0 + [] == sent0;
    while true
      invariant reader.Valid() && a.Valid() && served == |trace| && served < Limit(o)
      invariant RunsOn(a.rules, s0, reader.end, o, trace, reader.Rest())
      invariant conn.sent == sent0 + Sent(trace, Closed)
      invariant metrics.requests == old(metrics.requests) + |trace|
      invariant metrics.wafBlocks == old(metrics.wafBlocks) && metrics.parseRejects == old(metrics.parseRejects)
      invariant metrics.Responses() == old(metrics.Responses()) + Counted(Sent(trace, Closed))
      decreases Limit(o) - served
    {
      ghost var s := reader.Rest();
      var deadlineSet: bool := *;
      if !deadlineSet {
        ending := DeadlineFailed;
        EndRun(a.rules, s0, reader.end, o, trace, s, ending);
        return;
      }
      var parsed := P.ParseRequest(reader, a);
      if parsed.Bad? {
        if served > 0 && IsEof(parsed.error) {
          ending := PeerDone;
          EndRun(a.rules, s0, reader.end, o, trace, s, ending);
          return;
        }
        ghost var reply := Reject(conn, metrics, parsed.error);
        ending := Rejected(parsed.error, reply);
        EndRun(a.rules, s0, reader.end, o, trace, s, ending);
        Assoc(sent0, Sent(trace, Closed), if reply.Some? then [reply.value] else []);
        return;
      }
      metrics.requests := metrics.requests + 1;
      ghost var x;
      var goesOn;
      x, goesOn := Answer(conn, metrics, o, parsed.value, served);
      SentSnoc(trace, x, Closed);
      CountedSnoc(Sent(trace, Closed), x);
      Assoc(sent0, Sent(trace, Closed), ResponseOf(x));
      if goesOn {
        ExtendRun(a.rules, s0, reader.end, o, trace, s, x, reader.Rest());
        GoesOnBelowLimit(o, served, x);
      } else {
        LastExchange(a.rules, s0, reader.end, o, trace, s, x);
      }
      trace := trace + [x];
      served := served + 1;
      if !goesOn {
        ending := Closed;
        return;
      }
    }
  }

  lemma GoesOnBelowLimit(o: Options, served: nat, x: Exchange)
    requires GoesOn(o, served, x)
    ensures served + 1 < Limit(o)
  {
  }

  lemma EndRun(rules: seq<Rule>, s0: Bytes, end: ReadEnd, o: Options, trace: seq<Exchange>, s: Bytes, ending: Ending)
    requires RunsOn(rules, s0, end, o, trace, s) && !ending.Closed?
    requires ending.PeerDone? ==> trace != [] && Parse(rules, s, end).Err? && IsEof(Parse(rules, s, end).error)
    requires ending.Rejected? ==> Parse(rules, s, end) == Err(ending.error) && IsReply(ending.error, ending.reply)
                                  && !(trace != [] && IsEof(ending.error))
    ensures IsRun(rules, s0, end, o, 0, trace, ending)
    ensures Sent(trace, ending) ==
            Sent(trace, Closed) + (if ending.Rejected? && ending.reply.Some? then [ending.reply.value] else [])
    ensures Counted(Sent(trace, ending)) == Counted(Sent(trace, Closed)) +
            Counted(if ending.Rejected? && ending.reply.Some? then [ending.reply.value] else [])
  {
    hide Parse, IsEof, IsReply, RunsOn, Sent, Counted;
    CompleteRun(rules, s0, end, o, trace, s, [], ending);
    assert trace + [] == trace;
    CountedAtEnd(trace, ending);
  }

  lemma CountedAtEnd(trace: seq<Exchange>, ending: Ending)
    ensures Sent(trace, ending) ==
            Sent(trace, Closed) + (if ending.Rejected? && ending.reply.Some? then [ending.reply.value] else [])
    ensures Counted(Sent(trace, ending)) == Counted(Sent(trace, Closed)) +
            Counted(if ending.Rejected? && ending.reply.Some? then [ending.reply.value] else [])
  {
    hide Sent;
    SentRejected(trace, ending);
    if ending.Rejected? && ending.reply.Some? {
      InitAppend(Sent(trace, Closed), ending.reply.value);
      InitAppend([], ending.reply.value);
      assert [] + [ending.reply.value] == [ending.reply.value];
    } else {
      assert Sent(trace, Closed) + [] == Sent(trace, Closed);
    }
  }

  lemma ExtendRun(rules: seq<Rule>, s0: Bytes, end: ReadEnd, o: Options, trace: seq<Exchange>, s: Bytes, x: Exchange, rest: Bytes)
    requires RunsOn(rules, s0, end, o, trace, s) && Parse(rules, s, end) == Ok(x.request, rest)
    requires IsAnswer(o, |trace|, x) && GoesOn(o, |trace|, x)
    ensures RunsOn(rules, s0, end, o, trace + [x], rest)
  {
    hide Parse, IsAnswer, GoesOn;
    InitAppend(trace, x);
  }

  lemma LastExchange(rules: seq<Rule>, s0: Bytes, end: ReadEnd, o: Options, trace: seq<Exchange>, s: Bytes, x: Exchange)
    requires RunsOn(rules, s0, end, o, trace, s) && Parse(rules, s, end).Ok? && Parse(rules, s, end).value == x.request
    requires IsAnswer(o, |trace|, x) && !GoesOn(o, |trace|, x)
    ensures IsRun(rules, s0, end, o, 0, trace + [x], Closed)
  {
    hide Parse, IsAnswer, GoesOn, RunsOn;
    CompleteRun(rules, s0, end, o, trace, s, [x], Closed);
  }

  lemma StartOfRun(rules: seq<Rule>, s: Bytes, end: ReadEnd, o: Options)
    ensures RunsOn(rules, s, end, o, [], s) && Sent([], Closed) == [] && Counted([]) == 0
  {
  }
}
