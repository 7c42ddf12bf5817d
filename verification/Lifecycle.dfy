/** The server as a transition system (cmd/server/main.go:67-202, pool/pool.go, core/connection.go, core/metrics.go):
  * one acceptor, a bounded job channel, N workers each running the keep-alive loop, shared counters, and shutdown.
  * Every interleaving of the atomic steps below is a run. */
module Lifecycle {
  import opened Words

  type ConnId = nat

  datatype Config = Config(workers: nat, queueSize: nat, maxRequests: nat)

  /** How a connection came to be closed. */
  datatype Fate = RateLimited | QueueRejected | Cancelled | Handled

  datatype Closing = Closing(conn: ConnId, fate: Fate)

  /** The acceptor, and then the shutdown sequence of the same goroutine chain. */
  datatype Acceptor =
    | Accepting
    | Deciding(conn: ConnId)              // accepted, rate limit not yet asked
    | Enqueuing(conn: ConnId)             // in the select of enqueueJob
    | Refusing(conn: ConnId, fate: Fate)  // counted, about to answer 429 or 503 and close
    | Stopping                            // serve has returned, the job channel is still open
    | Draining                            // the channel is closed, waiting for the workers
    | Stopped

  datatype Phase =
    | Begin
    | Reading(served: nat)
    | Answering(served: nat, wrote: bool)
    | Fallback
    | Rejecting(byWaf: bool)
    | Leaving
    | Closed

  datatype Worker = Idle | Running(conn: ConnId, phase: Phase) | Exited

  datatype Counters = Counters(accepted: nat, active: nat, requests: nat, wafBlocks: nat, parseRejects: nat,
                               queueRejects: nat, rateLimited: nat, r2: nat, r3: nat, r4: nat, r5: nat)

  datatype State = State(cancelled: bool, listening: bool, acceptor: Acceptor, queue: seq<ConnId>, channelClosed: bool,
                         workers: seq<Worker>, closings: seq<Closing>, next: ConnId, m: Counters,
                         lost: nat)  // responses that were owed but never counted: failed writes, statuses below 200

  /** Steps of the acceptor, of the signal handler, and of the environment. */
  datatype MainStep =
    | Cancel | CloseListener
    | Accept | AcceptFails | RateOk | RateLimit
    | Send | QueueTimeout | GiveUp | Refuse(ok: bool)
    | CloseChannel | WaitReturns

  /** Steps of one worker. Handoff is a send received by a worker that is already waiting. */
  datatype WorkerStep =
    | Handoff | Take | Exit
    | Start | EndQuietly | Parsed | Rejected(byWaf: bool)
    | HandlerWrites(status: int) | HandlerReturns(keepAlive: bool)
    | FallbackWrites(ok: bool) | RejectWrites(ok: bool)
    | Leave | Close

  datatype Action = Main(step: MainStep) | Work(i: nat, event: WorkerStep)

  predicate MainEnabled(c: Config, s: State, a: MainStep) {
    match a
    case Cancel => true
    case CloseListener => s.cancelled
    case Accept => s.acceptor.Accepting? && s.listening
    case AcceptFails => s.acceptor.Accepting? && (!s.listening || s.cancelled)
    case RateOk => s.acceptor.Deciding?
    case RateLimit => s.acceptor.Deciding?
    case Send => s.acceptor.Enqueuing? && |s.queue| < c.queueSize
    case QueueTimeout => s.acceptor.Enqueuing?
    case GiveUp => s.acceptor.Enqueuing? && s.cancelled
    case Refuse(_) => s.acceptor.Refusing?
    case CloseChannel => s.acceptor.Stopping?
    case WaitReturns => s.acceptor.Draining? && forall i :: 0 <= i < |s.workers| ==> s.workers[i].Exited?
  }

  predicate WorkerEnabled(s: State, w: Worker, e: WorkerStep) {
    match e
    case Handoff => w.Idle? && s.acceptor.Enqueuing? && s.queue == []
    case Take => w.Idle? && s.queue != []
    case Exit => w.Idle? && s.queue == [] && s.channelClosed
    case Start => w.Running? && w.phase.Begin?
    case EndQuietly => w.Running? && w.phase.Reading?
    case Parsed => w.Running? && w.phase.Reading?
    case Rejected(_) => w.Running? && w.phase.Reading?
    case HandlerWrites(_) => w.Running? && w.phase.Answering? && !w.phase.wrote
    case HandlerReturns(_) => w.Running? && w.phase.Answering?
    case FallbackWrites(_) => w.Running? && w.phase.Fallback?
    case RejectWrites(_) => w.Running? && w.phase.Rejecting?
    case Leave => w.Running? && w.phase.Leaving?
    case Close => w.Running? && w.phase.Closed?
  }

  predicate Enabled(c: Config, s: State, a: Action) {
    match a
    case Main(step) => MainEnabled(c, s, step)
    case Work(i, e) => i < |s.workers| && WorkerEnabled(s, s.workers[i], e)
  }

  /** RecordResponse: the class counter of a delivered status. */
  function Record(m: Counters, status: int): Counters {
    if 200 <= status < 300 then m.(r2 := m.r2 + 1)
    else if 300 <= status < 400 then m.(r3 := m.r3 + 1)
    else if 400 <= status < 500 then m.(r4 := m.r4 + 1)
    else if status >= 500 then m.(r5 := m.r5 + 1)
    else m
  }

  /** One owed response is delivered with the given status, or its write fails. */
  function Settle(s: State, ok: bool, status: int): State {
    if ok && status >= 200 then s.(m := Record(s.m, status)) else s.(lost := s.lost + 1)
  }

  function CloseConn(s: State, conn: ConnId, fate: Fate): State {
    s.(closings := s.closings + [Closing(conn, fate)])
  }

  function MainApply(c: Config, s: State, a: MainStep): State
    requires MainEnabled(c, s, a)
  {
    match a
    case Cancel => s.(cancelled := true)
    case CloseListener => s.(listening := false)
    case Accept => s.(acceptor := Deciding(s.next), next := s.next + 1, m := s.m.(accepted := s.m.accepted + 1))
    case AcceptFails => s.(acceptor := Stopping)
    case RateOk => s.(acceptor := Enqueuing(s.acceptor.conn))
    case RateLimit => s.(acceptor := Refusing(s.acceptor.conn, RateLimited), m := s.m.(rateLimited := s.m.rateLimited + 1))
    case Send => s.(queue := s.queue + [s.acceptor.conn], acceptor := Accepting)
    case QueueTimeout => s.(acceptor := Refusing(s.acceptor.conn, QueueRejected), m := s.m.(queueRejects := s.m.queueRejects + 1))
    case GiveUp => CloseConn(s, s.acceptor.conn, Cancelled).(acceptor := Accepting)
    case Refuse(ok) =>
      CloseConn(Settle(s, ok, if s.acceptor.fate.RateLimited? then 429 else 503), s.acceptor.conn, s.acceptor.fate)
        .(acceptor := Accepting)
    case CloseChannel => s.(channelClosed := true, acceptor := Draining)
    case WaitReturns => s.(acceptor := Stopped)
  }

  /** What becomes of the worker. */
  function NextWorker(c: Config, s: State, w: Worker, e: WorkerStep): Worker
    requires WorkerEnabled(s, w, e)
  {
    match e
    case Handoff => Running(s.acceptor.conn, Begin)
    case Take => Running(s.queue[0], Begin)
    case Exit => Exited
    case Start => w.(phase := Reading(0))
    case EndQuietly => w.(phase := Leaving)
    case Parsed => w.(phase := Answering(w.phase.served, false))
    case Rejected(byWaf) => w.(phase := Rejecting(byWaf))
    case HandlerWrites(_) => w.(phase := Answering(w.phase.served, true))
    case HandlerReturns(keepAlive) =>
      w.(phase := if !w.phase.wrote then Fallback
                  else if keepAlive && w.phase.served + 1 < c.maxRequests then Reading(w.phase.served + 1) else Leaving)
    case FallbackWrites(_) => w.(phase := Leaving)
    case RejectWrites(_) => w.(phase := Leaving)
    case Leave => w.(phase := Closed)
    case Close => Idle
  }

  /** What the step does to everything shared. */
  function Effect(s: State, w: Worker, e: WorkerStep): State
    requires WorkerEnabled(s, w, e)
  {
    match e
    case Handoff => s.(acceptor := Accepting)
    case Take => s.(queue := s.queue[1..])
    case Start => s.(m := s.m.(active := s.m.active + 1))
    case Parsed => s.(m := s.m.(requests := s.m.requests + 1))
    case Rejected(byWaf) => s.(m := if byWaf then s.m.(wafBlocks := s.m.wafBlocks + 1)
                                    else s.m.(parseRejects := s.m.parseRejects + 1))
    case HandlerWrites(status) => Settle(s, true, status)
    case FallbackWrites(ok) => Settle(s, ok, 500)
    case RejectWrites(ok) => Settle(s, ok, if w.phase.byWaf then 403 else 400)
    case Leave => s.(m := s.m.(active := if s.m.active == 0 then ALL_ONES else s.m.active - 1))
    case Close => CloseConn(s, w.conn, Handled)
    case _ => s
  }

  function Apply(c: Config, s: State, a: Action): State
    requires Enabled(c, s, a)
  {
    match a
    case Main(step) => MainApply(c, s, step)
    case Work(i, e) =>
      Effect(s, s.workers[i], e).(workers := s.workers[i := NextWorker(c, s, s.workers[i], e)])
  }

  function Initial(c: Config): State {
    State(false, true, Accepting, [], false, seq(c.workers, _ => Idle), [], 0,
          Counters(0, 0, 0, 0, 0, 0, 0, 0, 0, 0, 0), 0)
  }

  ghost predicate Follows(c: Config, s: State, s': State) {
    exists a :: Enabled(c, s, a) && s' == Apply(c, s, a)
  }

  ghost predicate IsRun(c: Config, states: seq<State>) {
    && states != [] && states[0] == Initial(c)
    && forall k :: 0 <= k < |states| - 1 ==> Follows(c, states[k], states[k + 1])
  }

  // ---- What the workers hold. ----

  /** A handler is running: between the gauge's increment and its decrement. */
  function Gauge(w: Worker): nat {
    if w.Running? && !w.phase.Begin? && !w.phase.Closed? then 1 else 0
  }

  /** A response is owed: something was counted for which nothing has been delivered or given up yet. */
  function Owes(w: Worker): nat {
    if w.Running? && (w.phase.Rejecting? || w.phase.Fallback? || (w.phase.Answering? && !w.phase.wrote)) then 1 else 0
  }

  function Holds(w: Worker, id: ConnId): nat {
    if w.Running? && w.conn == id then 1 else 0
  }

  function Gauges(ws: seq<Worker>): nat {
    if ws == [] then 0 else Gauge(ws[0]) + Gauges(ws[1..])
  }

  function Owed(ws: seq<Worker>): nat {
    if ws == [] then 0 else Owes(ws[0]) + Owed(ws[1..])
  }

  function Holding(ws: seq<Worker>, id: ConnId): nat {
    if ws == [] then 0 else Holds(ws[0], id) + Holding(ws[1..], id)
  }

  lemma {:induction false} WorkerUpdate(ws: seq<Worker>, i: nat, w: Worker, id: ConnId)
    requires i < |ws|
    ensures Gauges(ws[i := w]) + Gauge(ws[i]) == Gauges(ws) + Gauge(w)
    ensures Owed(ws[i := w]) + Owes(ws[i]) == Owed(ws) + Owes(w)
    ensures Holding(ws[i := w], id) + Holds(ws[i], id) == Holding(ws, id) + Holds(w, id)
  {
    hide Gauge, Owes, Holds;
    if i == 0 {
      assert ws[i := w][1..] == ws[1..];
    } else {
      assert ws[i := w][1..] == ws[1..][i - 1 := w];
      WorkerUpdate(ws[1..], i - 1, w, id);
    }
  }

  lemma {:induction false} GaugesBound(ws: seq<Worker>)
    ensures Owed(ws) <= Gauges(ws) <= |ws|
  {
    if ws != [] {
      GaugesBound(ws[1..]);
    }
  }

  lemma {:induction false} GaugeIsCounted(ws: seq<Worker>, i: nat)
    requires i < |ws|
    ensures Gauges(ws) >= Gauge(ws[i])
  {
    if i > 0 {
      GaugeIsCounted(ws[1..], i - 1);
    }
  }

  /** Workers that run nothing hold nothing and owe nothing. */
  lemma {:induction false} NobodyRuns(ws: seq<Worker>, id: ConnId)
    requires forall i :: 0 <= i < |ws| ==> !ws[i].Running?
    ensures Holding(ws, id) == Gauges(ws) == Owed(ws) == 0
  {
    if ws != [] {
      NobodyRuns(ws[1..], id);
    }
  }

  // ---- The invariant. ----

  function AcceptorHolds(a: Acceptor, id: ConnId): nat {
    if (a.Deciding? || a.Enqueuing? || a.Refusing?) && a.conn == id then 1 else 0
  }

  function AcceptorOwes(a: Acceptor): nat {
    if a.Refusing? then 1 else 0
  }

  /** How often a connection waits in the queue. */
  function Waiting(queue: seq<ConnId>, id: ConnId): nat {
    if queue == [] then 0 else (if queue[0] == id then 1 else 0) + Waiting(queue[1..], id)
  }

  /** How often a connection has been closed. */
  function TimesClosed(cs: seq<Closing>, id: ConnId): nat {
    if cs == [] then 0 else (if cs[0].conn == id then 1 else 0) + TimesClosed(cs[1..], id)
  }

  /** Where a connection is: in the acceptor's hands, queued, with a worker, or closed. */
  function Places(s: State, id: ConnId): nat {
    AcceptorHolds(s.acceptor, id) + Waiting(s.queue, id) + Holding(s.workers, id) + TimesClosed(s.closings, id)
  }

  /** An accepted connection is in exactly one place, and no other connection is anywhere. */
  predicate Located(s: State, id: ConnId) {
    Places(s, id) == if id < s.next then 1 else 0
  }

  function Responses(m: Counters): nat {
    m.r2 + m.r3 + m.r4 + m.r5
  }

  /** Every event that calls for a response. */
  function Owing(m: Counters): nat {
    m.requests + m.wafBlocks + m.parseRejects + m.queueRejects + m.rateLimited
  }

  /** Each such event has been answered, has lost its answer, or is still owed one; the gauge counts the handlers. */
  predicate Balanced(s: State) {
    && Responses(s.m) + s.lost + Owed(s.workers) + AcceptorOwes(s.acceptor) == Owing(s.m)
    && s.m.active == Gauges(s.workers)
    && s.m.accepted == s.next
  }

  /** How many connections have been closed with a given fate. */
  function Fated(cs: seq<Closing>, fate: Fate): nat {
    if cs == [] then 0 else (if cs[0].fate == fate then 1 else 0) + Fated(cs[1..], fate)
  }

  function BeingRefused(a: Acceptor, fate: Fate): nat {
    if a.Refusing? && a.fate == fate then 1 else 0
  }

  /** The two refusal counters count exactly the connections refused for that reason. */
  predicate Tallied(s: State) {
    && Fated(s.closings, RateLimited) + BeingRefused(s.acceptor, RateLimited) == s.m.rateLimited
    && Fated(s.closings, QueueRejected) + BeingRefused(s.acceptor, QueueRejected) == s.m.queueRejects
  }

  predicate Orderly(c: Config, s: State) {
    && |s.workers| == c.workers && |s.queue| <= c.queueSize
    && (s.channelClosed <==> s.acceptor.Draining? || s.acceptor.Stopped?)
    && (forall i :: 0 <= i < |s.workers| && s.workers[i].Exited? ==> s.channelClosed && s.queue == [])
    && (s.acceptor.Stopped? ==> forall i :: 0 <= i < |s.workers| ==> s.workers[i].Exited?)
    && (s.acceptor.Refusing? ==> s.acceptor.fate.RateLimited? || s.acceptor.fate.QueueRejected?)
    && (forall i :: 0 <= i < |s.workers| ==> WithinLimit(c, s.workers[i]))
  }

  predicate WithinLimit(c: Config, w: Worker) {
    w.Running? && (w.phase.Reading? || w.phase.Answering?) ==> w.phase.served < c.maxRequests
  }

  ghost predicate Inv(c: Config, s: State) {
    Orderly(c, s) && Balanced(s) && Tallied(s) && forall id :: Located(s, id)
  }

  lemma {:induction false} WaitingSnoc(queue: seq<ConnId>, x: ConnId, id: ConnId)
    ensures Waiting(queue + [x], id) == Waiting(queue, id) + (if x == id then 1 else 0)
  {
    if queue != [] {
      assert (queue + [x])[1..] == queue[1..] + [x];
      WaitingSnoc(queue[1..], x, id);
    }
  }

  lemma {:induction false} ClosedSnoc(cs: seq<Closing>, x: Closing, id: ConnId)
    ensures TimesClosed(cs + [x], id) == TimesClosed(cs, id) + (if x.conn == id then 1 else 0)
  {
    if cs != [] {
      assert (cs + [x])[1..] == cs[1..] + [x];
      ClosedSnoc(cs[1..], x, id);
    }
  }

  lemma {:induction false} FatedSnoc(cs: seq<Closing>, x: Closing, fate: Fate)
    ensures Fated(cs + [x], fate) == Fated(cs, fate) + (if x.fate == fate then 1 else 0)
  {
    if cs != [] {
      assert (cs + [x])[1..] == cs[1..] + [x];
      FatedSnoc(cs[1..], x, fate);
    }
  }

  lemma CloseTallies(s: State, conn: ConnId, fate: Fate)
    ensures Fated(CloseConn(s, conn, fate).closings, RateLimited) == Fated(s.closings, RateLimited) + (if fate.RateLimited? then 1 else 0)
    ensures Fated(CloseConn(s, conn, fate).closings, QueueRejected) == Fated(s.closings, QueueRejected) + (if fate.QueueRejected? then 1 else 0)
  {
    FatedSnoc(s.closings, Closing(conn, fate), RateLimited);
    FatedSnoc(s.closings, Closing(conn, fate), QueueRejected);
  }

  lemma MainKeepsTally(c: Config, s: State, a: MainStep)
    requires MainEnabled(c, s, a) && Tallied(s)
    ensures Tallied(MainApply(c, s, a))
  {
    hide Fated;
    match a
    case GiveUp => CloseTallies(s, s.acceptor.conn, Cancelled);
    case Refuse(_) => CloseTallies(s, s.acceptor.conn, s.acceptor.fate);
    case _ =>
  }

  lemma WorkKeepsTally(c: Config, s: State, i: nat, e: WorkerStep)
    requires Enabled(c, s, Work(i, e)) && Tallied(s)
    ensures Tallied(Apply(c, s, Work(i, e)))
  {
    hide Fated, NextWorker;
    if e.Close? {
      CloseTallies(s, s.workers[i].conn, Handled);
    }
  }

  lemma MainKeepsOrder(c: Config, s: State, a: MainStep)
    requires Orderly(c, s) && MainEnabled(c, s, a)
    ensures Orderly(c, MainApply(c, s, a))
  {
  }

  lemma WorkKeepsOrder(c: Config, s: State, i: nat, e: WorkerStep)
    requires c.maxRequests > 0 && Orderly(c, s) && Enabled(c, s, Work(i, e))
    ensures Orderly(c, Apply(c, s, Work(i, e)))
  {
    var t := Apply(c, s, Work(i, e));
    var w := NextWorker(c, s, s.workers[i], e);
    assert WithinLimit(c, s.workers[i]);
    assert WithinLimit(c, w);
    forall j | 0 <= j < |t.workers| ensures t.workers[j] == if j == i then w else s.workers[j] {
    }
  }

  lemma MainKeepsLocation(c: Config, s: State, a: MainStep, id: ConnId)
    requires MainEnabled(c, s, a) && Located(s, id) && Located(s, s.next)
    ensures Located(MainApply(c, s, a), id)
  {
    hide Holding, Waiting, TimesClosed;
    match a
    case Send => WaitingSnoc(s.queue, s.acceptor.conn, id);
    case GiveUp => ClosedSnoc(s.closings, Closing(s.acceptor.conn, Cancelled), id);
    case Refuse(_) => ClosedSnoc(s.closings, Closing(s.acceptor.conn, s.acceptor.fate), id);
    case _ =>
  }

  /** A worker's step moves one connection between the worker and everything shared, or none. */
  lemma EventMovesConnection(c: Config, s: State, w: Worker, e: WorkerStep, id: ConnId)
    requires WorkerEnabled(s, w, e)
    ensures var t := Effect(s, w, e);
            AcceptorHolds(t.acceptor, id) + Waiting(t.queue, id) + TimesClosed(t.closings, id) + Holds(NextWorker(c, s, w, e), id)
            == AcceptorHolds(s.acceptor, id) + Waiting(s.queue, id) + TimesClosed(s.closings, id) + Holds(w, id)
    ensures Effect(s, w, e).next == s.next
  {
    hide TimesClosed;
    if e.Close? {
      ClosedSnoc(s.closings, Closing(w.conn, Handled), id);
    }
  }

  lemma WorkKeepsLocation(c: Config, s: State, i: nat, e: WorkerStep, id: ConnId)
    requires Enabled(c, s, Work(i, e)) && Located(s, id)
    ensures Located(Apply(c, s, Work(i, e)), id)
  {
    hide Holding, Waiting, TimesClosed, AcceptorHolds, Holds, Effect, NextWorker, WorkerEnabled;
    EventMovesConnection(c, s, s.workers[i], e, id);
    WorkerUpdate(s.workers, i, NextWorker(c, s, s.workers[i], e), id);
  }

  lemma MainKeepsBalance(c: Config, s: State, a: MainStep)
    requires MainEnabled(c, s, a) && Balanced(s)
    ensures Balanced(MainApply(c, s, a))
  {
    hide Owed, Gauges;
  }

  /** Settling counts the response or loses it, and touches nothing else that is balanced. */
  lemma SettleBalances(s: State, ok: bool, status: int)
    ensures var t := Settle(s, ok, status);
            && Responses(t.m) + t.lost == Responses(s.m) + s.lost + 1 && Owing(t.m) == Owing(s.m)
            && t.m.active == s.m.active && t.m.accepted == s.m.accepted && t.next == s.next && t.acceptor == s.acceptor
  {
  }

  /** A worker's step that calls for a response makes the worker owe one; a step that pays it counts or loses it. */
  lemma EventBalances(c: Config, s: State, w: Worker, e: WorkerStep)
    requires WorkerEnabled(s, w, e) && Gauge(w) <= s.m.active
    ensures var t := Effect(s, w, e);
            var v := NextWorker(c, s, w, e);
            && Responses(t.m) + t.lost + Owes(v) + AcceptorOwes(t.acceptor) + Owing(s.m)
               == Responses(s.m) + s.lost + Owes(w) + AcceptorOwes(s.acceptor) + Owing(t.m)
            && t.m.active + Gauge(w) == s.m.active + Gauge(v)
            && t.m.accepted == s.m.accepted && t.next == s.next
  {
    hide Settle;
    match e
    case HandlerWrites(status) => SettleBalances(s, true, status);
    case FallbackWrites(ok) => SettleBalances(s, ok, 500);
    case RejectWrites(ok) => SettleBalances(s, ok, if w.phase.byWaf then 403 else 400);
    case _ =>
  }

  lemma WorkKeepsBalance(c: Config, s: State, i: nat, e: WorkerStep)
    requires Enabled(c, s, Work(i, e)) && Balanced(s)
    ensures Balanced(Apply(c, s, Work(i, e)))
  {
    hide Owed, Gauges, Owes, Gauge, AcceptorOwes, Responses, Owing, Effect, NextWorker, WorkerEnabled;
    GaugeIsCounted(s.workers, i);
    EventBalances(c, s, s.workers[i], e);
    WorkerUpdate(s.workers, i, NextWorker(c, s, s.workers[i], e), 0);
  }

  lemma InitialInv(c: Config)
    requires c.maxRequests > 0
    ensures Inv(c, Initial(c))
  {
    NobodyRuns(Initial(c).workers, 0);
    forall id ensures Located(Initial(c), id) {
      NobodyRuns(Initial(c).workers, id);
    }
  }

  lemma StepKeepsInv(c: Config, s: State, a: Action)
    requires c.maxRequests > 0 && Inv(c, s) && Enabled(c, s, a)
    ensures Inv(c, Apply(c, s, a))
  {
    hide Orderly, Balanced, Tallied, Located, MainEnabled, MainApply, WorkerEnabled, NextWorker, Effect;
    match a
    case Main(step) =>
      MainKeepsOrder(c, s, step);
      MainKeepsBalance(c, s, step);
      MainKeepsTally(c, s, step);
      forall id ensures Located(Apply(c, s, a), id) {
        MainKeepsLocation(c, s, step, id);
      }
    case Work(i, e) =>
      WorkKeepsOrder(c, s, i, e);
      WorkKeepsBalance(c, s, i, e);
      WorkKeepsTally(c, s, i, e);
      forall id ensures Located(Apply(c, s, a), id) {
        WorkKeepsLocation(c, s, i, e, id);
      }
  }

  lemma {:induction false} RunKeepsInv(c: Config, states: seq<State>, k: nat)
    requires c.maxRequests > 0 && IsRun(c, states) && k < |states|
    ensures Inv(c, states[k])
  {
    hide Orderly, Balanced, Tallied, Located, Enabled, Apply;
    if k == 0 {
      InitialInv(c);
    } else {
      RunKeepsInv(c, states, k - 1);
      assert Follows(c, states[k - 1], states[k - 1 + 1]);
      var a :| Enabled(c, states[k - 1], a) && states[k] == Apply(c, states[k - 1], a);
      StepKeepsInv(c, states[k - 1], a);
    }
  }

  // ---- What every run keeps. ----

  /** In every reachable state: no send on a closed channel and no second close, a bounded queue, at most as many
    * handlers as workers, and a gauge that counts them and never underflows. */
  lemma PoolIsSafe(c: Config, states: seq<State>, k: nat)
    requires c.maxRequests > 0 && IsRun(c, states) && k < |states|
    ensures var s := states[k];
            && (s.acceptor.Enqueuing? || s.acceptor.Stopping? ==> !s.channelClosed)
            && |s.queue| <= c.queueSize
            && s.m.active == Gauges(s.workers) <= c.workers
            && (forall i :: Enabled(c, s, Work(i, Leave)) ==> s.m.active > 0)
  {
    RunKeepsInv(c, states, k);
    var s := states[k];
    GaugesBound(s.workers);
    forall i | Enabled(c, s, Work(i, Leave)) ensures s.m.active > 0 {
      GaugeIsCounted(s.workers, i);
    }
  }

  /** In every reachable state each accepted connection is in exactly one place, and is closed at most once. */
  lemma ClosedAtMostOnce(c: Config, states: seq<State>, k: nat, id: ConnId)
    requires c.maxRequests > 0 && IsRun(c, states) && k < |states|
    ensures Places(states[k], id) == if id < states[k].m.accepted then 1 else 0
    ensures TimesClosed(states[k].closings, id) <= 1
  {
    RunKeepsInv(c, states, k);
    assert Located(states[k], id);
  }

  /** Once Stop has returned, every accepted connection has been closed exactly once, the queue is drained, and
    * every response has been delivered or lost. */
  lemma StopDrains(c: Config, states: seq<State>, k: nat, id: ConnId)
    requires c.maxRequests > 0 && c.workers > 0 && IsRun(c, states) && k < |states| && states[k].acceptor.Stopped?
    ensures TimesClosed(states[k].closings, id) == if id < states[k].m.accepted then 1 else 0
    ensures states[k].queue == [] && states[k].m.active == 0
    ensures Responses(states[k].m) + states[k].lost == Owing(states[k].m)
    ensures Fated(states[k].closings, RateLimited) == states[k].m.rateLimited
    ensures Fated(states[k].closings, QueueRejected) == states[k].m.queueRejects
  {
    RunKeepsInv(c, states, k);
    var s := states[k];
    assert Located(s, id);
    NobodyRuns(s.workers, id);
    assert s.workers[0].Exited?;
  }

  /** The response counters never exceed the events they answer, and equal them once nothing is in progress,
    * exactly when no response was lost. */
  lemma ResponsesAreConserved(c: Config, states: seq<State>, k: nat)
    requires c.maxRequests > 0 && IsRun(c, states) && k < |states|
    ensures Responses(states[k].m) <= Owing(states[k].m)
    ensures states[k].m.active == 0 && !states[k].acceptor.Refusing? ==>
              (Responses(states[k].m) == Owing(states[k].m) <==> states[k].lost == 0)
  {
    RunKeepsInv(c, states, k);
    GaugesBound(states[k].workers);
  }

  /** No worker serves more than the configured number of requests on one connection. */
  lemma ServesWithinLimit(c: Config, states: seq<State>, k: nat, i: nat)
    requires c.maxRequests > 0 && IsRun(c, states) && k < |states|
    requires Enabled(c, states[k], Work(i, Parsed))
    ensures states[k].workers[i].phase.served < c.maxRequests
  {
    RunKeepsInv(c, states, k);
    assert WithinLimit(c, states[k].workers[i]);
  }

  /** Once the channel is closed nothing enters the pool any more. */
  lemma ClosedChannelStaysQuiet(c: Config, states: seq<State>, k: nat)
    requires c.maxRequests > 0 && IsRun(c, states) && k + 1 < |states| && states[k].channelClosed
    ensures states[k + 1].channelClosed && states[k + 1].next == states[k].next
    ensures |states[k + 1].queue| <= |states[k].queue|
  {
    RunKeepsInv(c, states, k);
    assert Follows(c, states[k], states[k + 1]);
    var a :| Enabled(c, states[k], a) && states[k + 1] == Apply(c, states[k], a);
    QuietStep(c, states[k], a);
  }

  lemma QuietStep(c: Config, s: State, a: Action)
    requires Enabled(c, s, a) && s.channelClosed && (s.acceptor.Draining? || s.acceptor.Stopped?)
    ensures var t := Apply(c, s, a); t.channelClosed && t.next == s.next && |t.queue| <= |s.queue|
  {
    hide NextWorker;
  }

  // ---- Order and shutdown. ----

  /** Connections are numbered as they are accepted; the queue holds them in that order. */
  predicate InOrder(s: State) {
    && (forall i, j :: 0 <= i < j < |s.queue| ==> s.queue[i] < s.queue[j])
    && (forall i :: 0 <= i < |s.queue| ==> s.queue[i] < s.next)
    && (s.acceptor.Deciding? || s.acceptor.Enqueuing? || s.acceptor.Refusing? ==>
          s.acceptor.conn < s.next && forall i :: 0 <= i < |s.queue| ==> s.queue[i] < s.acceptor.conn)
  }

  lemma MainKeepsQueueOrder(c: Config, s: State, a: MainStep)
    requires InOrder(s) && MainEnabled(c, s, a)
    ensures InOrder(MainApply(c, s, a))
  {
    hide Settle;
    if a.Refuse? {
      SettleMovesNothing(s, a.ok, if s.acceptor.fate.RateLimited? then 429 else 503);
    }
  }

  lemma EffectKeepsQueueOrder(s: State, w: Worker, e: WorkerStep)
    requires InOrder(s) && WorkerEnabled(s, w, e)
    ensures InOrder(Effect(s, w, e))
  {
    var t := Effect(s, w, e);
    if e.Take? {
      assert forall j :: 0 <= j < |t.queue| ==> t.queue[j] == s.queue[j + 1];
    } else if e.HandlerWrites? || e.FallbackWrites? || e.RejectWrites? {
      SettleMovesNothing(s, if e.HandlerWrites? then true else e.ok,
                         if e.HandlerWrites? then e.status else if e.FallbackWrites? then 500 else if w.phase.byWaf then 403 else 400);
    }
  }

  lemma SettleMovesNothing(s: State, ok: bool, status: int)
    ensures var t := Settle(s, ok, status); t.queue == s.queue && t.next == s.next && t.acceptor == s.acceptor
  {
  }

  lemma StepKeepsOrder(c: Config, s: State, a: Action)
    requires InOrder(s) && Enabled(c, s, a)
    ensures InOrder(Apply(c, s, a))
  {
    hide Effect, NextWorker, MainApply;
    match a
    case Main(step) => MainKeepsQueueOrder(c, s, step);
    case Work(i, e) => EffectKeepsQueueOrder(s, s.workers[i], e);
  }

  /** Nothing is shut down, and no connection is dropped for a shutdown, before the server is cancelled. */
  predicate StopsInTurn(s: State) {
    && (!s.listening ==> s.cancelled)
    && (s.acceptor.Stopping? || s.acceptor.Draining? || s.acceptor.Stopped? ==> s.cancelled)
    && (Fated(s.closings, Cancelled) > 0 ==> s.cancelled)
  }

  lemma CancelledTally(s: State, conn: ConnId, fate: Fate)
    ensures Fated(CloseConn(s, conn, fate).closings, Cancelled) == Fated(s.closings, Cancelled) + (if fate.Cancelled? then 1 else 0)
  {
    FatedSnoc(s.closings, Closing(conn, fate), Cancelled);
  }

  lemma StepStopsInTurn(c: Config, s: State, a: Action)
    requires StopsInTurn(s) && Enabled(c, s, a) && Orderly(c, s)
    ensures StopsInTurn(Apply(c, s, a))
  {
    hide Fated, NextWorker;
    match a
    case Main(GiveUp) => CancelledTally(s, s.acceptor.conn, Cancelled);
    case Main(Refuse(_)) => CancelledTally(s, s.acceptor.conn, s.acceptor.fate);
    case Work(i, Close) => CancelledTally(s, s.workers[i].conn, Handled);
    case _ =>
  }

  lemma {:induction false} RunKeepsOrder(c: Config, states: seq<State>, k: nat)
    requires c.maxRequests > 0 && IsRun(c, states) && k < |states|
    ensures InOrder(states[k]) && StopsInTurn(states[k])
  {
    hide InOrder, StopsInTurn, Enabled, Apply, Inv;
    if k == 0 {
      StartsInOrder(c);
    } else {
      RunKeepsOrder(c, states, k - 1);
      RunKeepsInv(c, states, k - 1);
      assert Follows(c, states[k - 1], states[k - 1 + 1]);
      var a :| Enabled(c, states[k - 1], a) && states[k] == Apply(c, states[k - 1], a);
      InvIsOrderly(c, states[k - 1]);
      StepKeepsOrder(c, states[k - 1], a);
      StepStopsInTurn(c, states[k - 1], a);
    }
  }

  lemma StartsInOrder(c: Config)
    ensures InOrder(Initial(c)) && StopsInTurn(Initial(c))
  {
  }

  lemma InvIsOrderly(c: Config, s: State)
    requires Inv(c, s)
    ensures Orderly(c, s)
  {
  }

  /** The queue is first in, first out, and nothing overtakes it: a worker that takes a connection gets the one that was
    * accepted before all others still waiting, and a connection handed over directly finds nothing waiting. */
  lemma OldestIsTaken(c: Config, states: seq<State>, k: nat, i: nat, e: WorkerStep, other: ConnId)
    requires c.maxRequests > 0 && IsRun(c, states) && k < |states|
    requires (e == Take || e == Handoff) && Enabled(c, states[k], Work(i, e))
    ensures var s, t := states[k], Apply(c, states[k], Work(i, e));
            && t.workers[i].Running? && t.workers[i].phase.Begin?
            && (other in s.queue || AcceptorHolds(s.acceptor, other) == 1 ==> t.workers[i].conn <= other)
            && (other in s.queue && other != t.workers[i].conn ==> other in t.queue)
  {
    RunKeepsOrder(c, states, k);
  }

  /** Nothing is shut down, and no connection dropped, before the server is cancelled; once the listener is closed no
    * further connection is accepted. */
  lemma ShutdownNeedsCancel(c: Config, states: seq<State>, k: nat)
    requires c.maxRequests > 0 && IsRun(c, states) && k < |states|
    ensures StopsInTurn(states[k])
    ensures k + 1 < |states| && !states[k].listening ==>
              !states[k + 1].listening && states[k + 1].m.accepted == states[k].m.accepted
    ensures k + 1 < |states| && states[k].cancelled ==> states[k + 1].cancelled
  {
    RunKeepsOrder(c, states, k);
    if k + 1 < |states| {
      assert Follows(c, states[k], states[k + 1]);
      var a :| Enabled(c, states[k], a) && states[k + 1] == Apply(c, states[k], a);
      ListenerStaysClosed(c, states[k], a);
    }
  }

  lemma ListenerStaysClosed(c: Config, s: State, a: Action)
    requires Enabled(c, s, a)
    ensures var t := Apply(c, s, a);
            && (!s.listening ==> !t.listening && t.m.accepted == s.m.accepted) && (s.cancelled ==> t.cancelled)
  {
    hide NextWorker, Settle, WorkerEnabled, Effect;
    match a
    case Main(Refuse(ok)) => SettleKeepsRest(s, ok, if s.acceptor.fate.RateLimited? then 429 else 503);
    case Work(i, e) => EffectKeepsRest(s, s.workers[i], e);
    case _ =>
  }

  lemma SettleKeepsRest(s: State, ok: bool, status: int)
    ensures var t := Settle(s, ok, status);
            t.listening == s.listening && t.cancelled == s.cancelled && t.m.accepted == s.m.accepted
  {
  }

  lemma EffectKeepsRest(s: State, w: Worker, e: WorkerStep)
    requires WorkerEnabled(s, w, e)
    ensures var t := Effect(s, w, e);
            t.listening == s.listening && t.cancelled == s.cancelled && t.m.accepted == s.m.accepted
  {
    hide Settle;
    match e
    case HandlerWrites(status) => SettleKeepsRest(s, true, status);
    case FallbackWrites(ok) => SettleKeepsRest(s, ok, 500);
    case RejectWrites(ok) => SettleKeepsRest(s, ok, if w.phase.byWaf then 403 else 400);
    case _ =>
  }

  /** In which class the server's own responses are counted: refusals by the rate limiter (429) and by the parser (400,
    * 403) among the client errors, refusals by the full queue (503) and fallbacks (500) among the server errors. */
  lemma OwnResponses(c: Config, s: State, a: Action)
    requires Enabled(c, s, a)
    ensures var t := Apply(c, s, a).m;
            match a
            case Main(Refuse(ok)) =>
              && t.r4 == s.m.r4 + (if ok && s.acceptor.fate.RateLimited? then 1 else 0)
              && t.r5 == s.m.r5 + (if ok && !s.acceptor.fate.RateLimited? then 1 else 0)
            case Work(_, RejectWrites(ok)) => t.r4 == s.m.r4 + (if ok then 1 else 0) && t.r5 == s.m.r5
            case Work(_, FallbackWrites(ok)) => t.r5 == s.m.r5 + (if ok then 1 else 0) && t.r4 == s.m.r4
            case Work(_, HandlerWrites(_)) => true
            case _ => t.r4 == s.m.r4 && t.r5 == s.m.r5
  {
    hide NextWorker, Settle, WorkerEnabled, Effect;
    match a
    case Main(Refuse(ok)) => SettleCounts(s, ok, if s.acceptor.fate.RateLimited? then 429 else 503);
    case Work(i, e) =>
      if !e.HandlerWrites? {
        EffectCounts(s, s.workers[i], e);
      }
    case _ =>
  }

  lemma SettleCounts(s: State, ok: bool, status: int)
    ensures var t := Settle(s, ok, status).m;
            && t.r4 == s.m.r4 + (if ok && status / 100 == 4 then 1 else 0)
            && t.r5 == s.m.r5 + (if ok && status / 100 >= 5 then 1 else 0)
  {
  }

  lemma EffectCounts(s: State, w: Worker, e: WorkerStep)
    requires WorkerEnabled(s, w, e) && !e.HandlerWrites?
    ensures var t := Effect(s, w, e).m;
            && t.r4 == s.m.r4 + (if e.RejectWrites? && e.ok then 1 else 0)
            && t.r5 == s.m.r5 + (if e.FallbackWrites? && e.ok then 1 else 0)
  {
    hide Settle;
    match e
    case FallbackWrites(ok) => SettleCounts(s, ok, 500);
    case RejectWrites(ok) => SettleCounts(s, ok, if w.phase.byWaf then 403 else 400);
    case _ =>
  }

  /** A response is counted in the class of the hundreds of its status, everything from 500 on in the last. */
  lemma RecordExactly(m: Counters, status: int)
    ensures var t := Record(m, status);
            && t.r2 == m.r2 + (if status / 100 == 2 then 1 else 0) && t.r3 == m.r3 + (if status / 100 == 3 then 1 else 0)
            && t.r4 == m.r4 + (if status / 100 == 4 then 1 else 0) && t.r5 == m.r5 + (if status / 100 >= 5 then 1 else 0)
  {
  }
}
