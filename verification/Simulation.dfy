/** The connection loop as a worker of the server: everything HandleConnection may do is a sequence of worker steps
  * of the transition system with the same effect on the shared counters (core/connection.go, pool/pool.go:20-26). */
module Simulation {
  import opened Text
  import opened Rules
  import opened Http
  import C = Connection
  import L = Lifecycle

  /** Worker `i` takes the given steps one after the other, if each is enabled when its turn comes. */
  function Exec(c: L.Config, s: L.State, i: nat, es: seq<L.WorkerStep>): Option<L.State>
    decreases |es|
  {
    if es == [] then Some(s)
    else if !L.Enabled(c, s, L.Work(i, es[0])) then None
    else Exec(c, L.Apply(c, s, L.Work(i, es[0])), i, es[1..])
  }

  lemma {:induction false} ExecAppend(c: L.Config, s: L.State, i: nat, a: seq<L.WorkerStep>, b: seq<L.WorkerStep>)
    requires Exec(c, s, i, a).Some?
    ensures Exec(c, s, i, a + b) == Exec(c, Exec(c, s, i, a).value, i, b)
    decreases |a|
  {
    hide L.Enabled, L.Apply;
    if a == [] {
      assert a + b == b;
    } else {
      assert (a + b)[0] == a[0] && (a + b)[1..] == a[1..] + b;
      ExecAppend(c, L.Apply(c, s, L.Work(i, a[0])), i, a[1..], b);
    }
  }

  /** The steps of one exchange. */
  function ExchangeSteps(o: C.Options, served: nat, x: C.Exchange): seq<L.WorkerStep> {
    if x.handled && x.response.Some? then
      [L.Parsed, L.HandlerWrites(x.response.value.status), L.HandlerReturns(C.GoesOn(o, served, x))]
    else [L.Parsed, L.HandlerReturns(false), L.FallbackWrites(x.response.Some?)]
  }

  function EndingSteps(ending: C.Ending): seq<L.WorkerStep> {
    match ending
    case Rejected(e, reply) => [L.Rejected(e.Blocked?), L.RejectWrites(reply.Some?)]
    case _ => [L.EndQuietly]
  }

  /** The steps of a run, from reading request number `served` to the end of the loop. */
  function StepsOf(o: C.Options, served: nat, trace: seq<C.Exchange>, ending: C.Ending): seq<L.WorkerStep>
    decreases |trace|
  {
    if trace == [] then EndingSteps(ending)
    else ExchangeSteps(o, served, trace[0]) +
         (if C.GoesOn(o, served, trace[0]) then StepsOf(o, served + 1, trace[1..], ending) else [])
  }

  /** Only worker `i`, the request and response counters and the lost answers differ. */
  predicate Differs(s: L.State, t: L.State, i: nat, phase: L.Phase)
    requires i < |s.workers| && s.workers[i].Running?
  {
    && t == s.(workers := t.workers, m := t.m, lost := t.lost)
    && t.workers == s.workers[i := L.Running(s.workers[i].conn, phase)]
    && t.m == s.m.(requests := t.m.requests, wafBlocks := t.m.wafBlocks, parseRejects := t.m.parseRejects,
                   r2 := t.m.r2, r3 := t.m.r3, r4 := t.m.r4, r5 := t.m.r5)
  }

  predicate IsReading(s: L.State, i: nat, served: nat) {
    i < |s.workers| && s.workers[i].Running? && s.workers[i].phase == L.Reading(served)
  }

  lemma {:induction false} CountedCons(r: C.Response, b: seq<C.Response>)
    ensures C.Counted([r] + b) == (if r.status >= 200 then 1 else 0) + C.Counted(b)
  {
    if b == [] {
      assert [r] + b == [] + [r];
      InitAppend([], r);
    } else {
      CountedCons(r, Init(b));
      assert [r] + b == ([r] + Init(b)) + [Last(b)];
      InitAppend([r] + Init(b), Last(b));
    }
  }

  lemma ThreeSteps(c: L.Config, s: L.State, i: nat, e1: L.WorkerStep, e2: L.WorkerStep, e3: L.WorkerStep)
    requires L.Enabled(c, s, L.Work(i, e1))
    requires var s1 := L.Apply(c, s, L.Work(i, e1));
             L.Enabled(c, s1, L.Work(i, e2)) && L.Enabled(c, L.Apply(c, s1, L.Work(i, e2)), L.Work(i, e3))
    ensures var s1 := L.Apply(c, s, L.Work(i, e1));
            Exec(c, s, i, [e1, e2, e3]) == Some(L.Apply(c, L.Apply(c, s1, L.Work(i, e2)), L.Work(i, e3)))
  {
    hide L.Enabled, L.Apply;
    var s1 := L.Apply(c, s, L.Work(i, e1));
    var s2 := L.Apply(c, s1, L.Work(i, e2));
    var es := [e1, e2, e3];
    assert es[1..] == [e2, e3] && es[1..][1..] == [e3] && es[1..][1..][1..] == [];
    assert Exec(c, s2, i, [e3]) == Some(L.Apply(c, s2, L.Work(i, e3)));
    assert Exec(c, s1, i, [e2, e3]) == Exec(c, s2, i, [e3]);
  }

  lemma AnsweredSimulates(c: L.Config, o: C.Options, served: nat, x: C.Exchange, s: L.State, i: nat)
    requires c.maxRequests == C.Limit(o) && IsReading(s, i, served) && C.IsAnswer(o, served, x) && x.handled
    ensures var r := Exec(c, s, i, ExchangeSteps(o, served, x));
            && r.Some?
            && Differs(s, r.value, i, if C.GoesOn(o, served, x) then L.Reading(served + 1) else L.Leaving)
            && r.value.m.requests == s.m.requests + 1
            && r.value.m.wafBlocks == s.m.wafBlocks && r.value.m.parseRejects == s.m.parseRejects
            && L.Responses(r.value.m) == L.Responses(s.m) + C.Counted(C.ResponseOf(x))
  {
    hide C.AsksToClose, Exec;
    CountedCons(x.response.value, []);
    assert [x.response.value] + [] == [x.response.value];
    ThreeSteps(c, s, i, L.Parsed, L.HandlerWrites(x.response.value.status), L.HandlerReturns(C.GoesOn(o, served, x)));
  }

  lemma FallbackSimulates(c: L.Config, o: C.Options, served: nat, x: C.Exchange, s: L.State, i: nat)
    requires c.maxRequests == C.Limit(o) && IsReading(s, i, served) && C.IsAnswer(o, served, x) && !x.handled
    ensures var r := Exec(c, s, i, ExchangeSteps(o, served, x));
            && r.Some?
            && !C.GoesOn(o, served, x) && Differs(s, r.value, i, L.Leaving)
            && r.value.m.requests == s.m.requests + 1
            && r.value.m.wafBlocks == s.m.wafBlocks && r.value.m.parseRejects == s.m.parseRejects
            && L.Responses(r.value.m) == L.Responses(s.m) + C.Counted(C.ResponseOf(x))
  {
    hide C.AsksToClose, Exec;
    if x.response.Some? {
      CountedCons(x.response.value, []);
      assert [x.response.value] + [] == [x.response.value];
    }
    ThreeSteps(c, s, i, L.Parsed, L.HandlerReturns(false), L.FallbackWrites(x.response.Some?));
  }

  lemma ExchangeSimulates(c: L.Config, o: C.Options, served: nat, x: C.Exchange, s: L.State, i: nat)
    requires c.maxRequests == C.Limit(o) && IsReading(s, i, served) && C.IsAnswer(o, served, x)
    ensures var r := Exec(c, s, i, ExchangeSteps(o, served, x));
            && r.Some?
            && Differs(s, r.value, i, if C.GoesOn(o, served, x) then L.Reading(served + 1) else L.Leaving)
            && r.value.m.requests == s.m.requests + 1
            && r.value.m.wafBlocks == s.m.wafBlocks && r.value.m.parseRejects == s.m.parseRejects
            && L.Responses(r.value.m) == L.Responses(s.m) + C.Counted(C.ResponseOf(x))
  {
    hide C.IsAnswer, C.GoesOn, Exec, ExchangeSteps, Differs;
    if x.handled {
      AnsweredSimulates(c, o, served, x, s, i);
    } else {
      FallbackSimulates(c, o, served, x, s, i);
    }
  }

  lemma EndingSimulates(c: L.Config, ending: C.Ending, s: L.State, i: nat, served: nat)
    requires IsReading(s, i, served) && !ending.Closed? && (ending.Rejected? ==> C.IsReply(ending.error, ending.reply))
    ensures var r := Exec(c, s, i, EndingSteps(ending));
            && r.Some? && Differs(s, r.value, i, L.Leaving)
            && r.value.m.requests == s.m.requests
            && r.value.m.wafBlocks == s.m.wafBlocks + (if ending.Rejected? && ending.error.Blocked? then 1 else 0)
            && r.value.m.parseRejects == s.m.parseRejects + (if ending.Rejected? && !ending.error.Blocked? then 1 else 0)
            && L.Responses(r.value.m) == L.Responses(s.m) + C.Counted(C.Sent([], ending))
  {
    if ending.Rejected? {
      var es := EndingSteps(ending);
      var s1 := L.Apply(c, s, L.Work(i, es[0]));
      assert es[1..] == [es[1]] && es[1..][1..] == [];
      assert Exec(c, s1, i, es[1..]) == Some(L.Apply(c, s1, L.Work(i, es[1])));
      if ending.reply.Some? {
        CountedCons(ending.reply.value, []);
        assert [ending.reply.value] + [] == [ending.reply.value];
      }
    } else {
      assert EndingSteps(ending)[1..] == [];
    }
  }

  /** Every run of the connection loop is a sequence of enabled worker steps with the same counters. */
  lemma {:induction false} LoopSimulates(c: L.Config, rules: seq<Rule>, bytes: Bytes, end: ReadEnd, o: C.Options, served: nat,
                                         trace: seq<C.Exchange>, ending: C.Ending, s: L.State, i: nat)
    requires c.maxRequests == C.Limit(o) && IsReading(s, i, served)
    requires C.IsRun(rules, bytes, end, o, served, trace, ending)
    ensures var r := Exec(c, s, i, StepsOf(o, served, trace, ending));
            && r.Some? && Differs(s, r.value, i, L.Leaving)
            && r.value.m.requests == s.m.requests + |trace|
            && r.value.m.wafBlocks == s.m.wafBlocks + (if ending.Rejected? && ending.error.Blocked? then 1 else 0)
            && r.value.m.parseRejects == s.m.parseRejects + (if ending.Rejected? && !ending.error.Blocked? then 1 else 0)
            && L.Responses(r.value.m) == L.Responses(s.m) + C.Counted(C.Sent(trace, ending))
    decreases |trace|
  {
    hide Parse, C.IsAnswer, C.GoesOn, C.IsReply, L.Enabled, L.Apply, ExchangeSteps, EndingSteps, Exec, C.Counted;
    if trace == [] {
      EndingSimulates(c, ending, s, i, served);
    } else {
      var x := trace[0];
      var first := ExchangeSteps(o, served, x);
      ExchangeSimulates(c, o, served, x, s, i);
      var mid := Exec(c, s, i, first).value;
      SentCounts(trace, ending);
      if C.GoesOn(o, served, x) {
        var rest := StepsOf(o, served + 1, trace[1..], ending);
        LoopSimulates(c, rules, Parse(rules, bytes, end).rest, end, o, served + 1, trace[1..], ending, mid, i);
        ExecAppend(c, s, i, first, rest);
      } else {
        assert first + [] == first;
        assert trace[1..] == [];
        NothingSent();
      }
    }
  }

  lemma SentCounts(trace: seq<C.Exchange>, ending: C.Ending)
    requires trace != []
    ensures C.Counted(C.Sent(trace, ending)) == C.Counted(C.ResponseOf(trace[0])) + C.Counted(C.Sent(trace[1..], ending))
  {
    var x, rest := trace[0], C.Sent(trace[1..], ending);
    if x.response.Some? {
      CountedCons(x.response.value, rest);
      CountedCons(x.response.value, []);
      assert [x.response.value] + [] == [x.response.value];
    } else {
      assert [] + rest == rest;
    }
  }

  lemma NothingSent()
    ensures C.Counted(C.Sent([], C.Closed)) == 0
  {
  }

  /** A worker that has just received a connection can do whatever HandleConnection may do on it, and ends idle with
    * the connection closed as handled, the gauge where it was, and the same counters. */
  lemma ConnectionSimulates(c: L.Config, rules: seq<Rule>, bytes: Bytes, end: ReadEnd, o: C.Options,
                            trace: seq<C.Exchange>, ending: C.Ending, s: L.State, i: nat)
    requires c.maxRequests == C.Limit(o) && C.IsRun(rules, bytes, end, o, 0, trace, ending)
    requires i < |s.workers| && s.workers[i].Running? && s.workers[i].phase.Begin?
    ensures var r := Exec(c, s, i, [L.Start] + StepsOf(o, 0, trace, ending) + [L.Leave, L.Close]);
            && r.Some? && r.value.workers == s.workers[i := L.Idle]
            && r.value.closings == s.closings + [L.Closing(s.workers[i].conn, L.Handled)]
            && r.value.m.active == s.m.active && r.value.m.requests == s.m.requests + |trace|
            && r.value.m.wafBlocks == s.m.wafBlocks + (if ending.Rejected? && ending.error.Blocked? then 1 else 0)
            && r.value.m.parseRejects == s.m.parseRejects + (if ending.Rejected? && !ending.error.Blocked? then 1 else 0)
            && L.Responses(r.value.m) == L.Responses(s.m) + C.Counted(C.Sent(trace, ending))
  {
    hide C.IsRun, StepsOf, C.Counted, C.Sent;
    var steps := StepsOf(o, 0, trace, ending);
    var started := L.Apply(c, s, L.Work(i, L.Start));
    LoopSimulates(c, rules, bytes, end, o, 0, trace, ending, started, i);
    var done := Exec(c, started, i, steps).value;
    LeaveAndClose(c, done, i);
    hide Exec;
    StartThen(c, s, i, steps);
    ExecAppend(c, s, i, [L.Start] + steps, [L.Leave, L.Close]);
  }

  lemma StartThen(c: L.Config, s: L.State, i: nat, steps: seq<L.WorkerStep>)
    requires L.Enabled(c, s, L.Work(i, L.Start))
    ensures Exec(c, s, i, [L.Start] + steps) == Exec(c, L.Apply(c, s, L.Work(i, L.Start)), i, steps)
  {
    hide L.Enabled, L.Apply;
    assert ([L.Start] + steps)[1..] == steps;
  }

  lemma LeaveAndClose(c: L.Config, s: L.State, i: nat)
    requires i < |s.workers| && s.workers[i].Running? && s.workers[i].phase.Leaving? && s.m.active > 0
    ensures Exec(c, s, i, [L.Leave, L.Close]) ==
            Some(s.(workers := s.workers[i := L.Idle], m := s.m.(active := s.m.active - 1),
                    closings := s.closings + [L.Closing(s.workers[i].conn, L.Handled)]))
  {
    var es := [L.Leave, L.Close];
    assert es[1..] == [L.Close] && es[1..][1..] == [];
    var left := L.Apply(c, s, L.Work(i, L.Leave));
    assert Exec(c, left, i, [L.Close]) == Some(L.Apply(c, left, L.Work(i, L.Close)));
    assert left.workers[i := L.Idle] == s.workers[i := L.Idle];
  }
}
