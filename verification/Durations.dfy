/** The lock-free maximum of request durations (core/metrics.go:70-87): any number of goroutines load the
  * register and then compare-and-swap, interleaved in any order. */
module Durations {

  /** One call of RecordRequestDuration: where it stands in its loop. */
  datatype Recorder = Start(micros: nat) | Loaded(micros: nat, current: nat) | Done(micros: nat)

  datatype State = State(total: nat, max: nat, calls: seq<Recorder>)

  datatype Action = Begin(micros: nat) | Load(i: nat) | Swap(i: nat)

  predicate Enabled(s: State, a: Action) {
    match a
    case Begin(_) => true
    case Load(i) => i < |s.calls| && s.calls[i].Start?
    case Swap(i) => i < |s.calls| && s.calls[i].Loaded?
  }

  /** A negative duration returns at once and is no call here. The total is added first; the loop retries a lost swap. */
  function Apply(s: State, a: Action): State
    requires Enabled(s, a)
  {
    match a
    case Begin(m) => State(s.total + m, s.max, s.calls + [Start(m)])
    case Load(i) =>
      var m := s.calls[i].micros;
      if m <= s.max then s.(calls := s.calls[i := Done(m)])
      else s.(calls := s.calls[i := Loaded(m, s.max)])
    case Swap(i) =>
      var c := s.calls[i];
      if s.max == c.current then s.(max := c.micros, calls := s.calls[i := Done(c.micros)])
      else s.(calls := s.calls[i := Start(c.micros)])
  }

  function Total(calls: seq<Recorder>): nat {
    if calls == [] then 0 else Total(calls[..|calls| - 1]) + calls[|calls| - 1].micros
  }

  /** The register holds zero or a recorded duration, at least every finished one. */
  ghost predicate Inv(s: State) {
    && s.total == Total(s.calls)
    && (s.max == 0 || Recorded(s.calls, s.max))
    && (forall i :: 0 <= i < |s.calls| ==>
          match s.calls[i]
          case Start(_) => true
          case Loaded(m, c) => c < m && c <= s.max
          case Done(m) => m <= s.max)
  }

  ghost predicate IsRun(states: seq<State>) {
    && states != [] && states[0] == State(0, 0, [])
    && forall k :: 0 <= k < |states| - 1 ==> Follows(states[k], states[k + 1])
  }

  ghost predicate Follows(s: State, s': State) {
    exists a :: Enabled(s, a) && s' == Apply(s, a)
  }

  lemma {:induction false} TotalUpdate(calls: seq<Recorder>, i: nat, r: Recorder)
    requires i < |calls| && r.micros == calls[i].micros
    ensures Total(calls[i := r]) == Total(calls)
  {
    var n := |calls| - 1;
    assert calls[i := r][..n] == if i < n then calls[..n][i := r] else calls[..n];
    if i < n {
      TotalUpdate(calls[..n], i, r);
    }
  }

  /** Some call recorded this duration. */
  predicate Recorded(calls: seq<Recorder>, m: nat) {
    exists i :: 0 <= i < |calls| && calls[i].micros == m
  }

  lemma StillRecorded(calls: seq<Recorder>, i: nat, r: Recorder, m: nat)
    requires i < |calls| && r.micros == calls[i].micros
    ensures Recorded(calls[i := r], calls[i].micros)
    ensures Recorded(calls, m) ==> Recorded(calls[i := r], m)
  {
    assert calls[i := r][i].micros == calls[i].micros;
    if Recorded(calls, m) {
      var j :| 0 <= j < |calls| && calls[j].micros == m;
      assert calls[i := r][j].micros == m;
    }
  }

  lemma StepKeepsInv(s: State, a: Action)
    requires Inv(s) && Enabled(s, a)
    ensures Inv(Apply(s, a)) && s.max <= Apply(s, a).max
  {
    hide Recorded, Total;
    var t := Apply(s, a);
    match a
    case Begin(m) => BeginKeeps(s.calls, m, s.max);
    case Load(i) =>
      TotalUpdate(s.calls, i, t.calls[i]);
      StillRecorded(s.calls, i, t.calls[i], s.max);
    case Swap(i) =>
      TotalUpdate(s.calls, i, t.calls[i]);
      StillRecorded(s.calls, i, t.calls[i], s.max);
  }

  lemma BeginKeeps(calls: seq<Recorder>, m: nat, max: nat)
    ensures Total(calls + [Start(m)]) == Total(calls) + m
    ensures Recorded(calls, max) ==> Recorded(calls + [Start(m)], max)
  {
    var longer := calls + [Start(m)];
    assert longer[..|calls|] == calls;
    if Recorded(calls, max) {
      var i :| 0 <= i < |calls| && calls[i].micros == max;
      assert longer[i].micros == max;
    }
  }

  lemma {:induction false} RunKeepsInv(states: seq<State>, k: nat)
    requires IsRun(states) && k < |states|
    ensures Inv(states[k])
  {
    if k > 0 {
      RunKeepsInv(states, k - 1);
      assert Follows(states[k - 1], states[k - 1 + 1]);
      var a :| Enabled(states[k - 1], a) && states[k] == Apply(states[k - 1], a);
      StepKeepsInv(states[k - 1], a);
    }
  }

  /** In every interleaving, once all calls have returned the register is the maximum of what they recorded. */
  lemma MaximumIsExact(states: seq<State>, k: nat)
    requires IsRun(states) && k < |states|
    requires forall i :: 0 <= i < |states[k].calls| ==> states[k].calls[i].Done?
    ensures var s := states[k];
            && s.total == Total(s.calls)
            && (forall i :: 0 <= i < |s.calls| ==> s.calls[i].micros <= s.max)
            && (s.calls != [] ==> Recorded(s.calls, s.max))
  {
    RunKeepsInv(states, k);
    var s := states[k];
    if s.max == 0 && s.calls != [] {
      assert s.calls[0].micros == s.max;
    }
  }

  /** A swap only fails because the register grew, so a retry always sees a larger maximum. */
  lemma RetrySeesGrowth(states: seq<State>, k: nat, i: nat)
    requires IsRun(states) && k < |states| && Enabled(states[k], Swap(i))
    requires Apply(states[k], Swap(i)).calls[i].Start?
    ensures states[k].calls[i].current < states[k].max
  {
    RunKeepsInv(states, k);
  }
}
