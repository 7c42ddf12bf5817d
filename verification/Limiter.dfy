/** The per-key token bucket with eviction of idle buckets (security/ratelimiter/limiter.go).
  * Times are nanoseconds of one clock that never runs backwards; tokens are real numbers. */
module Limiter {
  import opened Text

  const DEFAULT_TTL: int := 600_000_000_000

  datatype Config = Config(rate: real, capacity: real, ttl: int)

  /** Tokens earned in `d` nanoseconds. */
  function Earned(c: Config, d: int): real {
    c.rate * (d as real / 1_000_000_000.0)
  }

  lemma EarnedAdds(c: Config, a: int, b: int)
    ensures Earned(c, a + b) == Earned(c, a) + Earned(c, b)
    ensures Earned(c, 0) == 0.0
  {
    var x, y := a as real / 1_000_000_000.0, b as real / 1_000_000_000.0;
    assert (a + b) as real / 1_000_000_000.0 == x + y;
    assert c.rate * (x + y) == c.rate * x + c.rate * y;
  }

  lemma EarnedGrows(c: Config, a: int, b: int)
    requires c.rate >= 0.0 && a <= b
    ensures Earned(c, a) <= Earned(c, b)
  {
    EarnedAdds(c, a, b - a);
    var x := (b - a) as real / 1_000_000_000.0;
    assert x >= 0.0;
    assert c.rate * x >= 0.0;
  }

  // ---- One call as a function of the state. ----

  datatype Level = Level(tokens: real, last: int)

  datatype State = State(levels: map<string, Level>, lastCleanup: int)

  function Refilled(c: Config, l: Level, now: int): real {
    var t := l.tokens + Earned(c, now - l.last);
    if t > c.capacity then c.capacity else t
  }

  /** The bucket of a key after an attempt, and the answer. */
  function Attempted(c: Config, level: Option<Level>, now: int): (Level, bool) {
    match level
    case None => (Level(c.capacity - 1.0, now), true)
    case Some(l) =>
      var t := Refilled(c, l, now);
      if t < 1.0 then (Level(t, now), false) else (Level(t - 1.0, now), true)
  }

  function LevelOf(s: State, key: string): Option<Level> {
    if key in s.levels then Some(s.levels[key]) else None
  }

  function Take(c: Config, s: State, key: string, now: int): (State, bool) {
    var (l, ok) := Attempted(c, LevelOf(s, key), now);
    (s.(levels := s.levels[key := l]), ok)
  }

  /** Every half time-to-live, buckets idle for longer than the time-to-live are dropped. */
  function Evict(c: Config, s: State, now: int): State {
    if now - s.lastCleanup < c.ttl / 2 then s
    else State(map k | k in s.levels && s.levels[k].last >= now - c.ttl :: s.levels[k], now)
  }

  function Step(c: Config, s: State, key: string, now: int): (State, bool) {
    Take(c, Evict(c, s, now), key, now)
  }

  // ---- The limiter object. ----

  class Bucket {
    var tokens: real
    var lastRefill: int

    constructor (tokens: real, lastRefill: int)
      ensures this.tokens == tokens && this.lastRefill == lastRefill
    {
      this.tokens, this.lastRefill := tokens, lastRefill;
    }

    /** Refills up to the capacity, then takes one token if there is one. */
    method Attempt(c: Config, now: int) returns (ok: bool)
      modifies this
      ensures (Level(tokens, lastRefill), ok) == Attempted(c, Some(Level(old(tokens), old(lastRefill))), now)
    {
      var elapsed := (now - lastRefill) as real / 1_000_000_000.0;
      ghost var earned := Earned(c, now - lastRefill);
      assert c.rate * elapsed == earned;
      tokens := tokens + c.rate * elapsed;
      assert tokens == old(tokens) + earned;
      lastRefill := now;
      if tokens > c.capacity {
        tokens := c.capacity;
      }
      if tokens < 1.0 {
        return false;
      }
      tokens := tokens - 1.0;
      return true;
    }
  }

  class Limiter {
    const config: Config
    var buckets: map<string, Bucket>
    var lastCleanup: int
    ghost var repr: set<Bucket>

    /** No two keys share a bucket. */
    ghost predicate Valid()
      reads this
    {
      && (forall k :: k in buckets ==> buckets[k] in repr)
      && (forall k, k' :: k in buckets && k' in buckets && k != k' ==> buckets[k] != buckets[k'])
    }

    ghost function Model(): (s: State)
      requires Valid()
      reads this, repr
      ensures s.levels.Keys == buckets.Keys
    {
      State(map k | k in buckets :: Level(buckets[k].tokens, buckets[k].lastRefill), lastCleanup)
    }

    constructor (rate: real, capacity: real, bucketTTL: int, now: int)
      ensures Valid() && Model() == State(map[], now) && fresh(repr)
      ensures config == Config(rate, capacity, if bucketTTL <= 0 then 10 * 60 * 1_000_000_000 else bucketTTL)
    {
      config := Config(rate, capacity, if bucketTTL <= 0 then DEFAULT_TTL else bucketTTL);
      buckets, lastCleanup, repr := map[], now, {};
    }

    /** Deletes the buckets last used before the given time. */
    method Sweep(expiresBefore: int)
      requires Valid()
      modifies this`buckets
      ensures Valid()
      ensures forall k :: k in buckets ==> k in old(buckets) && buckets[k] == old(buckets)[k]
      ensures forall k :: k in old(buckets) ==> (k in buckets <==> old(buckets)[k].lastRefill >= expiresBefore)
    {
      var todo := buckets.Keys;
      ghost var before := buckets;
      while todo != {}
        invariant Valid() && todo <= buckets.Keys
        invariant forall k :: k in buckets ==> k in before && buckets[k] == before[k]
        invariant forall k :: k in before && k !in buckets ==> before[k].lastRefill < expiresBefore
        invariant forall k :: k in buckets && k !in todo ==> buckets[k].lastRefill >= expiresBefore
        decreases |todo|
      {
        var key :| key in todo;
        if buckets[key].lastRefill < expiresBefore {
          buckets := buckets - {key};
        }
        todo := todo - {key};
      }
    }

    method Cleanup(now: int)
      requires Valid()
      modifies this`buckets, this`lastCleanup
      ensures Valid() && Model() == Evict(config, old(Model()), now)
      ensures now - old(lastCleanup) < config.ttl / 2 ==> buckets == old(buckets) && lastCleanup == old(lastCleanup)
      ensures now - old(lastCleanup) >= config.ttl / 2 ==>
                && lastCleanup == now
                && forall k :: k in buckets <==> k in old(buckets) && now - old(buckets)[k].lastRefill <= config.ttl
    {
      if now - lastCleanup < config.ttl / 2 {
        return;
      }
      Sweep(now - config.ttl);
      lastCleanup := now;
      assert Model().levels == Evict(config, old(Model()), now).levels;
    }

    /** Answers as the state function prescribes, and leaves the buckets of all other keys alone but for eviction. */
    method Allow(key: string, now: int) returns (ok: bool)
      requires Valid()
      modifies this, repr
      ensures Valid() && fresh(repr - old(repr))
      ensures (Model(), ok) == Step(config, old(Model()), key, now)
    {
      Cleanup(now);
      ghost var evicted := Model();
      if key !in buckets {
        AddBucket(key, config.capacity - 1.0, now);
        return true;
      }
      ok := buckets[key].Attempt(config, now);
      assert Model().levels == evicted.levels[key := Level(buckets[key].tokens, buckets[key].lastRefill)];
    }

    method AddBucket(key: string, tokens: real, now: int)
      requires Valid() && key !in buckets
      modifies this`buckets, this`repr
      ensures Valid() && fresh(repr - old(repr))
      ensures Model() == old(Model()).(levels := old(Model()).levels[key := Level(tokens, now)])
    {
      var bucket := new Bucket(tokens, now);
      buckets := buckets[key := bucket];
      repr := repr + {bucket};
      assert Model().levels == old(Model()).levels[key := Level(tokens, now)];
    }
  }

  // ---- The sliding-window law of one key. ----

  /** An attempt of one key and its answer. */
  datatype Entry = Entry(at: int, ok: bool)

  /** The bucket after the attempts `h`, taking their answers as given. */
  function LevelAfter(c: Config, h: seq<Entry>): Option<Level> {
    if h == [] then None
    else
      var now := Last(h).at;
      var t := match LevelAfter(c, Init(h)) case None => c.capacity case Some(l) => Refilled(c, l, now);
      Some(Level(if Last(h).ok then t - 1.0 else t, now))
  }

  /** The attempts are in time order and each was answered by the bucket. */
  predicate IsHistory(c: Config, h: seq<Entry>) {
    h != [] ==>
      && IsHistory(c, Init(h))
      && (Init(h) != [] ==> Last(Init(h)).at <= Last(h).at)
      && Last(h).ok == Attempted(c, LevelAfter(c, Init(h)), Last(h).at).1
  }

  function Admitted(h: seq<Entry>): nat {
    if h == [] then 0 else Admitted(Init(h)) + (if Last(h).ok then 1 else 0)
  }

  /** How many attempts at time `s` or later were admitted. */
  function AdmittedSince(h: seq<Entry>, s: int): nat {
    if h == [] then 0 else AdmittedSince(Init(h), s) + (if Last(h).ok && Last(h).at >= s then 1 else 0)
  }

  /** One more admission at `now` respects the budget since time `s`: the capacity and the rate times the seconds passed. */
  predicate Fits(c: Config, h: seq<Entry>, s: int, now: int) {
    AdmittedSince(h, s) as real + 1.0 <= c.capacity + c.rate * ((now - s) as real / 1_000_000_000.0)
  }

  /** The budget is respected since every attempt time of the key, the present one included. */
  predicate WithinWindow(c: Config, h: seq<Entry>, now: int) {
    Fits(c, h, now, now) && forall j :: 0 <= j < |h| ==> Fits(c, h, h[j].at, now)
  }

  /** The same, counting from positions instead of times. */
  predicate WithinFrom(c: Config, h: seq<Entry>, now: int, x: real) {
    c.capacity >= x && forall j :: 0 <= j < |h| ==> FromPosition(c, h, now, x, j)
  }

  predicate FromPosition(c: Config, h: seq<Entry>, now: int, x: real, j: int)
    requires 0 <= j < |h|
  {
    c.capacity + Earned(c, now - h[j].at) - Admitted(h[j..]) as real >= x
  }

  function TokensAt(c: Config, h: seq<Entry>, now: int): real {
    match LevelAfter(c, h) case None => c.capacity case Some(l) => Refilled(c, l, now)
  }

  /** The bucket level is the minimum of the budgets left since each earlier attempt. */
  lemma {:induction false} TokensAreMinimum(c: Config, h: seq<Entry>, now: int, x: real)
    ensures TokensAt(c, h, now) >= x <==> WithinFrom(c, h, now, x)
  {
    if h != [] {
      var g, e := Init(h), Last(h);
      var spent := if e.ok then 1.0 else 0.0;
      var y := x + spent - Earned(c, now - e.at);
      TokensAreMinimum(c, g, e.at, y);
      assert TokensAt(c, h, now) >= x <==> c.capacity >= x && TokensAt(c, g, e.at) >= y;
      assert h[|g|..] == [e] && Init([e]) == [];
      assert Admitted([e]) as real == spent;
      assert FromPosition(c, h, now, x, |g|) <==> c.capacity >= y;
      forall j | 0 <= j < |g| ensures FromPosition(c, h, now, x, j) <==> FromPosition(c, g, e.at, y, j) {
        assert Init(h[j..]) == g[j..];
        EarnedAdds(c, now - e.at, e.at - g[j].at);
      }
    }
  }

  lemma {:induction false} SinceCountsFromPosition(h: seq<Entry>, j: nat)
    requires j < |h| && forall a, b :: 0 <= a < b < |h| ==> h[a].at <= h[b].at
    ensures AdmittedSince(h, h[j].at) >= Admitted(h[j..])
    ensures (j == 0 || h[j - 1].at < h[j].at) ==> AdmittedSince(h, h[j].at) == Admitted(h[j..])
  {
    var g := Init(h);
    assert Init(h[j..]) == h[j..|h| - 1];
    if j < |g| {
      SinceCountsFromPosition(g, j);
      assert Init(h[j..]) == g[j..];
    } else {
      assert Init(h[j..]) == [];
      if j > 0 && h[j - 1].at < h[j].at {
        NoneSince(g, h[j].at);
      }
    }
  }

  lemma {:induction false} NoneSince(h: seq<Entry>, s: int)
    requires forall a :: 0 <= a < |h| ==> h[a].at < s
    ensures AdmittedSince(h, s) == 0
  {
    if h != [] {
      NoneSince(Init(h), s);
    }
  }

  lemma {:induction false} HistoryIsSorted(c: Config, h: seq<Entry>)
    requires IsHistory(c, h)
    ensures forall a, b :: 0 <= a < b < |h| ==> h[a].at <= h[b].at
  {
    if h != [] {
      var g := Init(h);
      HistoryIsSorted(c, g);
      forall a, b | 0 <= a < b < |h| ensures h[a].at <= h[b].at {
        assert h[a] == g[a] && g[a].at <= Last(g).at <= Last(h).at;
        if b < |g| {
          assert g[a].at <= g[b].at;
        }
      }
    }
  }

  lemma {:induction false} FirstWithTime(h: seq<Entry>, j: nat) returns (k: nat)
    requires j < |h| && forall a, b :: 0 <= a < b < |h| ==> h[a].at <= h[b].at
    ensures k <= j && h[k].at == h[j].at && (k == 0 || h[k - 1].at < h[k].at)
  {
    if j == 0 || h[j - 1].at < h[j].at {
      k := j;
    } else {
      k := FirstWithTime(h, j - 1);
    }
  }

  lemma FitsBudget(c: Config, h: seq<Entry>, s: int, now: int)
    ensures Fits(c, h, s, now) <==> c.capacity + Earned(c, now - s) - AdmittedSince(h, s) as real >= 1.0
  {
    hide AdmittedSince;
    var e := Earned(c, now - s);
    assert c.rate * ((now - s) as real / 1_000_000_000.0) == e;
  }

  lemma PresentFits(c: Config, h: seq<Entry>, now: int)
    requires forall a :: 0 <= a < |h| ==> h[a].at < now
    ensures Fits(c, h, now, now) <==> c.capacity >= 1.0
  {
    EarnedAdds(c, 0, 0);
    NoneSince(h, now);
    hide Earned, Fits, AdmittedSince;
    FitsBudget(c, h, now, now);
  }

  /** The times of the attempts, positions with one time taken together, give the budgets of the positions. */
  lemma WindowIsByPosition(c: Config, h: seq<Entry>, now: int)
    requires forall a, b :: 0 <= a < b < |h| ==> h[a].at <= h[b].at
    requires h != [] ==> Last(h).at <= now
    ensures WithinWindow(c, h, now) <==> WithinFrom(c, h, now, 1.0)
  {
    hide Earned, Fits, AdmittedSince, Admitted;
    forall j | 0 <= j < |h| ensures Fits(c, h, h[j].at, now) ==> FromPosition(c, h, now, 1.0, j) {
      SinceCountsFromPosition(h, j);
      FitsBudget(c, h, h[j].at, now);
    }
    forall j | 0 <= j < |h| ensures WithinFrom(c, h, now, 1.0) ==> Fits(c, h, h[j].at, now) {
      var k := FirstWithTime(h, j);
      SinceCountsFromPosition(h, k);
      FitsBudget(c, h, h[j].at, now);
      assert WithinFrom(c, h, now, 1.0) ==> FromPosition(c, h, now, 1.0, k);
    }
    if h != [] && Last(h).at == now {
      LastAttemptFits(c, h);
    } else {
      PresentFits(c, h, now);
    }
  }

  /** Since the time of the last attempt, the budget is at most the capacity. */
  lemma LastAttemptFits(c: Config, h: seq<Entry>)
    requires h != []
    ensures Fits(c, h, Last(h).at, Last(h).at) ==> c.capacity >= 1.0
  {
    EarnedAdds(c, 0, 0);
    hide Earned, Fits, AdmittedSince;
    FitsBudget(c, h, Last(h).at, Last(h).at);
  }

  /** With a capacity of at least one, the bucket admits exactly what the sliding window admits. */
  lemma BucketIsSlidingWindow(c: Config, h: seq<Entry>, now: int)
    requires c.capacity >= 1.0 && IsHistory(c, h) && (h != [] ==> Last(h).at <= now)
    ensures Attempted(c, LevelAfter(c, h), now).1 <==> WithinWindow(c, h, now)
  {
    HistoryIsSorted(c, h);
    TokensAreMinimum(c, h, now, 1.0);
    WindowIsByPosition(c, h, now);
  }

  /** The law holds of all histories exactly when the capacity is at least one. */
  lemma SlidingWindowExactly(c: Config)
    ensures (forall h, now :: IsHistory(c, h) && (h != [] ==> Last(h).at <= now) ==>
               (Attempted(c, LevelAfter(c, h), now).1 <==> WithinWindow(c, h, now)))
            <==> c.capacity >= 1.0
  {
    if c.capacity >= 1.0 {
      forall h, now | IsHistory(c, h) && (h != [] ==> Last(h).at <= now)
        ensures Attempted(c, LevelAfter(c, h), now).1 <==> WithinWindow(c, h, now)
      {
        BucketIsSlidingWindow(c, h, now);
      }
    } else {
      EarnedAdds(c, 0, 0);
      assert IsHistory(c, []) && Attempted(c, LevelAfter(c, []), 0).1 && !WithinWindow(c, [], 0);
    }
  }

  // ---- Whole runs over many keys. ----

  datatype Call = Call(key: string, at: int)

  predicate Ordered(calls: seq<Call>) {
    forall i, j :: 0 <= i < j < |calls| ==> calls[i].at <= calls[j].at
  }

  /** State and answers of the limiter that never deletes a bucket. */
  function Keep(c: Config, s: State, calls: seq<Call>): (r: (State, seq<bool>))
    ensures |r.1| == |calls|
  {
    if calls == [] then (s, [])
    else
      var (t, oks) := Keep(c, s, Init(calls));
      var (u, ok) := Take(c, t, Last(calls).key, Last(calls).at);
      (u, oks + [ok])
  }

  /** State and answers of the limiter as it is. */
  function Run(c: Config, s: State, calls: seq<Call>): (r: (State, seq<bool>))
    ensures |r.1| == |calls|
  {
    if calls == [] then (s, [])
    else
      var (t, oks) := Run(c, s, Init(calls));
      var (u, ok) := Step(c, t, Last(calls).key, Last(calls).at);
      (u, oks + [ok])
  }

  /** The attempts of one key in a run. */
  function HistoryOf(calls: seq<Call>, oks: seq<bool>, key: string): seq<Entry>
    requires |calls| == |oks|
  {
    if calls == [] then []
    else
      var h := HistoryOf(Init(calls), Init(oks), key);
      if Last(calls).key == key then h + [Entry(Last(calls).at, Last(oks))] else h
  }

  /** One more attempt of a key continues its history. */
  lemma HistoryStep(c: Config, h: seq<Entry>, now: int)
    requires IsHistory(c, h) && (h != [] ==> Last(h).at <= now)
    ensures var (l, ok) := Attempted(c, LevelAfter(c, h), now);
            var longer := h + [Entry(now, ok)];
            IsHistory(c, longer) && LevelAfter(c, longer) == Some(l)
  {
    InitAppend(h, Entry(now, Attempted(c, LevelAfter(c, h), now).1));
  }

  /** Keys do not interfere: each bucket is the one of the key's own history. */
  lemma {:induction false} KeysAreIndependent(c: Config, start: int, calls: seq<Call>, key: string)
    requires Ordered(calls)
    ensures var (t, oks) := Keep(c, State(map[], start), calls);
            var h := HistoryOf(calls, oks, key);
            && LevelOf(t, key) == LevelAfter(c, h) && IsHistory(c, h)
            && (h != [] ==> calls != [] && Last(h).at <= Last(calls).at)
  {
    hide Attempted, LevelAfter, IsHistory, HistoryOf;
    if calls == [] {
      EmptyHistory(c);
      assert HistoryOf([], [], key) == [] by {
        NoCalls(key);
      }
    } else {
      var g := Init(calls);
      KeysAreIndependent(c, start, g, key);
      var (t, oks) := Keep(c, State(map[], start), g);
      var call := Last(calls);
      var (u, ok) := Take(c, t, call.key, call.at);
      HistoryOfSnoc(calls, oks, ok, key);
      if g != [] {
        assert calls[|g| - 1].at <= calls[|g|].at;
      }
      HistoryStep(c, HistoryOf(g, oks, key), call.at);
    }
  }

  lemma HistoryOfSnoc(calls: seq<Call>, oks: seq<bool>, ok: bool, key: string)
    requires |calls| == |oks| + 1
    ensures var h := HistoryOf(Init(calls), oks, key);
            HistoryOf(calls, oks + [ok], key) == if Last(calls).key == key then h + [Entry(Last(calls).at, ok)] else h
  {
    InitAppend(oks, ok);
  }

  lemma NoCalls(key: string)
    ensures HistoryOf([], [], key) == []
  {
  }

  lemma EmptyHistory(c: Config)
    ensures LevelAfter(c, []) == None && IsHistory(c, [])
  {
  }

  /** Every answer of a run without eviction is the sliding-window answer for its key. */
  lemma KeepIsSlidingWindow(c: Config, start: int, calls: seq<Call>, call: Call)
    requires c.capacity >= 1.0 && Ordered(calls + [call])
    ensures var (t, oks) := Keep(c, State(map[], start), calls);
            Take(c, t, call.key, call.at).1 <==> WithinWindow(c, HistoryOf(calls, oks, call.key), call.at)
  {
    var all := calls + [call];
    assert Ordered(calls) by {
      forall i, j | 0 <= i < j < |calls| ensures calls[i].at <= calls[j].at {
        assert all[i].at <= all[j].at;
      }
    }
    KeysAreIndependent(c, start, calls, call.key);
    var (t, oks) := Keep(c, State(map[], start), calls);
    if calls != [] {
      assert all[|calls| - 1].at <= all[|calls|].at;
    }
    BucketIsSlidingWindow(c, HistoryOf(calls, oks, call.key), call.at);
  }

  // ---- Eviction cannot be observed. ----

  /** `s` is `t` with some buckets missing, all of which would be full by `now`. */
  predicate Simulates(c: Config, s: State, t: State, now: int) {
    && (forall k :: k in s.levels ==> k in t.levels && t.levels[k] == s.levels[k])
    && (forall k :: k in t.levels ==> t.levels[k].tokens >= 0.0 && t.levels[k].last <= now)
    && (forall k :: k in t.levels && k !in s.levels ==> t.levels[k].tokens + Earned(c, now - t.levels[k].last) >= c.capacity)
  }

  /** A bucket is full again by the time it can first be dropped, one tick past the time-to-live. */
  predicate RefillsInTime(c: Config) {
    c.capacity >= 1.0 && c.rate >= 0.0 && c.ttl > 0 && Earned(c, c.ttl + 1) >= c.capacity
  }

  lemma TimePasses(c: Config, s: State, t: State, now: int, later: int)
    requires RefillsInTime(c) && Simulates(c, s, t, now) && now <= later
    ensures Simulates(c, s, t, later)
  {
    forall k | k in t.levels && k !in s.levels ensures t.levels[k].tokens + Earned(c, later - t.levels[k].last) >= c.capacity {
      EarnedGrows(c, now - t.levels[k].last, later - t.levels[k].last);
    }
  }

  lemma EvictionKeepsSimulation(c: Config, s: State, t: State, now: int)
    requires RefillsInTime(c) && Simulates(c, s, t, now)
    ensures Simulates(c, Evict(c, s, now), t, now)
  {
    var e := Evict(c, s, now);
    forall k | k in t.levels && k !in e.levels ensures t.levels[k].tokens + Earned(c, now - t.levels[k].last) >= c.capacity {
      if k in s.levels {
        EarnedGrows(c, c.ttl + 1, now - t.levels[k].last);
      }
    }
  }

  lemma TakeKeepsSimulation(c: Config, s: State, t: State, key: string, now: int)
    requires RefillsInTime(c) && Simulates(c, s, t, now)
    ensures Take(c, s, key, now).1 == Take(c, t, key, now).1
    ensures Simulates(c, Take(c, s, key, now).0, Take(c, t, key, now).0, now)
  {
    if key in t.levels {
      EarnedGrows(c, 0, now - t.levels[key].last);
      EarnedAdds(c, 0, 0);
    }
  }

  /** On every call sequence the limiter answers like one that never deletes a bucket. */
  lemma {:induction false} EvictionIsUnobservable(c: Config, start: int, calls: seq<Call>)
    requires RefillsInTime(c) && Ordered(calls)
    ensures Run(c, State(map[], start), calls).1 == Keep(c, State(map[], start), calls).1
    ensures calls != [] ==>
              Simulates(c, Run(c, State(map[], start), calls).0, Keep(c, State(map[], start), calls).0, Last(calls).at)
  {
    if calls != [] {
      var g, call := Init(calls), Last(calls);
      EvictionIsUnobservable(c, start, g);
      var s, t := Run(c, State(map[], start), g).0, Keep(c, State(map[], start), g).0;
      if g != [] {
        assert calls[|g| - 1].at <= calls[|g|].at;
        TimePasses(c, s, t, Last(g).at, call.at);
      }
      EvictionKeepsSimulation(c, s, t, call.at);
      TakeKeepsSimulation(c, Evict(c, s, call.at), t, call.key, call.at);
    }
  }

  /** The limiter as it is, eviction included, is a sliding window when idle buckets refill in time. */
  lemma LimiterIsSlidingWindow(c: Config, start: int, calls: seq<Call>, call: Call)
    requires RefillsInTime(c) && Ordered(calls + [call])
    ensures var (t, oks) := Run(c, State(map[], start), calls);
            Step(c, t, call.key, call.at).1 <==> WithinWindow(c, HistoryOf(calls, oks, call.key), call.at)
  {
    KeepIsSlidingWindow(c, start, calls, call);
    var all := calls + [call];
    InitAppend(calls, call);
    forall i, j | 0 <= i < j < |calls| ensures calls[i].at <= calls[j].at {
      assert all[i].at <= all[j].at;
    }
    EvictionIsUnobservable(c, start, calls);
    EvictionIsUnobservable(c, start, all);
    var r, k := Run(c, State(map[], start), calls), Keep(c, State(map[], start), calls);
    InitAppend(r.1, Step(c, r.0, call.key, call.at).1);
    InitAppend(k.1, Take(c, k.0, call.key, call.at).1);
  }

  // ---- Idle buckets do not stay. ----

  /** The last cleanup left no bucket that was older than the time-to-live, and none is from the future. */
  predicate Fresh(c: Config, s: State, now: int) {
    s.lastCleanup <= now && forall k :: k in s.levels ==> s.lastCleanup - c.ttl <= s.levels[k].last <= now
  }

  lemma StepIsFresh(c: Config, s: State, key: string, now: int)
    requires c.ttl > 0 && Fresh(c, s, now)
    ensures var t := Step(c, s, key, now).0;
            Fresh(c, t, now) && forall k :: k in t.levels ==> now - t.levels[k].last <= c.ttl + c.ttl / 2
  {
    hide Refilled;
  }

  /** After every call, each bucket that is kept was used within the last one and a half times the time-to-live. */
  lemma {:induction false} IdleBucketsGo(c: Config, start: int, calls: seq<Call>)
    requires c.ttl > 0 && calls != [] && start <= calls[0].at && Ordered(calls)
    ensures var (t, now) := (Run(c, State(map[], start), calls).0, Last(calls).at);
            Fresh(c, t, now) && forall k :: k in t.levels ==> now - t.levels[k].last <= c.ttl + c.ttl / 2
  {
    hide Step;
    var g, call := Init(calls), Last(calls);
    if g != [] {
      IdleBucketsGo(c, start, g);
      assert calls[|g| - 1].at <= calls[|g|].at;
    }
    StepIsFresh(c, Run(c, State(map[], start), g).0, call.key, call.at);
  }

  // ---- When buckets refill too slowly, dropping them shows. ----

  /** `n` calls of one key at one time. */
  function Burst(key: string, at: int, n: nat): (calls: seq<Call>)
    ensures |calls| == n && forall i :: 0 <= i < n ==> calls[i] == Call(key, at)
  {
    if n == 0 then [] else Burst(key, at, n - 1) + [Call(key, at)]
  }

  /** Empties a full bucket at time zero, then makes `n` calls one tick after the time-to-live. */
  function TwoBursts(c: Config, key: string, cap: nat, n: nat): (calls: seq<Call>)
    requires c.ttl > 0
    ensures Ordered(calls)
  {
    Burst(key, 0, cap) + Burst(key, c.ttl + 1, n)
  }

  /** One call on a state that holds one bucket, when nothing is dropped. */
  lemma OneMore(c: Config, key: string, tokens: real, at: int, cleaned: int)
    requires c.ttl > 0
    ensures var s := State(map[key := Level(tokens, at)], cleaned);
            && Take(c, s, key, at).0.levels == map[key := Attempted(c, Some(Level(tokens, at)), at).0]
            && Evict(c, s, at).levels == s.levels && (cleaned == at ==> Evict(c, s, at) == s)
    ensures 0.0 <= tokens <= c.capacity ==>
              Attempted(c, Some(Level(tokens, at)), at) ==
              if tokens < 1.0 then (Level(tokens, at), false) else (Level(tokens - 1.0, at), true)
  {
    EarnedAdds(c, 0, 0);
  }

  /** The first burst spends `n` tokens of one bucket, dropped buckets or not. */
  lemma {:induction false} FirstBurst(c: Config, key: string, n: nat)
    requires 1 <= n && n as real <= c.capacity && c.ttl > 0
    ensures var one := State(map[key := Level(c.capacity - n as real, 0)], 0);
            Run(c, State(map[], 0), Burst(key, 0, n)).0 == one && Keep(c, State(map[], 0), Burst(key, 0, n)).0 == one
  {
    var g := Burst(key, 0, n - 1);
    InitAppend(g, Call(key, 0));
    if n == 1 {
      assert g == [] && Evict(c, State(map[], 0), 0) == State(map[], 0);
    } else {
      FirstBurst(c, key, n - 1);
      OneMore(c, key, c.capacity - (n - 1) as real, 0, 0);
    }
  }

  lemma TwoBurstsStep(c: Config, key: string, cap: nat, n: nat)
    requires c.ttl > 0 && n > 0
    ensures var all, g := TwoBursts(c, key, cap, n), TwoBursts(c, key, cap, n - 1);
            all != [] && Init(all) == g && Last(all) == Call(key, c.ttl + 1)
  {
    assert TwoBursts(c, key, cap, n) == TwoBursts(c, key, cap, n - 1) + [Call(key, c.ttl + 1)];
  }

  lemma OneBurst(c: Config, key: string, cap: nat)
    requires c.ttl > 0
    ensures TwoBursts(c, key, cap, 0) == Burst(key, 0, cap)
  {
  }

  /** In the limiter the second burst meets a new bucket. */
  lemma {:induction false} NewBucketServes(c: Config, key: string, cap: nat, n: nat)
    requires 1 <= cap && cap as real <= c.capacity && c.ttl > 0 && 1 <= n <= cap
    ensures var (t, oks) := Run(c, State(map[], 0), TwoBursts(c, key, cap, n));
            t == State(map[key := Level(c.capacity - n as real, c.ttl + 1)], c.ttl + 1) && Last(oks)
  {
    hide Evict, Earned, TwoBursts, Attempted;
    var now := c.ttl + 1;
    TwoBurstsStep(c, key, cap, n);
    var (s, oks) := Run(c, State(map[], 0), TwoBursts(c, key, cap, n - 1));
    InitAppend(oks, Step(c, s, key, now).1);
    if n == 1 {
      OneBurst(c, key, cap);
      FirstBurst(c, key, cap);
      FirstCallAfterDrop(c, key, s);
    } else {
      NewBucketServes(c, key, cap, n - 1);
      OneMore(c, key, c.capacity - (n - 1) as real, now, now);
    }
  }

  lemma FirstCallAfterDrop(c: Config, key: string, s: State)
    requires c.ttl > 0 && s.lastCleanup == 0 && s.levels.Keys == {key} && s.levels[key].last == 0
    ensures Step(c, s, key, c.ttl + 1) == (State(map[key := Level(c.capacity - 1.0, c.ttl + 1)], c.ttl + 1), true)
  {
    var e := Evict(c, s, c.ttl + 1);
    assert e.levels == map[];
    assert e == State(map[], c.ttl + 1);
  }

  /** A bucket that is kept has only what it earned since the first burst. */
  function EarnedSince(c: Config, cap: nat): real {
    c.capacity - cap as real + Earned(c, c.ttl + 1)
  }

  lemma {:induction false} OldBucketServes(c: Config, key: string, cap: nat, n: nat)
    requires 1 <= cap && cap as real <= c.capacity && c.ttl > 0 && c.rate >= 0.0
    requires n >= 1 && 0.0 <= EarnedSince(c, cap) <= c.capacity && (n - 1) as real <= EarnedSince(c, cap)
    ensures var (t, oks) := Keep(c, State(map[], 0), TwoBursts(c, key, cap, n));
            && (Last(oks) <==> n as real <= EarnedSince(c, cap))
            && (Last(oks) ==> t == State(map[key := Level(EarnedSince(c, cap) - n as real, c.ttl + 1)], 0))
  {
    hide Evict, Earned, TwoBursts, Attempted;
    var now := c.ttl + 1;
    TwoBurstsStep(c, key, cap, n);
    var (s, oks) := Keep(c, State(map[], 0), TwoBursts(c, key, cap, n - 1));
    InitAppend(oks, Take(c, s, key, now).1);
    if n == 1 {
      OneBurst(c, key, cap);
      FirstBurst(c, key, cap);
      FirstCallOnKept(c, key, cap);
    } else {
      OldBucketServes(c, key, cap, n - 1);
      OneMore(c, key, EarnedSince(c, cap) - (n - 1) as real, now, 0);
    }
  }

  lemma FirstCallOnKept(c: Config, key: string, cap: nat)
    requires 0.0 <= EarnedSince(c, cap) <= c.capacity
    ensures var earned, now := EarnedSince(c, cap), c.ttl + 1;
            Take(c, State(map[key := Level(c.capacity - cap as real, 0)], 0), key, now) ==
            if earned < 1.0 then (State(map[key := Level(earned, now)], 0), false)
            else (State(map[key := Level(earned - 1.0, now)], 0), true)
  {
    var kept, now := Level(c.capacity - cap as real, 0), c.ttl + 1;
    assert Refilled(c, kept, now) == EarnedSince(c, cap);
    var l := Attempted(c, Some(kept), now).0;
    assert map[key := kept][key := l] == map[key := l];
  }

  /** A caller who empties a bucket, waits until it is dropped and calls again gets more than the bucket earned. */
  lemma SlowRefillShows(c: Config, key: string, cap: nat) returns (n: nat)
    requires 1 <= cap && cap as real <= c.capacity && c.ttl > 0 && c.rate >= 0.0
    requires EarnedSince(c, cap) < cap as real
    ensures var calls := TwoBursts(c, key, cap, n);
            calls != [] && Last(Run(c, State(map[], 0), calls).1) && !Last(Keep(c, State(map[], 0), calls).1)
  {
    EarnedAdds(c, 0, 0);
    EarnedGrows(c, 0, c.ttl + 1);
    n := EarnedSince(c, cap).Floor + 1;
    NewBucketServes(c, key, cap, n);
    OldBucketServes(c, key, cap, n);
  }

  /** For a whole capacity, dropping idle buckets is unobservable exactly when a bucket is full again by then. */
  lemma EvictionExactly(c: Config, cap: nat)
    requires c.capacity == cap as real && cap >= 1 && c.ttl > 0 && c.rate >= 0.0
    ensures (forall start, calls :: Ordered(calls) ==>
               Run(c, State(map[], start), calls).1 == Keep(c, State(map[], start), calls).1)
            <==> c.rate * ((c.ttl + 1) as real / 1_000_000_000.0) >= c.capacity
  {
    assert c.rate * ((c.ttl + 1) as real / 1_000_000_000.0) == Earned(c, c.ttl + 1);
    if RefillsInTime(c) {
      forall start, calls | Ordered(calls)
        ensures Run(c, State(map[], start), calls).1 == Keep(c, State(map[], start), calls).1
      {
        EvictionIsUnobservable(c, start, calls);
      }
    } else {
      var n := SlowRefillShows(c, "", cap);
      assert Ordered(TwoBursts(c, "", cap, n));
    }
  }
}
