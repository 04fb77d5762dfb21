/** Per-key token buckets, created on first use and evicted when idle and full. */
module RateLimit {
  import opened Common

  type Id = string

  datatype Bucket = Bucket(tokens: real, last: real) // `last` in seconds

  type Buckets = map<Id, Bucket>

  datatype Limits = Limits(rate: real, burst: real)

  predicate Positive(c: Limits) { c.rate > 0.0 && c.burst > 0.0 }

  function Min(a: real, b: real): real { if a <= b then a else b }

  /** The tokens that accrue over a time. */
  function Gain(rate: real, elapsed: real): real { elapsed * rate }

  // ---- the operations as functions ----

  function Refilled(c: Limits, b: Bucket, now: real): Bucket {
    if now - b.last > 0.0 then Bucket(Min(c.burst, b.tokens + Gain(c.rate, now - b.last)), now) else b
  }

  function Charged(c: Limits, bs: Buckets, key: Id, now: real): (Buckets, bool) {
    var b := if key in bs then Refilled(c, bs[key], now) else Bucket(c.burst, now);
    if b.tokens >= 1.0 then (bs[key := b.(tokens := b.tokens - 1.0)], true) else (bs[key := b], false)
  }

  predicate Evicted(c: Limits, b: Bucket, idle: real, now: real) {
    b.last < now - idle && Min(c.burst, b.tokens + Gain(c.rate, now - b.last)) >= c.burst
  }

  function Swept(c: Limits, bs: Buckets, idle: real, now: real): Buckets {
    map key | key in bs && !Evicted(c, bs[key], idle, now) :: bs[key]
  }

  class Limiter {
    const limits: Limits
    var buckets: Buckets

    constructor (rate: real, burst: real)
      requires rate > 0.0 && burst > 0.0
      ensures limits == Limits(rate, burst) && buckets == map[]
    {
      limits, buckets := Limits(rate, burst), map[];
    }

    method Allow(key: Id, now: real) returns (ok: bool)
      modifies this
      ensures (buckets, ok) == Charged(limits, old(buckets), key, now)
    {
      hide Gain;
      if key !in buckets {
        buckets := buckets[key := Bucket(limits.burst, now)];
      } else {
        var elapsed := now - buckets[key].last;
        if elapsed > 0.0 {
          buckets := buckets[key := Bucket(Min(limits.burst, buckets[key].tokens + Gain(limits.rate, elapsed)), now)];
        }
      }
      ok := buckets[key].tokens >= 1.0;
      if ok { buckets := buckets[key := buckets[key].(tokens := buckets[key].tokens - 1.0)]; }
      assert buckets == Charged(limits, old(buckets), key, now).0;
    }

    method Sweep(idle: real, now: real) returns (removed: nat)
      modifies this
      ensures buckets == Swept(limits, old(buckets), idle, now)
      ensures removed == |old(buckets)| - |buckets|
    {
      hide Evicted;
      var cutoff := now - idle;
      var todo := buckets.Keys;
      removed := 0;
      while todo != {}
        invariant todo <= buckets.Keys <= old(buckets).Keys
        invariant forall k :: k in buckets ==> buckets[k] == old(buckets)[k]
        invariant forall k ::
                    k in old(buckets) && k !in todo ==> (k in buckets <==> !Evicted(limits, old(buckets)[k], idle, now))
        invariant removed == |old(buckets)| - |buckets|
        decreases |todo|
      {
        var k := AnyOf(todo);
        todo := todo - {k};
        var evict := Evict(buckets[k], cutoff, idle, now);
        if evict {
          RemoveOne(buckets, k);
          buckets := buckets - {k};
          removed := removed + 1;
        }
      }
    }

    /** The tests Sweep makes of one bucket. */
    method Evict(b: Bucket, cutoff: real, idle: real, now: real) returns (evict: bool)
      requires cutoff == now - idle
      ensures evict == Evicted(limits, b, idle, now)
    {
      if !(b.last < cutoff) { return false; }
      var eff := Min(limits.burst, b.tokens + Gain(limits.rate, now - b.last));
      evict := eff >= limits.burst;
    }
  }

  /** Which buckets a sweep removes: those last used before now - idle that have refilled to the burst. */
  lemma SweptIff(c: Limits, bs: Buckets, idle: real, now: real, key: Id)
    ensures key in Swept(c, bs, idle, now)
            <==> && key in bs
                 && (bs[key].last >= now - idle || bs[key].tokens + c.rate * (now - bs[key].last) < c.burst)
    ensures key in Swept(c, bs, idle, now) ==> Swept(c, bs, idle, now)[key] == bs[key]
  {
    if key in bs { GainIs(c.rate, now - bs[key].last); }
    hide Gain;
  }

  lemma GainIs(rate: real, elapsed: real)
    ensures Gain(rate, elapsed) == rate * elapsed
  {}

  lemma RemoveOne(bs: Buckets, k: Id)
    requires k in bs
    ensures |bs - {k}| == |bs| - 1
  {
    assert (bs - {k}).Keys == bs.Keys - {k};
    assert |bs.Keys - {k}| == |bs.Keys| - 1;
    assert |bs| == |bs.Keys| && |bs - {k}| == |(bs - {k}).Keys|;
  }

  // ---- the level of a key ----

  /** The tokens a key could spend at time t; a key without a bucket has a full burst. */
  function Level(c: Limits, bs: Buckets, key: Id, t: real): real {
    if key in bs then Min(c.burst, bs[key].tokens + Gain(c.rate, t - bs[key].last)) else c.burst
  }

  ghost predicate Sane(c: Limits, bs: Buckets, clock: real) {
    forall key :: key in bs ==> bs[key].last <= clock && 0.0 <= bs[key].tokens <= c.burst
  }

  lemma GainAdds(rate: real, a: real, b: real)
    ensures Gain(rate, a + b) == Gain(rate, a) + Gain(rate, b)
  {}

  lemma GainRises(rate: real, a: real)
    requires rate > 0.0 && a >= 0.0
    ensures Gain(rate, a) >= 0.0 && Gain(rate, 0.0) == 0.0
  {}

  lemma LevelRange(c: Limits, bs: Buckets, key: Id, t: real)
    requires Positive(c) && Sane(c, bs, t)
    ensures 0.0 <= Level(c, bs, key, t) <= c.burst
  {
    hide Gain;
    if key in bs { GainRises(c.rate, t - bs[key].last); }
  }

  /** A level rises at the refill rate up to the burst, whatever the bucket behind it. */
  lemma LevelGrows(c: Limits, bs: Buckets, key: Id, t: real, u: real)
    requires Positive(c) && Sane(c, bs, t) && t <= u
    ensures Level(c, bs, key, u) == Min(c.burst, Level(c, bs, key, t) + Gain(c.rate, u - t))
  {
    hide Gain;
    GainRises(c.rate, u - t);
    if key in bs {
      GainAdds(c.rate, t - bs[key].last, u - t);
      assert (t - bs[key].last) + (u - t) == u - bs[key].last;
    }
  }

  /** A request is admitted exactly when its key's level is at least one; it lowers that level by
      one and no other. */
  lemma RequestLevels(c: Limits, bs: Buckets, key: Id, now: real, other: Id)
    requires Positive(c) && Sane(c, bs, now)
    ensures var (after, ok) := Charged(c, bs, key, now);
            && ok == (Level(c, bs, key, now) >= 1.0)
            && Sane(c, after, now)
            && Level(c, after, other, now) == Level(c, bs, other, now) - (if ok && other == key then 1.0 else 0.0)
  {
    hide Gain;
    LevelRange(c, bs, key, now);
    GainRises(c.rate, 0.0);
  }

  /** Sweeping moves no level. */
  lemma SweepLevels(c: Limits, bs: Buckets, idle: real, now: real, key: Id)
    requires Positive(c) && Sane(c, bs, now)
    ensures Sane(c, Swept(c, bs, idle, now), now)
    ensures Level(c, Swept(c, bs, idle, now), key, now) == Level(c, bs, key, now)
  {
    hide Gain;
  }

  // ---- runs ----

  datatype Event = Request(now: real, key: Id) | Sweep(now: real, idle: real)

  function Do(c: Limits, bs: Buckets, ev: Event): Buckets {
    match ev
    case Request(now, key) => Charged(c, bs, key, now).0
    case Sweep(now, idle) => Swept(c, bs, idle, now)
  }

  function Run(c: Limits, evs: seq<Event>): Buckets
    decreases |evs|
  {
    if evs == [] then map[] else Do(c, Run(c, evs[..|evs| - 1]), evs[|evs| - 1])
  }

  function Answers(c: Limits, evs: seq<Event>): seq<bool>
    decreases |evs|
  {
    if evs == [] then []
    else
      var init, last := evs[..|evs| - 1], evs[|evs| - 1];
      if last.Sweep? then Answers(c, init) else Answers(c, init) + [Charged(c, Run(c, init), last.key, last.now).1]
  }

  function Requests(evs: seq<Event>): seq<Event>
    decreases |evs|
  {
    if evs == [] then []
    else
      var init, last := evs[..|evs| - 1], evs[|evs| - 1];
      if last.Sweep? then Requests(init) else Requests(init) + [last]
  }

  ghost predicate Ordered(evs: seq<Event>) {
    forall i, j :: 0 <= i <= j < |evs| ==> evs[i].now <= evs[j].now
  }

  lemma {:induction false} RunSane(c: Limits, evs: seq<Event>, clock: real)
    requires Positive(c) && Ordered(evs) && (evs != [] ==> evs[|evs| - 1].now <= clock)
    ensures Sane(c, Run(c, evs), clock)
    decreases |evs|
  {
    hide Charged, Swept;
    if evs != [] {
      var init, last := evs[..|evs| - 1], evs[|evs| - 1];
      RunSane(c, init, last.now);
      match last
      case Request(now, key) => RequestLevels(c, Run(c, init), key, now, key);
      case Sweep(now, idle) => SweepLevels(c, Run(c, init), idle, now, "");
    }
  }

  ghost predicate SameLevels(c: Limits, a: Buckets, b: Buckets, t: real) {
    forall key :: Level(c, a, key, t) == Level(c, b, key, t)
  }

  lemma LevelsStaySame(c: Limits, a: Buckets, b: Buckets, t: real, u: real)
    requires Positive(c) && Sane(c, a, t) && Sane(c, b, t) && t <= u && SameLevels(c, a, b, t)
    ensures SameLevels(c, a, b, u)
  {
    hide Level;
    forall key ensures Level(c, a, key, u) == Level(c, b, key, u) {
      LevelGrows(c, a, key, t, u);
      LevelGrows(c, b, key, t, u);
    }
  }

  lemma RequestKeepsSame(c: Limits, a: Buckets, b: Buckets, key: Id, now: real)
    requires Positive(c) && Sane(c, a, now) && Sane(c, b, now) && SameLevels(c, a, b, now)
    ensures Charged(c, a, key, now).1 == Charged(c, b, key, now).1
    ensures SameLevels(c, Charged(c, a, key, now).0, Charged(c, b, key, now).0, now)
  {
    hide Level, Charged;
    RequestLevels(c, a, key, now, key);
    RequestLevels(c, b, key, now, key);
    forall other
      ensures Level(c, Charged(c, a, key, now).0, other, now) == Level(c, Charged(c, b, key, now).0, other, now)
    {
      RequestLevels(c, a, key, now, other);
      RequestLevels(c, b, key, now, other);
    }
  }

  lemma SweepKeepsSame(c: Limits, a: Buckets, b: Buckets, idle: real, now: real)
    requires Positive(c) && Sane(c, a, now) && Sane(c, b, now) && SameLevels(c, a, b, now)
    ensures SameLevels(c, Swept(c, a, idle, now), b, now)
  {
    hide Level, Swept;
    forall key ensures Level(c, Swept(c, a, idle, now), key, now) == Level(c, b, key, now) {
      SweepLevels(c, a, idle, now, key);
    }
  }

  lemma {:induction false} RequestsOrdered(evs: seq<Event>, clock: real)
    requires Ordered(evs) && (evs != [] ==> evs[|evs| - 1].now <= clock)
    ensures Ordered(Requests(evs)) && forall e :: e in Requests(evs) ==> e.now <= clock
    decreases |evs|
  {
    if evs != [] { RequestsOrdered(evs[..|evs| - 1], evs[|evs| - 1].now); }
  }

  /** Sweeps anywhere in a run, with any idle time, change no answer: the limiter answers as one that
      was never swept. */
  lemma {:induction false} SweepsAreInvisible(c: Limits, evs: seq<Event>, clock: real)
    requires Positive(c) && Ordered(evs) && (evs != [] ==> evs[|evs| - 1].now <= clock)
    ensures Answers(c, evs) == Answers(c, Requests(evs))
    ensures SameLevels(c, Run(c, evs), Run(c, Requests(evs)), clock)
    decreases |evs|
  {
    hide Charged, Swept, Level, SameLevels, Sane;
    if evs == [] {
      EmptySame(c, clock);
    } else {
      var init, last := evs[..|evs| - 1], evs[|evs| - 1];
      var now := last.now;
      SweepsAreInvisible(c, init, now);
      var a, b := Run(c, init), Run(c, Requests(init));
      RunSane(c, init, now);
      RequestsOrdered(init, now);
      RunSane(c, Requests(init), now);
      RunSane(c, evs, now);
      RequestsOrdered(evs, now);
      RunSane(c, Requests(evs), now);
      if last.Sweep? {
        SweepKeepsSame(c, a, b, last.idle, now);
      } else {
        RequestKeepsSame(c, a, b, last.key, now);
        assert Requests(evs)[..|Requests(evs)| - 1] == Requests(init);
      }
      LevelsStaySame(c, Run(c, evs), Run(c, Requests(evs)), now, clock);
    }
  }

  lemma EmptySame(c: Limits, clock: real)
    ensures SameLevels(c, map[], map[], clock)
  {}

  /** How many requests for a key were admitted among events i to j. */
  function Admitted(c: Limits, evs: seq<Event>, i: nat, j: nat, key: Id): nat
    requires i <= j <= |evs|
    decreases j
  {
    if i == j then 0
    else
      var e := evs[j - 1];
      Admitted(c, evs, i, j - 1, key)
      + (if e.Request? && e.key == key && Charged(c, Run(c, evs[..j - 1]), key, e.now).1 then 1 else 0)
  }

  /** In any window of any run, sweeps included, a key is admitted at most burst + rate * length times. */
  lemma {:induction false} WindowBound(c: Limits, evs: seq<Event>, i: nat, j: nat, key: Id)
    requires Positive(c) && Ordered(evs) && i < j <= |evs|
    ensures Admitted(c, evs, i, j, key) as real + Level(c, Run(c, evs[..j]), key, evs[j - 1].now)
            <= c.burst + Gain(c.rate, evs[j - 1].now - evs[i].now)
    ensures Admitted(c, evs, i, j, key) as real <= c.burst + Gain(c.rate, evs[j - 1].now - evs[i].now)
    decreases j
  {
    hide Charged, Swept, Level, Gain, Sane;
    var before, e := Run(c, evs[..j - 1]), evs[j - 1];
    assert evs[..j][..j - 1] == evs[..j - 1];
    RunSane(c, evs[..j - 1], e.now);
    RunSane(c, evs[..j], e.now);
    LevelRange(c, Run(c, evs[..j]), key, e.now);
    if i < j - 1 {
      WindowBound(c, evs, i, j - 1, key);
      var t := evs[j - 2].now;
      RunSane(c, evs[..j - 1], t);
      LevelGrows(c, before, key, t, e.now);
      GainAdds(c.rate, t - evs[i].now, e.now - t);
      assert (t - evs[i].now) + (e.now - t) == e.now - evs[i].now;
    } else {
      LevelRange(c, before, key, e.now);
      GainRises(c.rate, 0.0);
    }
    match e
    case Request(now, k) => RequestLevels(c, before, k, now, key);
    case Sweep(now, idle) => SweepLevels(c, before, idle, now, key);
  }

  /** The bound in tokens and seconds. */
  lemma AdmissionBound(c: Limits, evs: seq<Event>, i: nat, j: nat, key: Id)
    requires Positive(c) && Ordered(evs) && i < j <= |evs|
    ensures Admitted(c, evs, i, j, key) as real <= c.burst + c.rate * (evs[j - 1].now - evs[i].now)
  {
    hide Admitted, Level, Run, Gain, Ordered;
    WindowBound(c, evs, i, j, key);
    GainIs(c.rate, evs[j - 1].now - evs[i].now);
  }

  /** Whoever waits is served: a key left alone for some seconds can spend rate more for each, up to the
      burst, and is admitted once that makes at least one. A new key starts with the burst. */
  lemma WaitingRefills(c: Limits, bs: Buckets, key: Id, now: real, wait: real)
    requires Positive(c) && Sane(c, bs, now) && wait >= 0.0
    ensures Level(c, bs, key, now + wait) == Min(c.burst, Level(c, bs, key, now) + c.rate * wait)
    ensures c.burst >= 1.0 && Level(c, bs, key, now) + c.rate * wait >= 1.0 ==> Charged(c, bs, key, now + wait).1
  {
    SaneLater(c, bs, now, now + wait);
    hide Level, Charged, Gain, Sane;
    LevelGrows(c, bs, key, now, now + wait);
    GainIs(c.rate, wait);
    assert now + wait - now == wait;
    RequestLevels(c, bs, key, now + wait, key);
  }

  lemma SaneLater(c: Limits, bs: Buckets, t: real, u: real)
    requires Sane(c, bs, t) && t <= u
    ensures Sane(c, bs, u)
  {}

  lemma NewKeyIsFull(c: Limits, bs: Buckets, key: Id, now: real)
    requires key !in bs
    ensures Charged(c, bs, key, now).1 <==> c.burst >= 1.0
    ensures Level(c, bs, key, now) == c.burst
  {}
}
