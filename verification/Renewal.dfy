/** When a holder whose renewals all fail gives the lock up, on its own clock.

    Times count from the start of the last successful statement (lastOK), so the lease in the database
    runs for at least `ttl`. `offset` is how long after lastOK the ticker's period began: the time the
    acquiring transaction took, or less than zero if the last renewal started late in its period. The k-th
    attempt starts at offset + k * interval and fails `delays[k - 1]` later, at the latest when its own
    timeout of one interval ends it. */
module Renewal {
  import opened Common

  ghost predicate Failures(interval: nat, delays: seq<nat>) {
    forall i :: 0 <= i < |delays| ==> delays[i] <= interval
  }

  /** The end of the first failed attempt, from the k-th on, that is past the deadline. */
  function LostFrom(offset: int, interval: nat, ttl: nat, delays: seq<nat>, k: nat): Option<int>
    decreases |delays| - k
  {
    if k >= |delays| then None
    else
      var end := offset + (k + 1) * interval + delays[k];
      if end >= ttl - interval then Some(end) else LostFrom(offset, interval, ttl, delays, k + 1)
  }

  function LostAt(offset: int, interval: nat, ttl: nat, delays: seq<nat>): Option<int> {
    LostFrom(offset, interval, ttl, delays, 0)
  }

  /** renew, over the attempts after the last success. */
  method Renew(offset: int, interval: nat, ttl: nat, delays: seq<nat>) returns (lost: Option<int>)
    ensures lost == LostAt(offset, interval, ttl, delays)
  {
    var deadline := ttl - interval;
    var tick := offset;
    for k := 0 to |delays|
      invariant tick == offset + k * interval
      invariant LostAt(offset, interval, ttl, delays) == LostFrom(offset, interval, ttl, delays, k)
    {
      tick := tick + interval;
      var now := tick + delays[k];
      if now >= deadline { return Some(now); }
    }
    lost := None;
  }

  /** Attempts go on until one starts past the deadline. */
  predicate Enough(offset: int, interval: nat, ttl: nat, delays: seq<nat>) {
    delays != [] && offset + |delays| * interval >= ttl - interval
  }

  /** In time: given up no later than the lease runs out. */
  ghost predicate InTime(offset: int, interval: nat, ttl: nat, delays: seq<nat>) {
    var lost := LostAt(offset, interval, ttl, delays);
    lost.Some? && lost.value <= ttl
  }

  lemma Multiples(a: nat, b: nat, interval: nat)
    requires a <= b
    ensures a * interval <= b * interval
  {}

  /** At the latest, the n-th attempt gives up if it starts past the deadline. */
  lemma {:induction false} LostBy(offset: int, interval: nat, ttl: nat, delays: seq<nat>, k: nat, n: nat)
    requires Failures(interval, delays) && k < n <= |delays| && offset + n * interval >= ttl - interval
    ensures var lost := LostFrom(offset, interval, ttl, delays, k);
            lost.Some? && lost.value <= offset + n * interval + interval
    decreases n - k
  {
    Multiples(k + 1, n, interval);
    if k + 1 < n { LostBy(offset, interval, ttl, delays, k + 1, n); }
  }

  /** The first attempt that starts past the deadline, if at least two come before the lease ends. */
  lemma FirstPast(offset: int, interval: nat, ttl: nat) returns (n: nat)
    requires interval > 0 && offset + 2 * interval <= ttl
    ensures n >= 1 && ttl - interval <= offset + n * interval < ttl
    ensures forall i: nat :: i < n ==> offset + i * interval < ttl - interval
    ensures (ttl - offset) % interval == 0 <==> offset + n * interval == ttl - interval
  {
    var t := ttl - offset;
    var q, r := t / interval, t % interval;
    assert t == q * interval + r;
    assert q >= 2 by {
      if q <= 1 { Multiples(if q < 0 then 0 else q, 1, interval); }
    }
    assert (q - 1) * interval == q * interval - interval;
    n := if r == 0 then q - 1 else q;
    forall i: nat | i < n ensures offset + i * interval < ttl - interval {
      Multiples(i, n - 1, interval);
      assert (n - 1) * interval == n * interval - interval;
    }
  }

  lemma EnoughReaches(offset: int, interval: nat, ttl: nat, delays: seq<nat>, n: nat)
    requires Enough(offset, interval, ttl, delays) && n >= 1
    requires forall i: nat :: i < n ==> offset + i * interval < ttl - interval
    ensures n <= |delays|
  {}

  /** However its attempts fail, a holder gives up less than an interval after its lease ran out, or
      within two intervals of the ticker's start if that came so late. */
  lemma Lateness(offset: int, interval: nat, ttl: nat, delays: seq<nat>)
    requires interval > 0 && Failures(interval, delays) && Enough(offset, interval, ttl, delays)
    ensures var lost := LostAt(offset, interval, ttl, delays);
            lost.Some? && (if offset + 2 * interval <= ttl then lost.value < ttl + interval
                           else lost.value <= offset + 2 * interval)
  {
    if offset + 2 * interval <= ttl {
      var n := FirstPast(offset, interval, ttl);
      EnoughReaches(offset, interval, ttl, delays, n);
      LostBy(offset, interval, ttl, delays, 0, n);
    } else {
      LostBy(offset, interval, ttl, delays, 0, 1);
    }
  }

  /** All attempts but the last fail at once, the last one only at its timeout. */
  function Unlucky(interval: nat, n: nat): seq<nat> { seq(n, (i: nat) => if i == n - 1 then interval else 0) }

  lemma {:induction false} UnluckyLost(offset: int, interval: nat, ttl: nat, n: nat, k: nat)
    requires k < n && offset + n * interval >= ttl - interval
    requires forall i: nat :: 1 <= i < n ==> offset + i * interval < ttl - interval
    ensures LostFrom(offset, interval, ttl, Unlucky(interval, n), k) == Some(offset + n * interval + interval)
    decreases n - k
  {
    if k + 1 < n {
      assert offset + (k + 1) * interval < ttl - interval;
      UnluckyLost(offset, interval, ttl, n, k + 1);
    }
  }

  /** The documented promise, that the holder stops before its lease can run out, holds for every way
      the attempts can fail exactly when two intervals fit between the ticker's start and the end of
      the lease and the interval divides the time between them. */
  lemma InTimeIff(offset: int, interval: nat, ttl: nat)
    requires interval > 0
    ensures (forall delays ::
               Failures(interval, delays) && Enough(offset, interval, ttl, delays)
               ==> InTime(offset, interval, ttl, delays))
            <==> offset + 2 * interval <= ttl && (ttl - offset) % interval == 0
  {
    if offset + 2 * interval <= ttl && (ttl - offset) % interval == 0 {
      forall delays | Failures(interval, delays) && Enough(offset, interval, ttl, delays)
        ensures InTime(offset, interval, ttl, delays)
      {
        var n := FirstPast(offset, interval, ttl);
        EnoughReaches(offset, interval, ttl, delays, n);
        LostBy(offset, interval, ttl, delays, 0, n);
      }
    } else {
      LateExample(offset, interval, ttl);
    }
  }

  lemma LateExample(offset: int, interval: nat, ttl: nat)
    requires interval > 0 && !(offset + 2 * interval <= ttl && (ttl - offset) % interval == 0)
    ensures exists delays :: Failures(interval, delays) && Enough(offset, interval, ttl, delays)
                             && !InTime(offset, interval, ttl, delays)
  {
    var n: nat := 1;
    if offset + 2 * interval <= ttl { n := FirstPast(offset, interval, ttl); }
    UnluckyLost(offset, interval, ttl, n, 0);
    var delays := Unlucky(interval, n);
    assert Failures(interval, delays) && Enough(offset, interval, ttl, delays);
    assert !InTime(offset, interval, ttl, delays);
  }

  const SECOND: nat := 1_000_000_000

  /** The shipped defaults, a 15 s lease renewed every 5 s: an acquisition that took 1 s, an attempt that
      fails at once and one that times out, and the holder gives up at 16 s. */
  lemma DefaultsMiss()
    ensures LostAt(SECOND, 5 * SECOND, 15 * SECOND, [0, 5 * SECOND]) == Some(16 * SECOND)
  {
    assert LostFrom(SECOND, 5 * SECOND, 15 * SECOND, [0, 5 * SECOND], 1) == Some(16 * SECOND);
  }

  /** With the shipped defaults the promise holds exactly when the acquisition took no measurable time or
      exactly 5 s. */
  lemma DefaultsIff(offset: nat)
    ensures (forall delays :: Failures(5 * SECOND, delays) && Enough(offset, 5 * SECOND, 15 * SECOND, delays)
                              ==> InTime(offset, 5 * SECOND, 15 * SECOND, delays))
            <==> offset == 0 || offset == 5 * SECOND
  {
    InTimeIff(offset, 5 * SECOND, 15 * SECOND);
  }

  /** A 10 s lease renewed every third of it, rounded down, misses the promise after a renewal too. */
  lemma TenSecondsMiss()
    ensures exists delays :: var third := 10 * SECOND / 3;
              Failures(third, delays) && Enough(0, third, 10 * SECOND, delays) && !InTime(0, third, 10 * SECOND, delays)
  {
    LateExample(0, 10 * SECOND / 3, 10 * SECOND);
  }

  /** No interval above one nanosecond is in time whatever the acquisition takes: a latency of one
      nanosecond, or none, already misses. */
  lemma NoIntervalIsSafe(interval: nat, ttl: nat)
    requires interval > 1
    ensures exists offset, delays :: 0 <= offset <= 1 && Failures(interval, delays)
              && Enough(offset, interval, ttl, delays) && !InTime(offset, interval, ttl, delays)
  {
    var offset := if ttl % interval == 0 then 1 else 0;
    assert (ttl - offset) % interval != 0 by {
      if offset == 1 {
        var q := ttl / interval;
        assert ttl == q * interval;
        assert ttl - 1 == (q - 1) * interval + (interval - 1);
        Remainder(ttl - 1, interval, q - 1, interval - 1);
      }
    }
    LateExample(offset, interval, ttl);
  }

  lemma Remainder(t: int, interval: nat, q: int, r: nat)
    requires r < interval && t == q * interval + r
    ensures t % interval == r
  {
    var d := t / interval - q;
    assert d * interval == r - t % interval;
  }
}
