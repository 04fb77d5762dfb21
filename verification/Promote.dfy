/** Promotion of non-voters: the leader's evaluations over reported applied indexes. */
module Promote {
  import opened Common

  type Id = string
  type Time = int // nanoseconds

  datatype Server = Server(id: Id, voter: bool)

  datatype Report = Report(index: nat, at: Time)

  type Reports = map<Id, Report>

  /** Threshold, Stabilization and MaxReportAge, defaults filled in. */
  datatype Promotion = Promotion(threshold: nat, stabilization: Time, maxReportAge: Time)

  predicate Filled(p: Promotion) { p.stabilization > 0 }

  /** What one evaluation saw. A missing configuration is one that could not be read. */
  datatype Evaluation = Evaluation(now: Time, leader: bool, config: Option<seq<Server>>, lastIndex: nat,
                                   reports: Reports)

  predicate CaughtUp(p: Promotion, e: Evaluation, id: Id) {
    && id in e.reports
    && e.now - e.reports[id].at <= p.maxReportAge
    && !(e.lastIndex > e.reports[id].index && e.lastIndex - e.reports[id].index > p.threshold)
  }

  predicate Listed(servers: seq<Server>, id: Id) { Server(id, false) in servers }

  predicate Completed(e: Evaluation) { !e.leader || e.config.Some? }

  /** This node was leader and the server a non-voter with a fresh report within the threshold. */
  predicate Qualifies(p: Promotion, e: Evaluation, id: Id) {
    && e.leader && e.config.Some? && Server(id, false) in e.config.value
    && id in e.reports && e.now - e.reports[id].at <= p.maxReportAge
    && e.lastIndex <= e.reports[id].index + p.threshold
  }

  lemma QualifiesIff(p: Promotion, e: Evaluation, id: Id)
    ensures Qualifies(p, e, id) <==> e.leader && e.config.Some? && Listed(e.config.value, id) && CaughtUp(p, e, id)
  {}

  // ---- the evaluation as a function ----

  datatype Round = Round(since: map<Id, Time>, due: seq<Server>)

  function Visit(p: Promotion, e: Evaluation, r: Round, s: Server): Round {
    if s.voter then r
    else if !CaughtUp(p, e, s.id) then r.(since := r.since - {s.id})
    else if s.id !in r.since then r.(since := r.since[s.id := e.now])
    else if e.now - r.since[s.id] < p.stabilization then r
    else Round(r.since - {s.id}, r.due + [s])
  }

  function VisitAll(p: Promotion, e: Evaluation, since: map<Id, Time>, servers: seq<Server>): Round
    decreases |servers|
  {
    if servers == [] then Round(since, [])
    else Visit(p, e, VisitAll(p, e, since, servers[..|servers| - 1]), servers[|servers| - 1])
  }

  function Evaluated(p: Promotion, since: map<Id, Time>, e: Evaluation): Round {
    if !e.leader then Round(map[], [])
    else if e.config.None? then Round(since, [])
    else
      var r := VisitAll(p, e, since, e.config.value);
      r.(since := map id | id in r.since && Listed(e.config.value, id) :: r.since[id])
  }

  /** The state and the servers due after a run of evaluations. */
  function After(p: Promotion, log: seq<Evaluation>): Round
    decreases |log|
  {
    if log == [] then Round(map[], []) else Evaluated(p, After(p, log[..|log| - 1]).since, log[|log| - 1])
  }

  class Promoter {
    const p: Promotion
    var reports: Reports
    var caughtUp: map<Id, Time>
    ghost var log: seq<Evaluation>

    constructor (p: Promotion)
      requires Filled(p)
      ensures this.p == p && reports == map[] && log == [] && Valid()
    {
      this.p, reports, caughtUp, log := p, map[], map[], [];
    }

    ghost predicate Valid()
      reads this
    {
      Filled(p) && caughtUp == After(p, log).since
    }

    method ReportApplied(id: Id, index: nat, now: Time)
      requires Valid()
      modifies `reports
      ensures Valid() && reports == old(reports)[id := Report(index, now)]
    {
      reports := reports[id := Report(index, now)];
    }

    /** promoteOnce: `refused` are the servers AddVoter fails on, and `arrivals[i]` the reports that come in
        before the i-th voter change has been recorded. */
    method PromoteOnce(now: Time, leader: bool, config: Option<seq<Server>>, lastIndex: nat, refused: set<Id>,
                       arrivals: seq<Reports>)
      returns (due: seq<Server>)
      requires Valid()
      modifies this
      ensures Valid()
      ensures log == old(log) + [Evaluation(now, leader, config, lastIndex, old(reports))]
      ensures due == After(p, log).due
      ensures reports == Recorded(old(reports), due, refused, arrivals)
    {
      hide VisitAll, CaughtUp;
      ghost var e := Evaluation(now, leader, config, lastIndex, reports);
      log := log + [e];
      assert log[..|log| - 1] == old(log);
      due := [];
      if !leader {
        caughtUp := map[];
      } else if config.Some? {
        due := Evaluate(now, config.value, lastIndex, e);
      }
      AddVoters(due, refused, arrivals);
    }

    /** What follows an evaluation, outside its lock: an accepted server's report is dropped. */
    method AddVoters(due: seq<Server>, refused: set<Id>, arrivals: seq<Reports>)
      modifies `reports
      ensures reports == Recorded(old(reports), due, refused, arrivals)
    {
      for i := 0 to |due|
        invariant reports == Recorded(old(reports), due[..i], refused, arrivals)
      {
        assert due[..i + 1][..i] == due[..i];
        reports := reports + Arrived(arrivals, i);
        if due[i].id in refused { continue; }
        reports := reports - {due[i].id};
      }
      assert due[..|due|] == due;
    }

    /** The two loops of an evaluation on the leader. */
    method Evaluate(now: Time, servers: seq<Server>, lastIndex: nat, ghost e: Evaluation) returns (due: seq<Server>)
      requires Filled(p) && e == Evaluation(now, true, Some(servers), lastIndex, reports)
      modifies `caughtUp
      ensures Round(caughtUp, due) == Evaluated(p, old(caughtUp), e)
    {
      var seen: set<Id> := {};
      due := [];
      for i := 0 to |servers|
        invariant Round(caughtUp, due) == VisitAll(p, e, old(caughtUp), servers[..i])
        invariant seen == set s | s in servers[..i] && !s.voter :: s.id
      {
        var s := servers[i];
        assert servers[..i + 1][..i] == servers[..i];
        if s.voter { continue; }
        seen := seen + {s.id};
        var isFresh := s.id in reports && now - reports[s.id].at <= p.maxReportAge;
        var index := if s.id in reports then reports[s.id].index else 0;
        var behind := lastIndex > index && lastIndex - index > p.threshold;
        if !isFresh || behind {
          caughtUp := caughtUp - {s.id};
          continue;
        }
        if s.id !in caughtUp {
          caughtUp := caughtUp[s.id := now];
          continue;
        }
        if now - caughtUp[s.id] < p.stabilization { continue; }
        caughtUp := caughtUp - {s.id};
        due := due + [s];
      }
      assert servers[..|servers|] == servers;
      SeenIsListed(servers, seen);
      caughtUp := map id | id in caughtUp && id in seen :: caughtUp[id];
    }
  }

  lemma SeenIsListed(servers: seq<Server>, seen: set<Id>)
    requires seen == set s | s in servers && !s.voter :: s.id
    ensures forall id :: id in seen <==> Listed(servers, id)
  {
    forall id ensures id in seen <==> Listed(servers, id) {
      if Listed(servers, id) { assert Server(id, false).id == id; }
    }
  }

  function Arrived(arrivals: seq<Reports>, i: nat): Reports { if i < |arrivals| then arrivals[i] else map[] }

  /** The reports once the voter changes of the servers due were tried, with those that came in meanwhile. */
  function Recorded(reports: Reports, due: seq<Server>, refused: set<Id>, arrivals: seq<Reports>): Reports
    decreases |due|
  {
    if due == [] then reports
    else
      var n := |due| - 1;
      var before := Recorded(reports, due[..n], refused, arrivals) + Arrived(arrivals, n);
      if due[n].id in refused then before else before - {due[n].id}
  }

  /** Right after its own voter change an accepted server has no report. */
  lemma AcceptedIsDropped(reports: Reports, due: seq<Server>, refused: set<Id>, arrivals: seq<Reports>, i: nat)
    requires i < |due| && due[i].id !in refused
    ensures due[i].id !in Recorded(reports, due[..i + 1], refused, arrivals)
  {
    assert due[..i + 1][..i] == due[..i];
  }

  /** No other server loses its report: it has one exactly when it had one or one came in. */
  lemma {:induction false} OthersKeepReports(reports: Reports, due: seq<Server>, refused: set<Id>,
                                             arrivals: seq<Reports>, id: Id)
    requires forall i :: 0 <= i < |due| ==> due[i].id != id || id in refused
    ensures id in Recorded(reports, due, refused, arrivals)
            <==> id in reports || exists i :: 0 <= i < |due| && id in Arrived(arrivals, i)
    decreases |due|
  {
    if due != [] { OthersKeepReports(reports, due[..|due| - 1], refused, arrivals, id); }
  }

  // ---- what one evaluation does to one server ----

  lemma {:induction false} VisitAllOne(p: Promotion, e: Evaluation, since: map<Id, Time>, servers: seq<Server>, id: Id)
    requires Filled(p)
    ensures var r := VisitAll(p, e, since, servers);
            && (id in r.since ==>
                  (Listed(servers, id) && r.since[id] == e.now) || (id in since && r.since[id] == since[id]))
            && (id in r.since && Listed(servers, id) ==> CaughtUp(p, e, id))
            && (forall s :: s in r.due ==> !s.voter)
            && (Server(id, false) in r.due ==> Listed(servers, id) && CaughtUp(p, e, id)
                                               && id in since && e.now - since[id] >= p.stabilization)
            && (Listed(servers, id) && CaughtUp(p, e, id) ==> id in r.since || Server(id, false) in r.due)
            && (id in since && !Listed(servers, id) ==> id in r.since && r.since[id] == since[id])
            && (id in since && Listed(servers, id) && CaughtUp(p, e, id) && e.now - since[id] >= p.stabilization
                ==> Server(id, false) in r.due)
            && (id in since && CaughtUp(p, e, id) && Server(id, false) !in r.due
               ==> id in r.since && r.since[id] == since[id])
    decreases |servers|
  {
    hide CaughtUp;
    if servers != [] {
      VisitAllOne(p, e, since, servers[..|servers| - 1], id);
      assert servers == servers[..|servers| - 1] + [servers[|servers| - 1]];
    }
  }

  // ---- whole runs ----

  predicate DueAt(p: Promotion, log: seq<Evaluation>, n: nat, id: Id)
    requires n < |log|
  {
    Server(id, false) in After(p, log[..n + 1]).due
  }

  /** Every completed evaluation of a stretch found the server qualified. */
  ghost predicate Steady(p: Promotion, log: seq<Evaluation>, m: nat, n: nat, id: Id) {
    forall k :: m <= k < n && k < |log| && Completed(log[k]) ==> Qualifies(p, log[k], id)
  }

  /** A recorded start is the time of an evaluation that qualified, steadily since. */
  ghost predicate StartedAt(p: Promotion, log: seq<Evaluation>, m: nat, id: Id, t: Time) {
    m < |log| && log[m].now == t && Qualifies(p, log[m], id) && Steady(p, log, m, |log|, id)
  }

  lemma {:induction false} SinceHasStart(p: Promotion, log: seq<Evaluation>, id: Id) returns (m: nat)
    requires Filled(p) && id in After(p, log).since
    ensures StartedAt(p, log, m, id, After(p, log).since[id])
    decreases |log|
  {
    var init, e := log[..|log| - 1], log[|log| - 1];
    if e.config.Some? { VisitAllOne(p, e, After(p, init).since, e.config.value, id); }
    if e.config.Some? && After(p, log).since[id] == e.now && Qualifies(p, e, id) {
      m := |log| - 1;
    } else {
      m := SinceHasStart(p, init, id);
      assert log == init + [e];
    }
  }

  /** A server is due only if some evaluation at least Stabilization earlier, and every completed
      evaluation since, found this node leader and the server a qualified non-voter. */
  lemma DueOnlyIf(p: Promotion, log: seq<Evaluation>, n: nat, id: Id) returns (m: nat)
    requires Filled(p) && n < |log| && DueAt(p, log, n, id)
    ensures m < n && Qualifies(p, log[m], id) && log[n].now - log[m].now >= p.stabilization
    ensures Steady(p, log, m, n + 1, id) && Qualifies(p, log[n], id)
  {
    var run, e := log[..n + 1], log[n];
    assert run[..n] == log[..n];
    if e.config.Some? { VisitAllOne(p, e, After(p, log[..n]).since, e.config.value, id); }
    m := SinceHasStart(p, log[..n], id);
  }

  ghost predicate Monotone(log: seq<Evaluation>) {
    forall i, j :: 0 <= i <= j < |log| ==> log[i].now <= log[j].now
  }

  /** While a server qualifies steadily and is not promoted, its start is kept. */
  lemma {:induction false} StartKept(p: Promotion, log: seq<Evaluation>, m: nat, n: nat, id: Id)
    requires Filled(p) && Monotone(log) && m < n <= |log|
    requires Qualifies(p, log[m], id) && Steady(p, log, m, n, id)
    requires forall k :: m <= k < n ==> !DueAt(p, log, k, id)
    ensures var since := After(p, log[..n]).since; id in since && since[id] <= log[m].now
    decreases n
  {
    var e, init := log[n - 1], After(p, log[..n - 1]).since;
    assert log[..n][..n - 1] == log[..n - 1];
    assert !DueAt(p, log, n - 1, id);
    if m < n - 1 { StartKept(p, log, m, n - 1, id); } else if id in init { StartEarlier(p, log, n - 1, id); }
    if e.config.Some? { VisitAllOne(p, e, init, e.config.value, id); }
  }

  lemma StartEarlier(p: Promotion, log: seq<Evaluation>, n: nat, id: Id)
    requires Filled(p) && Monotone(log) && n < |log| && id in After(p, log[..n]).since
    ensures After(p, log[..n]).since[id] <= log[n].now
  {
    var m := SinceHasStart(p, log[..n], id);
  }

  /** Conversely: qualified at m and at every completed evaluation up to n, and not due in between, a
      server is due at n once Stabilization has passed since m. */
  lemma DueIf(p: Promotion, log: seq<Evaluation>, m: nat, n: nat, id: Id)
    requires Filled(p) && Monotone(log) && m < n < |log|
    requires Qualifies(p, log[m], id) && Steady(p, log, m, n + 1, id) && Completed(log[n])
    requires forall k :: m <= k < n ==> !DueAt(p, log, k, id)
    requires log[n].now - log[m].now >= p.stabilization
    ensures DueAt(p, log, n, id)
  {
    StartKept(p, log, m, n, id);
    assert log[..n + 1][..n] == log[..n];
    VisitAllOne(p, log[n], After(p, log[..n]).since, log[n].config.value, id);
  }
}
