/** What the lock lets happen: the holder writes, renews and releases, and a free or lapsed lock is taken. */
module LeaseProgress {
  import opened Common
  import opened Fencing

  /** From one history to a later one, nobody acquired or released the lock. */
  ghost predicate Undisturbed(h: seq<Fact>, later: seq<Fact>) {
    h <= later && forall i :: |h| <= i < |later| ==> later[i].Renewed? || later[i].Committed?
  }

  /** Replica r holds generation g of the row, and knows so or is about to record it. */
  ghost predicate Holding(s: State, r: Replica, g: nat) {
    && r in s.nodes && g in s.nodes[r].acquired && Matches(s.row, Fence(s.nodes[r].id, g))
    && (s.nodes[r].pending == Some(g) || s.nodes[r].fence == Some(Fence(s.nodes[r].id, g)))
    && (s.nodes[r].pending.Some? ==> s.nodes[r].pending == Some(g))
  }

  /** The fence of r's backend is on the generation it holds. */
  ghost predicate Active(s: State, r: Replica, g: nat) {
    && r in s.nodes && g in s.nodes[r].acquired && Matches(s.row, Fence(s.nodes[r].id, g))
    && s.nodes[r].fence == Some(Fence(s.nodes[r].id, g))
    && (s.nodes[r].pending.Some? ==> s.nodes[r].pending == Some(g))
  }

  lemma GrantedStep(s: State, e: Event, r: Replica, g: nat)
    requires Holding(s, r, g) && Undisturbed(s.history, Step(s, e).history)
    ensures Holding(Step(s, e), r, g)
    ensures Active(s, r, g) || e == Hold(r) ==> Active(Step(s, e), r, g)
  {
    var s' := Step(s, e);
    if s'.history != s.history { assert s'.history[|s.history|] in s'.history; }
  }

  lemma {:induction false} GrantedRun(s: State, es: seq<Event>, r: Replica, g: nat)
    requires Holding(s, r, g) && Undisturbed(s.history, Run(s, es).history)
    ensures Holding(Run(s, es), r, g) && (Active(s, r, g) ==> Active(Run(s, es), r, g))
    decreases |es|
  {
    hide Step, Holding, Active;
    if es != [] {
      var s' := Step(s, es[0]);
      HistoryGrows(s, es[0]);
      RunGrows(s', es[1..]);
      var h, h1, h2 := s.history, s'.history, Run(s, es).history;
      assert forall i :: 0 <= i < |h1| ==> h1[i] == h2[i];
      GrantedStep(s, es[0], r, g);
      GrantedRun(s', es[1..], r, g);
    }
  }

  lemma UndisturbedSplits(h: seq<Fact>, mid: seq<Fact>, later: seq<Fact>)
    requires Undisturbed(h, later) && h <= mid <= later
    ensures Undisturbed(h, mid) && Undisturbed(mid, later)
  {
    assert forall i :: 0 <= i < |mid| ==> mid[i] == later[i];
  }

  // ---- one transaction among others ----

  predicate Names(e: Event, x: TxId) {
    match e
    case WriteBegin(_, t) => t == x
    case WriteCheck(t) => t == x
    case WriteCommit(t) => t == x
    case WritePlain(t) => t == x
    case AcquireUpdate(_, t) => t == x
    case AcquireCommit(t, _) => t == x
    case Rollback(t) => t == x
    case _ => false
  }

  ghost predicate Untouched(es: seq<Event>, x: TxId) { forall i :: 0 <= i < |es| ==> !Names(es[i], x) }

  lemma TxStays(s: State, e: Event, x: TxId)
    requires !Names(e, x) && x in s.txs
    ensures x in Step(s, e).txs && Step(s, e).txs[x] == s.txs[x]
  {}

  lemma {:induction false} TxKept(s: State, es: seq<Event>, x: TxId)
    requires Untouched(es, x) && x in s.txs
    ensures x in Run(s, es).txs && Run(s, es).txs[x] == s.txs[x]
    decreases |es|
  {
    hide Step, Names;
    if es != [] {
      assert !Names(es[0], x);
      TxStays(s, es[0], x);
      assert forall i :: 0 <= i < |es[1..]| ==> es[1..][i] == es[i + 1];
      TxKept(Step(s, es[0]), es[1..], x);
    }
  }

  // ---- acquiring ----

  /** A free or lapsed row that nobody has locked is taken by whoever asks: the next generation, for one
      lease from the database's clock. */
  lemma FreeOrLapsedIsTaken(s: State, r: Replica, x: TxId, acknowledged: bool)
    requires s.row.Some? && (s.row.value.holder == "" || s.row.value.expires < s.clock)
    requires r in s.nodes && x !in s.txs && forall t :: t in s.txs ==> s.txs[t].Writing?
    ensures var s' := Step(Step(s, AcquireUpdate(r, x)), AcquireCommit(x, acknowledged));
            var n, g := s.nodes[r], s.row.value.gen + 1;
            && s'.row == Some(Row(n.id, g, s.clock + n.ttl))
            && s'.history == s.history + [Acquired(r, g, s.clock, s.clock + n.ttl)]
            && s'.txs == s.txs && (acknowledged ==> Holding(s', r, g))
  {
    assert ExclusiveFree(s);
    var s1 := Step(s, AcquireUpdate(r, x));
    assert s1.txs - {x} == s.txs;
  }

  /** A row held by an unexpired lease is not. */
  lemma HeldIsNotTaken(s: State, r: Replica, x: TxId)
    requires s.row.Some? && s.row.value.holder != "" && s.clock <= s.row.value.expires
    ensures Step(s, AcquireUpdate(r, x)) == s
  {}

  // ---- writing ----

  /** A fenced write whose check runs passes it exactly when the row names its holder and generation. */
  lemma CheckPassesIff(s: State, x: TxId)
    requires x in s.txs && s.txs[x].Writing? && s.txs[x].fence.Some? && SharedFree(s)
    ensures x in Step(s, WriteCheck(x)).txs
            <==> && s.row.Some? && s.row.value.holder == s.txs[x].fence.value.holder
                 && s.row.value.gen == s.txs[x].fence.value.gen
  {}

  lemma BeginReadsFence(s: State, r: Replica, g: nat, x: TxId)
    requires Active(s, r, g) && x !in s.txs
    ensures var s' := Step(s, WriteBegin(r, x));
            && Active(s', r, g) && s'.history == s.history
            && x in s'.txs && s'.txs[x] == Writing(r, Some(Fence(s.nodes[r].id, g)))
            && s'.nodes == s.nodes
  {}

  lemma CheckTakesLock(s: State, r: Replica, g: nat, x: TxId)
    requires Active(s, r, g) && SharedFree(s)
    requires x in s.txs && s.txs[x] == Writing(r, Some(Fence(s.nodes[r].id, g)))
    ensures var s' := Step(s, WriteCheck(x));
            && s'.history == s.history && x in s'.txs && s'.txs[x] == Checked(r, Fence(s.nodes[r].id, g))
  {}

  lemma CommitRecords(s: State, r: Replica, f: Fence, x: TxId)
    requires x in s.txs && s.txs[x] == Checked(r, f)
    ensures Step(s, WriteCommit(x)).history == s.history + [Committed(r, f.gen)]
  {}

  /** Nothing changes a replica's holder ID. */
  lemma {:induction false} IdKept(s: State, es: seq<Event>, r: Replica)
    requires r in s.nodes
    ensures r in Run(s, es).nodes && Run(s, es).nodes[r].id == s.nodes[r].id
    decreases |es|
  {
    hide Step;
    if es != [] {
      NodesStay(s, es[0], r);
      IdKept(Step(s, es[0]), es[1..], r);
    }
  }

  /** A write begun while r is active commits under r's generation, whatever else runs between its
      statements, as long as nobody acquires or releases the lock before it commits and the check
      finds no exclusive lock. */
  lemma ActiveCommits(s: State, r: Replica, g: nat, x: TxId, between: seq<Event>, before: seq<Event>)
    requires Active(s, r, g) && x !in s.txs && Untouched(between, x) && Untouched(before, x)
    requires var begun := Run(Step(s, WriteBegin(r, x)), between);
             var locked := Run(Step(begun, WriteCheck(x)), before);
             SharedFree(begun) && Undisturbed(s.history, locked.history)
    ensures var begun := Run(Step(s, WriteBegin(r, x)), between);
            var locked := Run(Step(begun, WriteCheck(x)), before);
            Step(locked, WriteCommit(x)).history == locked.history + [Committed(r, g)]
  {
    hide Step, Active, SharedFree, Untouched;
    var s1 := Step(s, WriteBegin(r, x));
    var begun := Run(s1, between);
    var checked := Step(begun, WriteCheck(x));
    var locked := Run(checked, before);
    BeginReadsFence(s, r, g, x);
    RunGrows(s1, between);
    HistoryGrows(begun, WriteCheck(x));
    RunGrows(checked, before);
    UndisturbedSplits(s.history, begun.history, locked.history);
    ActiveHolds(s1, r, g);
    GrantedRun(s1, between, r, g);
    TxKept(s1, between, x);
    IdKept(s1, between, r);
    CheckTakesLock(begun, r, g, x);
    TxKept(checked, before, x);
    CommitRecords(locked, r, Fence(begun.nodes[r].id, g), x);
  }

  lemma ActiveHolds(s: State, r: Replica, g: nat)
    requires Active(s, r, g)
    ensures Holding(s, r, g) && r in s.nodes
  {}

  /** So a replica whose acquisition was acknowledged and recorded can write: after the acquisition and
      Hold, with anything but an acquisition or release in between, its next write commits under the
      generation acquired. */
  lemma HolderCommits(s: State, r: Replica, g: nat, x: TxId, a: seq<Event>, b: seq<Event>)
    requires Holding(s, r, g)
    requires var active := Run(Step(Run(s, a), Hold(r)), b);
             Undisturbed(s.history, active.history) && x !in active.txs && SharedFree(active)
    ensures var active := Run(Step(Run(s, a), Hold(r)), b);
            var s' := Step(Step(Step(active, WriteBegin(r, x)), WriteCheck(x)), WriteCommit(x));
            s'.history == active.history + [Committed(r, g)]
  {
    hide Step, Holding, Active, SharedFree;
    var s1 := Run(s, a);
    var s2 := Step(s1, Hold(r));
    var active := Run(s2, b);
    RunGrows(s, a);
    HistoryGrows(s1, Hold(r));
    RunGrows(s2, b);
    UndisturbedSplits(s.history, s1.history, active.history);
    UndisturbedSplits(s1.history, s2.history, active.history);
    GrantedRun(s, a, r, g);
    GrantedStep(s1, Hold(r), r, g);
    GrantedRun(s2, b, r, g);
    BeginKeepsSharedFree(active, r, x);
    BeginReadsFence(active, r, g, x);
    var begun := Step(active, WriteBegin(r, x));
    CheckTakesLock(begun, r, g, x);
    CommitRecords(Step(begun, WriteCheck(x)), r, Fence(begun.nodes[r].id, g), x);
  }

  lemma BeginKeepsSharedFree(s: State, r: Replica, x: TxId)
    requires SharedFree(s)
    ensures SharedFree(Step(s, WriteBegin(r, x)))
  {}

  // ---- renewing and releasing ----

  /** The holder's renewal moves the expiry to one lease from the database's clock. */
  lemma RenewalExtends(s: State, r: Replica, g: nat)
    requires Holding(s, r, g) && forall t :: t in s.txs ==> s.txs[t].Writing?
    ensures var s' := Step(s, Renew(r, g)); var expires := s.clock + s.nodes[r].ttl;
            && s'.row == Some(Row(s.nodes[r].id, g, expires))
            && s'.history == s.history + [Renewed(r, g, expires)] && s'.nodes == s.nodes
  {
    assert ExclusiveFree(s);
  }

  /** Its release frees the row at the same generation, so that the next replica to ask takes it at once. */
  lemma ReleaseHandsOver(s: State, r: Replica, g: nat, q: Replica, x: TxId)
    requires Holding(s, r, g) && (forall t :: t in s.txs ==> s.txs[t].Writing?) && q in s.nodes && x !in s.txs
    ensures var s' := Step(s, Release(r, g));
            && s'.row.Some? && s'.row.value.holder == "" && s'.row.value.gen == g
            && s'.history == s.history + [Released(r, g)]
            && Holding(Step(Step(s', AcquireUpdate(q, x)), AcquireCommit(x, true)), q, g + 1)
  {
    assert ExclusiveFree(s);
    FreeOrLapsedIsTaken(Step(s, Release(r, g)), q, x, true);
  }
}
