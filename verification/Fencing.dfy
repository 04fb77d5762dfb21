/** The HA lock row in MySQL and the write fence built on it.

    The database is the only shared state: one lock row, its shared and exclusive row locks, and
    its clock. Every replica statement is one event, and a fenced write is split into begin, check
    and commit, so that events of different replicas interleave freely. What happened is recorded
    in `history`, which is compared with an atomic lease. */
module Fencing {
  import opened Common

  type Replica = nat
  type TxId = nat

  // ---- the atomic lease: what the lock promises ----

  datatype Fact =
    | Acquired(who: Replica, gen: nat, now: int, expires: int)
    | Renewed(who: Replica, gen: nat, expires: int)
    | Released(who: Replica, gen: nat)
    | Committed(who: Replica, gen: nat)

  datatype Lease =
    | Free(gen: nat)
    | Held(who: Replica, gen: nat, expires: int)

  predicate Permits(l: Lease, f: Fact) {
    match f
    case Acquired(_, gen, now, _) => gen == l.gen + 1 && (l.Held? ==> l.expires < now)
    case Renewed(who, gen, _) => l.Held? && l.who == who && l.gen == gen
    case Released(who, gen) => l.Held? && l.who == who && l.gen == gen
    case Committed(who, gen) => l.Held? && l.who == who && l.gen == gen
  }

  function After(l: Lease, f: Fact): Lease {
    match f
    case Acquired(who, gen, _, expires) => Held(who, gen, expires)
    case Renewed(who, gen, expires) => Held(who, gen, expires)
    case Released(_, gen) => Free(gen)
    case Committed(_, _) => l
  }

  /** The lease after a history. */
  function LeaseOf(h: seq<Fact>): Lease {
    if h == [] then Free(0) else After(LeaseOf(h[..|h| - 1]), h[|h| - 1])
  }

  /** Every fact of the history was permitted by the lease at that moment. */
  predicate Atomic(h: seq<Fact>) {
    forall i :: 0 <= i < |h| ==> Permits(LeaseOf(h[..i]), h[i])
  }

  lemma AtomicExtends(h: seq<Fact>, f: Fact)
    requires Atomic(h) && Permits(LeaseOf(h), f)
    ensures Atomic(h + [f]) && LeaseOf(h + [f]) == After(LeaseOf(h), f)
  {
    var k := h + [f];
    assert k[..|h|] == h;
    forall i | 0 <= i < |k| ensures Permits(LeaseOf(k[..i]), k[i]) {
      if i < |h| { assert k[..i] == h[..i]; }
    }
  }

  // ---- the database and the replicas ----

  datatype Row = Row(holder: string, gen: nat, expires: int)

  datatype Fence = Fence(holder: string, gen: nat)

  /** One replica: its holder ID and lease length, the fence of its backend, the generation
      tryAcquire has committed but hold has not yet recorded, and the acquisitions it has made. */
  datatype Node = Node(id: string, ttl: nat, fence: Option<Fence>, pending: Option<nat>, acquired: set<nat>)

  datatype Tx =
    | Writing(who: Replica, fence: Option<Fence>)  // exec has read the fence
    | Checked(who: Replica, token: Fence)          // holds the row's shared lock
    | Acquiring(who: Replica, now: int)            // holds the row's exclusive lock

  datatype State = State(
    row: Option<Row>,
    clock: int,
    nodes: map<Replica, Node>,
    txs: map<TxId, Tx>,
    history: seq<Fact>,
    unfenced: seq<Replica>) // writes of backends without a lock handle

  datatype Event =
    | Tick(micros: nat)
    | Arm(r: Replica)
    | EnsureRow
    | WriteBegin(r: Replica, tx: TxId)
    | WriteCheck(tx: TxId)
    | WriteCommit(tx: TxId)
    | WritePlain(tx: TxId)
    | AcquireUpdate(r: Replica, tx: TxId)
    | AcquireCommit(tx: TxId, acknowledged: bool)
    | Hold(r: Replica)
    | Renew(r: Replica, gen: nat)
    | Release(r: Replica, gen: nat)
    | Rollback(tx: TxId)

  const EPOCH: int := 0

  predicate SharedFree(s: State) { forall t :: t in s.txs ==> !s.txs[t].Acquiring? }

  predicate ExclusiveFree(s: State) { forall t :: t in s.txs ==> s.txs[t].Writing? }

  predicate Matches(row: Option<Row>, f: Fence) {
    row.Some? && row.value.holder == f.holder && row.value.gen == f.gen
  }

  /** The row as tryAcquire's UPDATE rewrites it. */
  function Taken(row: Row, n: Node, now: int): Row {
    Row(n.id, row.gen + 1, now + n.ttl)
  }

  /** tryAcquire's transaction commits. Its client may or may not learn of it. */
  function Granted(s: State, tx: TxId, r: Replica, now: int, acknowledged: bool): State
    requires r in s.nodes && s.row.Some?
  {
    var n := s.nodes[r];
    var row := Taken(s.row.value, n, now);
    State(Some(row), s.clock,
          s.nodes[r := n.(pending := if acknowledged then Some(row.gen) else n.pending,
                          acquired := n.acquired + {row.gen})],
          s.txs - {tx},
          s.history + [Acquired(r, row.gen, now, row.expires)],
          s.unfenced)
  }

  /** One statement. A statement that would have to wait for a row lock, or that a replica in
      this state does not issue, leaves the state unchanged. */
  function Step(s: State, e: Event): State {
    match e
    case Tick(micros) => s.(clock := s.clock + micros)
    case Arm(r) =>
      if r in s.nodes && s.nodes[r].fence.None? then
        s.(nodes := s.nodes[r := s.nodes[r].(fence := Some(Fence(s.nodes[r].id, 0)))])
      else s
    case EnsureRow => if s.row.None? then s.(row := Some(Row("", 0, EPOCH))) else s
    case WriteBegin(r, tx) =>
      if r in s.nodes && tx !in s.txs then s.(txs := s.txs[tx := Writing(r, s.nodes[r].fence)]) else s
    case WriteCheck(tx) =>
      if tx in s.txs && s.txs[tx].Writing? && s.txs[tx].fence.Some? && SharedFree(s) then
        if Matches(s.row, s.txs[tx].fence.value) then
          s.(txs := s.txs[tx := Checked(s.txs[tx].who, s.txs[tx].fence.value)])
        else s.(txs := s.txs - {tx}) // ErrFenced
      else s
    case WriteCommit(tx) =>
      if tx in s.txs && s.txs[tx].Checked? then
        s.(txs := s.txs - {tx}, history := s.history + [Committed(s.txs[tx].who, s.txs[tx].token.gen)])
      else s
    case WritePlain(tx) =>
      if tx in s.txs && s.txs[tx].Writing? && s.txs[tx].fence.None? then
        s.(txs := s.txs - {tx}, unfenced := s.unfenced + [s.txs[tx].who])
      else s
    case AcquireUpdate(r, tx) =>
      if r in s.nodes && tx !in s.txs && s.row.Some? && ExclusiveFree(s)
         && (s.row.value.holder == "" || s.row.value.expires < s.clock) then
        s.(txs := s.txs[tx := Acquiring(r, s.clock)])
      else s
    case AcquireCommit(tx, acknowledged) =>
      if tx in s.txs && s.txs[tx].Acquiring? && s.txs[tx].who in s.nodes && s.row.Some? then
        Granted(s, tx, s.txs[tx].who, s.txs[tx].now, acknowledged)
      else s
    case Hold(r) =>
      if r in s.nodes && s.nodes[r].pending.Some? then
        var n := s.nodes[r];
        s.(nodes := s.nodes[r := n.(fence := Some(Fence(n.id, n.pending.value)), pending := None)])
      else s
    case Renew(r, gen) =>
      if r in s.nodes && gen in s.nodes[r].acquired && ExclusiveFree(s)
          && Matches(s.row, Fence(s.nodes[r].id, gen)) then
        s.(row := Some(s.row.value.(expires := s.clock + s.nodes[r].ttl)),
           history := s.history + [Renewed(r, gen, s.clock + s.nodes[r].ttl)])
      else s
    case Release(r, gen) =>
      if r in s.nodes && gen in s.nodes[r].acquired && ExclusiveFree(s)
          && Matches(s.row, Fence(s.nodes[r].id, gen)) then
        s.(row := Some(Row("", gen, EPOCH)), history := s.history + [Released(r, gen)])
      else s
    case Rollback(tx) => s.(txs := s.txs - {tx})
  }

  function Run(s: State, es: seq<Event>): State
    decreases |es|
  {
    if es == [] then s else Run(Step(s, es[0]), es[1..])
  }

  /** Replicas as they start: no lock handle, no acquisition; the lock table may be empty. */
  function Start(ids: map<Replica, string>, ttl: nat, clock: int): State {
    State(None, clock, map r | r in ids :: Node(ids[r], ttl, None, None, {}), map[], [], [])
  }

  // ---- the invariant ----

  predicate OwnFence(n: Node, f: Fence) {
    f.holder == n.id && (f.gen == 0 || f.gen in n.acquired)
  }

  predicate NodeOk(n: Node, top: nat) {
    && n.id != ""
    && (n.fence.Some? ==> OwnFence(n, n.fence.value))
    && (n.pending.Some? ==> n.pending.value in n.acquired)
    && (forall g :: g in n.acquired ==> 1 <= g <= top)
  }

  /** No generation was acquired twice. */
  predicate Unshared(nodes: map<Replica, Node>) {
    forall r, q :: r in nodes && q in nodes && r != q ==> nodes[r].acquired !! nodes[q].acquired
  }

  predicate TxOk(tx: Tx, row: Option<Row>, nodes: map<Replica, Node>) {
    && tx.who in nodes
    && match tx
       case Writing(r, f) => f.Some? ==> OwnFence(nodes[r], f.value)
       case Checked(r, f) => OwnFence(nodes[r], f) && Matches(row, f)
       case Acquiring(_, now) => row.Some? && (row.value.holder == "" || row.value.expires < now)
  }

  /** The exclusive row lock excludes every other lock. */
  predicate Exclusion(txs: map<TxId, Tx>) {
    forall t, u :: t in txs && u in txs && t != u && txs[t].Acquiring? ==> txs[u].Writing?
  }

  /** The row in the database is the atomic lease. */
  predicate RowIsLease(row: Option<Row>, nodes: map<Replica, Node>, l: Lease) {
    match row
    case None => l == Free(0)
    case Some(row) =>
      && row.gen == l.gen
      && (row.holder == "" ==> l.Free?)
      && (row.holder != "" ==> && l.Held? && l.expires == row.expires
                               && l.who in nodes && nodes[l.who].id == row.holder && l.gen in nodes[l.who].acquired)
  }

  ghost predicate Inv(s: State) {
    && Atomic(s.history)
    && RowIsLease(s.row, s.nodes, LeaseOf(s.history))
    && (forall r :: r in s.nodes ==> NodeOk(s.nodes[r], LeaseOf(s.history).gen))
    && Unshared(s.nodes)
    && (forall t :: t in s.txs ==> TxOk(s.txs[t], s.row, s.nodes))
    && Exclusion(s.txs)
  }

  lemma StartInv(ids: map<Replica, string>, ttl: nat, clock: int)
    requires forall r :: r in ids ==> ids[r] != ""
    ensures Inv(Start(ids, ttl, clock))
  {}

  /** A fence that matches the row names its holder and generation: nobody else's fence does. */
  lemma MatchIsHolder(s: State, r: Replica, f: Fence)
    requires Inv(s) && r in s.nodes && OwnFence(s.nodes[r], f) && Matches(s.row, f)
    ensures LeaseOf(s.history).Held? && LeaseOf(s.history).who == r && LeaseOf(s.history).gen == f.gen
  {
    hide Atomic, LeaseOf;
    var l := LeaseOf(s.history);
    assert NodeOk(s.nodes[r], l.gen);
    assert NodeOk(s.nodes[l.who], l.gen);
  }

  predicate RecordsFact(e: Event) {
    e.WriteCommit? || e.AcquireCommit? || e.Renew? || e.Release?
  }

  lemma NodeChangeInv(s: State, r: Replica, n: Node)
    requires Inv(s) && r in s.nodes
    requires n.id == s.nodes[r].id && n.acquired == s.nodes[r].acquired && NodeOk(n, LeaseOf(s.history).gen)
    ensures Inv(s.(nodes := s.nodes[r := n]))
  {
    hide Atomic, LeaseOf;
    var s' := s.(nodes := s.nodes[r := n]);
    forall t | t in s'.txs ensures TxOk(s'.txs[t], s'.row, s'.nodes) {
      assert TxOk(s.txs[t], s.row, s.nodes);
    }
  }

  lemma TxChangeInv(s: State, t: TxId, tx: Tx)
    requires Inv(s) && TxOk(tx, s.row, s.nodes)
    requires tx.Checked? ==> SharedFree(s)
    requires tx.Acquiring? ==> ExclusiveFree(s) && t !in s.txs
    ensures Inv(s.(txs := s.txs[t := tx]))
  {
    hide Atomic, LeaseOf;
  }

  lemma TxEndInv(s: State, t: TxId, unfenced: seq<Replica>)
    requires Inv(s)
    ensures Inv(s.(txs := s.txs - {t}, unfenced := unfenced))
  {
    hide Atomic, LeaseOf;
  }

  lemma QuietStepInv(s: State, e: Event)
    requires Inv(s) && !RecordsFact(e)
    ensures Inv(Step(s, e))
  {
    hide Atomic, LeaseOf;
    var s' := Step(s, e);
    match e
    case Tick(_) =>
    case EnsureRow =>
      forall t | t in s'.txs ensures TxOk(s'.txs[t], s'.row, s'.nodes) {
        assert TxOk(s.txs[t], s.row, s.nodes);
      }
    case Arm(r) => if s' != s { NodeChangeInv(s, r, s'.nodes[r]); }
    case Hold(r) => if s' != s { NodeChangeInv(s, r, s'.nodes[r]); }
    case WritePlain(tx) => TxEndInv(s, tx, s'.unfenced);
    case Rollback(tx) => TxEndInv(s, tx, s.unfenced);
    case _ => TxStepInv(s, e);
  }

  lemma TxStepInv(s: State, e: Event)
    requires Inv(s) && (e.WriteBegin? || e.WriteCheck? || e.AcquireUpdate?)
    ensures Inv(Step(s, e))
  {
    var s' := Step(s, e);
    hide Atomic, LeaseOf;
    if s' != s {
      if e.tx in s.txs { assert TxOk(s.txs[e.tx], s.row, s.nodes); }
      if e.tx in s'.txs {
        assert s' == s.(txs := s.txs[e.tx := s'.txs[e.tx]]);
        TxChangeInv(s, e.tx, s'.txs[e.tx]);
      } else {
        TxEndInv(s, e.tx, s.unfenced);
      }
    }
  }

  lemma CommitInv(s: State, e: Event)
    requires Inv(s) && e.WriteCommit? && e.tx in s.txs && s.txs[e.tx].Checked?
    ensures Inv(Step(s, e))
  {
    var tx := s.txs[e.tx];
    assert TxOk(tx, s.row, s.nodes);
    MatchIsHolder(s, tx.who, tx.token);
    AtomicExtends(s.history, Committed(tx.who, tx.token.gen));
    hide Atomic, LeaseOf;
  }

  lemma RenewOrReleaseInv(s: State, e: Event)
    requires Inv(s) && (e.Renew? || e.Release?) && Step(s, e).history != s.history
    ensures Inv(Step(s, e))
  {
    hide Atomic, LeaseOf, Unshared, TxOk, Exclusion;
    var s' := Step(s, e);
    MatchIsHolder(s, e.r, Fence(s.nodes[e.r].id, e.gen));
    var fact := if e.Renew? then Renewed(e.r, e.gen, s.clock + s.nodes[e.r].ttl) else Released(e.r, e.gen);
    AtomicExtends(s.history, fact);
    forall t | t in s'.txs ensures TxOk(s'.txs[t], s'.row, s'.nodes) {
      WriterSurvives(s, t, s'.row, s'.nodes);
    }
  }

  lemma GrantedRow(s: State, t: TxId, acknowledged: bool)
    requires Inv(s) && t in s.txs && s.txs[t].Acquiring? && s.txs[t].who in s.nodes && s.row.Some?
    ensures var s' := Granted(s, t, s.txs[t].who, s.txs[t].now, acknowledged);
            && Atomic(s'.history)
            && LeaseOf(s'.history).gen == LeaseOf(s.history).gen + 1
            && RowIsLease(s'.row, s'.nodes, LeaseOf(s'.history))
  {
    hide Atomic, LeaseOf, NodeOk, Unshared, Exclusion;
    var r, now := s.txs[t].who, s.txs[t].now;
    assert s.nodes[r].id != "" by { NodeNamed(s, r); }
    assert TxOk(s.txs[t], s.row, s.nodes);
    var row := Taken(s.row.value, s.nodes[r], now);
    AtomicExtends(s.history, Acquired(r, row.gen, now, row.expires));
  }

  lemma NodeNamed(s: State, r: Replica)
    requires Inv(s) && r in s.nodes
    ensures s.nodes[r].id != ""
  {
    hide Atomic, LeaseOf;
  }

  lemma GrantedTxs(s: State, t: TxId, acknowledged: bool)
    requires Inv(s) && t in s.txs && s.txs[t].Acquiring? && s.txs[t].who in s.nodes && s.row.Some?
    ensures var s' := Granted(s, t, s.txs[t].who, s.txs[t].now, acknowledged);
            (forall u :: u in s'.txs ==> TxOk(s'.txs[u], s'.row, s'.nodes)) && Exclusion(s'.txs)
  {
    hide Atomic, LeaseOf, NodeOk, Unshared;
    var s' := Granted(s, t, s.txs[t].who, s.txs[t].now, acknowledged);
    assert forall u :: u in s'.txs ==> s'.txs[u].Writing?;
    forall u | u in s'.txs ensures TxOk(s'.txs[u], s'.row, s'.nodes) {
      WriterSurvives(s, u, s'.row, s'.nodes);
    }
  }

  lemma GrantedInv(s: State, t: TxId, acknowledged: bool)
    requires Inv(s) && t in s.txs && s.txs[t].Acquiring? && s.txs[t].who in s.nodes && s.row.Some?
    ensures Inv(Granted(s, t, s.txs[t].who, s.txs[t].now, acknowledged))
  {
    hide Atomic, LeaseOf, NodeOk, Unshared, TxOk, Exclusion;
    var s' := Granted(s, t, s.txs[t].who, s.txs[t].now, acknowledged);
    GrantedRow(s, t, acknowledged);
    GrantedTxs(s, t, acknowledged);
    NewGenerationOk(s, s.txs[t].who, acknowledged, s'.nodes);
  }

  lemma WriterSurvives(s: State, t: TxId, row: Option<Row>, nodes: map<Replica, Node>)
    requires Inv(s) && t in s.txs && s.txs[t].Writing?
    requires forall r ::
               r in s.nodes ==> r in nodes && nodes[r].id == s.nodes[r].id && s.nodes[r].acquired <= nodes[r].acquired
    ensures TxOk(s.txs[t], row, nodes)
  {
    hide Atomic, LeaseOf;
    assert TxOk(s.txs[t], s.row, s.nodes);
  }

  lemma NewGenerationOk(s: State, r: Replica, acknowledged: bool, nodes: map<Replica, Node>)
    requires Inv(s) && r in s.nodes
    requires var g: nat := LeaseOf(s.history).gen + 1;
             var n := s.nodes[r];
             var pending := if acknowledged then Some(g) else n.pending;
             nodes == s.nodes[r := n.(pending := pending, acquired := n.acquired + {g})]
    ensures forall q :: q in nodes ==> NodeOk(nodes[q], LeaseOf(s.history).gen + 1)
    ensures Unshared(nodes)
  {
    hide Atomic, LeaseOf;
    var top := LeaseOf(s.history).gen;
    assert forall q :: q in s.nodes ==> NodeOk(s.nodes[q], top);
    assert forall q :: q in s.nodes ==> top + 1 !in s.nodes[q].acquired;
  }

  lemma StepInv(s: State, e: Event)
    requires Inv(s)
    ensures Inv(Step(s, e))
  {
    if !RecordsFact(e) {
      QuietStepInv(s, e);
    } else if Step(s, e) != s {
      hide Inv;
      if e.AcquireCommit? {
        GrantedInv(s, e.tx, e.acknowledged);
      } else if e.WriteCommit? {
        CommitInv(s, e);
      } else {
        RenewOrReleaseInv(s, e);
      }
    }
  }

  lemma {:induction false} RunInv(s: State, es: seq<Event>)
    requires Inv(s)
    ensures Inv(Run(s, es))
    decreases |es|
  {
    if es != [] {
      StepInv(s, es[0]);
      RunInv(Step(s, es[0]), es[1..]);
    }
  }

  // ---- what an atomic history guarantees ----

  /** The generation never decreases, and every acquisition raises it. */
  lemma {:induction false} GenerationsOrdered(h: seq<Fact>, i: nat, j: nat)
    requires Atomic(h) && i <= j <= |h|
    ensures LeaseOf(h[..i]).gen <= LeaseOf(h[..j]).gen
    ensures forall k :: i <= k < j && h[k].Acquired? ==> h[k].gen > LeaseOf(h[..i]).gen
    decreases j
  {
    if i < j {
      GenerationsOrdered(h, i, j - 1);
      assert h[..j][..j - 1] == h[..j - 1];
      assert Permits(LeaseOf(h[..j - 1]), h[j - 1]);
    }
  }

  /** No write of an older generation commits after a newer acquisition, committed writes carry
      non-decreasing generations, and no generation is acquired twice. */
  lemma NoStaleFact(h: seq<Fact>, i: nat, j: nat)
    requires Atomic(h) && i < j < |h|
    ensures h[i].gen <= h[j].gen
    ensures h[j].Acquired? ==> h[i].gen < h[j].gen
  {
    assert Permits(LeaseOf(h[..i]), h[i]) && Permits(LeaseOf(h[..j]), h[j]);
    assert h[..i + 1][..i] == h[..i];
    GenerationsOrdered(h, i + 1, j);
    GenerationsOrdered(h, i + 1, j + 1);
  }

  /** The lease in force comes from an acquisition, with nothing of another generation since. */
  lemma {:induction false} LeaseOrigin(h: seq<Fact>) returns (i: nat)
    requires Atomic(h) && LeaseOf(h).Held?
    ensures i < |h| && h[i].Acquired? && h[i].who == LeaseOf(h).who && h[i].gen == LeaseOf(h).gen
    ensures forall k ::
              i < k < |h| ==> (h[k].Renewed? || h[k].Committed?) && h[k].who == h[i].who && h[k].gen == h[i].gen
  {
    var n := |h| - 1;
    assert Permits(LeaseOf(h[..n]), h[n]);
    if h[n].Acquired? {
      i := n;
    } else {
      assert Atomic(h[..n]) by { assert forall k :: 0 <= k < n ==> h[..n][..k] == h[..k]; }
      i := LeaseOrigin(h[..n]);
    }
  }

  /** A committed write was preceded by its replica's own acquisition of that generation, and
      between the two nobody acquired, released or wrote under any other generation. */
  lemma CommitIsExclusive(h: seq<Fact>, j: nat) returns (i: nat)
    requires Atomic(h) && j < |h| && h[j].Committed?
    ensures i < j && h[i].Acquired? && h[i].who == h[j].who && h[i].gen == h[j].gen
    ensures forall k ::
              i < k <= j ==> (h[k].Renewed? || h[k].Committed?) && h[k].who == h[j].who && h[k].gen == h[j].gen
  {
    assert Permits(LeaseOf(h[..j]), h[j]);
    assert Atomic(h[..j]) by { assert forall k :: 0 <= k < j ==> h[..j][..k] == h[..k]; }
    i := LeaseOrigin(h[..j]);
    assert forall k :: 0 <= k < j ==> h[..j][k] == h[k];
  }

  /** The lease's expiry is the one last written by an acquisition or renewal, and a free lease of
      a generation above zero was released. */
  lemma {:induction false} LeaseTerms(h: seq<Fact>) returns (i: nat)
    requires Atomic(h) && LeaseOf(h).gen > 0
    ensures i < |h| && h[i].gen == LeaseOf(h).gen
    ensures forall k :: i < k < |h| ==> h[k].Committed?
    ensures LeaseOf(h).Free? ==> h[i].Released?
    ensures LeaseOf(h).Held? ==> (h[i].Acquired? || h[i].Renewed?) && h[i].expires == LeaseOf(h).expires
  {
    var n := |h| - 1;
    assert Permits(LeaseOf(h[..n]), h[n]);
    if h[n].Committed? {
      assert Atomic(h[..n]) by { assert forall k :: 0 <= k < n ==> h[..n][..k] == h[..k]; }
      i := LeaseTerms(h[..n]);
    } else {
      i := n;
    }
  }

  /** A takeover needs a release, or the database clock past the expiry last written. */
  lemma TakeoverNeedsReleaseOrExpiry(h: seq<Fact>, j: nat) returns (i: nat)
    requires Atomic(h) && j < |h| && h[j].Acquired? && h[j].gen > 1
    ensures i < j && h[i].gen == h[j].gen - 1 && forall k :: i < k < j ==> h[k].Committed?
    ensures h[i].Released? || ((h[i].Acquired? || h[i].Renewed?) && h[i].expires < h[j].now)
  {
    assert Permits(LeaseOf(h[..j]), h[j]);
    assert Atomic(h[..j]) by { assert forall k :: 0 <= k < j ==> h[..j][..k] == h[..k]; }
    i := LeaseTerms(h[..j]);
    assert forall k :: 0 <= k < j ==> h[..j][k] == h[k];
  }

  // ---- the protocol, over all runs ----

  predicate NeverActive(h: seq<Fact>, r: Replica) {
    forall i :: 0 <= i < |h| ==> !(h[i].Acquired? && h[i].who == r)
  }

  /** Every interleaving of every replica's statements is a history of the atomic lease. */
  lemma ProtocolIsAtomic(ids: map<Replica, string>, ttl: nat, clock: int, es: seq<Event>)
    requires forall r :: r in ids ==> ids[r] != ""
    ensures Atomic(Run(Start(ids, ttl, clock), es).history)
  {
    StartInv(ids, ttl, clock);
    RunInv(Start(ids, ttl, clock), es);
  }

  /** The statements by which a replica whose holder ID is empty writes without ever acquiring: its
      fence token ("", 0) is exactly the row that ensureRow inserts. */
  function EmptyHolderRun(r: Replica): seq<Event> {
    [EnsureRow, Arm(r), WriteBegin(r, 0), WriteCheck(0), WriteCommit(0)]
  }

  lemma EmptyHolderWrites(ids: map<Replica, string>, ttl: nat, clock: int, r: Replica)
    requires r in ids && ids[r] == ""
    ensures Run(Start(ids, ttl, clock), EmptyHolderRun(r)).history == [Committed(r, 0)]
  {
    var es := EmptyHolderRun(r);
    var s0 := Start(ids, ttl, clock);
    var s1 := Step(s0, EnsureRow);
    var s2 := Step(s1, Arm(r));
    var s3 := Step(s2, WriteBegin(r, 0));
    var s4 := Step(s3, WriteCheck(0));
    var s5 := Step(s4, WriteCommit(0));
    assert s5.history == [Committed(r, 0)];
    assert Run(s5, []) == s5;
    assert es[4..] == [WriteCommit(0)] && es[3..][1..] == es[4..] && es[2..][1..] == es[3..] && es[1..][1..] == es[2..];
    assert Run(s4, es[4..]) == s5;
    assert Run(s3, es[3..]) == s5;
    assert Run(s2, es[2..]) == s5;
    assert Run(s1, es[1..]) == s5;
  }

  /** No interleaving leaves the histories of the lease exactly when no holder ID is empty. */
  lemma ProtocolIsAtomicIff(ids: map<Replica, string>, ttl: nat, clock: int)
    ensures (forall es :: Atomic(Run(Start(ids, ttl, clock), es).history)) <==> forall r :: r in ids ==> ids[r] != ""
  {
    hide Atomic;
    if forall r :: r in ids ==> ids[r] != "" {
      forall es ensures Atomic(Run(Start(ids, ttl, clock), es).history) { ProtocolIsAtomic(ids, ttl, clock, es); }
    } else {
      var r :| r in ids && ids[r] == "";
      EmptyHolderWrites(ids, ttl, clock, r);
      LoneCommit(r);
      assert !Atomic(Run(Start(ids, ttl, clock), EmptyHolderRun(r)).history);
    }
  }

  lemma LoneCommit(r: Replica)
    ensures !Atomic([Committed(r, 0)])
  {
    var h := [Committed(r, 0)];
    assert h[..0] == [] && !Permits(LeaseOf(h[..0]), h[0]);
  }

  // ---- standbys ----

  /** From s to t, replica r committed no write, fenced or not. */
  ghost predicate Silent(s: State, t: State, r: Replica) {
    && s.history <= t.history && s.unfenced <= t.unfenced
    && (forall i :: |s.history| <= i < |t.history| ==> !(t.history[i].Committed? && t.history[i].who == r))
    && (forall i :: |s.unfenced| <= i < |t.unfenced| ==> t.unfenced[i] != r)
  }

  predicate Armed(s: State, r: Replica) { r in s.nodes && s.nodes[r].fence.Some? }

  /** A write of r that read no fence is still to run. */
  ghost predicate InFlight(s: State, r: Replica) {
    exists t :: t in s.txs && s.txs[t].Writing? && s.txs[t].who == r && s.txs[t].fence.None?
  }

  /** The row is, or ensureRow will make it, the unheld one that an empty holder ID matches. */
  predicate EmptyMatches(s: State, r: Replica) {
    r in s.nodes && s.nodes[r].id == "" && (s.row.None? || s.row.value.gen == 0)
  }

  /** What holds of a replica as long as it was never active. */
  ghost predicate Standby(s: State, r: Replica) {
    && r in s.nodes
    && (s.nodes[r].fence.Some? ==> s.nodes[r].fence.value == Fence(s.nodes[r].id, 0))
    && s.nodes[r].pending.None? && s.nodes[r].acquired == {}
    && (s.row.Some? && s.row.value.gen == 0 ==> s.row.value.holder == "")
    && Exclusion(s.txs)
    && (forall t :: t in s.txs && s.txs[t].who == r ==> StandbyTx(s, s.txs[t], r))
  }

  predicate StandbyTx(s: State, tx: Tx, r: Replica)
    requires r in s.nodes
  {
    match tx
    case Writing(_, f) => f.Some? ==> f.value == Fence(s.nodes[r].id, 0)
    case Checked(_, f) => f == Fence(s.nodes[r].id, 0) && Matches(s.row, f)
    case Acquiring(_, _) => true
  }

  lemma HistoryGrows(s: State, e: Event)
    ensures s.history <= Step(s, e).history && s.unfenced <= Step(s, e).unfenced
    ensures |Step(s, e).history| <= |s.history| + 1 && |Step(s, e).unfenced| <= |s.unfenced| + 1
  {}

  lemma ExclusionStep(s: State, e: Event)
    requires Exclusion(s.txs)
    ensures Exclusion(Step(s, e).txs)
  {}

  /** While r holds the row's shared lock the row does not change. */
  lemma CheckedKeepsRow(s: State, e: Event, t: TxId)
    requires Exclusion(s.txs) && t in s.txs && s.txs[t].Checked? && t in Step(s, e).txs && s.row.Some?
    ensures Step(s, e).row == s.row && Step(s, e).txs[t] == s.txs[t]
  {}

  lemma StandbyNode(s: State, e: Event, r: Replica)
    requires Standby(s, r) && NeverActive(Step(s, e).history, r)
    ensures Step(s, e).nodes.Keys == s.nodes.Keys
    ensures Step(s, e).nodes[r] == s.nodes[r]
            || Step(s, e).nodes[r] == s.nodes[r].(fence := Some(Fence(s.nodes[r].id, 0)))
    ensures var row := Step(s, e).row; row.Some? && row.value.gen == 0 ==> row.value.holder == ""
  {
    hide Exclusion, ExclusiveFree, SharedFree;
    var s' := Step(s, e);
    if s'.history != s.history { assert s'.history[|s'.history| - 1] in s'.history; }
  }

  lemma StandbyStep(s: State, e: Event, r: Replica)
    requires Standby(s, r) && NeverActive(Step(s, e).history, r)
    ensures Standby(Step(s, e), r)
  {
    var s' := Step(s, e);
    StandbyNode(s, e, r);
    ExclusionStep(s, e);
    forall t | t in s'.txs && s'.txs[t].who == r ensures StandbyTx(s', s'.txs[t], r) {
      if t in s.txs { assert StandbyTx(s, s.txs[t], r); }
      if t in s.txs && s.txs[t].Checked? { CheckedKeepsRow(s, e, t); }
    }
  }

  lemma NodesStay(s: State, e: Event, r: Replica)
    requires r in s.nodes
    ensures var s' := Step(s, e);
            && s'.nodes.Keys == s.nodes.Keys && s'.nodes[r].id == s.nodes[r].id
            && (Armed(s, r) || e == Arm(r) ==> Armed(s', r))
  {}

  /** Nothing r begins is unfenced, if it begins none unarmed. */
  lemma NoneBegun(s: State, e: Event, r: Replica)
    requires !InFlight(s, r) && (Armed(s, r) || !(e.WriteBegin? && e.r == r))
    ensures !InFlight(Step(s, e), r)
  {}

  /** A standby whose holder ID the row does not match has checked no fence. */
  lemma NoneChecked(s: State, r: Replica, t: TxId)
    requires Standby(s, r) && !EmptyMatches(s, r) && t in s.txs && s.txs[t].who == r
    ensures !s.txs[t].Checked?
  {
    assert StandbyTx(s, s.txs[t], r);
  }

  /** The row's generation never goes back to zero. */
  lemma RowRises(s: State, e: Event)
    ensures s.row.Some? ==> Step(s, e).row.Some? && s.row.value.gen <= Step(s, e).row.value.gen
  {}

  /** A standby that has no unfenced write in flight and cannot match the row stays so and commits
      nothing, as long as it begins no write unarmed. */
  lemma SilentStep(s: State, e: Event, r: Replica)
    requires Standby(s, r) && !InFlight(s, r) && !EmptyMatches(s, r)
    requires Armed(s, r) || !(e.WriteBegin? && e.r == r)
    ensures var s' := Step(s, e);
            && !InFlight(s', r) && !EmptyMatches(s', r) && Silent(s, s', r)
            && (Armed(s, r) || e == Arm(r) ==> Armed(s', r))
  {
    NodesStay(s, e, r);
    NoneBegun(s, e, r);
    RowRises(s, e);
    forall t | t in s.txs && s.txs[t].who == r ensures !s.txs[t].Checked? { NoneChecked(s, r, t); }
    hide Standby, Exclusion, ExclusiveFree, SharedFree, Taken;
  }

  lemma {:induction false} RunGrows(s: State, es: seq<Event>)
    ensures s.history <= Run(s, es).history && s.unfenced <= Run(s, es).unfenced
    decreases |es|
  {
    hide Step;
    if es != [] {
      HistoryGrows(s, es[0]);
      RunGrows(Step(s, es[0]), es[1..]);
    }
  }

  lemma NeverActiveBefore(h: seq<Fact>, longer: seq<Fact>, r: Replica)
    requires h <= longer && NeverActive(longer, r)
    ensures NeverActive(h, r)
  {
    assert forall i :: 0 <= i < |h| ==> h[i] == longer[i];
  }

  lemma {:induction false} StandbyRun(s: State, es: seq<Event>, r: Replica)
    requires Standby(s, r) && NeverActive(Run(s, es).history, r)
    ensures Standby(Run(s, es), r)
    decreases |es|
  {
    hide Step, Standby, NeverActive;
    if es != [] {
      var s' := Step(s, es[0]);
      RunGrows(s', es[1..]);
      NeverActiveBefore(s'.history, Run(s, es).history, r);
      StandbyStep(s, es[0], r);
      StandbyRun(s', es[1..], r);
    }
  }

  /** In some continuation r commits a write and is still never active. */
  ghost predicate MayStillWrite(s: State, r: Replica) {
    exists es :: NeverActive(Run(s, es).history, r) && !Silent(s, Run(s, es), r)
  }

  lemma StartStandby(ids: map<Replica, string>, ttl: nat, clock: int, r: Replica)
    requires r in ids
    ensures Standby(Start(ids, ttl, clock), r) && !InFlight(Start(ids, ttl, clock), r)
    ensures Start(ids, ttl, clock).nodes[r].id == ids[r]
  {}

  lemma PlainWrites(s: State, r: Replica)
    requires NeverActive(s.history, r) && InFlight(s, r)
    ensures MayStillWrite(s, r)
  {
    var t :| t in s.txs && s.txs[t].Writing? && s.txs[t].who == r && s.txs[t].fence.None?;
    var s' := Step(s, WritePlain(t));
    assert Run(s, [WritePlain(t)]) == s' by { assert [WritePlain(t)][1..] == []; }
    assert s'.unfenced[|s.unfenced|] == r;
  }

  lemma {:induction false} RunConcat(s: State, es: seq<Event>, fs: seq<Event>)
    ensures Run(s, es + fs) == Run(Run(s, es), fs)
    decreases |es|
  {
    hide Step;
    if es == [] {
      assert es + fs == fs;
    } else {
      assert (es + fs)[1..] == es[1..] + fs;
      RunConcat(Step(s, es[0]), es[1..], fs);
    }
  }

  /** Open transactions can all be rolled back. */
  lemma {:induction false} Emptied(s: State) returns (es: seq<Event>)
    ensures Run(s, es) == s.(txs := map[])
    decreases |s.txs|
  {
    if s.txs == map[] {
      es := [];
    } else {
      var t :| t in s.txs;
      var s' := Step(s, Rollback(t));
      assert s'.txs.Keys == s.txs.Keys - {t};
      assert |s'.txs.Keys| < |s.txs.Keys|;
      assert |s'.txs| == |s'.txs.Keys| && |s.txs| == |s.txs.Keys|;
      var rest := Emptied(s');
      es := [Rollback(t)] + rest;
      assert es[1..] == rest;
    }
  }

  lemma EmptyIdCommits(s: State, r: Replica)
    requires Standby(s, r) && Armed(s, r) && EmptyMatches(s, r) && s.txs == map[]
    ensures var t := Step(Step(Step(Step(s, EnsureRow), WriteBegin(r, 0)), WriteCheck(0)), WriteCommit(0));
            t.history == s.history + [Committed(r, 0)] && t.unfenced == s.unfenced
  {}

  lemma EmptyIdWrites(s: State, r: Replica)
    requires NeverActive(s.history, r) && Standby(s, r) && Armed(s, r) && EmptyMatches(s, r)
    ensures MayStillWrite(s, r)
  {
    var clear := Emptied(s);
    var s0 := s.(txs := map[]);
    EmptyIdCommits(s0, r);
    hide Step, Standby, Armed, EmptyMatches;
    var es := [EnsureRow] + [WriteBegin(r, 0), WriteCheck(0), WriteCommit(0)];
    var s1 := Step(s0, EnsureRow);
    RunThree(s1, WriteBegin(r, 0), WriteCheck(0), WriteCommit(0));
    assert Run(s0, es) == Run(s1, es[1..]) && es[1..] == [WriteBegin(r, 0), WriteCheck(0), WriteCommit(0)];
    RunConcat(s, clear, es);
    var t := Run(s, clear + es);
    assert t.history[|s.history|] == Committed(r, 0);
    assert NeverActive(t.history, r) && !Silent(s, t, r);
  }

  /** Wherever a run stands, a replica that is armed and was never active can still commit a write
      before it is ever active exactly when it has an unfenced write in flight, or its holder ID is
      empty and the row has not been acquired yet. */
  lemma StandbyMayWriteIff(ids: map<Replica, string>, ttl: nat, clock: int, es: seq<Event>, r: Replica)
    requires r in ids
    requires var s := Run(Start(ids, ttl, clock), es); NeverActive(s.history, r) && Armed(s, r)
    ensures var s := Run(Start(ids, ttl, clock), es); MayStillWrite(s, r) <==> InFlight(s, r) || EmptyMatches(s, r)
  {
    hide Step, Standby, Silent, EmptyMatches;
    var s := Run(Start(ids, ttl, clock), es);
    StartStandby(ids, ttl, clock, r);
    StandbyRun(Start(ids, ttl, clock), es, r);
    if InFlight(s, r) {
      PlainWrites(s, r);
    } else if EmptyMatches(s, r) {
      EmptyIdWrites(s, r);
    } else {
      forall fs | NeverActive(Run(s, fs).history, r) ensures Silent(s, Run(s, fs), r) { DisciplinedSilent(s, fs, r); }
    }
  }

  /** r takes its lock handle before it begins any write. */
  ghost predicate BeginsArmed(es: seq<Event>, r: Replica) {
    forall i :: 0 <= i < |es| && es[i].WriteBegin? && es[i].r == r ==> Arm(r) in es[..i]
  }

  lemma BeginsArmedTail(es: seq<Event>, r: Replica)
    requires es != [] && BeginsArmed(es, r) && es[0] != Arm(r)
    ensures BeginsArmed(es[1..], r) && !(es[0].WriteBegin? && es[0].r == r)
  {
    forall i | 0 <= i < |es[1..]| && es[1..][i].WriteBegin? && es[1..][i].r == r ensures Arm(r) in es[1..][..i] {
      assert es[i + 1] == es[1..][i];
      assert es[..i + 1] == [es[0]] + es[1..][..i];
    }
  }

  lemma {:induction false} DisciplinedSilent(s: State, es: seq<Event>, r: Replica)
    requires Standby(s, r) && !InFlight(s, r) && !EmptyMatches(s, r) && (Armed(s, r) || BeginsArmed(es, r))
    requires NeverActive(Run(s, es).history, r)
    ensures Silent(s, Run(s, es), r)
    decreases |es|
  {
    hide Step, Standby, Armed, InFlight, EmptyMatches, NeverActive, BeginsArmed;
    if es != [] {
      if !Armed(s, r) && es[0] != Arm(r) { BeginsArmedTail(es, r); }
      var s' := Step(s, es[0]);
      RunGrows(s', es[1..]);
      NeverActiveBefore(s'.history, Run(s, es).history, r);
      StandbyStep(s, es[0], r);
      SilentStep(s, es[0], r);
      DisciplinedSilent(s', es[1..], r);
    }
  }

  /** A replica that takes its lock handle before it begins writing commits nothing in any run in which
      it is never active, exactly when its holder ID is not empty. */
  lemma StandbysFencedIff(ids: map<Replica, string>, ttl: nat, clock: int, r: Replica)
    requires r in ids
    ensures (forall es :: BeginsArmed(es, r) && NeverActive(Run(Start(ids, ttl, clock), es).history, r)
               ==> Silent(Start(ids, ttl, clock), Run(Start(ids, ttl, clock), es), r))
            <==> ids[r] != ""
  {
    hide Step, Standby, BeginsArmed;
    var s := Start(ids, ttl, clock);
    StartStandby(ids, ttl, clock, r);
    if ids[r] != "" {
      forall es | BeginsArmed(es, r) && NeverActive(Run(s, es).history, r) ensures Silent(s, Run(s, es), r) {
        DisciplinedSilent(s, es, r);
      }
    } else {
      EmptyHolderWrites(ids, ttl, clock, r);
      EmptyHolderRunArms(r);
      var h := Run(s, EmptyHolderRun(r)).history;
      assert h == [Committed(r, 0)];
      assert NeverActive(h, r) && !Silent(s, Run(s, EmptyHolderRun(r)), r) by { assert h[0] == Committed(r, 0); }
    }
  }

  lemma EmptyHolderRunArms(r: Replica)
    ensures BeginsArmed(EmptyHolderRun(r), r)
  {
    var es := EmptyHolderRun(r);
    assert es[..2][1] == Arm(r);
  }

  /** Without that order a fence armed too late lets a write through: r begins a write, takes its handle,
      q becomes active, and then r's write runs. */
  function RacingRun(r: Replica, q: Replica): seq<Event> {
    [WriteBegin(r, 0), Arm(r), EnsureRow, AcquireUpdate(q, 1), AcquireCommit(1, true), WritePlain(0)]
  }

  lemma RunThree(s: State, a: Event, b: Event, c: Event)
    ensures Run(s, [a, b, c]) == Step(Step(Step(s, a), b), c)
  {
    hide Step;
    assert [a, b, c][1..] == [b, c] && [b, c][1..] == [c] && [c][1..] == [];
    var s1 := Step(s, a);
    var s2 := Step(s1, b);
    assert Run(s2, [c]) == Step(s2, c);
    assert Run(s1, [b, c]) == Run(s2, [c]);
  }

  lemma RaceEnds(s: State, r: Replica, q: Replica)
    requires r in s.nodes && q in s.nodes && r != q && Armed(s, r)
    requires s.row == Some(Row("", 0, EPOCH)) && s.txs == map[0 := Writing(r, None)]
    ensures var s' := Step(Step(Step(s, AcquireUpdate(q, 1)), AcquireCommit(1, true)), WritePlain(0));
            && s'.history == s.history + [Acquired(q, 1, s.clock, s.clock + s.nodes[q].ttl)]
            && s'.unfenced == s.unfenced + [r] && Armed(s', r)
  {}

  lemma RacingWrite(ids: map<Replica, string>, ttl: nat, clock: int, r: Replica, q: Replica)
    requires r in ids && q in ids && r != q
    ensures var s := Run(Start(ids, ttl, clock), RacingRun(r, q));
            && s.history == [Acquired(q, 1, clock, clock + ttl)] && s.unfenced == [r]
            && NeverActive(s.history, r) && Armed(s, r)
  {
    var s0 := Start(ids, ttl, clock);
    var s3 := Step(Step(Step(s0, WriteBegin(r, 0)), Arm(r)), EnsureRow);
    assert s3.txs == map[0 := Writing(r, None)];
    assert s3.history == [] && s3.unfenced == [] && s3.clock == clock && s3.nodes[q].ttl == ttl;
    RaceEnds(s3, r, q);
    hide Step, Armed;
    RunThree(s0, WriteBegin(r, 0), Arm(r), EnsureRow);
    RunThree(s3, AcquireUpdate(q, 1), AcquireCommit(1, true), WritePlain(0));
    RunConcat(s0, [WriteBegin(r, 0), Arm(r), EnsureRow], [AcquireUpdate(q, 1), AcquireCommit(1, true), WritePlain(0)]);
    assert RacingRun(r, q)
           == [WriteBegin(r, 0), Arm(r), EnsureRow] + [AcquireUpdate(q, 1), AcquireCommit(1, true), WritePlain(0)];
    var s := Run(s0, RacingRun(r, q));
    assert s.history == [] + [Acquired(q, 1, clock, clock + ttl)] && s.unfenced == [] + [r];
  }

  /** Once a replica has a lock handle and no older write in flight, it never writes unfenced. */
  lemma {:induction false} ArmedStaysFenced(s: State, r: Replica, es: seq<Event>)
    requires r in s.nodes && s.nodes[r].fence.Some?
    requires forall t :: t in s.txs && s.txs[t].Writing? && s.txs[t].who == r ==> s.txs[t].fence.Some?
    ensures s.unfenced <= Run(s, es).unfenced
    ensures forall i :: |s.unfenced| <= i < |Run(s, es).unfenced| ==> Run(s, es).unfenced[i] != r
    decreases |es|
  {
    if es != [] {
      var s' := Step(s, es[0]);
      ArmedStaysFenced(s', r, es[1..]);
      assert s'.unfenced == s.unfenced || (|s'.unfenced| == |s.unfenced| + 1 && s'.unfenced[|s.unfenced|] != r);
    }
  }

  // ---- the reference model of the test suite ----

  /** HAGroup: the lock kept in memory, with each replica's own fence. Its generation also counts
      revocations, so only the order of generations is comparable. */
  datatype Group = Group(holder: string, gen: nat, fences: map<Replica, nat>)

  predicate GroupAllows(g: Group, id: string, r: Replica) {
    r in g.fences && g.holder == id && g.gen == g.fences[r]
  }

  /** What the group does for each fact: an acquisition of a lapsed lease is Revoke then Acquire. */
  function GroupStep(g: Group, ids: map<Replica, string>, f: Fact): Group
    requires f.who in ids
  {
    match f
    case Acquired(r, _, _, _) =>
      var gen := if g.holder == "" then g.gen + 1 else g.gen + 2;
      Group(ids[r], gen, g.fences[r := gen])
    case Released(r, _) => if GroupAllows(g, ids[r], r) then g.(holder := "") else g
    case _ => g
  }

  function GroupOf(h: seq<Fact>, ids: map<Replica, string>): Group
    requires forall i :: 0 <= i < |h| ==> h[i].who in ids
  {
    if h == [] then Group("", 0, map[]) else GroupStep(GroupOf(h[..|h| - 1], ids), ids, h[|h| - 1])
  }

  predicate Alike(l: Lease, g: Group, ids: map<Replica, string>) {
    && (l.Free? ==> g.holder == "")
    && (l.Held? ==> l.who in ids && GroupAllows(g, ids[l.who], l.who))
    && (forall r :: r in g.fences ==> 0 < g.fences[r] <= g.gen)
    && (forall r :: r in g.fences && !(l.Held? && l.who == r) && g.holder != "" ==> g.fences[r] < g.gen)
  }

  /** The reference model allows a write exactly to the replica the lease names. */
  lemma {:induction false} GroupAgrees(h: seq<Fact>, ids: map<Replica, string>)
    requires Atomic(h)
    requires forall i :: 0 <= i < |h| ==> h[i].who in ids
    requires forall r :: r in ids ==> ids[r] != ""
    ensures Alike(LeaseOf(h), GroupOf(h, ids), ids)
    ensures forall r :: r in ids ==>
      (GroupAllows(GroupOf(h, ids), ids[r], r) <==> LeaseOf(h).Held? && LeaseOf(h).who == r)
  {
    if h != [] {
      var n := |h| - 1;
      assert Atomic(h[..n]) by { assert forall k :: 0 <= k < n ==> h[..n][..k] == h[..k]; }
      assert Permits(LeaseOf(h[..n]), h[n]);
      GroupAgrees(h[..n], ids);
    }
  }

  /** The reference group and the lease allow the same replicas to write. */
  ghost predicate Agree(h: seq<Fact>, ids: map<Replica, string>)
    requires forall i :: 0 <= i < |h| ==> h[i].who in ids
  {
    forall r :: r in ids ==> (GroupAllows(GroupOf(h, ids), ids[r], r) <==> LeaseOf(h).Held? && LeaseOf(h).who == r)
  }

  /** They do after every history exactly when no holder ID is empty: a release by an empty holder ID goes
      unnoticed by the group. */
  lemma GroupAgreesIff(ids: map<Replica, string>)
    ensures (forall h: seq<Fact> :: Atomic(h) && (forall i :: 0 <= i < |h| ==> h[i].who in ids) ==> Agree(h, ids))
            <==> forall r :: r in ids ==> ids[r] != ""
  {
    if forall r :: r in ids ==> ids[r] != "" {
      forall h: seq<Fact> | Atomic(h) && (forall i :: 0 <= i < |h| ==> h[i].who in ids) ensures Agree(h, ids) {
        GroupAgrees(h, ids);
      }
    } else {
      var r :| r in ids && ids[r] == "";
      var taken := [] + [Acquired(r, 1, 0, 0)];
      var freed := taken + [Released(r, 1)];
      AtomicExtends([], Acquired(r, 1, 0, 0));
      AtomicExtends(taken, Released(r, 1));
      assert taken[..0] == [] && freed[..1] == taken;
      assert GroupOf(taken, ids) == Group("", 1, map[r := 1]);
      assert GroupAllows(GroupOf(freed, ids), ids[r], r);
      assert !Agree(freed, ids);
    }
  }
}
