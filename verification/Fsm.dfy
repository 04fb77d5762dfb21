/** The replicated state machine: applying log entries once across crashes, replays and restores. */
module Fsm {
  import opened Common
  import opened Keys
  import opened Listing
  import opened JoinTokens
  import Storage

  datatype LogEntry = LogEntry(index: nat, data: Option<Command>)

  /** The bbolt file's kv bucket and last_applied, and the in-memory failure flag. */
  datatype State = State(kv: map<Key, Value>, lastApplied: Option<nat>, failed: bool)

  predicate Skips(s: State, l: LogEntry) { s.lastApplied.Some? && l.index <= s.lastApplied.value }

  /** What Apply does to the state, and what it answers the proposer. */
  function Applied(s: State, l: LogEntry, ioError: bool): (State, Reply) {
    if s.failed then (s, Failed)
    else if !Decodable(l.data) || ioError then (s.(failed := true), Failed)
    else if Skips(s, l) then (s, Done)
    else
      var (kv, reply) := Effect(s.kv, l.data.value);
      (State(kv, Some(l.index), false), reply)
  }

  /** The pruning loop of a mint: collect under the cursor, then delete. */
  method Prune(kv: map<Key, Value>, now: Int64) returns (r: map<Key, Value>)
    ensures r == kv - StaleKeys(kv, now)
  {
    hide Stale, Ascii;
    var cursor := Ordered(kv.Keys);
    var i := Seek(cursor, TOKEN_PREFIX);
    ghost var start := i;
    var stale: seq<Key> := [];
    while i < |cursor| && TOKEN_PREFIX <= cursor[i]
      invariant start <= i <= |cursor|
      invariant forall k :: k in stale <==> k in cursor[start..i] && TOKEN_PREFIX <= k && Stale(kv[k], now)
    {
      assert cursor[start..i + 1] == cursor[start..i] + [cursor[i]];
      if Stale(kv[cursor[i]], now) { stale := stale + [cursor[i]]; }
      i := i + 1;
    }
    forall k | k in kv && TOKEN_PREFIX <= k ensures k in cursor[start..i] {
      ScanComplete(cursor, kv.Keys, TOKEN_PREFIX, start, i, k);
    }
    assert Elements(stale) == StaleKeys(kv, now);
    r := kv;
    for j := 0 to |stale|
      invariant r == kv - Elements(stale[..j])
    {
      assert stale[..j + 1] == stale[..j] + [stale[j]];
      r := r - {stale[j]};
    }
    assert stale[..|stale|] == stale;
  }

  class Machine {
    var kv: map<Key, Value>
    var lastApplied: Option<nat>
    var failed: bool

    ghost function View(): State
      reads this
    {
      State(kv, lastApplied, failed)
    }

    constructor ()
      ensures View() == State(map[], None, false)
    {
      kv, lastApplied, failed := map[], None, false;
    }

    /** Apply. `ioError` says whether the transaction on the file fails to commit. */
    method Apply(l: LogEntry, ioError: bool) returns (reply: Reply)
      modifies this
      ensures (View(), reply) == Applied(old(View()), l, ioError)
    {
      if failed { return Failed; }
      if !Decodable(l.data) {
        failed := true;
        return Failed;
      }
      var c := l.data.value;
      reply := Done;
      var tx, index := kv, lastApplied;
      if !(lastApplied.Some? && l.index <= lastApplied.value) {
        match c.op {
          case TokenMint =>
            tx := Prune(tx, c.now);
            tx := tx[c.key := c.value];
          case TokenBurn =>
            var r := if c.key in tx then Decode(tx[c.key]) else None;
            if r.None? {
              reply := TokenInvalid;
            } else if r.value.state == SPENT {
              reply := TokenUsed;
            } else if c.now > r.value.expiry {
              reply := TokenExpired;
            } else {
              tx := tx[c.key := Encode(Record(SPENT, r.value.expiry))];
            }
          case Put => tx := tx[c.key := c.value];
          case Delete => tx := tx - {c.key};
        }
        index := Some(l.index);
      }
      if ioError {
        failed := true;
        return Failed;
      }
      kv, lastApplied := tx, index;
    }

    /** Restore: all of the snapshot, with the replay guard cleared, or nothing. */
    method Restore(s: Storage.Snapshot, ioError: bool) returns (ok: bool)
      modifies this
      ensures ok <==> s.header == Storage.HEADER && Storage.Restored(map[], s.lines).1 && !ioError
      ensures View() == if ok then State(Storage.Restored(map[], s.lines).0, None, old(failed)) else old(View())
    {
      var bucket := new Storage.Backend();
      ok := Storage.Restore(bucket, s);
      ok := ok && !ioError;
      if ok { kv, lastApplied := bucket.data, None; }
    }
  }

  // ---- a node's life: deliveries, restarts and installed snapshots ----

  /** A log as Raft delivers it: strictly increasing indices, every entry decodable, and every
      key one that Backend.Put or tokenKey admits. */
  ghost predicate LogOk(log: seq<LogEntry>) {
    && (forall i, j :: 0 <= i < j < |log| ==> log[i].index < log[j].index)
    && (forall i :: 0 <= i < |log| ==> Decodable(log[i].data) && ValidKey(log[i].data.value.key))
  }

  function Commands(log: seq<LogEntry>): (cs: seq<Command>)
    requires forall i :: 0 <= i < |log| ==> Decodable(log[i].data)
    ensures |cs| == |log|
  {
    seq(|log|, i requires 0 <= i < |log| && Decodable(log[i].data) => log[i].data.value)
  }

  /** The state machine, the position of the next entry Raft will deliver, and how many entries
      of the log the stored state reflects. */
  datatype Node = Node(fsm: State, next: nat, reflected: nat)

  datatype Step =
    | Deliver(ioError: bool)
    | Restart(from: nat)
    | Install(after: nat, snapshot: Storage.Snapshot)

  /** A restart may replay from any entry up to the one after last_applied. Without last_applied
      (a new or just-restored file) Raft replays from the snapshot's position. */
  predicate MayRestart(n: Node, from: nat) {
    if n.fsm.lastApplied.Some? then from <= n.reflected else from == n.reflected
  }

  ghost function Do(log: seq<LogEntry>, n: Node, step: Step): Node
    requires LogOk(log)
  {
    match step
    case Deliver(ioError) =>
      if n.next >= |log| then n
      else
        var effective := !n.fsm.failed && !ioError && !Skips(n.fsm, log[n.next]);
        Node(Applied(n.fsm, log[n.next], ioError).0, n.next + 1, if effective then n.next + 1 else n.reflected)
    case Restart(from) => if MayRestart(n, from) then Node(n.fsm.(failed := false), from, n.reflected) else n
    case Install(after, s) =>
      if after <= |log| && Storage.Describes(s, After(Commands(log), after))
      then Node(State(Storage.Restored(map[], s.lines).0, None, n.fsm.failed), after, after) else n
  }

  ghost function Run(log: seq<LogEntry>, n: Node, steps: seq<Step>): Node
    requires LogOk(log)
    decreases |steps|
  {
    if steps == [] then n else Run(log, Do(log, n, steps[0]), steps[1..])
  }

  ghost predicate Inv(log: seq<LogEntry>, n: Node)
    requires LogOk(log)
  {
    && n.next <= |log| && n.reflected <= |log|
    && n.fsm.kv == After(Commands(log), n.reflected)
    && (n.fsm.lastApplied.Some? ==> n.reflected > 0 && n.fsm.lastApplied.value == log[n.reflected - 1].index)
    && (!n.fsm.failed ==> n.next <= n.reflected)
    && (!n.fsm.failed && n.fsm.lastApplied.None? ==> n.next == n.reflected)
  }

  lemma {:induction false} KeysStayValid(log: seq<LogEntry>, n: nat)
    requires LogOk(log) && n <= |log|
    ensures forall k :: k in After(Commands(log), n) ==> ValidKey(k)
  {
    hide ValidKey;
    if n > 0 { KeysStayValid(log, n - 1); }
  }

  lemma DoInv(log: seq<LogEntry>, n: Node, step: Step)
    requires LogOk(log) && Inv(log, n)
    ensures Inv(log, Do(log, n, step))
  {
    hide ValidKey, Effect;
    match step
    case Deliver(_) =>
    case Restart(_) =>
    case Install(after, s) =>
      if Do(log, n, step) != n {
        var kv := After(Commands(log), after);
        KeysStayValid(log, after);
        Storage.SnapshotRoundTrip(s, kv);
      }
  }

  /** An entry delivered to a working node takes effect once, with the answer it would have had
      in a single uninterrupted application of the log. */
  lemma AnswersOnce(log: seq<LogEntry>, n: Node)
    requires LogOk(log) && Inv(log, n) && !n.fsm.failed && n.next < |log|
    ensures Skips(n.fsm, log[n.next]) <==> n.next < n.reflected
    ensures n.next == n.reflected ==> Applied(n.fsm, log[n.next], false).1 == ReplyAt(Commands(log), n.next)
  {
    hide ValidKey;
  }

  lemma {:induction false} RunInv(log: seq<LogEntry>, n: Node, steps: seq<Step>)
    requires LogOk(log) && Inv(log, n)
    ensures Inv(log, Run(log, n, steps))
    decreases |steps|
  {
    hide Inv, LogOk;
    if steps != [] {
      DoInv(log, n, steps[0]);
      RunInv(log, Do(log, n, steps[0]), steps[1..]);
    }
  }

  /** Whatever crashes, replays, I/O failures and restored snapshots a node goes through, its
      stored state is that of applying some prefix of the log once, in order; and a working node
      that has been delivered the whole log reflects all of it. */
  lemma ReplayConverges(log: seq<LogEntry>, steps: seq<Step>)
    requires LogOk(log)
    ensures var n := Run(log, Node(State(map[], None, false), 0, 0), steps);
            && n.reflected <= |log| && n.fsm.kv == After(Commands(log), n.reflected)
            && (!n.fsm.failed && n.next == |log| ==> n.fsm.kv == After(Commands(log), |log|))
  {
    RunInv(log, Node(State(map[], None, false), 0, 0), steps);
  }

  /** In particular every plain key holds what its last writer among those entries put, and is absent if
      that was a delete. */
  lemma LastWriterSurvives(log: seq<LogEntry>, steps: seq<Step>, k: Key)
    requires LogOk(log) && TokenOps(Commands(log)) && !IsTokenKey(k)
    ensures var n := Run(log, Node(State(map[], None, false), 0, 0), steps);
            && n.reflected <= |log|
            && (k in n.fsm.kv <==> LastPut(Commands(log), n.reflected, k).Some?)
            && (k in n.fsm.kv ==> n.fsm.kv[k] == LastPut(Commands(log), n.reflected, k).value)
  {
    hide IsTokenKey, Run;
    ReplayConverges(log, steps);
    PlainKeys(Commands(log), Run(log, Node(State(map[], None, false), 0, 0), steps).reflected, k);
  }

  /** An entry this build cannot read, or one whose transaction fails, changes no key and stops the node:
      it answers every later entry as failed until it restarts. */
  lemma FailureStops(s: State, l: LogEntry, ioError: bool, later: LogEntry, laterError: bool)
    requires !s.failed && (ioError || l.data.None? || l.data.value.version != 1 || l.data.value.op.Unknown?)
    ensures var t := Applied(s, l, ioError);
            && t.1 == Failed && t.0.kv == s.kv && t.0.lastApplied == s.lastApplied && t.0.failed
            && Applied(t.0, later, laterError) == (t.0, Failed)
  {}
}
