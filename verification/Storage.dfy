/** The in-memory backend, and what is built on its listing alone: walking a whole store, snapshots
    of it, and removing a subtree. */
module Storage {
  import opened Common
  import opened Keys
  import opened Listing

  type Value = seq<Byte>

  datatype Entry = Entry(key: Key, value: Value)

  class Backend {
    var data: map<Key, Value>

    constructor ()
      ensures data == map[]
    {
      data := map[];
    }

    method Get(key: Key) returns (r: Result<Option<Entry>>)
      ensures r == if !ValidKey(key) then InvalidKey
                   else Ok(if key in data then Some(Entry(key, data[key])) else None)
    {
      if !ValidKey(key) { return InvalidKey; }
      if key in data { return Ok(Some(Entry(key, data[key]))); }
      return Ok(None);
    }

    method Put(e: Entry) returns (ok: bool)
      modifies this
      ensures ok <==> ValidKey(e.key)
      ensures data == if ok then old(data)[e.key := e.value] else old(data)
    {
      ok := ValidKey(e.key);
      if ok { data := data[e.key := e.value]; }
    }

    method Delete(key: Key) returns (ok: bool)
      modifies this
      ensures ok <==> ValidKey(key)
      ensures data == if ok then old(data) - {key} else old(data)
    {
      ok := ValidKey(key);
      if ok { data := data - {key}; }
    }

    method List(prefix: Key) returns (r: Result<seq<Key>>)
      ensures IsAnswer(r, data.Keys, prefix)
    {
      r := MemoryList(data.Keys, prefix);
    }
  }

  // ---- walking ----

  ghost predicate AllValid(keys: set<Key>) { forall k :: k in keys ==> ValidKey(k) }

  function Under(keys: set<Key>, prefix: Key): set<Key> { set k | k in keys && prefix <= k }

  /** The keys that lead through one of the given children. */
  function Through(keys: set<Key>, prefix: Key, cs: set<Key>): set<Key> {
    set k | k in keys && ChildUnder(prefix, k).Some? && ChildUnder(prefix, k).value in cs
  }

  function KeysOf(log: seq<Entry>): set<Key> { set e | e in log :: e.key }

  /** The log visits exactly these keys of the store, each once and with its stored value. */
  ghost predicate Visits(log: seq<Entry>, data: map<Key, Value>, keys: set<Key>) {
    && (forall i, j :: 0 <= i < j < |log| ==> log[i].key != log[j].key)
    && (forall i :: 0 <= i < |log| ==> log[i].key in data && data[log[i].key] == log[i].value)
    && KeysOf(log) == keys
  }

  lemma VisitsNone(data: map<Key, Value>, keys: set<Key>, prefix: Key, children: seq<Key>)
    ensures Through(keys, prefix, Elements(children[..0])) == {}
    ensures Visits([], data, Through(keys, prefix, Elements(children[..0])))
  {}

  lemma VisitsOne(data: map<Key, Value>, e: Entry)
    requires e.key in data && data[e.key] == e.value
    ensures Visits([e], data, {e.key})
  {}

  lemma VisitsExtends(log: seq<Entry>, more: seq<Entry>, data: map<Key, Value>, a: set<Key>, b: set<Key>)
    requires Visits(log, data, a) && Visits(more, data, b) && a !! b
    ensures Visits(log + more, data, a + b)
  {
    forall i, j | 0 <= i < j < |log + more| ensures (log + more)[i].key != (log + more)[j].key {
      if i < |log| <= j {
        assert log[i] in log && more[j - |log|] in more;
        assert log[i].key in a && more[j - |log|].key in b;
      }
    }
    assert KeysOf(log + more) == KeysOf(log) + KeysOf(more) by {
      assert forall e :: e in log + more <==> e in log || e in more;
    }
  }

  /** One step along the children of a prefix covers exactly the keys through that child. */
  lemma ChildCovers(keys: set<Key>, prefix: Key, c: Key)
    requires AllValid(keys) && c in Children(keys, prefix)
    ensures EndsInSlash(c) ==>
              && Under(keys, prefix + c) == Through(keys, prefix, {c})
              && ValidPrefix(prefix + c)
              && exists k :: k in keys && |prefix + c| < |k|
    ensures !EndsInSlash(c) ==> Through(keys, prefix, {c}) == {prefix + c} && prefix + c in keys && ValidKey(prefix + c)
    ensures Through(keys, prefix, {c}) <= Under(keys, prefix)
  {
    hide ValidKey;
    var k :| k in keys && ChildUnder(prefix, k) == Some(c);
    ChildShape(prefix, k);
    assert forall x :: x in keys && ChildUnder(prefix, x).Some? ==> prefix <= x;
    hide ChildUnder, ValidPrefix;
    if EndsInSlash(c) {
      SubtreeIsValid(prefix, k);
      forall x | x in keys ensures prefix + c <= x <==> ChildUnder(prefix, x) == Some(c) { UnderChild(prefix, c, x); }
    } else {
      forall x | x in keys ensures x == prefix + c <==> ChildUnder(prefix, x) == Some(c) { IsLeafChild(prefix, c, x); }
    }
  }

  lemma ThroughAll(keys: set<Key>, prefix: Key)
    requires AllValid(keys) && ValidPrefix(prefix)
    ensures Through(keys, prefix, Children(keys, prefix)) == Under(keys, prefix)
  {
    forall k | k in Under(keys, prefix) ensures k in Through(keys, prefix, Children(keys, prefix)) {
      assert ValidKey(k);
      assert k != prefix;
      assert ChildUnder(prefix, k).value in Children(keys, prefix);
    }
  }

  lemma ThroughNext(keys: set<Key>, prefix: Key, children: seq<Key>, i: nat)
    requires StrictlySorted(children) && i < |children|
    ensures Through(keys, prefix, Elements(children[..i + 1]))
            == Through(keys, prefix, Elements(children[..i])) + Through(keys, prefix, {children[i]})
    ensures Through(keys, prefix, Elements(children[..i])) !! Through(keys, prefix, {children[i]})
  {
    assert children[..i + 1] == children[..i] + [children[i]];
    forall j | 0 <= j < i ensures children[j] != children[i] { LessTotal(children[i], children[i]); }
    assert children[i] !in children[..i];
  }

  /** walk, with a callback that appends to a log and refuses once the log holds `capacity`
      entries. It terminates, and it visits every entry below the prefix exactly once unless the
      callback refuses one. */
  method WalkUnder(b: Backend, prefix: Key, sofar: seq<Entry>, capacity: nat, ghost bound: nat)
    returns (log: seq<Entry>, ok: bool)
    requires AllValid(b.data.Keys) && ValidPrefix(prefix) && |sofar| <= capacity
    requires forall k :: k in b.data ==> |k| <= bound
    requires |prefix| <= bound
    ensures sofar <= log && |log| <= capacity
    ensures ok ==> Visits(log[|sofar|..], b.data, Under(b.data.Keys, prefix))
    ensures !ok ==> |log| == capacity
    ensures !ok ==> exists part :: part < Under(b.data.Keys, prefix) && Visits(log[|sofar|..], b.data, part)
    decreases bound - |prefix|
  {
    hide Visits, Through, Under, ValidKey, ChildUnder;
    ghost var keys := b.data.Keys;
    var listed := b.List(prefix);
    var children := listed.value;
    log, ok := sofar, true;
    var i := 0;
    VisitsNone(b.data, keys, prefix, children);
    assert log[|sofar|..] == [];
    hide StrictlySorted;
    while i < |children|
      invariant 0 <= i <= |children|
      invariant Through(keys, prefix, Elements(children[..i])) <= Under(keys, prefix)
      invariant sofar <= log && |log| <= capacity
      invariant Visits(log[|sofar|..], b.data, Through(keys, prefix, Elements(children[..i])))
    {
      var c := children[i];
      assert c in Children(keys, prefix);
      ChildCovers(keys, prefix, c);
      ThroughNext(keys, prefix, children, i);
      ghost var done := Through(keys, prefix, Elements(children[..i]));
      ghost var old_log := log;
      if EndsInSlash(c) {
        log, ok := WalkUnder(b, prefix + c, log, capacity, bound);
        assert log[|sofar|..] == old_log[|sofar|..] + log[|old_log|..];
        if !ok {
          ghost var part :| part < Under(keys, prefix + c) && Visits(log[|old_log|..], b.data, part);
          VisitsExtends(old_log[|sofar|..], log[|old_log|..], b.data, done, part);
          Partial(keys, prefix, done, part, Through(keys, prefix, {c}));
          return;
        }
        VisitsExtends(old_log[|sofar|..], log[|old_log|..], b.data, done, Under(keys, prefix + c));
      } else {
        var got := b.Get(prefix + c);
        var e := got.value.value;
        if |log| == capacity {
          assert prefix + c in Through(keys, prefix, {c});
          return log, false;
        }
        log := log + [e];
        assert log[|sofar|..] == old_log[|sofar|..] + [e];
        VisitsOne(b.data, e);
        VisitsExtends(old_log[|sofar|..], [e], b.data, done, {prefix + c});
      }
      i := i + 1;
    }
    assert children[..i] == children;
    assert Elements(children) == Children(keys, prefix);
    ThroughAll(keys, prefix);
  }

  lemma Partial(keys: set<Key>, prefix: Key, done: set<Key>, part: set<Key>, whole: set<Key>)
    requires part < whole && done !! whole && done <= Under(keys, prefix) && whole <= Under(keys, prefix)
    ensures done + part < Under(keys, prefix)
  {
    var k :| k in whole && k !in part;
    assert k !in done + part;
  }

  lemma {:induction false} LengthBound(keys: set<Key>) returns (n: nat)
    ensures forall k :: k in keys ==> |k| <= n
  {
    n := 0;
    if keys != {} {
      var k :| k in keys;
      var m := LengthBound(keys - {k});
      n := if m < |k| then |k| else m;
      assert forall x :: x in keys ==> x == k || x in keys - {k};
    }
  }

  lemma {:induction false} VisitsCount(log: seq<Entry>, data: map<Key, Value>, keys: set<Key>)
    requires Visits(log, data, keys)
    ensures |log| == |keys|
    decreases |log|
  {
    if log == [] {
      assert keys == {};
    } else {
      var init, last := log[..|log| - 1], log[|log| - 1];
      assert forall e :: e in log <==> e in init || e == last;
      assert KeysOf(init) == keys - {last.key} by {
        forall e | e in init ensures e.key != last.key { var i :| 0 <= i < |init| && init[i] == e; }
      }
      VisitsCount(init, data, keys - {last.key});
      assert last.key in keys;
    }
  }

  lemma {:induction false} ProperIsSmaller(part: set<Key>, keys: set<Key>)
    requires part < keys
    ensures |part| < |keys|
    decreases |part|
  {
    if part != {} {
      var k :| k in part;
      var left :| left in keys && left !in part;
      assert left in keys - {k} && left !in part - {k};
      ProperIsSmaller(part - {k}, keys - {k});
    }
  }

  /** A walk's log is complete exactly when it is as long as the store is large. */
  lemma CompleteIff(log: seq<Entry>, data: map<Key, Value>, part: set<Key>)
    requires Visits(log, data, part) && part <= data.Keys
    ensures |data| == |data.Keys|
    ensures part == data.Keys ==> |log| == |data|
    ensures part != data.Keys ==> |log| < |data|
  {
    VisitsCount(log, data, part);
    if part != data.Keys { ProperIsSmaller(part, data.Keys); }
  }

  /** Walk: complete unless the callback refuses, which it does exactly when the store holds more. */
  method Walk(b: Backend, capacity: nat) returns (log: seq<Entry>, ok: bool)
    requires AllValid(b.data.Keys)
    ensures |log| <= capacity
    ensures ok ==> Visits(log, b.data, b.data.Keys)
    ensures !ok ==> |log| == capacity && exists part :: part < b.data.Keys && Visits(log, b.data, part)
    ensures ok <==> |b.data| <= capacity
  {
    hide Visits;
    ghost var bound := LengthBound(b.data.Keys);
    log, ok := WalkUnder(b, [], [], capacity, bound);
    assert log[0..] == log;
    assert Under(b.data.Keys, []) == b.data.Keys;
    ghost var part :| part <= b.data.Keys && Visits(log, b.data, part) && (ok <==> part == b.data.Keys);
    CompleteIff(log, b.data, part);
  }

  // ---- snapshots ----

  const HEADER: string := "ubixvault-snapshot v1"

  /** A decoded line of a snapshot, or one that does not decode. */
  datatype Line = Good(entry: Entry) | Corrupt

  datatype Snapshot = Snapshot(header: string, lines: seq<Line>)

  function Lines(log: seq<Entry>): (r: seq<Line>)
    ensures |r| == |log| && forall i :: 0 <= i < |log| ==> r[i] == Good(log[i])
  {
    seq(|log|, i requires 0 <= i < |log| => Good(log[i]))
  }

  /** Write. `headerOk` and `flushOk` say whether the writer takes the header and the flush, `capacity` how
      many entries it takes in between. */
  method Write(b: Backend, headerOk: bool, capacity: nat, flushOk: bool) returns (s: Snapshot, ok: bool)
    requires AllValid(b.data.Keys)
    ensures ok <==> headerOk && |b.data| <= capacity && flushOk
    ensures ok ==> Describes(s, b.data)
    ensures s.header == if headerOk then HEADER else ""
  {
    if !headerOk { return Snapshot("", []), false; }
    var log;
    log, ok := Walk(b, capacity);
    s := Snapshot(HEADER, Lines(log));
    ok := ok && flushOk;
  }

  /** A snapshot of exactly this store: one line per entry, in some order. */
  ghost predicate Describes(s: Snapshot, data: map<Key, Value>) {
    s.header == HEADER && exists log :: s.lines == Lines(log) && Visits(log, data, data.Keys)
  }

  /** The store after putting the entries of the lines up to the first bad one. */
  function Restored(data: map<Key, Value>, lines: seq<Line>): (map<Key, Value>, bool)
    decreases |lines|
  {
    if lines == [] then (data, true)
    else if lines[0].Corrupt? || !ValidKey(lines[0].entry.key) then (data, false)
    else Restored(data[lines[0].entry.key := lines[0].entry.value], lines[1..])
  }

  /** Restore. Entries read before an error stay written. */
  method Restore(b: Backend, s: Snapshot) returns (ok: bool)
    modifies b
    ensures s.header != HEADER ==> !ok && b.data == old(b.data)
    ensures s.header == HEADER ==> (b.data, ok) == Restored(old(b.data), s.lines)
  {
    if s.header != HEADER { return false; }
    for i := 0 to |s.lines|
      invariant Restored(old(b.data), s.lines) == Restored(b.data, s.lines[i..])
    {
      assert s.lines[i..][1..] == s.lines[i + 1..];
      if s.lines[i].Corrupt? { return false; }
      var put := b.Put(s.lines[i].entry);
      if !put { return false; }
    }
    ok := true;
  }

  /** A restore succeeds exactly when every line decodes to an entry with a valid key. */
  lemma {:induction false} RestoredIff(data: map<Key, Value>, lines: seq<Line>)
    ensures Restored(data, lines).1 <==> forall i :: 0 <= i < |lines| ==> lines[i].Good? && ValidKey(lines[i].entry.key)
    decreases |lines|
  {
    hide ValidKey;
    if lines != [] {
      RestoredIff(if lines[0].Good? then data[lines[0].entry.key := lines[0].entry.value] else data, lines[1..]);
      assert forall i :: 0 < i < |lines| ==> lines[i] == lines[1..][i - 1];
    }
  }

  /** At the first line that does not, it stops with what the lines before it wrote. */
  lemma {:induction false} RestoreStops(data: map<Key, Value>, lines: seq<Line>, n: nat)
    requires n < |lines| && (lines[n].Corrupt? || !ValidKey(lines[n].entry.key))
    requires forall i :: 0 <= i < n ==> lines[i].Good? && ValidKey(lines[i].entry.key)
    ensures Restored(data, lines) == (Restored(data, lines[..n]).0, false)
    decreases n
  {
    hide ValidKey;
    if n > 0 {
      assert lines[..n][1..] == lines[1..][..n - 1];
      assert forall i :: 0 < i < |lines| ==> lines[i] == lines[1..][i - 1];
      RestoreStops(data[lines[0].entry.key := lines[0].entry.value], lines[1..], n - 1);
    }
  }

  /** A line overwrites what was stored at its key; the last of several wins. */
  lemma {:induction false} LastLineWins(data: map<Key, Value>, lines: seq<Line>, e: Entry)
    requires Restored(data, lines).1 && ValidKey(e.key)
    ensures Restored(data, lines + [Good(e)]) == (Restored(data, lines).0[e.key := e.value], true)
    decreases |lines|
  {
    hide ValidKey;
    if lines == [] {
      assert (lines + [Good(e)])[1..] == [];
    } else {
      assert (lines + [Good(e)])[1..] == lines[1..] + [Good(e)];
      LastLineWins(data[lines[0].entry.key := lines[0].entry.value], lines[1..], e);
    }
  }

  lemma {:induction false} RestoredEntries(start: map<Key, Value>, log: seq<Entry>, data: map<Key, Value>)
    requires forall i ::
               0 <= i < |log| ==> log[i].key in data && data[log[i].key] == log[i].value && ValidKey(log[i].key)
    ensures Restored(start, Lines(log)).1
    ensures var m := Restored(start, Lines(log)).0;
            && m.Keys == start.Keys + KeysOf(log)
            && forall k :: k in m ==> m[k] == if k in KeysOf(log) then data[k] else start[k]
    decreases |log|
  {
    if log != [] {
      var next := start[log[0].key := log[0].value];
      assert Lines(log)[1..] == Lines(log[1..]);
      assert KeysOf(log) == {log[0].key} + KeysOf(log[1..]) by {
        assert log == [log[0]] + log[1..];
      }
      RestoredEntries(next, log[1..], data);
    }
  }

  lemma LogRoundTrip(log: seq<Entry>, data: map<Key, Value>)
    requires Visits(log, data, data.Keys) && AllValid(data.Keys)
    ensures Restored(map[], Lines(log)) == (data, true)
  {
    hide ValidKey, Restored, Lines;
    RestoredEntries(map[], log, data);
    assert Restored(map[], Lines(log)).0 == data;
  }

  /** Restoring a written snapshot into an empty backend yields the same store. */
  lemma SnapshotRoundTrip(s: Snapshot, data: map<Key, Value>)
    requires Describes(s, data) && AllValid(data.Keys)
    ensures Restored(map[], s.lines) == (data, true)
  {
    hide ValidKey, Restored, Lines, Visits, AllValid;
    var log :| s.lines == Lines(log) && Visits(log, data, data.Keys);
    LogRoundTrip(log, data);
  }

  // ---- removing a subtree ----

  /** deleteTree: removes exactly the keys below the prefix. */
  method DeleteTree(b: Backend, prefix: Key, ghost bound: nat) returns (ok: bool)
    requires AllValid(b.data.Keys)
    requires (forall k :: k in b.data ==> |k| <= bound) && |prefix| <= bound
    modifies b
    ensures ok <==> ValidPrefix(prefix)
    ensures ok ==> b.data == old(b.data) - Under(old(b.data.Keys), prefix)
    ensures !ok ==> b.data == old(b.data)
    decreases bound - |prefix|
  {
    hide ValidKey, ChildUnder;
    ghost var was := b.data;
    ghost var keys := was.Keys;
    var listed := b.List(prefix);
    if listed.InvalidKey? { return false; }
    var children := listed.value;
    assert Elements(children[..0]) == {};
    assert Through(keys, prefix, {}) == {};
    hide Through, StrictlySorted;
    for i := 0 to |children|
      invariant b.data == was - Through(keys, prefix, Elements(children[..i]))
    {
      var c := children[i];
      assert c in Children(keys, prefix);
      ChildCovers(keys, prefix, c);
      ThroughNext(keys, prefix, children, i);
      ghost var done := Through(keys, prefix, Elements(children[..i]));
      if EndsInSlash(c) {
        var sub := DeleteTree(b, prefix + c, bound);
        assert Under((was - done).Keys, prefix + c) == Under(keys, prefix + c) - done;
      } else {
        var sub := b.Delete(prefix + c);
      }
      assert b.data == was - (done + Through(keys, prefix, {c}));
    }
    assert children[..|children|] == children;
    assert Elements(children) == Children(keys, prefix);
    ThroughAll(keys, prefix);
    ok := true;
  }

  /** tokenScope: the private prefix of one token, from the hash of its value. */
  function Scope(mount: Key, hash: Key): Key { mount + [SLASH] + hash + [SLASH] }

  /** No key lies in two tokens' cubbyholes. */
  lemma ScopesDisjoint(mount: Key, h: Key, g: Key, keys: set<Key>)
    requires |h| == |g| && h != g
    ensures Under(keys, Scope(mount, h)) !! Under(keys, Scope(mount, g))
  {
    var i :| 0 <= i < |h| && h[i] != g[i];
    var at := |mount| + 1 + i;
    assert Scope(mount, h)[at] == h[i] && Scope(mount, g)[at] == g[i];
  }

  /** A cubbyhole's scope holds exactly the paths below the token's own directory of the mount, and is a
      prefix storage accepts whenever that directory is a valid key. */
  lemma ScopeHolds(mount: Key, hash: Key, key: Key)
    ensures Scope(mount, hash) <= key <==> exists path :: key == mount + [47] + hash + [47] + path
    ensures ValidKey(mount + [47] + hash) ==> ValidPrefix(Scope(mount, hash))
  {
    hide ValidKey;
    var s := Scope(mount, hash);
    if s <= key { assert key == mount + [47] + hash + [47] + key[|s|..]; }
    assert s[..|s| - 1] == mount + [47] + hash;
  }

  /** Destroy: the token's own cubbyhole goes, and no other key is touched. */
  method Destroy(b: Backend, mount: Key, hash: Key) returns (ok: bool)
    requires AllValid(b.data.Keys)
    modifies b
    ensures ok <==> ValidPrefix(Scope(mount, hash))
    ensures ok ==> b.data == old(b.data) - Under(old(b.data.Keys), Scope(mount, hash))
    ensures !ok ==> b.data == old(b.data)
  {
    ghost var longest := LengthBound(b.data.Keys);
    ok := DeleteTree(b, Scope(mount, hash), longest + |Scope(mount, hash)|);
  }
}
