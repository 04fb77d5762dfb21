/** Token records with their parent index: revoking a token and everything it created. */
module TokenTree {
  import opened Common

  import opened Tokens

  /** What happened, in order: a token's cleanup succeeded, or its record was deleted. */
  datatype Event = Cleaned(id: Id) | Removed(hash: Hash)

  const MAX_DEPTH: nat := 64

  // ---- ancestry ----

  /** The ancestor n parent links up, where the records go that far. */
  function Up(rs: Records, h: Hash, n: nat): Option<Hash>
    decreases n
  {
    if n == 0 then Some(h)
    else if h in rs && rs[h].parent.Some? then Up(rs, rs[h].parent.value, n - 1)
    else None
  }

  ghost predicate Descends(rs: Records, h: Hash, root: Hash) { exists n: nat :: Up(rs, h, n) == Some(root) }

  /** The stored tokens of the tree below (and including) root. */
  ghost function Subtree(rs: Records, root: Hash): set<Hash> { set h | h in rs && Descends(rs, h, root) }

  lemma {:induction false} UpMonotone(rs: Records, gone: set<Hash>, h: Hash, n: nat)
    requires Up(rs - gone, h, n).Some?
    ensures Up(rs, h, n) == Up(rs - gone, h, n)
    decreases n
  {
    if n > 0 { UpMonotone(rs, gone, rs[h].parent.value, n - 1); }
  }

  lemma {:induction false} UpOnce(rs: Records, h: Hash, n: nat, c: Hash, root: Hash)
    requires Up(rs, h, n) == Some(c) && c in rs && rs[c].parent == Some(root)
    ensures Up(rs, h, n + 1) == Some(root)
    decreases n
  {
    if n > 0 { UpOnce(rs, rs[h].parent.value, n - 1, c, root); }
  }

  /** The last step of a chain to root goes through one of root's children. */
  lemma {:induction false} UpLast(rs: Records, h: Hash, n: nat, root: Hash) returns (c: Hash)
    requires n > 0 && Up(rs, h, n) == Some(root)
    ensures c in rs && rs[c].parent == Some(root) && Up(rs, h, n - 1) == Some(c)
    decreases n
  {
    if n == 1 { c := h; } else { c := UpLast(rs, rs[h].parent.value, n - 1, root); }
  }

  /** A set of tokens that contains every child of its members. */
  ghost predicate Closed(rs: Records, gone: set<Hash>) {
    forall x :: x in rs && rs[x].parent.Some? && rs[x].parent.value in gone ==> x in gone
  }

  /** Closed under children is closed under descendants: nobody below a member is left. */
  lemma {:induction false} NoSurvivors(rs: Records, gone: set<Hash>, h: Hash, n: nat, root: Hash)
    requires Closed(rs, gone) && Up(rs, h, n) == Some(root) && root in gone && h in rs
    ensures h in gone
    decreases n
  {
    if n > 1 {
      NoSurvivors(rs, gone, rs[h].parent.value, n - 1, root);
    }
  }

  lemma {:induction false} ChainSurvives(rs: Records, gone: set<Hash>, h: Hash, n: nat, root: Hash)
    requires Closed(rs, gone) && Up(rs, h, n) == Some(root) && h in rs && h !in gone
    ensures Up(rs - gone, h, n) == Some(root)
    decreases n
  {
    if n > 1 { ChainSurvives(rs, gone, rs[h].parent.value, n - 1, root); }
  }

  // ---- what a log of a revocation may look like ----

  function Gone(log: seq<Event>): set<Hash> { set e | e in log && e.Removed? :: e.hash }

  /** Every record deleted was there, was cleaned up before, and had lost all its children before;
      no record is deleted twice. */
  ghost predicate Orderly(rs: Records, log: seq<Event>) {
    forall i :: 0 <= i < |log| && log[i].Removed? ==>
      && log[i].hash in rs
      && log[i].hash !in Gone(log[..i])
      && Cleaned(rs[log[i].hash].id) in log[..i]
      && forall x :: x in rs && rs[x].parent == Some(log[i].hash) ==> x in Gone(log[..i])
  }

  lemma LogAppend(a: seq<Event>, b: seq<Event>, c: seq<Event>)
    ensures a + b + c == a + (b + c)
  {}

  lemma GoneAppend(log: seq<Event>, more: seq<Event>)
    ensures Gone(log + more) == Gone(log) + Gone(more)
  {
    assert forall e :: e in log + more <==> e in log || e in more;
  }

  /** At every point of an orderly log the deleted tokens are closed under descendants. */
  lemma {:induction false} OrderlyIsClosed(rs: Records, log: seq<Event>, i: nat)
    requires Orderly(rs, log) && i <= |log|
    ensures Closed(rs, Gone(log[..i]))
    decreases i
  {
    if i > 0 {
      OrderlyIsClosed(rs, log, i - 1);
      assert log[..i] == log[..i - 1] + [log[i - 1]];
      GoneAppend(log[..i - 1], [log[i - 1]]);
    }
  }

  /** The log took the records from `before` to `after` within the tree of root. */
  ghost predicate Outcome(before: Records, after: Records, log: seq<Event>, root: Hash) {
    Orderly(before, log) && after == before - Gone(log) && Gone(log) <= Subtree(before, root)
  }

  lemma OrderlyConcat(before: Records, l1: seq<Event>, l2: seq<Event>)
    requires Orderly(before, l1) && Orderly(before - Gone(l1), l2)
    ensures Orderly(before, l1 + l2)
  {
    var l := l1 + l2;
    OrderlyIsClosed(before, l1, |l1|);
    assert l1[..|l1|] == l1;
    forall i | 0 <= i < |l| && l[i].Removed?
      ensures && l[i].hash in before && l[i].hash !in Gone(l[..i]) && Cleaned(before[l[i].hash].id) in l[..i]
              && forall x :: x in before && before[x].parent == Some(l[i].hash) ==> x in Gone(l[..i])
    {
      if i < |l1| {
        assert l[..i] == l1[..i];
      } else {
        assert l[..i] == l1 + l2[..i - |l1|];
        GoneAppend(l1, l2[..i - |l1|]);
      }
    }
  }

  lemma SubtreeOfChild(before: Records, gone: set<Hash>, c: Hash, root: Hash)
    requires c in before && before[c].parent == Some(root)
    ensures Subtree(before - gone, c) <= Subtree(before, root)
  {
    forall h | h in Subtree(before - gone, c) ensures Descends(before, h, root) {
      var n: nat :| Up(before - gone, h, n) == Some(c);
      UpMonotone(before, gone, h, n);
      UpOnce(before, h, n, c, root);
    }
  }

  lemma OutcomeThen(before: Records, mid: Records, after: Records, l1: seq<Event>, l2: seq<Event>, root: Hash, c: Hash)
    requires Outcome(before, mid, l1, root) && Outcome(mid, after, l2, c)
    requires c in before && before[c].parent == Some(root)
    ensures Outcome(before, after, l1 + l2, root)
    ensures |Gone(l1 + l2)| == |Gone(l1)| + |Gone(l2)|
  {
    hide Subtree, Orderly;
    OrderlyConcat(before, l1, l2);
    GoneAppend(l1, l2);
    SubtreeOfChild(before, Gone(l1), c, root);
    SubtreeWithin(mid, c);
    assert Gone(l1) !! Gone(l2);
  }

  lemma SubtreeWithin(rs: Records, root: Hash)
    ensures Subtree(rs, root) <= rs.Keys
  {}

  lemma OutcomeCleaned(before: Records, after: Records, log: seq<Event>, root: Hash, id: Id)
    requires Outcome(before, after, log, root)
    ensures Outcome(before, after, log + [Cleaned(id)], root)
    ensures Gone(log + [Cleaned(id)]) == Gone(log)
  {
    hide Subtree;
    GoneAppend(log, [Cleaned(id)]);
    var l := log + [Cleaned(id)];
    forall i | 0 <= i < |l| && l[i].Removed? ensures l[..i] == log[..i] {}
  }

  /** Deleting the root last, once all its children are gone. */
  lemma OutcomeRoot(before: Records, after: Records, log: seq<Event>, root: Hash)
    requires Outcome(before, after, log, root) && root in after && Cleaned(before[root].id) in log
    requires forall x :: x in before && before[x].parent == Some(root) ==> x in Gone(log)
    ensures Outcome(before, after - {root}, log + [Removed(root)], root)
    ensures Gone(log + [Removed(root)]) == Gone(log) + {root} && root !in Gone(log)
  {
    assert Gone([Removed(root)]) == {root};
    hide Subtree, Orderly, Gone;
    GoneAppend(log, [Removed(root)]);
    RootInSubtree(before, root);
    OrderlyRoot(before, log, root);
  }

  lemma RootInSubtree(rs: Records, root: Hash)
    requires root in rs
    ensures root in Subtree(rs, root)
  {
    assert Up(rs, root, 0) == Some(root);
  }

  lemma OrderlyRoot(before: Records, log: seq<Event>, root: Hash)
    requires Orderly(before, log) && root in before && root !in Gone(log) && Cleaned(before[root].id) in log
    requires forall x :: x in before && before[x].parent == Some(root) ==> x in Gone(log)
    ensures Orderly(before, log + [Removed(root)])
  {
    var l := log + [Removed(root)];
    assert l[..|log|] == log;
    forall i | 0 <= i < |log| ensures l[..i] == log[..i] {}
    hide Gone;
  }

  /** Once root is gone with every child, the whole tree is. */
  lemma WholeTreeGone(before: Records, log: seq<Event>, root: Hash)
    requires Orderly(before, log)
    requires root in before ==> root in Gone(log)
    requires forall x :: x in before && before[x].parent == Some(root) ==> x in Gone(log)
    ensures Subtree(before, root) <= Gone(log)
  {
    OrderlyIsClosed(before, log, |log|);
    assert log[..|log|] == log;
    hide Orderly, Gone, Closed;
    forall h | h in Subtree(before, root) ensures h in Gone(log) {
      var n: nat :| Up(before, h, n) == Some(root);
      InGone(before, Gone(log), h, n, root);
    }
  }

  lemma InGone(before: Records, gone: set<Hash>, h: Hash, n: nat, root: Hash)
    requires Closed(before, gone) && h in before && Up(before, h, n) == Some(root)
    requires root in before ==> root in gone
    requires forall x :: x in before && before[x].parent == Some(root) ==> x in gone
    ensures h in gone
  {
    if n > 0 {
      var c := UpLast(before, h, n, root);
      hide Up;
      NoSurvivors(before, gone, h, n - 1, c);
    }
  }

  // ---- the store ----

  /** Every record sits at its own hash and every child is indexed under its parent; an index
      entry may outlive its child, but never names another parent's. */
  ghost predicate Consistent(rs: Records, index: set<(Hash, Hash)>) {
    && (forall h :: h in rs ==> Hash(rs[h].id) == h)
    && (forall h :: h in rs && rs[h].parent.Some? ==> (rs[h].parent.value, h) in index)
    && (forall p, h :: (p, h) in index && h in rs ==> rs[h].parent == Some(p))
  }

  lemma ConsistentWithout(rs: Records, index: set<(Hash, Hash)>, gone: set<Hash>, p: Hash, c: Hash)
    requires Consistent(rs, index)
    ensures Consistent(rs - gone, index)
    ensures c !in rs ==> Consistent(rs, index - {(p, c)})
  {}

  /** Some stored token lies n links below root. */
  ghost predicate Reaches(rs: Records, root: Hash, n: nat) {
    exists x :: x in rs && Up(rs, x, n) == Some(root)
  }

  lemma ReachesFurther(before: Records, gone: set<Hash>, c: Hash, root: Hash, n: nat)
    requires c in before && before[c].parent == Some(root) && Reaches(before - gone, c, n)
    ensures Reaches(before, root, n + 1)
  {
    var x :| x in before - gone && Up(before - gone, x, n) == Some(c);
    UpMonotone(before, gone, x, n);
    UpOnce(before, x, n, c, root);
  }

  lemma OutcomeNothing(rs: Records, root: Hash)
    ensures Outcome(rs, rs, [], root) && Gone([]) == {}
  {
    assert rs - {} == rs;
  }

  /** Whether the i-th coming storage operation fails. */
  predicate Fault(faults: seq<bool>, i: nat) { i < |faults| && faults[i] }

  /** The record of a new child was written, but neither its index entry nor its removal. */
  predicate LeavesStray(faults: seq<bool>) { !Fault(faults, 0) && Fault(faults, 1) && Fault(faults, 2) }

  /** The linked records are the stored ones, some without their parent. */
  ghost predicate Agree(records: Records, tree: Records) {
    && records.Keys == tree.Keys
    && forall h :: h in tree ==> tree[h] == records[h] || tree[h] == records[h].(parent := None)
  }

  lemma AgreeKeys(records: Records, tree: Records)
    requires Agree(records, tree)
    ensures records.Keys == tree.Keys
  {}

  lemma AgreeAt(records: Records, tree: Records, h: Hash, now: int)
    requires Agree(records, tree)
    ensures h in records <==> h in tree
    ensures h in tree ==> records[h].id == tree[h].id && (Expired(records[h], now) <==> Expired(tree[h], now))
  {}

  lemma AgreeWithout(records: Records, tree: Records, h: Hash)
    requires Agree(records, tree)
    ensures Agree(records - {h}, tree - {h})
  {}

  lemma AgreeKept(records: Records, tree: Records, index: set<(Hash, Hash)>, h: Hash, u: Token)
    requires Agree(records, tree) && Consistent(tree, index) && h in records
    requires u.id == records[h].id && u.parent == records[h].parent
    ensures h in tree && var t := u.(parent := tree[h].parent);
            Agree(records[h := u], tree[h := t]) && Consistent(tree[h := t], index)
  {}

  lemma AgreeAdds(records: Records, tree: Records, index: set<(Hash, Hash)>, t: Token, p: Hash, h: Hash)
    requires Agree(records, tree) && Consistent(tree, index)
    requires h !in records && (forall q :: (q, h) !in index) && Hash(t.id) == h && t.parent == Some(p)
    ensures Agree(records[h := t], tree[h := t.(parent := None)]) && Consistent(tree[h := t.(parent := None)], index)
    ensures Agree(records[h := t], tree[h := t]) && Consistent(tree[h := t], index + {(p, h)})
    ensures h !in tree && records[h := t] - {h} == records && tree[h := t.(parent := None)] - {h} == tree
    ensures tree[h := t.(parent := None)][h := t] == tree[h := t]
  {}

  /** What the index links is all there is to `tree`: a child keeps its parent exactly when indexed. */
  lemma TreeIsLinked(records: Records, tree: Records, index: set<(Hash, Hash)>, h: Hash)
    requires Agree(records, tree) && Consistent(tree, index) && h in records && records[h].parent.Some?
    ensures tree[h].parent == if (records[h].parent.value, h) in index then records[h].parent else None
  {}

  class Store {
    var records: Records
    var index: set<(Hash, Hash)>
    var faults: seq<bool>  // whether each coming storage operation fails; none fails past the end
    var log: seq<Event>
    var maxTTL: int
    ghost var tree: Records  // the records as the index links them: an unindexed child has no parent here

    constructor (records: Records, index: set<(Hash, Hash)>, faults: seq<bool>, maxTTL: int, ghost tree: Records)
      requires Consistent(tree, index) && Agree(records, tree) && Acyclic(tree)
      ensures this.records == records && this.index == index && this.faults == faults && this.maxTTL == maxTTL
      ensures log == [] && this.tree == tree && Valid()
    {
      this.records, this.index, this.faults, this.log, this.maxTTL := records, index, faults, [], maxTTL;
      this.tree := tree;
    }

    ghost predicate Valid()
      reads this
    {
      Consistent(tree, index) && Agree(records, tree) && Acyclic(tree)
    }

    /** One storage operation: does it fail? */
    method Fails() returns (failed: bool)
      modifies this`faults
      ensures failed == Fault(old(faults), 0)
      ensures faults == if old(faults) == [] then [] else old(faults)[1..]
    {
      failed := false;
      if faults != [] { failed, faults := faults[0], faults[1..]; }
    }

    /** CreateChild, with the fresh ID it generated and its two clock readings. The record is the first
        storage operation, the index entry the second, and removing the record again the third. */
    method CreateChild(parent: Token, id: Id, ttl: int, asked: int, now: int) returns (r: Option<Token>)
      requires Valid()
      requires Hash(id) !in records && id != parent.id && forall p :: (p, Hash(id)) !in index && (Hash(id), p) !in index
      modifies this
      ensures Valid()
      ensures var t, p, f := ChildOf(maxTTL, parent, id, ttl, asked, now), Hash(parent.id), old(faults);
              if !Fault(f, 0) && !Fault(f, 1) then
                && r == Some(t) && index == old(index) + {(p, Hash(id))}
                && records == old(records)[Hash(id) := t] && tree == old(tree)[Hash(id) := t]
              else
                && r.None? && index == old(index)
                && if LeavesStray(f) then
                     && records == old(records)[Hash(id) := t]
                     && tree == old(tree)[Hash(id) := t.(parent := None)]
                   else records == old(records) && tree == old(tree)
      ensures maxTTL == old(maxTTL) && log == old(log)
    {
      hide Consistent, Agree, Acyclic;
      var t := ChildOf(maxTTL, parent, id, ttl, asked, now);
      ghost var h := Hash(id);
      AgreeAdds(records, tree, index, t, Hash(parent.id), h);
      NewChildIsLeaf(tree, index, h);
      AcyclicGrows(tree, h, t);
      AcyclicGrows(tree, h, t.(parent := None));
      var failed := Fails();
      if failed { return None; }
      records, tree := records[Hash(id) := t], tree[h := t.(parent := None)];
      failed := Fails();
      if failed {
        failed := Fails();
        if !failed {
          records, tree := records - {Hash(id)}, tree - {h};
          assert records == old(records) && tree == old(tree);
        }
        return None;
      }
      index, tree := index + {(Hash(parent.id), Hash(id))}, tree[h := t];
      assert tree == old(tree)[h := t];
      r := Some(t);
    }

    /** Renew. `looked` is the clock at the lookup, `now` the one the new expiry counts from. */
    method Renew(id: Id, ttl: int, looked: int, now: int) returns (r: Option<Token>)
      requires Valid()
      modifies this
      ensures Valid() && index == old(index)
      ensures match r
              case Some(u) =>
                && Hash(id) in old(records) && var t := old(records)[Hash(id)];
                && (t.expires.None? || looked <= t.expires.value)
                && u == Renewed(maxTTL, old(records)[Hash(id)], ttl, now) && records == old(records)[Hash(id) := u]
              case None => records == old(records)
      ensures old(faults) == [] && Hash(id) in old(records) ==>
                var t := old(records)[Hash(id)]; r.Some? <==> t.expires.None? || looked <= t.expires.value
      ensures maxTTL == old(maxTTL) && log == old(log)
    {
      hide Acyclic, Agree, Consistent;
      var failed := Fails();
      if failed || Hash(id) !in records { return None; }
      var t := records[Hash(id)];
      if Expired(t, looked) { return None; }
      if t.expires.None? { return Some(t); }
      var ceiling := MaxExpiry(maxTTL, t);
      var u := t.(ceiling := ceiling, expires := Some(now + TTL(ttl)));
      if u.expires.value > ceiling.value { u := u.(expires := ceiling); }
      failed := Fails();
      if failed { return None; }
      AgreeKeys(records, tree);
      AgreeKept(records, tree, index, Hash(id), u);
      AcyclicKept(tree, Hash(id), u.(parent := tree[Hash(id)].parent));
      records := records[Hash(id) := u];
      tree := tree[Hash(id) := u.(parent := tree[Hash(id)].parent)];
      r := Some(u);
    }

    /** SweepExpired, over a list of names read before any tree is deleted. `l` is what it added to
        the log; `clean` says that no operation, cleanup or tree failed on the way. Only tokens that
        had expired, or descend from one that had, are removed; a clean sweep without a limit
        removes all of them. */
    method SweepExpired(now: int, limit: int, cleanup: Id -> bool)
      returns (removed: nat, ghost clean: bool, ghost l: seq<Event>)
      requires Valid()
      modifies this
      ensures Valid()
      ensures log == old(log) + l && Swept(old(tree), tree, l, now)
      ensures removed == |Gone(l)|
      ensures clean && limit <= 0 ==> Gone(l) == Doomed(old(tree), now)
      ensures old(faults) == [] && (forall i :: cleanup(i)) && !TooDeep(old(tree), now) ==> clean
    {
      ghost var before := tree;
      removed, clean, l := 0, false, [];
      SweptNothing(before, now);
      hide Orderly, Subtree, Gone, Up, Agree, Consistent, Reaches, Outcome, Acyclic, Doomed, Swept, TooDeep;
      assert log == old(log) + l;
      var failed := Fails();
      if failed { return; }
      clean := true;
      AgreeKeys(records, tree);
      var todo := records.Keys;
      assert Visited(before, now, todo, Gone(l));
      hide Visited;
      while todo != {}
        invariant Valid()
        invariant log == old(log) + l && Swept(before, tree, l, now) && removed == |Gone(l)|
        invariant clean ==> Visited(before, now, todo, Gone(l))
        invariant old(faults) == [] ==> faults == []
        invariant old(faults) == [] && (forall i :: cleanup(i)) && !TooDeep(before, now) ==> clean
      {
        if limit > 0 && removed >= limit { break; }
        var name :| name in todo;
        failed := Fails();
        if failed {
          clean := false;
          return;
        }
        var n;
        ghost var more, sub;
        n, sub, more := SweepOne(name, now, cleanup, before, l);
        LogAppend(old(log), l, more);
        if clean && sub { VisitedStep(before, now, todo, Gone(l), Gone(l + more), name); }
        removed, l, clean := removed + n, l + more, clean && sub;
        todo := todo - {name};
      }
      if clean && todo == {} { SweptAll(before, tree, l, now); }
    }

    /** One turn of the sweep: a token that is still stored and has expired goes with its tree. */
    method SweepOne(name: Hash, now: int, cleanup: Id -> bool, ghost before: Records, ghost l: seq<Event>)
      returns (removed: nat, ghost clean: bool, ghost more: seq<Event>)
      requires Valid() && Swept(before, tree, l, now)
      modifies this
      ensures Valid()
      ensures log == old(log) + more && Swept(before, tree, l + more, now)
      ensures |Gone(l + more)| == |Gone(l)| + removed && Gone(l) <= Gone(l + more)
      ensures clean && name in before && Expired(before[name], now) ==> name in Gone(l + more)
      ensures old(faults) == [] ==> faults == []
      ensures old(faults) == [] && (forall i :: cleanup(i)) && !TooDeep(before, now) ==> clean
    {
      hide Orderly, Subtree, Gone, Up, Agree, Consistent, Reaches, Outcome, Acyclic, Doomed, Swept, TooDeep;
      removed, clean, more := 0, true, [];
      assert l + more == l && log == old(log) + more;
      SweptKeys(before, tree, l, now, name);
      AgreeAt(records, tree, name, now);
      if name in records && Expired(records[name], now) {
        ghost var mid := tree;
        RecordAtHash(tree, index, name);
        var ok;
        removed, ok, more := RevokeTree(records[name].id, name, cleanup, 0);
        clean := ok;
        SweptThen(before, mid, tree, l, more, now, name, ok);
      }
    }

    /** revokeTree. `l` is what this call added to the log. Whether it succeeds or stops at a
        failed operation, a failed cleanup or the depth limit, the tokens deleted so far were
        cleaned up first and left no descendant behind. A success deletes exactly the tree. */
    method RevokeTree(id: Id, hash: Hash, cleanup: Id -> bool, depth: nat)
      returns (revoked: nat, ok: bool, ghost l: seq<Event>)
      requires Valid() && hash == Hash(id)
      requires depth <= MAX_DEPTH + 1 && (depth == MAX_DEPTH + 1 ==> hash in tree)
      modifies this
      ensures Valid()
      ensures log == old(log) + l && Outcome(old(tree), tree, l, hash)
      ensures revoked == |Gone(l)|
      ensures ok ==> Gone(l) == Subtree(old(tree), hash)
      ensures old(faults) == [] ==> faults == []
      ensures !ok && old(faults) == [] && (forall i :: cleanup(i)) ==> Reaches(old(tree), hash, MAX_DEPTH + 1 - depth)
      ensures ok ==> !Reaches(old(tree), hash, MAX_DEPTH + 1 - depth)
      decreases MAX_DEPTH + 1 - depth, 2
    {
      hide Orderly, Subtree, Gone, Up, Agree, Consistent, Reaches, Outcome, Acyclic;
      ghost var before := tree;
      if depth > MAX_DEPTH {
        OutcomeNothing(before, hash);
        ReachesItself(before, hash);
        revoked, ok, l := 0, false, [];
        assert log == old(log) + l;
        return;
      }
      revoked, ok, l := RevokeChildren(hash, cleanup, depth);
      if ok {
        var self;
        ghost var more;
        self, ok, more := RevokeSelf(id, hash, cleanup, before, l);
        l := l + more;
        revoked := revoked + self;
      }
    }

    /** The first half of revokeTree: every indexed child's tree, then its index entry. */
    method RevokeChildren(hash: Hash, cleanup: Id -> bool, depth: nat)
      returns (revoked: nat, ok: bool, ghost l: seq<Event>)
      requires Valid() && depth <= MAX_DEPTH
      modifies this
      ensures Valid()
      ensures log == old(log) + l && Outcome(old(tree), tree, l, hash)
      ensures revoked == |Gone(l)|
      ensures ok ==> forall x :: x in old(tree) && old(tree)[x].parent == Some(hash) ==> x in Gone(l)
      ensures old(faults) == [] ==> faults == []
      ensures !ok && old(faults) == [] && (forall i :: cleanup(i)) ==> Reaches(old(tree), hash, MAX_DEPTH + 1 - depth)
      ensures ok ==> !Reaches(old(tree), hash, MAX_DEPTH + 1 - depth)
      decreases MAX_DEPTH + 1 - depth, 1
    {
      ghost var before := tree;
      revoked, ok, l := 0, false, [];
      OutcomeNothing(before, hash);
      hide Orderly, Subtree, Gone, Up, Agree, Consistent, Reaches, Outcome, Acyclic;
      assert log == old(log) + l;
      var failed := Fails();
      if failed { return; }
      var todo := set e | e in index && e.0 == hash :: e.1;
      ListsChildren(before, index, hash, Gone(l), todo);
      ShallowStart(before, hash, Gone(l), todo, MAX_DEPTH - depth);
      hide Visiting;
      while todo != {}
        invariant Valid()
        invariant log == old(log) + l && Outcome(before, tree, l, hash) && revoked == |Gone(l)|
        invariant Visiting(before, hash, Gone(l), todo, MAX_DEPTH - depth)
        invariant old(faults) == [] ==> faults == []
      {
        var c :| c in todo;
        VisitingChild(before, hash, Gone(l), todo, MAX_DEPTH - depth, c);
        var n, sub;
        ghost var more;
        n, sub, more := RevokeChild(hash, c, cleanup, depth, before, l);
        LogAppend(old(log), l, more);
        if sub { VisitingStep(before, hash, Gone(l), Gone(l + more), todo, MAX_DEPTH - depth, c); }
        revoked, l := revoked + n, l + more;
        if !sub { return; }
        todo := todo - {c};
      }
      VisitingEnd(before, hash, Gone(l), MAX_DEPTH - depth);
      ok := true;
    }

    /** One turn of that loop: the child's tree if it is still stored, then its index entry. */
    method RevokeChild(hash: Hash, c: Hash, cleanup: Id -> bool, depth: nat, ghost before: Records, ghost l: seq<Event>)
      returns (revoked: nat, ok: bool, ghost more: seq<Event>)
      requires Valid() && depth <= MAX_DEPTH && Outcome(before, tree, l, hash)
      requires c in before ==> before[c].parent == Some(hash)
      requires Acyclic(before) && (c in before ==> Subtree(before, c) !! Gone(l))
      modifies this
      ensures Valid()
      ensures log == old(log) + more && Outcome(before, tree, l + more, hash)
      ensures |Gone(l + more)| == |Gone(l)| + revoked && Gone(l) <= Gone(l + more)
      ensures ok && c in before ==> c in Gone(l + more)
      ensures if c in before then Gone(l + more) <= Gone(l) + Subtree(before, c) else Gone(l + more) == Gone(l)
      ensures ok && c in before ==> !Reaches(before, c, MAX_DEPTH - depth)
      ensures old(faults) == [] ==> faults == []
      ensures !ok && old(faults) == [] && (forall i :: cleanup(i)) ==> Reaches(before, hash, MAX_DEPTH + 1 - depth)
      decreases MAX_DEPTH + 1 - depth, 0
    {
      hide Orderly, Subtree, Gone, Up, Agree, Consistent, Reaches, Outcome, Acyclic;
      revoked, ok, more := 0, false, [];
      assert l + more == l && log == old(log) + more;
      var failed := Fails();
      if failed { return; }
      OutcomeKeys(before, tree, l, hash, c);
      if c in before { RootInSubtree(before, c); }
      AgreeAt(records, tree, c, 0);
      if c in records {
        RecordAtHash(tree, index, c);
        ghost var mid := tree;
        revoked, ok, more := RevokeTree(records[c].id, c, cleanup, depth + 1);
        ChildRevoked(before, mid, tree, l, more, hash, c, ok, MAX_DEPTH - depth);
        StillShallow(before, mid, l, hash, c, MAX_DEPTH - depth);
        if !ok { return; }
        OutcomeKeys(before, tree, l + more, hash, c);
        ok := false;
      }
      failed := Fails();
      if failed { return; }
      ConsistentWithout(tree, index, {}, hash, c);
      index := index - {(hash, c)};
      ok := true;
    }

    /** The second half of revokeTree: clean up after the token, then delete its record. */
    method RevokeSelf(id: Id, hash: Hash, cleanup: Id -> bool, ghost before: Records, ghost l: seq<Event>)
      returns (revoked: nat, ok: bool, ghost more: seq<Event>)
      requires Valid() && hash == Hash(id) && Outcome(before, tree, l, hash)
      requires forall x :: x in before && before[x].parent == Some(hash) ==> x in Gone(l)
      modifies this
      ensures Valid()
      ensures log == old(log) + more && Outcome(before, tree, l + more, hash)
      ensures |Gone(l + more)| == |Gone(l)| + revoked
      ensures ok ==> Gone(l + more) == Subtree(before, hash)
      ensures old(faults) == [] ==> faults == []
      ensures old(faults) == [] && (forall i :: cleanup(i)) ==> ok
      decreases 0, 0
    {
      hide Orderly, Subtree, Gone, Up, Agree, Consistent, Acyclic;
      revoked, ok, more := 0, false, [];
      assert l + more == l && log == old(log) + more;
      var failed := Fails();
      if failed { return; }
      AgreeAt(records, tree, hash, 0);
      if hash !in records {
        WholeTreeGone(before, l, hash);
        ok := true;
        return;
      }
      var t := records[hash];
      RecordAtHash(tree, index, hash);
      if !cleanup(id) { return; }
      OutcomeCleaned(before, tree, l, hash, id);
      log, more := log + [Cleaned(id)], [Cleaned(id)];
      failed := Fails();
      if failed { return; }
      OutcomeRoot(before, tree, l + more, hash);
      ConsistentWithout(tree, index, {hash}, hash, hash);
      AgreeWithout(records, tree, hash);
      AcyclicShrinks(tree, {hash});
      records, tree := records - {hash}, tree - {hash};
      log, more := log + [Removed(hash)], more + [Removed(hash)];
      assert l + more == l + [Cleaned(id)] + [Removed(hash)];
      WholeTreeGone(before, l + more, hash);
      if t.parent.Some? {
        failed := Fails(); // best effort: a stale index entry is skipped later
        if !failed {
          ConsistentWithout(tree, index, {}, t.parent.value, hash);
          index := index - {(t.parent.value, hash)};
        }
      }
      revoked, ok := 1, true;
    }
  }

  lemma OutcomeKeys(before: Records, after: Records, log: seq<Event>, root: Hash, c: Hash)
    requires Outcome(before, after, log, root)
    ensures c in after ==> c in before && after[c] == before[c]
    ensures c in before ==> (c in Gone(log) <==> c !in after)
  {
    hide Orderly, Subtree, Gone;
  }

  /** A child's tree, added to what was revoked before it. */
  lemma ChildRevoked(before: Records, mid: Records, after: Records, l: seq<Event>, more: seq<Event>, root: Hash,
                     c: Hash, ok: bool, n: nat)
    requires Outcome(before, mid, l, root) && Outcome(mid, after, more, c)
    requires c in mid && c in before && before[c].parent == Some(root)
    requires ok ==> Gone(more) == Subtree(mid, c)
    ensures Outcome(before, after, l + more, root) && |Gone(l + more)| == |Gone(l)| + |Gone(more)|
    ensures Gone(l) <= Gone(l + more) <= Gone(l) + Subtree(before, c) && (ok ==> c in Gone(l + more))
    ensures Reaches(mid, c, n) ==> Reaches(before, root, n + 1)
  {
    hide Orderly, Subtree, Gone, Up, Reaches;
    OutcomeThen(before, mid, after, l, more, root, c);
    GoneAppend(l, more);
    RootInSubtree(mid, c);
    SubtreeShrinks(before, Gone(l), c);
    if Reaches(mid, c, n) { ReachesFurther(before, Gone(l), c, root, n); }
  }

  // ---- what holds at every moment of a revocation ----

  /** After any prefix of an orderly log, in particular where a failure or a crash stopped it, no
      deleted token has a surviving descendant and every deleted token was cleaned up. */
  lemma NoOrphans(rs: Records, log: seq<Event>, i: nat, h: Hash, x: Hash)
    requires Orderly(rs, log) && i <= |log| && h in Gone(log[..i]) && x in rs && Descends(rs, x, h)
    ensures x in Gone(log[..i]) && h in rs && Cleaned(rs[h].id) in log[..i]
  {
    OrderlyIsClosed(rs, log, i);
    var n: nat :| Up(rs, x, n) == Some(h);
    NoSurvivors(rs, Gone(log[..i]), x, n, h);
    var j :| 0 <= j < i && log[..i][j] == Removed(h);
    assert log[j] == Removed(h);
    assert forall e :: e in log[..j] ==> e in log[..i];
  }

  /** A child left unindexed is in no tree but its own, so revoking its parent, or anyone above, leaves
      it behind. */
  lemma StraySurvives(before: Records, after: Records, log: seq<Event>, root: Hash, stray: Hash)
    requires Outcome(before, after, log, root) && stray in before && before[stray].parent.None? && stray != root
    ensures stray !in Subtree(before, root) && stray in after
  {
    hide Orderly, Gone;
    OutcomeKeys(before, after, log, root, stray);
  }

  // ---- sweeping ----

  /** The tokens an expired one takes with it: itself and all it created, directly or not. */
  ghost function Doomed(rs: Records, now: int): set<Hash> {
    set h | h in rs && exists e :: e in rs && Expired(rs[e], now) && Descends(rs, h, e)
  }

  /** Some expired token's tree is deeper than revokeTree descends. */
  ghost predicate TooDeep(rs: Records, now: int) {
    exists e :: e in rs && Expired(rs[e], now) && Reaches(rs, e, MAX_DEPTH + 1)
  }

  ghost predicate Swept(before: Records, after: Records, log: seq<Event>, now: int) {
    Orderly(before, log) && after == before - Gone(log) && Gone(log) <= Doomed(before, now)
  }

  lemma SweptNothing(rs: Records, now: int)
    ensures Swept(rs, rs, [], now) && Gone([]) == {}
  {
    assert rs - {} == rs;
  }

  lemma SweptKeys(before: Records, after: Records, log: seq<Event>, now: int, h: Hash)
    requires Swept(before, after, log, now)
    ensures h in after ==> h in before && after[h] == before[h]
    ensures h in before && h !in after ==> h in Gone(log)
  {
    hide Orderly, Gone, Doomed;
  }

  lemma SweptThen(before: Records, mid: Records, after: Records, l: seq<Event>, more: seq<Event>, now: int, e: Hash,
                  ok: bool)
    requires Swept(before, mid, l, now) && Outcome(mid, after, more, e)
    requires e in mid && Expired(mid[e], now) && (ok ==> Gone(more) == Subtree(mid, e))
    ensures Swept(before, after, l + more, now) && |Gone(l + more)| == |Gone(l)| + |Gone(more)|
    ensures Gone(l) <= Gone(l + more) && (ok ==> e in Gone(l + more))
    ensures Reaches(mid, e, MAX_DEPTH + 1) ==> TooDeep(before, now)
  {
    hide Orderly, Gone, Subtree, Doomed, Reaches, TooDeep;
    OrderlyConcat(before, l, more);
    GoneAppend(l, more);
    RootInSubtree(mid, e);
    SubtreeWithin(mid, e);
    SubtreeShrinks(before, Gone(l), e);
    SubtreeDoomed(before, now, e);
    assert Gone(l) !! Gone(more);
    if Reaches(mid, e, MAX_DEPTH + 1) { DeepBefore(before, Gone(l), now, e); }
  }

  lemma SubtreeDoomed(rs: Records, now: int, e: Hash)
    requires e in rs && Expired(rs[e], now)
    ensures Subtree(rs, e) <= Doomed(rs, now)
  {
    hide Descends;
  }

  lemma DeepBefore(rs: Records, gone: set<Hash>, now: int, e: Hash)
    requires e in rs && Expired(rs[e], now) && Reaches(rs - gone, e, MAX_DEPTH + 1)
    ensures TooDeep(rs, now)
  {
    var x :| x in rs - gone && Up(rs - gone, x, MAX_DEPTH + 1) == Some(e);
    UpMonotone(rs, gone, x, MAX_DEPTH + 1);
    hide Up;
    assert Reaches(rs, e, MAX_DEPTH + 1);
  }

  /** Every expired token not on the list any more has been deleted. */
  ghost predicate Visited(rs: Records, now: int, todo: set<Hash>, gone: set<Hash>) {
    forall h :: h in rs && Expired(rs[h], now) && h !in todo ==> h in gone
  }

  lemma VisitedStep(rs: Records, now: int, todo: set<Hash>, gone: set<Hash>, more: set<Hash>, name: Hash)
    requires Visited(rs, now, todo, gone) && gone <= more
    requires name in rs && Expired(rs[name], now) ==> name in more
    ensures Visited(rs, now, todo - {name}, more)
  {}

  lemma SweptAll(before: Records, after: Records, l: seq<Event>, now: int)
    requires Swept(before, after, l, now)
    requires Visited(before, now, {}, Gone(l))
    ensures Gone(l) == Doomed(before, now)
  {
    OrderlyIsClosed(before, l, |l|);
    assert l[..|l|] == l;
    hide Orderly, Gone, Closed, Up;
    forall h | h in Doomed(before, now) ensures h in Gone(l) {
      var e :| e in before && Expired(before[e], now) && Descends(before, h, e);
      var n: nat :| Up(before, h, n) == Some(e);
      assert e in Gone(l);
      NoSurvivors(before, Gone(l), h, n, e);
    }
  }

  /** The token n links up from h is stored, with an expiry before now. */
  predicate PastAbove(rs: Records, h: Hash, n: nat, now: int) {
    var e := Up(rs, h, n);
    e.Some? && e.value in rs && rs[e.value].expires.Some? && rs[e.value].expires.value < now
  }

  /** Who a sweep at `now` is for: whoever has an expiry before now, and all below them. */
  lemma DoomedIff(rs: Records, now: int, h: Hash)
    ensures h in Doomed(rs, now) <==> h in rs && exists n: nat :: PastAbove(rs, h, n, now)
  {
    if h in Doomed(rs, now) {
      var e :| e in rs && Expired(rs[e], now) && Descends(rs, h, e);
      var n: nat :| Up(rs, h, n) == Some(e);
      assert PastAbove(rs, h, n, now);
    }
    if n: nat :| h in rs && PastAbove(rs, h, n, now) {
      var e := Up(rs, h, n).value;
      assert Descends(rs, h, e) && Expired(rs[e], now);
    }
  }

  /** After a full sweep at `now` every token left, and every ancestor it had, has no expiry or one that is
      now or later. */
  lemma SweepLeavesNone(before: Records, now: int, h: Hash, n: nat, e: Hash)
    requires var after := before - Doomed(before, now);
             h in after && Up(before, h, n) == Some(e) && e in before
    ensures before[e].expires.None? || now <= before[e].expires.value
  {
    DoomedIff(before, now, h);
    assert !PastAbove(before, h, n, now);
  }

  // ---- the depth limit ----

  /** No token is its own ancestor: a parent is stored before its children are created. */
  ghost predicate Acyclic(rs: Records) {
    forall h, n: nat :: n > 0 ==> Up(rs, h, n) != Some(h)
  }

  lemma SubtreeShrinks(rs: Records, gone: set<Hash>, c: Hash)
    ensures Subtree(rs - gone, c) <= Subtree(rs, c)
  {
    forall h | h in Subtree(rs - gone, c) ensures Descends(rs, h, c) {
      var n: nat :| Up(rs - gone, h, n) == Some(c);
      UpMonotone(rs, gone, h, n);
    }
  }

  /** Nothing stored claims a fresh token as its parent. */
  lemma NewChildIsLeaf(rs: Records, index: set<(Hash, Hash)>, h: Hash)
    requires Consistent(rs, index) && forall x :: (h, x) !in index
    ensures forall x :: x in rs ==> rs[x].parent != Some(h)
  {}

  lemma {:induction false} UpUnchanged(rs: Records, h: Hash, t: Token, x: Hash, n: nat)
    requires h !in rs && (forall y :: y in rs ==> rs[y].parent != Some(h)) && x != h
    ensures Up(rs[h := t], x, n) == Up(rs, x, n) && Up(rs, x, n) != Some(h)
    decreases n
  {
    if n > 0 && x in rs && rs[x].parent.Some? { UpUnchanged(rs, h, t, rs[x].parent.value, n - 1); }
  }

  /** A fresh token that is not its own parent closes no cycle. */
  lemma AcyclicGrows(rs: Records, h: Hash, t: Token)
    requires Acyclic(rs) && h !in rs && t.parent != Some(h) && forall y :: y in rs ==> rs[y].parent != Some(h)
    ensures Acyclic(rs[h := t])
  {
    var grown := rs[h := t];
    forall x, n: nat | n > 0 ensures Up(grown, x, n) != Some(x) {
      if x != h {
        UpUnchanged(rs, h, t, x, n);
      } else if t.parent.Some? {
        UpUnchanged(rs, h, t, t.parent.value, n - 1);
      }
    }
  }

  /** Neither does a record that keeps its parent. */
  lemma {:induction false} SameParentsUp(rs: Records, h: Hash, t: Token, x: Hash, n: nat)
    requires h in rs && t.parent == rs[h].parent
    ensures Up(rs[h := t], x, n) == Up(rs, x, n)
    decreases n
  {
    if n > 0 && x in rs && rs[x].parent.Some? { SameParentsUp(rs, h, t, rs[x].parent.value, n - 1); }
  }

  lemma AcyclicKept(rs: Records, h: Hash, t: Token)
    requires Acyclic(rs) && h in rs && t.parent == rs[h].parent
    ensures Acyclic(rs[h := t])
  {
    var changed := rs[h := t];
    forall x, n: nat | n > 0 ensures Up(changed, x, n) != Some(x) { SameParentsUp(rs, h, t, x, n); }
  }

  lemma AcyclicShrinks(rs: Records, gone: set<Hash>)
    requires Acyclic(rs)
    ensures Acyclic(rs - gone)
  {
    forall h, n: nat | n > 0 && Up(rs - gone, h, n).Some? ensures Up(rs - gone, h, n) != Some(h) {
      UpMonotone(rs, gone, h, n);
    }
  }

  lemma {:induction false} UpSplits(rs: Records, h: Hash, m: nat, n: nat, c: Hash)
    requires Up(rs, h, m) == Some(c)
    ensures Up(rs, h, m + n) == Up(rs, c, n)
    decreases m
  {
    if m > 0 { UpSplits(rs, rs[h].parent.value, m - 1, n, c); }
  }

  lemma SiblingChain(rs: Records, root: Hash, c: Hash, d: Hash, n: nat)
    requires Acyclic(rs) && c != d && c in rs && d in rs && rs[c].parent == rs[d].parent == Some(root)
    ensures Up(rs, c, n) != Some(d)
  {
    if n > 0 && Up(rs, c, n) == Some(d) {
      assert Up(rs, root, n - 1) == Some(d);
      UpOnce(rs, root, n - 1, d, root);
    }
  }

  /** In a forest the trees of two siblings share nobody. */
  lemma SiblingsDisjoint(rs: Records, root: Hash, c: Hash, d: Hash)
    requires Acyclic(rs) && c != d && c in rs && d in rs && rs[c].parent == rs[d].parent == Some(root)
    ensures Subtree(rs, c) !! Subtree(rs, d)
  {
    forall h | h in Subtree(rs, c) ensures h !in Subtree(rs, d) {
      var m: nat :| Up(rs, h, m) == Some(c);
      forall n: nat ensures Up(rs, h, n) != Some(d) {
        SiblingAt(rs, root, c, d, h, m, n);
      }
    }
  }

  lemma SiblingAt(rs: Records, root: Hash, c: Hash, d: Hash, h: Hash, m: nat, n: nat)
    requires Acyclic(rs) && c != d && c in rs && d in rs && rs[c].parent == rs[d].parent == Some(root)
    requires Up(rs, h, m) == Some(c)
    ensures Up(rs, h, n) != Some(d)
  {
    if m <= n {
      UpSplits(rs, h, m, n - m, c);
      SiblingChain(rs, root, c, d, n - m);
    } else if Up(rs, h, n) == Some(d) {
      UpSplits(rs, h, n, m - n, d);
      SiblingChain(rs, root, d, c, m - n);
    }
  }

  /** In a forest: the trees still to visit are whole, and no visited child reaches n levels. */
  ghost predicate Shallow(rs: Records, p: Hash, gone: set<Hash>, todo: set<Hash>, n: nat) {
    Acyclic(rs) ==>
      && (forall c :: c in todo && c in rs ==> Subtree(rs, c) !! gone)
      && (forall c :: c in rs && rs[c].parent == Some(p) && c !in todo ==> !Reaches(rs, c, n))
  }

  lemma ShallowStart(rs: Records, p: Hash, gone: set<Hash>, todo: set<Hash>, n: nat)
    requires Pending(rs, p, gone, todo) && gone == {}
    ensures Shallow(rs, p, gone, todo, n)
  {
    hide Subtree, Reaches, Acyclic;
  }

  ghost predicate Visiting(rs: Records, p: Hash, gone: set<Hash>, todo: set<Hash>, n: nat) {
    Pending(rs, p, gone, todo) && Shallow(rs, p, gone, todo, n)
  }

  lemma VisitingChild(rs: Records, p: Hash, gone: set<Hash>, todo: set<Hash>, n: nat, c: Hash)
    requires Visiting(rs, p, gone, todo, n) && c in todo
    ensures c in rs ==> rs[c].parent == Some(p) && (Acyclic(rs) ==> Subtree(rs, c) !! gone)
  {
    hide Subtree, Reaches, Acyclic;
  }

  lemma VisitingStep(rs: Records, p: Hash, gone: set<Hash>, more: set<Hash>, todo: set<Hash>, n: nat, c: Hash)
    requires Visiting(rs, p, gone, todo, n) && c in todo && gone <= more && (c in rs ==> c in more)
    requires if c in rs then more <= gone + Subtree(rs, c) else more == gone
    requires Acyclic(rs) && c in rs ==> !Reaches(rs, c, n)
    ensures Visiting(rs, p, more, todo - {c}, n)
  {
    hide Subtree, Reaches, Acyclic;
    ShallowStep(rs, p, gone, more, todo, n, c);
  }

  lemma VisitingEnd(rs: Records, p: Hash, gone: set<Hash>, n: nat)
    requires Visiting(rs, p, gone, {}, n)
    ensures forall x :: x in rs && rs[x].parent == Some(p) ==> x in gone
    ensures Acyclic(rs) ==> !Reaches(rs, p, n + 1)
  {
    ShallowEnd(rs, p, gone, n);
  }

  lemma ShallowStep(rs: Records, p: Hash, gone: set<Hash>, more: set<Hash>, todo: set<Hash>, n: nat, c: Hash)
    requires Shallow(rs, p, gone, todo, n) && Pending(rs, p, gone, todo) && c in todo
    requires if c in rs then more <= gone + Subtree(rs, c) else more == gone
    requires Acyclic(rs) && c in rs ==> !Reaches(rs, c, n)
    ensures Shallow(rs, p, more, todo - {c}, n)
  {
    hide Subtree, Reaches, Acyclic;
    if Acyclic(rs) && c in rs {
      forall d | d in todo - {c} && d in rs ensures Subtree(rs, d) !! more {
        SiblingsDisjoint(rs, p, c, d);
      }
    }
  }

  lemma ShallowEnd(rs: Records, p: Hash, gone: set<Hash>, n: nat)
    requires Shallow(rs, p, gone, {}, n)
    ensures Acyclic(rs) ==> !Reaches(rs, p, n + 1)
  {
    hide Subtree, Acyclic;
    if Acyclic(rs) {
      forall x | x in rs ensures Up(rs, x, n + 1) != Some(p) {
        if Up(rs, x, n + 1) == Some(p) { var c := UpLast(rs, x, n + 1, p); }
      }
    }
  }

  /** A child whose tree is still whole reaches as deep as it did at the start. */
  lemma StillShallow(before: Records, mid: Records, l: seq<Event>, root: Hash, c: Hash, n: nat)
    requires Outcome(before, mid, l, root) && c in before
    ensures Acyclic(before) ==> Acyclic(mid)
    ensures Acyclic(before) && Subtree(before, c) !! Gone(l) && Reaches(before, c, n) ==> Reaches(mid, c, n)
  {
    if Acyclic(before) { AcyclicShrinks(before, Gone(l)); }
    OrderlyIsClosed(before, l, |l|);
    assert l[..|l|] == l;
    hide Acyclic, Orderly, Gone, Closed;
    if Subtree(before, c) !! Gone(l) && Reaches(before, c, n) {
      var x :| x in before && Up(before, x, n) == Some(c);
      assert x in Subtree(before, c);
      ChainSurvives(before, Gone(l), x, n, c);
    }
  }

  lemma ReachesItself(rs: Records, h: Hash)
    requires h in rs
    ensures Reaches(rs, h, 0)
  {
    assert Up(rs, h, 0) == Some(h);
  }

  /** The children of p still to visit, `gone` being those already deleted. */
  ghost predicate Pending(rs: Records, p: Hash, gone: set<Hash>, todo: set<Hash>) {
    && (forall c :: c in todo && c in rs ==> rs[c].parent == Some(p))
    && (forall x :: x in rs && rs[x].parent == Some(p) ==> x in gone || x in todo)
  }

  lemma ListsChildren(rs: Records, index: set<(Hash, Hash)>, p: Hash, gone: set<Hash>, cs: set<Hash>)
    requires Consistent(rs, index) && cs == set e | e in index && e.0 == p :: e.1
    ensures Pending(rs, p, gone, cs)
  {
    forall c | c in cs && c in rs ensures rs[c].parent == Some(p) {
      assert (p, c) in index;
    }
    forall x | x in rs && rs[x].parent == Some(p) ensures x in cs {
      assert (p, x) in index;
    }
  }

  lemma RecordAtHash(rs: Records, index: set<(Hash, Hash)>, h: Hash)
    requires Consistent(rs, index) && h in rs
    ensures Hash(rs[h].id) == h
  {}
}
