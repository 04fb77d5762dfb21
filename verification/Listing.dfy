/** The immediate children under a prefix, as each backend computes them. */
module Listing {
  import opened Common
  import opened Keys

  datatype Result<+T> = Ok(value: T) | InvalidKey

  function Elements(s: seq<Key>): set<Key> { set x | x in s }

  /** What List means: the set of immediate children on the way to the keys. */
  function Children(keys: set<Key>, prefix: Key): set<Key> {
    set k | k in keys && ChildUnder(prefix, k).Some? :: ChildUnder(prefix, k).value
  }

  /** The answer every backend owes: sorted, without duplicates, exactly the children. */
  ghost predicate IsAnswer(r: Result<seq<Key>>, keys: set<Key>, prefix: Key) {
    if ValidPrefix(prefix) then r.Ok? && IsListing(r.value, Children(keys, prefix)) else r.InvalidKey?
  }

  /** Backends that each answer correctly answer identically. */
  lemma AnswersAgree(r: Result<seq<Key>>, s: Result<seq<Key>>, keys: set<Key>, prefix: Key)
    requires IsAnswer(r, keys, prefix) && IsAnswer(s, keys, prefix)
    ensures r == s
  {
    if ValidPrefix(prefix) { ListingUnique(r.value, s.value, Children(keys, prefix)); }
  }

  // ---- sort.Strings ----

  predicate Sorted(s: seq<Key>) {
    forall i, j :: 0 <= i < j < |s| ==> !Less(s[j], s[i])
  }

  function Insert(k: Key, s: seq<Key>): (r: seq<Key>)
    requires Sorted(s)
    ensures Sorted(r) && multiset(r) == multiset(s) + multiset{k}
  {
    if s == [] then [k]
    else if !Less(s[0], k) then
      assert forall i :: 0 <= i < |s| ==> !Less(s[i], k) by { HeadIsLeast(k, s); }
      [k] + s
    else
      assert s == [s[0]] + s[1..];
      var t := Insert(k, s[1..]);
      assert forall i :: 0 <= i < |t| ==> !Less(t[i], s[0]) by { LessTotal(s[0], k); TailAbove(k, s, t); }
      [s[0]] + t
  }

  lemma HeadIsLeast(k: Key, s: seq<Key>)
    requires Sorted(s) && s != [] && !Less(s[0], k)
    ensures forall i :: 0 <= i < |s| ==> !Less(s[i], k)
  {
    forall i | 0 <= i < |s| ensures !Less(s[i], k) {
      if Less(s[i], k) {
        LessTotal(s[i], s[0]);
        LessTotal(k, s[0]);
        if Less(s[0], s[i]) { LessTransitive(s[0], s[i], k); }
      }
    }
  }

  lemma TailAbove(k: Key, s: seq<Key>, t: seq<Key>)
    requires Sorted(s) && s != [] && !Less(k, s[0]) && multiset(t) == multiset(s[1..]) + multiset{k}
    ensures forall i :: 0 <= i < |t| ==> !Less(t[i], s[0])
  {
    forall i | 0 <= i < |t| ensures !Less(t[i], s[0]) {
      assert t[i] in multiset(t);
      if t[i] != k {
        assert t[i] in s[1..];
        var j :| 0 <= j < |s[1..]| && s[1..][j] == t[i];
        assert s[j + 1] == t[i];
      }
    }
  }

  function Sort(s: seq<Key>): (r: seq<Key>)
    ensures Sorted(r) && multiset(r) == multiset(s)
  {
    if s == [] then [] else
      assert s == s[..|s| - 1] + [s[|s| - 1]];
      Insert(s[|s| - 1], Sort(s[..|s| - 1]))
  }

  lemma SameElements(r: seq<Key>, s: seq<Key>)
    requires multiset(r) == multiset(s)
    ensures forall k :: k in r <==> k in s
  {
    assert forall k :: k in r <==> k in multiset(r);
    assert forall k :: k in s <==> k in multiset(s);
  }

  lemma SortedDistinct(r: seq<Key>, s: seq<Key>)
    requires Sorted(r) && multiset(r) == multiset(s)
    requires forall i, j :: 0 <= i < j < |s| ==> s[i] != s[j]
    ensures StrictlySorted(r)
  {
    forall i, j | 0 <= i < j < |r| ensures Less(r[i], r[j]) {
      if r[i] == r[j] {
        TwiceInMultiset(r, i, j);
        OnceInMultiset(s, r[i]);
      }
      LessTotal(r[i], r[j]);
    }
  }

  lemma TwiceInMultiset(r: seq<Key>, i: nat, j: nat)
    requires i < j < |r| && r[i] == r[j]
    ensures multiset(r)[r[i]] >= 2
  {
    assert r == r[..j] + [r[j]] + r[j + 1..];
    assert r[i] in r[..j];
  }

  lemma {:induction false} OnceInMultiset(s: seq<Key>, k: Key)
    requires forall i, j :: 0 <= i < j < |s| ==> s[i] != s[j]
    ensures multiset(s)[k] <= 1
  {
    if s != [] {
      assert s == [s[0]] + s[1..];
      OnceInMultiset(s[1..], k);
      if s[0] == k { assert k !in s[1..]; }
    }
  }

  // ---- the in-memory backend: a map scan ----

  method MemoryList(keys: set<Key>, prefix: Key) returns (r: Result<seq<Key>>)
    ensures IsAnswer(r, keys, prefix)
  {
    if !ValidPrefix(prefix) { return InvalidKey; }
    var seen: set<Key> := {};
    var todo := keys;
    while todo != {}
      invariant todo <= keys
      invariant seen == Children(keys - todo, prefix)
    {
      var k :| k in todo;
      var c := ChildUnder(prefix, k);
      assert keys - (todo - {k}) == (keys - todo) + {k};
      if c.Some? { seen := seen + {c.value}; }
      todo := todo - {k};
    }
    assert keys - todo == keys;
    var out := Ordered(seen);
    r := Ok(out);
  }

  /** The elements of a set in byte order: sort.Strings over a map's keys, or a bucket's cursor. */
  method Ordered(elements: set<Key>) returns (r: seq<Key>)
    ensures IsListing(r, elements)
  {
    var out: seq<Key> := [];
    var rest := elements;
    while rest != {}
      invariant rest <= elements
      invariant forall k :: k in out <==> k in elements - rest
      invariant forall i, j :: 0 <= i < j < |out| ==> out[i] != out[j]
    {
      var c :| c in rest;
      assert c !in out;
      out := out + [c];
      rest := rest - {c};
    }
    SortedDistinct(Sort(out), out);
    SameElements(Sort(out), out);
    r := Sort(out);
  }

  // ---- the Raft backend: an ordered cursor ----

  /** dedupe: compacts a sorted array in place, reading the neighbour it may have overwritten. */
  method Dedupe(s: array<Key>) returns (n: nat)
    requires Sorted(s[..])
    modifies s
    ensures n <= s.Length && StrictlySorted(s[..n])
    ensures forall k :: k in s[..n] <==> k in old(s[..])
  {
    ghost var was := s[..];
    n := 0;
    for i := 0 to s.Length
      invariant n <= i && (i > 0 ==> n > 0 && s[n - 1] == was[i - 1])
      invariant forall j :: 0 <= j < s.Length && i - 1 <= j ==> s[j] == was[j]
      invariant StrictlySorted(s[..n])
      invariant forall k :: k in s[..n] <==> k in was[..i]
    {
      assert was[..i + 1] == was[..i] + [was[i]];
      var v := s[i];
      if !(i > 0 && v == s[i - 1]) {
        Appended(s[..n], v, was, i);
        s[n] := v;
        n := n + 1;
        assert s[..n] == s[..n - 1] + [v];
      }
    }
    assert was[..s.Length] == was;
  }

  lemma Appended(out: seq<Key>, v: Key, was: seq<Key>, i: nat)
    requires StrictlySorted(out) && Sorted(was) && i < |was| && v == was[i]
    requires i == 0 ==> out == []
    requires i > 0 ==> out != [] && out[|out| - 1] == was[i - 1] && v != was[i - 1]
    ensures StrictlySorted(out + [v])
  {
    forall j | 0 <= j < |out| ensures Less(out[j], v) {
      LessTotal(was[i - 1], v);
      if j < |out| - 1 { LessTransitive(out[j], out[|out| - 1], v); }
    }
  }

  /** The cursor position bbolt's Seek finds: the first key not below the target. */
  method Seek(cursor: seq<Key>, target: Key) returns (i: nat)
    ensures i <= |cursor|
    ensures forall j :: 0 <= j < i ==> Less(cursor[j], target)
    ensures i < |cursor| ==> !Less(cursor[i], target)
  {
    i := 0;
    while i < |cursor| && Less(cursor[i], target)
      invariant i <= |cursor|
      invariant forall j :: 0 <= j < i ==> Less(cursor[j], target)
    {
      i := i + 1;
    }
  }

  lemma {:induction false} BelowPrefix(k: Key, p: Key)
    requires Less(k, p)
    ensures !(p <= k)
    decreases |k|
  {
    if k != [] && k[0] == p[0] {
      assert p <= k ==> p[1..] <= k[1..];
      BelowPrefix(k[1..], p[1..]);
    }
  }

  /** Keys sharing a prefix are contiguous in byte order. */
  lemma {:induction false} PrefixContiguous(p: Key, a: Key, b: Key)
    requires !Less(a, p) && Less(a, b) && p <= b
    ensures p <= a
    decreases |p|
  {
    if p != [] {
      assert p[0] == b[0];
      assert p[1..] <= b[1..];
      PrefixContiguous(p[1..], a[1..], b[1..]);
      assert p == [p[0]] + p[1..] && a == [a[0]] + a[1..];
    }
  }

  /** kvList. */
  method CursorList(cursor: seq<Key>, keys: set<Key>, prefix: Key) returns (r: Result<seq<Key>>)
    requires IsListing(cursor, keys)
    ensures IsAnswer(r, keys, prefix)
  {
    if !ValidPrefix(prefix) { return InvalidKey; }
    var out: seq<Key> := [];
    var i := Seek(cursor, prefix);
    ghost var start := i;
    while i < |cursor| && prefix <= cursor[i]
      invariant start <= i <= |cursor|
      invariant forall k :: k in out <==> k in Children(Elements(cursor[start..i]), prefix)
    {
      assert cursor[start..i + 1] == cursor[start..i] + [cursor[i]];
      var child := ChildUnder(prefix, cursor[i]);
      if child.Some? && !(|out| > 0 && out[|out| - 1] == child.value) {
        out := out + [child.value];
      }
      i := i + 1;
    }
    forall k | k in keys && ChildUnder(prefix, k).Some? ensures k in cursor[start..i] {
      ScanComplete(cursor, keys, prefix, start, i, k);
    }
    assert Children(Elements(cursor[start..i]), prefix) == Children(keys, prefix);
    var sorted := Sort(out);
    SameElements(sorted, out);
    var a := new Key[|sorted|](j requires 0 <= j < |sorted| => sorted[j]);
    assert a[..] == sorted;
    var n := Dedupe(a);
    r := Ok(a[..n]);
  }

  /** A scan from Seek to the first key without the prefix meets every key with it. */
  lemma ScanComplete(cursor: seq<Key>, keys: set<Key>, prefix: Key, start: nat, end: nat, k: Key)
    requires IsListing(cursor, keys) && start <= end <= |cursor|
    requires forall j :: 0 <= j < start ==> Less(cursor[j], prefix)
    requires start < |cursor| ==> !Less(cursor[start], prefix)
    requires end < |cursor| ==> !(prefix <= cursor[end])
    requires k in keys && prefix <= k
    ensures k in cursor[start..end]
  {
    var j :| 0 <= j < |cursor| && cursor[j] == k;
    if j < start { BelowPrefix(k, prefix); }
    if end < j {
      if Less(cursor[end], prefix) && start < end { LessTransitive(cursor[start], cursor[end], prefix); }
      PrefixContiguous(prefix, cursor[end], k);
    }
    assert cursor[start..end][j - start] == k;
  }

  // ---- the MySQL backend: a half-open range of the primary key ----

  /** The least string above every string with prefix p, if there is one. */
  function Successor(p: Key): Option<Key> {
    if p == [] then None
    else match Successor(p[1..])
      case Some(s) => Some([p[0]] + s)
      case None => if p[0] < 255 then Some([p[0] + 1]) else None
  }

  predicate InRange(k: Key, lo: Key, hi: Option<Key>) {
    !Less(k, lo) && (hi.Some? ==> Less(k, hi.value))
  }

  /** The range holds exactly the keys with the prefix; an all-0xFF prefix needs no upper bound. */
  lemma {:induction false} RangeIsPrefix(p: Key, k: Key)
    ensures InRange(k, p, Successor(p)) <==> p <= k
    decreases |p|
  {
    if p != [] && k != [] {
      RangeIsPrefix(p[1..], k[1..]);
      if p[0] == k[0] {
        assert p <= k <==> p[1..] <= k[1..] by { assert p == [p[0]] + p[1..] && k == [k[0]] + k[1..]; }
        if Successor(p[1..]).Some? { assert ([p[0]] + Successor(p[1..]).value)[1..] == Successor(p[1..]).value; }
      } else {
        assert Successor(p).Some? && k[0] > p[0] ==> !Less(k, Successor(p).value) by {
          if Successor(p[1..]).None? && p[0] < 255 { assert [p[0] + 1][1..] == []; }
        }
      }
    }
  }

  lemma {:induction false} SuccessorAt(p: Key, i: nat)
    requires i < |p| && p[i] < 255 && forall j :: i < j < |p| ==> p[j] == 255
    ensures Successor(p) == Some(p[..i] + [p[i] + 1])
    decreases |p|
  {
    if i > 0 {
      SuccessorAt(p[1..], i - 1);
      assert [p[0]] + (p[1..][..i - 1] + [p[i] + 1]) == p[..i] + [p[i] + 1];
    } else {
      AllHigh(p[1..]);
      assert p[..0] + [p[0] + 1] == [p[0] + 1];
    }
  }

  lemma {:induction false} AllHigh(p: Key)
    requires forall j :: 0 <= j < |p| ==> p[j] == 255
    ensures Successor(p) == None
  {
    if p != [] { AllHigh(p[1..]); }
  }

  /** prefixSuccessor. */
  method PrefixSuccessor(p: Key) returns (r: Option<Key>)
    ensures r == Successor(p)
  {
    var s := new Byte[|p|](j requires 0 <= j < |p| => p[j]);
    var i := |p| - 1;
    while i >= 0
      invariant -1 <= i < |p|
      invariant s[..] == p
      invariant forall j :: i < j < |p| ==> p[j] == 255
    {
      if s[i] != 255 {
        s[i] := s[i] + 1;
        SuccessorAt(p, i);
        assert s[..i + 1] == p[..i] + [p[i] + 1];
        return Some(s[..i + 1]);
      }
      i := i - 1;
    }
    AllHigh(p);
    return None;
  }

  /** MySQLBackend.List. The rows come in whatever order the server returns them. */
  method RangeList(rows: seq<Key>, keys: set<Key>, prefix: Key) returns (r: Result<seq<Key>>)
    requires forall k :: k in rows <==> k in keys && InRange(k, prefix, Successor(prefix))
    ensures IsAnswer(r, keys, prefix)
  {
    if !ValidPrefix(prefix) { return InvalidKey; }
    var seen: set<Key> := {};
    var children: seq<Key> := [];
    for i := 0 to |rows|
      invariant seen == Children(Elements(rows[..i]), prefix)
      invariant forall k :: k in children <==> k in seen
      invariant forall p, q :: 0 <= p < q < |children| ==> children[p] != children[q]
    {
      assert rows[..i + 1] == rows[..i] + [rows[i]];
      var child := ChildUnder(prefix, rows[i]);
      if child.Some? && child.value !in seen {
        seen := seen + {child.value};
        assert child.value !in children;
        children := children + [child.value];
      }
    }
    assert rows[..|rows|] == rows;
    assert seen == Children(keys, prefix) by {
      forall k | k in keys && ChildUnder(prefix, k).Some? ensures k in rows { RangeIsPrefix(prefix, k); }
    }
    SortedDistinct(Sort(children), children);
    SameElements(Sort(children), children);
    r := Ok(Sort(children));
  }
}
