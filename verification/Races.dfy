/** Revoking a tree of tokens while others create children in it, one storage operation at a time.

    The token store has no lock. One revocation runs as the stack of its recursive calls; between any two
    of its operations children may be stored, and then indexed. Tokens are numbered in the order of their
    creation, and operations do not fail. */
module Races {
  import opened Common

  type Id = nat

  /** One call of revokeTree: whether it has listed the children, and those it has not finished. */
  datatype Frame = Frame(id: Id, listed: bool, todo: set<Id>)

  datatype State = State(
    stored: set<Id>,
    ever: set<Id>,           // stored at some time since the start
    parent: map<Id, Id>,     // of every child token there has been
    index: set<Id>,          // the children with an index entry below their parent
    root: Option<Id>,        // the token being revoked, once that has begun
    stack: seq<Frame>,
    listing: map<Id, set<Id>>, // what each visited token's listing returned
    clock: nat,
    indexedAt: map<Id, nat>, // when each child's index entry was written
    listedAt: map<Id, nat>)  // when each visited token's children were listed

  datatype Event =
    | Store(id: Id, parent: Id)
    | Index(id: Id)
    | Begin(root: Id)
    | List
    | Child(id: Id)
    | Finish(unindexed: bool) // whether the best-effort removal of its own index entry succeeds

  function Kids(s: State, p: Id): set<Id> { set c | c in s.index && c in s.parent && s.parent[c] == p }

  function Top(s: State): Frame
    requires s.stack != []
  {
    s.stack[|s.stack| - 1]
  }

  function SetTop(s: State, f: Frame): seq<Frame>
    requires s.stack != []
  {
    s.stack[|s.stack| - 1 := f]
  }

  predicate Enabled(s: State, e: Event) {
    match e
    case Store(id, p) => p < id && id !in s.ever && id !in s.parent && s.root != Some(id)
    case Index(id) => id in s.parent && id !in s.indexedAt
    case Begin(r) => s.root.None?
    case List => s.stack != [] && !Top(s).listed
    case Child(c) => s.stack != [] && Top(s).listed && c in Top(s).todo
    case Finish(_) => s.stack != [] && Top(s).listed && Top(s).todo == {}
  }

  /** One storage operation; one that does not come next changes nothing. */
  function Step(s: State, e: Event): State {
    if !Enabled(s, e) then s
    else
      var t := s.(clock := s.clock + 1);
      match e
      case Store(id, p) => t.(stored := s.stored + {id}, ever := s.ever + {id}, parent := s.parent[id := p])
      case Index(id) => t.(index := s.index + {id}, indexedAt := s.indexedAt[id := s.clock])
      case Begin(r) => t.(root := Some(r), stack := [Frame(r, false, {})])
      case List =>
        var p := Top(s).id;
        t.(stack := SetTop(s, Frame(p, true, Kids(s, p))), listing := s.listing[p := Kids(s, p)],
           listedAt := s.listedAt[p := s.clock])
      case Child(c) =>
        if c in s.stored then t.(stack := s.stack + [Frame(c, false, {})])
        else t.(stack := SetTop(s, Top(s).(todo := Top(s).todo - {c})), index := s.index - {c})
      case Finish(unindexed) =>
        var p := Top(s).id;
        t.(stored := s.stored - {p}, stack := s.stack[..|s.stack| - 1],
           index := if unindexed && p in s.stored && p in s.parent then s.index - {p} else s.index)
  }

  function Run(s: State, es: seq<Event>): State
    decreases |es|
  {
    if es == [] then s else Step(Run(s, es[..|es| - 1]), es[|es| - 1])
  }

  /** Before the revocation: any tokens, every indexed child indexed in the past. */
  ghost predicate Initial(s: State) {
    && s.root.None? && s.stack == [] && s.listing == map[] && s.listedAt == map[] && s.ever == s.stored
    && s.index == s.indexedAt.Keys && s.index <= s.parent.Keys
    && (forall c :: c in s.parent ==> s.parent[c] < c)
    && (forall c :: c in s.indexedAt ==> s.indexedAt[c] < s.clock)
  }

  // ---- the invariant ----

  ghost predicate TimesOk(s: State) {
    && (forall c :: c in s.parent ==> s.parent[c] < c)
    && s.index <= s.indexedAt.Keys <= s.parent.Keys && s.stored <= s.ever && s.listing.Keys == s.listedAt.Keys
    && (forall c :: c in s.indexedAt ==> s.indexedAt[c] < s.clock)
    && (forall p :: p in s.listedAt ==> s.listedAt[p] < s.clock)
  }

  ghost predicate StackOk(s: State) {
    && (s.stack != [] ==> s.root == Some(s.stack[0].id))
    && (s.root.None? ==> s.listing == map[])
    && (forall k :: 0 <= k < |s.stack| ==> FrameOk(s, s.stack[k]))
    && (forall k :: 0 <= k < |s.stack| - 1 ==> s.stack[k].listed && s.stack[k + 1].id in s.stack[k].todo)
  }

  ghost predicate FrameOk(s: State, f: Frame) {
    if f.listed then f.id in s.listing && f.todo <= s.listing[f.id] else f.id !in s.listing && f.todo == {}
  }

  ghost predicate ListingOk(s: State) {
    && (forall p, c :: p in s.listing && c in s.listing[p] ==> c in s.parent && s.parent[c] == p)
    && (forall p :: p in s.listedAt ==>
          && s.root.Some? && s.root.value <= p && (p == s.root.value || p in s.parent)
          && s.root.value in s.listedAt && s.listedAt[s.root.value] <= s.listedAt[p])
  }

  ghost predicate OnStack(s: State, c: Id) { exists k :: 0 <= k < |s.stack| && s.stack[k].id == c }

  /** A visited token that is still stored is being revoked. */
  ghost predicate VisitedOk(s: State) { forall c :: c in s.listing && c in s.stored ==> OnStack(s, c) }

  ghost predicate Inv(s: State) { TimesOk(s) && StackOk(s) && ListingOk(s) && VisitedOk(s) }

  /** Each call above another is for one of its listed children. */
  lemma Link(s: State, k: nat)
    requires Inv(s) && 0 < k < |s.stack|
    ensures var p, c := s.stack[k - 1].id, s.stack[k].id;
            p in s.listing && c in s.listing[p] && c in s.parent && s.parent[c] == p < c
  {
    hide VisitedOk;
    var j := k - 1;
    assert s.stack[j].listed && s.stack[j + 1].id in s.stack[j].todo;
    assert FrameOk(s, s.stack[j]);
  }

  lemma {:induction false} StackRises(s: State, k: nat, n: nat)
    requires Inv(s) && k <= n < |s.stack|
    ensures s.stack[k].id <= s.stack[n].id && (k < n ==> s.stack[k].id < s.stack[n].id)
    decreases n
  {
    hide Inv;
    if k < n {
      Link(s, n);
      StackRises(s, k, n - 1);
    }
  }

  /** The token on top is the root, or a listed child of the one below. */
  lemma TopIsListed(s: State)
    requires Inv(s) && s.stack != []
    ensures FrameOk(s, Top(s))
    ensures var p := Top(s).id;
            && s.root.Some? && s.root.value <= p
            && (p != s.root.value ==> && p in s.parent && s.parent[p] in s.listing && p in s.listing[s.parent[p]]
                                      && s.root.value in s.listing)
  {
    var n := |s.stack| - 1;
    StackRises(s, 0, n);
    if n > 0 { Link(s, n); }
  }

  /** A child about to be revoked was not visited before. */
  lemma ChildIsNew(s: State, c: Id)
    requires Inv(s) && s.stack != [] && Top(s).listed && c in Top(s).todo && c in s.stored
    ensures c !in s.listing
  {
    var n := |s.stack| - 1;
    assert FrameOk(s, s.stack[n]);
    assert c in s.listing[s.stack[n].id] && s.parent[c] == s.stack[n].id < c;
    if c in s.listing {
      var k :| 0 <= k < |s.stack| && s.stack[k].id == c;
      StackRises(s, k, n);
    }
  }

  lemma TimesStep(s: State, e: Event)
    requires Inv(s)
    ensures TimesOk(Step(s, e))
  {
    hide StackOk, ListingOk, VisitedOk;
  }

  lemma StackStep(s: State, e: Event)
    requires Inv(s)
    ensures StackOk(Step(s, e))
  {
    hide TimesOk, ListingOk, VisitedOk;
    var t := Step(s, e);
    if Enabled(s, e) && e.Child? && e.id in s.stored { ChildIsNew(s, e.id); }
    forall k | 0 <= k < |t.stack| ensures FrameOk(t, t.stack[k]) {
      if k < |s.stack| {
        assert FrameOk(s, s.stack[k]);
        StackRises(s, k, |s.stack| - 1);
      }
    }
  }

  /** All but a listing leave the listings alone, and nothing forgets a parent or the root. */
  lemma ListingsKept(s: State, e: Event)
    ensures !e.List? ==> Step(s, e).listing == s.listing && Step(s, e).listedAt == s.listedAt
    ensures s.root.Some? ==> Step(s, e).root == s.root
    ensures forall c :: c in s.parent ==> c in Step(s, e).parent && Step(s, e).parent[c] == s.parent[c]
  {}

  lemma ListingStep(s: State, e: Event)
    requires Inv(s)
    ensures ListingOk(Step(s, e))
  {
    hide VisitedOk, StackOk;
    if e.List? {
      if s.stack != [] { TopIsListed(s); }
    } else {
      ListingsKept(s, e);
      hide Step;
    }
  }

  lemma VisitedStep(s: State, e: Event)
    requires Inv(s)
    ensures VisitedOk(Step(s, e))
  {
    hide StackOk;
    var t := Step(s, e);
    forall c | c in t.listing && c in t.stored ensures OnStack(t, c) {
      if c in s.listing && c in s.stored {
        var k :| 0 <= k < |s.stack| && s.stack[k].id == c;
        assert k < |t.stack| && t.stack[k].id == c;
      } else if e.List? {
        assert t.stack[|t.stack| - 1].id == c;
      }
    }
  }

  lemma InvStep(s: State, e: Event)
    requires Inv(s)
    ensures Inv(Step(s, e))
  {
    hide TimesOk, StackOk, ListingOk, VisitedOk, Step;
    TimesStep(s, e);
    StackStep(s, e);
    ListingStep(s, e);
    VisitedStep(s, e);
  }

  // ---- one child ----

  /** A listed child is gone, or its parent's call has yet to finish it. */
  ghost predicate Awaits(s: State, p: Id, c: Id) {
    exists k :: 0 <= k < |s.stack| && s.stack[k].id == p && c in s.stack[k].todo
  }

  /** c was indexed before its parent's children were listed. */
  predicate InTime(s: State, c: Id) {
    && c in s.parent && s.parent[c] in s.listedAt
    && c in s.indexedAt && s.indexedAt[c] < s.listedAt[s.parent[c]]
  }

  ghost predicate ChildOk(s: State, c: Id)
    requires Inv(s)
  {
    && (c in s.parent && s.parent[c] in s.listing ==> (c in s.listing[s.parent[c]] <==> InTime(s, c)))
    && (InTime(s, c) && c in s.stored ==> Awaits(s, s.parent[c], c))
    && (c in s.indexedAt && s.root != Some(c) && s.parent[c] !in s.listing ==> c in s.index)
    && (c in s.ever && c !in s.stored ==> c in s.listing)
    && (c in s.listing ==> s.root == Some(c) || InTime(s, c))
  }

  lemma AwaitsStep(s: State, e: Event, c: Id)
    requires Inv(s) && ChildOk(s, c) && InTime(s, c) && c in Step(s, e).stored
    ensures c in s.stored && Awaits(Step(s, e), s.parent[c], c)
  {
    hide VisitedOk, ListingOk;
    var t, p := Step(s, e), s.parent[c];
    var k :| 0 <= k < |s.stack| && s.stack[k].id == p && c in s.stack[k].todo;
    assert FrameOk(s, s.stack[k]);
    assert k < |t.stack| && t.stack[k].id == p && c in t.stack[k].todo;
  }

  /** A listing returns exactly the children indexed by then. */
  lemma ListedInTime(s: State, c: Id)
    requires Inv(s) && ChildOk(s, c) && s.stack != [] && !Top(s).listed && c in s.parent && s.parent[c] == Top(s).id
    ensures c in Kids(s, Top(s).id) <==> c in s.indexedAt
    ensures s.root != Some(c) && Top(s).id !in s.listing
  {
    hide VisitedOk, ListingOk;
    TopIsListed(s);
    assert FrameOk(s, Top(s));
  }

  /** What a step other than a listing changes for one child. */
  lemma Gains(s: State, e: Event, c: Id)
    requires Inv(s) && !e.List?
    ensures var t := Step(s, e);
            && t.listing == s.listing && t.listedAt == s.listedAt && (s.root.Some? ==> t.root == s.root)
            && (c in s.parent ==> c in t.parent && t.parent[c] == s.parent[c])
            && (c in t.parent && c !in s.parent ==> c !in t.indexedAt)
            && (c in t.indexedAt ==>
                  (c in s.indexedAt && t.indexedAt[c] == s.indexedAt[c]) || t.indexedAt[c] == s.clock)
            && (c in s.indexedAt ==> c in t.indexedAt)
            && (c in t.indexedAt && c !in s.indexedAt ==> c in t.index)
  {
    hide StackOk, ListingOk, VisitedOk;
  }

  /** What it takes away: a record only by finishing a visited token, an index entry only of the root or of a
      child whose parent was listed. */
  lemma Losses(s: State, e: Event, c: Id)
    requires Inv(s) && !e.List?
    ensures var t := Step(s, e);
            && (c in t.ever && c !in t.stored ==> (c in s.ever && c !in s.stored) || c in s.listing)
            && (c in s.index && c !in t.index ==> s.root == Some(c) || (c in s.parent && s.parent[c] in s.listing))
  {
    if s.stack != [] { TopIsListed(s); }
    hide StackOk, VisitedOk;
  }

  lemma ChildKept(s: State, e: Event, c: Id)
    requires Inv(s) && Inv(Step(s, e)) && ChildOk(s, c) && !e.List?
    ensures ChildOk(Step(s, e), c)
  {
    Gains(s, e, c);
    Losses(s, e, c);
    assert InTime(Step(s, e), c) <==> InTime(s, c);
    if InTime(s, c) && c in Step(s, e).stored { AwaitsStep(s, e, c); }
    hide Step, StackOk, VisitedOk, Awaits;
  }

  /** What a listing changes. */
  lemma Lists(s: State)
    requires Inv(s) && s.stack != [] && !Top(s).listed
    ensures var t, p := Step(s, List), Top(s).id;
            && t.listing == s.listing[p := Kids(s, p)] && t.listedAt == s.listedAt[p := s.clock]
            && t.root == s.root && t.parent == s.parent && t.indexedAt == s.indexedAt && t.index == s.index
            && t.stored == s.stored && t.ever == s.ever
            && t.stack != [] && Top(t) == Frame(p, true, Kids(s, p))
  {}

  lemma ChildAtList(s: State, c: Id)
    requires Inv(s) && Inv(Step(s, List)) && ChildOk(s, c) && s.stack != [] && !Top(s).listed
    ensures ChildOk(Step(s, List), c)
  {
    Lists(s);
    TopIsListed(s);
    var t := Step(s, List);
    if c in s.parent && s.parent[c] == Top(s).id {
      ListedInTime(s, c);
      assert t.stack[|t.stack| - 1].id == s.parent[c];
      assert InTime(t, c) <==> c in Kids(s, Top(s).id);
    } else {
      assert InTime(t, c) <==> InTime(s, c);
      if InTime(s, c) && c in t.stored { AwaitsStep(s, List, c); }
    }
    hide Step, StackOk, VisitedOk;
  }

  lemma ChildStep(s: State, e: Event, c: Id)
    requires Inv(s) && Inv(Step(s, e)) && ChildOk(s, c)
    ensures ChildOk(Step(s, e), c)
  {
    hide Inv, ChildOk;
    if !e.List? {
      ChildKept(s, e, c);
    } else if s.stack != [] && !Top(s).listed {
      ChildAtList(s, c);
    }
  }

  // ---- who survives ----

  lemma InitialOk(s: State, c: Id)
    requires Initial(s)
    ensures Inv(s) && ChildOk(s, c)
  {}

  lemma {:induction false} RunOk(s: State, es: seq<Event>, c: Id)
    requires Initial(s)
    ensures Inv(Run(s, es)) && ChildOk(Run(s, es), c)
    decreases |es|
  {
    hide Inv, ChildOk, Step, Initial;
    if es == [] {
      InitialOk(s, c);
    } else {
      var t := Run(s, es[..|es| - 1]);
      RunOk(s, es[..|es| - 1], c);
      InvStep(t, es[|es| - 1]);
      ChildStep(t, es[|es| - 1], c);
    }
  }

  predicate Finished(s: State) { s.root.Some? && s.stack == [] && s.root.value in s.listing }

  /** However creations interleave with it, a finished revocation has removed exactly the root and every
      child indexed before the children of its parent, itself visited, were listed. */
  lemma RemovedIff(s: State, es: seq<Event>, c: Id)
    requires Initial(s) && Finished(Run(s, es)) && c in Run(s, es).ever
    ensures var t := Run(s, es); c !in t.stored <==> t.root == Some(c) || InTime(t, c)
    ensures var t := Run(s, es); c in t.listing ==> c !in t.stored
  {
    RunOk(s, es, c);
  }

  /** A line of descent from the root, each token indexed before the root's own children were listed. */
  ghost predicate SettledLine(s: State, line: seq<Id>) {
    && line != [] && s.root == Some(line[0]) && s.root.value in s.listedAt
    && forall i :: 0 < i < |line| ==>
         && line[i] in s.parent && s.parent[line[i]] == line[i - 1]
         && line[i] in s.indexedAt && s.indexedAt[line[i]] < s.listedAt[s.root.value]
  }

  /** So a tree that was complete when the revocation began goes entirely: only tokens whose own creation,
      or an ancestor's, overlapped the revocation survive it. */
  lemma {:induction false} SettledTreeGoes(s: State, es: seq<Event>, line: seq<Id>)
    requires Initial(s) && Finished(Run(s, es)) && SettledLine(Run(s, es), line)
    requires forall i :: 0 <= i < |line| ==> line[i] in Run(s, es).ever
    ensures line[|line| - 1] !in Run(s, es).stored && line[|line| - 1] in Run(s, es).listing
    decreases |line|
  {
    hide Run, Initial;
    var t, n := Run(s, es), |line| - 1;
    RunOk(s, es, line[n]);
    RemovedIff(s, es, line[n]);
    if n > 0 {
      SettledTreeGoes(s, es, line[..n]);
      assert line[..n][n - 1] == line[n - 1];
      assert InTime(t, line[n]);
    }
  }

  /** A child created while its parent is revoked: stored and indexed after the listing, it outlives it. */
  function RacingRun(p: Id, c: Id): seq<Event> { [Begin(p), List, Store(c, p), Index(c), Finish(true)] }

  lemma RacingChildSurvives(p: Id, c: Id)
    requires p < c
    ensures var s := State({p}, {p}, map[], {}, None, [], map[], 0, map[], map[]);
            var t := Run(s, RacingRun(p, c));
            Initial(s) && Finished(t) && t.stored == {c} && t.parent == map[c := p] && c in t.index
  {
    var s := State({p}, {p}, map[], {}, None, [], map[], 0, map[], map[]);
    var es := RacingRun(p, c);
    assert es[..4] == [Begin(p), List, Store(c, p), Index(c)] && es[..4][..3] == es[..3];
    assert es[..3] == [Begin(p), List, Store(c, p)] && es[..3][..2] == es[..2];
    assert es[..2] == [Begin(p), List] && es[..2][..1] == es[..1] && es[..1] == [Begin(p)] && es[..1][..0] == [];
    var s1 := Step(s, Begin(p));
    assert Run(s, es[..1]) == s1;
    var s2 := Step(s1, List);
    assert Kids(s1, p) == {};
    assert Run(s, es[..2]) == s2;
    var s3 := Step(s2, Store(c, p));
    assert Run(s, es[..3]) == s3;
    var s4 := Step(s3, Index(c));
    assert Run(s, es[..4]) == s4;
    assert Run(s, es) == Step(s4, Finish(true));
  }
}
