/** The policies an entity inherits through (nested, possibly cyclic) groups. */
module Groups {

  type Id = string

  datatype Group = Group(id: Id, isExternal: bool, policies: seq<string>, memberEntities: seq<Id>,
                         memberGroups: seq<Id>,
                         mountType: string, groupName: string)

  datatype Alias = Alias(entity: Id, mountType: string, groups: seq<string>)

  function AssertionKey(mountType: string, name: string): string { mountType + "\0" + name }

  /** A joined key determines the mount type and the group name if no mount type holds the separator. */
  lemma {:induction false} AssertionKeyInjective(mountType: string, name: string, mount: string, other: string)
    requires '\0' !in mountType && '\0' !in mount && AssertionKey(mountType, name) == AssertionKey(mount, other)
    ensures mountType == mount && name == other
  {
    var a, b := AssertionKey(mountType, name), AssertionKey(mount, other);
    assert a[|mountType|] == '\0' && b[|mount|] == '\0';
    assert |mountType| == |mount|;
    assert a[..|mountType|] == mountType && b[..|mount|] == mount;
    assert a[|mountType| + 1..] == name && b[|mount| + 1..] == other;
  }

  /** With it in a mount type two different pairs share a key. */
  lemma AssertionKeyCollides()
    ensures AssertionKey("a", "b\0c") == AssertionKey("a\0b", "c")
  {}

  ghost predicate Asserts(aliases: seq<Alias>, entity: Id, key: string) {
    exists a, name :: a in aliases && a.entity == entity && name in a.groups && key == AssertionKey(a.mountType, name)
  }

  /** assertedGroups. */
  method AssertedGroups(aliases: seq<Alias>, entity: Id) returns (asserted: set<string>)
    ensures forall key :: key in asserted <==> Asserts(aliases, entity, key)
  {
    hide AssertionKey;
    asserted := {};
    for i := 0 to |aliases|
      invariant forall key :: key in asserted <==> Asserts(aliases[..i], entity, key)
    {
      var a := aliases[i];
      ghost var before := asserted;
      if a.entity == entity {
        for j := 0 to |a.groups|
          invariant forall key :: key in asserted <==>
                      key in before || exists name :: name in a.groups[..j] && key == AssertionKey(a.mountType, name)
        {
          asserted := asserted + {AssertionKey(a.mountType, a.groups[j])};
          assert forall name :: name in a.groups[..j + 1] <==> name in a.groups[..j] || name == a.groups[j];
        }
        assert a.groups[..|a.groups|] == a.groups;
      }
      assert forall b :: b in aliases[..i + 1] <==> b in aliases[..i] || b == a;
    }
    assert aliases[..|aliases|] == aliases;
  }

  // ---- membership ----

  predicate IsMember(g: Group, asserted: set<string>, entity: Id) {
    if g.isExternal then AssertionKey(g.mountType, g.groupName) in asserted else entity in g.memberEntities
  }

  ghost predicate Direct(groups: seq<Group>, asserted: set<string>, entity: Id, id: Id) {
    exists g :: g in groups && g.id == id
      && (   (g.isExternal && g.mountType + "\0" + g.groupName in asserted)
          || (!g.isExternal && entity in g.memberEntities))
  }

  ghost predicate ChildLink(groups: seq<Group>, parent: Id, child: Id) {
    exists g :: g in groups && g.id == parent && child in g.memberGroups
  }

  /** Child links from path[0] down to a group the entity belongs to directly. */
  ghost predicate IsChain(groups: seq<Group>, asserted: set<string>, entity: Id, path: seq<Id>) {
    && path != []
    && Direct(groups, asserted, entity, path[|path| - 1])
    && forall i :: 0 <= i < |path| - 1 ==> ChildLink(groups, path[i], path[i + 1])
  }

  ghost predicate Applies(groups: seq<Group>, asserted: set<string>, entity: Id, id: Id) {
    exists path :: IsChain(groups, asserted, entity, path) && path[0] == id
  }

  lemma DirectApplies(groups: seq<Group>, asserted: set<string>, entity: Id, id: Id)
    requires Direct(groups, asserted, entity, id)
    ensures Applies(groups, asserted, entity, id)
  {
    assert IsChain(groups, asserted, entity, [id]);
  }

  lemma ParentApplies(groups: seq<Group>, asserted: set<string>, entity: Id, parent: Id, child: Id)
    requires ChildLink(groups, parent, child) && Applies(groups, asserted, entity, child)
    ensures Applies(groups, asserted, entity, parent)
  {
    hide ChildLink, Direct;
    var path :| IsChain(groups, asserted, entity, path) && path[0] == child;
    var longer := [parent] + path;
    assert forall i :: 1 <= i < |longer| ==> longer[i] == path[i - 1];
    assert IsChain(groups, asserted, entity, longer);
    assert longer[0] == parent;
  }

  /** A set with every directly joined group that no child link leads out of. */
  ghost predicate Closed(groups: seq<Group>, asserted: set<string>, entity: Id, marked: set<Id>) {
    && (forall id :: Direct(groups, asserted, entity, id) ==> id in marked)
    && (forall parent, child :: ChildLink(groups, parent, child) && child in marked ==> parent in marked)
  }

  lemma {:induction false} ClosedContains(groups: seq<Group>, asserted: set<string>, entity: Id, marked: set<Id>,
                                          path: seq<Id>)
    requires Closed(groups, asserted, entity, marked) && IsChain(groups, asserted, entity, path)
    ensures path[0] in marked
    decreases |path|
  {
    hide ChildLink, Direct;
    if |path| > 1 {
      assert forall i :: 0 <= i < |path[1..]| ==> path[1..][i] == path[i + 1];
      ClosedContains(groups, asserted, entity, marked, path[1..]);
      assert ChildLink(groups, path[0], path[1]);
    }
  }

  ghost predicate Sound(groups: seq<Group>, asserted: set<string>, entity: Id, marked: set<Id>) {
    forall id :: id in marked ==> Applies(groups, asserted, entity, id)
  }

  /** A sound closed set is exactly the groups that apply. */
  lemma ExactlyApplies(groups: seq<Group>, asserted: set<string>, entity: Id, marked: set<Id>)
    requires Sound(groups, asserted, entity, marked) && Closed(groups, asserted, entity, marked)
    ensures forall id :: id in marked <==> Applies(groups, asserted, entity, id)
  {
    hide Closed, Direct, ChildLink;
    forall id | Applies(groups, asserted, entity, id) ensures id in marked {
      var path :| IsChain(groups, asserted, entity, path) && path[0] == id;
      ClosedContains(groups, asserted, entity, marked, path);
    }
  }

  function Ids(groups: seq<Group>): set<Id> { set g | g in groups :: g.id }

  /** The seed loop. */
  method Seed(groups: seq<Group>, asserted: set<string>, entity: Id) returns (marked: set<Id>)
    ensures forall id :: id in marked <==> Direct(groups, asserted, entity, id)
  {
    marked := {};
    for i := 0 to |groups|
      invariant forall id :: id in marked <==> Direct(groups[..i], asserted, entity, id)
    {
      var g := groups[i];
      if IsMember(g, asserted, entity) { marked := marked + {g.id}; }
      assert forall b :: b in groups[..i + 1] <==> b in groups[..i] || b == g;
    }
    assert groups[..|groups|] == groups;
  }

  predicate Pulls(g: Group, marked: set<Id>) { exists c :: c in g.memberGroups && c in marked }

  /** The innermost loop: does a group list a marked child? */
  method ListsMarked(g: Group, marked: set<Id>) returns (found: bool)
    ensures found <==> Pulls(g, marked)
  {
    for j := 0 to |g.memberGroups|
      invariant forall c :: c in g.memberGroups[..j] ==> c !in marked
    {
      if g.memberGroups[j] in marked { return true; }
    }
    return false;
  }

  /** Each group of a prefix is marked or lists no marked child. */
  ghost predicate Settled(groups: seq<Group>, marked: set<Id>) {
    forall g :: g in groups && Pulls(g, marked) ==> g.id in marked
  }

  lemma SettledCloses(groups: seq<Group>, asserted: set<string>, entity: Id, marked: set<Id>)
    requires Settled(groups, marked) && forall id :: Direct(groups, asserted, entity, id) ==> id in marked
    ensures Closed(groups, asserted, entity, marked)
  {
    hide Direct;
    forall parent, child | ChildLink(groups, parent, child) && child in marked ensures parent in marked {
      var g :| g in groups && g.id == parent && child in g.memberGroups;
      assert Pulls(g, marked);
    }
  }

  lemma PullApplies(groups: seq<Group>, asserted: set<string>, entity: Id, marked: set<Id>, g: Group)
    requires Sound(groups, asserted, entity, marked) && g in groups && Pulls(g, marked)
    ensures Sound(groups, asserted, entity, marked + {g.id})
  {
    hide Applies;
    var c :| c in g.memberGroups && c in marked;
    assert ChildLink(groups, g.id, c);
    ParentApplies(groups, asserted, entity, g.id, c);
  }

  /** One pass over the groups. */
  method Pass(groups: seq<Group>, asserted: set<string>, entity: Id, start: set<Id>)
    returns (marked: set<Id>, changed: bool)
    requires Sound(groups, asserted, entity, start)
    ensures Sound(groups, asserted, entity, marked) && start <= marked <= start + Ids(groups)
    ensures changed ==> start < marked
    ensures !changed ==> marked == start && Settled(groups, marked)
  {
    hide Sound, Pulls;
    marked, changed := start, false;
    for i := 0 to |groups|
      invariant Sound(groups, asserted, entity, marked) && start <= marked <= start + Ids(groups)
      invariant changed ==> start < marked
      invariant !changed ==> marked == start && Settled(groups[..i], marked)
    {
      var g := groups[i];
      assert forall b :: b in groups[..i + 1] <==> b in groups[..i] || b == g;
      if g.id in marked { continue; }
      var found := ListsMarked(g, marked);
      if found {
        PullApplies(groups, asserted, entity, marked, g);
        assert g.id in Ids(groups);
        marked, changed := marked + {g.id}, true;
      }
    }
    assert groups[..|groups|] == groups;
  }

  /** The seed and the fixpoint: terminates on every graph, cycles and dangling children included,
      with exactly the groups that have a chain of child links to one joined directly. */
  method Applicable(groups: seq<Group>, asserted: set<string>, entity: Id) returns (marked: set<Id>)
    ensures forall id :: id in marked <==> Applies(groups, asserted, entity, id)
  {
    hide Direct, Closed, Settled, Applies;
    marked := Seed(groups, asserted, entity);
    ghost var seed, all := marked, marked + Ids(groups);
    forall id | id in marked ensures Applies(groups, asserted, entity, id) {
      DirectApplies(groups, asserted, entity, id);
    }
    var changed := true;
    while changed
      invariant Sound(groups, asserted, entity, marked) && seed <= marked <= all
      invariant !changed ==> Settled(groups, marked)
      decreases all - marked, changed
    {
      marked, changed := Pass(groups, asserted, entity, marked);
    }
    SettledCloses(groups, asserted, entity, marked);
    ExactlyApplies(groups, asserted, entity, marked);
  }

  function Collected(groups: seq<Group>, marked: set<Id>): seq<string>
    decreases |groups|
  {
    if groups == [] then []
    else
      var init, last := groups[..|groups| - 1], groups[|groups| - 1];
      Collected(init, marked) + (if last.id in marked then last.policies else [])
  }

  ghost predicate Grants(groups: seq<Group>, asserted: set<string>, entity: Id, policy: string) {
    exists g :: g in groups && Applies(groups, asserted, entity, g.id) && policy in g.policies
  }

  lemma {:induction false} CollectedIff(groups: seq<Group>, marked: set<Id>, policy: string)
    ensures policy in Collected(groups, marked) <==> exists g :: g in groups && g.id in marked && policy in g.policies
    decreases |groups|
  {
    if groups != [] {
      var init, last := groups[..|groups| - 1], groups[|groups| - 1];
      CollectedIff(init, marked, policy);
      assert forall b :: b in groups <==> b in init || b == last;
    }
  }

  /** The policies are those of the marked groups, group by group in listing order. */
  lemma {:induction false} CollectedParts(groups: seq<Group>, more: seq<Group>, g: Group, marked: set<Id>)
    ensures Collected([g], marked) == if g.id in marked then g.policies else []
    ensures Collected(groups + more, marked) == Collected(groups, marked) + Collected(more, marked)
    decreases |more|
  {
    assert [g][..0] == [] && Collected([], marked) == [];
    if more == [] {
      assert groups + more == groups;
    } else {
      var init := more[..|more| - 1];
      CollectedParts(groups, init, g, marked);
      assert (groups + more)[..|groups + more| - 1] == groups + init;
    }
  }

  /** groupPoliciesForEntity, on the loaded groups and aliases: the policies of exactly the groups that
      apply, in listing order, repeated where groups repeat them. */
  method PoliciesFor(groups: seq<Group>, aliases: seq<Alias>, entity: Id)
    returns (policies: seq<string>, ghost asserted: set<string>, ghost applicable: set<Id>)
    ensures forall key :: key in asserted <==> Asserts(aliases, entity, key)
    ensures forall id :: id in applicable <==> Applies(groups, asserted, entity, id)
    ensures policies == Collected(groups, applicable)
    ensures forall policy :: policy in policies <==> Grants(groups, asserted, entity, policy)
  {
    hide Asserts, Applies;
    var known := AssertedGroups(aliases, entity);
    var marked := Applicable(groups, known, entity);
    asserted, applicable := known, marked;
    policies := [];
    for i := 0 to |groups|
      invariant policies == Collected(groups[..i], marked)
    {
      assert groups[..i + 1][..i] == groups[..i];
      if groups[i].id in marked { policies := policies + groups[i].policies; }
    }
    assert groups[..|groups|] == groups;
    forall policy ensures policy in policies <==> Grants(groups, asserted, entity, policy) {
      CollectedIff(groups, marked, policy);
    }
  }

  /** Which groups apply, and so which policies are granted, does not depend on the listing order. */
  lemma OrderIrrelevant(groups: seq<Group>, listed: seq<Group>, asserted: set<string>, entity: Id, id: Id)
    requires forall g :: g in groups <==> g in listed
    ensures Applies(groups, asserted, entity, id) <==> Applies(listed, asserted, entity, id)
  {
    ChainsCarryOver(groups, listed, asserted, entity, id);
    ChainsCarryOver(listed, groups, asserted, entity, id);
  }

  lemma ChainsCarryOver(groups: seq<Group>, listed: seq<Group>, asserted: set<string>, entity: Id, id: Id)
    requires forall g :: g in groups <==> g in listed
    ensures Applies(groups, asserted, entity, id) ==> Applies(listed, asserted, entity, id)
  {
    if Applies(groups, asserted, entity, id) {
      var path :| IsChain(groups, asserted, entity, path) && path[0] == id;
      assert forall p, c :: ChildLink(groups, p, c) ==> ChildLink(listed, p, c);
      assert IsChain(listed, asserted, entity, path);
    }
  }
}
