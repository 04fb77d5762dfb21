/** Token records: lifetimes, renewal ceilings, and how ceilings are inherited. */
module Tokens {
  import opened Common

  type Id = nat

  /** SHA-256 of a token value, taken to be injective. */
  datatype Hash = Hash(of: Id)

  /** A stored token. None stands for Go's zero time: `expires` None never expires, `ceiling` None
      is a record from before ceilings were stored (or a token that never expires). */
  datatype Token = Token(id: Id, parent: Option<Hash>, created: int, expires: Option<int>, ceiling: Option<int>)

  type Records = map<Hash, Token>

  const DEFAULT_TTL: int := 32 * 24 * 3600

  function Later(a: int, b: int): int { if a > b then a else b }

  function Earlier(a: int, b: int): int { if a > b then b else a }

  function TTL(ttl: int): int { if ttl <= 0 then DEFAULT_TTL else ttl }

  predicate Expired(t: Token, now: int) { t.expires.Some? && now > t.expires.value }

  /** MaxExpiry. */
  function MaxExpiry(maxTTL: int, t: Token): Option<int> {
    if t.expires.None? then None
    else if t.ceiling.Some? then t.ceiling
    else Some(Later(t.expires.value, t.created + maxTTL))
  }

  /** createWithEntityBounded. */
  function Minted(maxTTL: int, id: Id, expires: Option<int>, bound: Option<int>, parent: Option<Hash>,
                  now: int): Token {
    if expires.None? then Token(id, parent, now, None, None)
    else
      var ceiling := Later(expires.value, now + maxTTL);
      if bound.None? then Token(id, parent, now, expires, Some(ceiling))
      else Token(id, parent, now, Some(Earlier(expires.value, bound.value)), Some(Earlier(ceiling, bound.value)))
  }

  /** CreateChild reads the clock twice: `asked` for the expiry, `now` when the record is made. */
  function ChildOf(maxTTL: int, parent: Token, id: Id, ttl: int, asked: int, now: int): Token {
    Minted(maxTTL, id, Some(asked + TTL(ttl)), MaxExpiry(maxTTL, parent), Some(Hash(parent.id)), now)
  }

  /** Renew, of a token that has not expired. */
  function Renewed(maxTTL: int, t: Token, ttl: int, now: int): Token {
    if t.expires.None? then t
    else
      var ceiling := MaxExpiry(maxTTL, t);
      t.(ceiling := ceiling, expires := Some(Earlier(now + TTL(ttl), ceiling.value)))
  }

  // ---- the times, written out ----

  /** A token never expires, or is expired from the moment after its expiry on. */
  lemma ExpiredIff(t: Token, now: int)
    ensures t.expires.None? ==> !Expired(t, now)
    ensures t.expires.Some? ==> (Expired(t, now) <==> t.expires.value < now)
  {}

  /** A new token expires when asked to, or at its bound if that is earlier; its ceiling is the later of that
      time and maxTTL from now, or the bound if that is earlier. One without an expiry has no ceiling. */
  lemma MintedTimes(maxTTL: int, id: Id, expires: Option<int>, bound: Option<int>, parent: Option<Hash>, now: int)
    ensures var t := Minted(maxTTL, id, expires, bound, parent, now);
            && t.id == id && t.parent == parent && t.created == now
            && (expires.None? ==> t.expires.None? && t.ceiling.None?)
            && (expires.Some? ==>
                  && t.expires.Some? && t.ceiling.Some?
                  && t.expires.value <= expires.value && (bound.Some? ==> t.expires.value <= bound.value)
                  && (t.expires.value == expires.value || t.expires == bound)
                  && (bound.None? ==>
                        && t.ceiling.value >= expires.value && t.ceiling.value >= now + maxTTL
                        && (t.ceiling.value == expires.value || t.ceiling.value == now + maxTTL))
                  && (bound.Some? ==>
                        && t.ceiling.value <= bound.value
                        && (t.ceiling == bound
                            || (t.ceiling.value >= expires.value && t.ceiling.value >= now + maxTTL
                                && (t.ceiling.value == expires.value || t.ceiling.value == now + maxTTL)))
                        && (bound.value <= expires.value || bound.value <= now + maxTTL ==> t.ceiling == bound)))
  {}

  /** The ceiling of a record: the one stored, or for an older record the later of its expiry and maxTTL
      from its creation. */
  lemma MaxExpiryTimes(maxTTL: int, t: Token)
    ensures t.expires.None? ==> MaxExpiry(maxTTL, t).None?
    ensures t.expires.Some? && t.ceiling.Some? ==> MaxExpiry(maxTTL, t) == t.ceiling
    ensures t.expires.Some? && t.ceiling.None? ==>
              var m := MaxExpiry(maxTTL, t);
              && m.Some? && m.value >= t.expires.value && m.value >= t.created + maxTTL
              && (m.value == t.expires.value || m.value == t.created + maxTTL)
  {}

  /** A child asked for with a positive ttl lives for exactly that long, if its parent's ceiling allows. */
  lemma ChildLives(maxTTL: int, parent: Token, id: Id, ttl: int, asked: int, now: int, at: int)
    requires ttl > 0 && (MaxExpiry(maxTTL, parent).None? || asked + ttl <= MaxExpiry(maxTTL, parent).value)
    ensures var t := ChildOf(maxTTL, parent, id, ttl, asked, now);
            && t.parent == Some(Hash(parent.id)) && t.expires == Some(asked + ttl)
            && (Expired(t, at) <==> at > asked + ttl)
  {}

  /** A renewal with a positive ttl lets a token live for exactly that long, or up to its ceiling if that
      is earlier; a ttl of zero or less stands for 32 days. */
  lemma RenewalLives(maxTTL: int, t: Token, ttl: int, now: int, at: int)
    requires t.expires.Some?
    ensures var u, until := Renewed(maxTTL, t, ttl, now), now + (if ttl > 0 then ttl else 32 * 24 * 3600);
            var ceiling := MaxExpiry(maxTTL, t).value;
            && u.expires == Some(if until <= ceiling then until else ceiling)
            && (Expired(u, at) <==> at > until || at > ceiling)
  {}

  // ---- ceilings over whole runs ----

  /** `a` is at most `b`, where no ceiling is above every ceiling. */
  predicate AtMost(a: Option<int>, b: Option<int>) { b.None? || (a.Some? && a.value <= b.value) }

  datatype Op =
    | Create(id: Id, expires: Option<int>, bound: Option<int>, now: int)
    | Child(parent: Token, id: Id, ttl: int, asked: int, now: int)
    | Renew(id: Id, ttl: int, looked: int, now: int)
    | Forget(id: Id)

  /** The store, and every version of every token record there has been. A child may be created
      from any version of its parent, however stale, and after the parent is gone. */
  datatype World = World(records: Records, seen: set<Token>)

  function Save(w: World, t: Token): World { World(w.records[Hash(t.id) := t], w.seen + {t}) }

  predicate Fresh(w: World, id: Id) { forall t :: t in w.seen ==> t.id != id && t.parent != Some(Hash(id)) }

  function Do(maxTTL: int, w: World, op: Op): World {
    match op
    case Create(id, expires, bound, now) =>
      if Fresh(w, id) then Save(w, Minted(maxTTL, id, expires, bound, None, now)) else w
    case Child(parent, id, ttl, asked, now) =>
      if Fresh(w, id) && parent in w.seen then Save(w, ChildOf(maxTTL, parent, id, ttl, asked, now)) else w
    case Renew(id, ttl, looked, now) =>
      if Hash(id) in w.records && !Expired(w.records[Hash(id)], looked)
      then Save(w, Renewed(maxTTL, w.records[Hash(id)], ttl, now)) else w
    case Forget(id) => World(w.records - {Hash(id)}, w.seen)
  }

  function Run(maxTTL: int, w: World, ops: seq<Op>): World
    decreases |ops|
  {
    if ops == [] then w else Run(maxTTL, Do(maxTTL, w, ops[0]), ops[1..])
  }

  ghost predicate Inv(maxTTL: int, w: World) {
    && (forall h :: h in w.records ==> w.records[h] in w.seen && Hash(w.records[h].id) == h)
    // an expiry never passes its ceiling
    && (forall t :: t in w.seen ==> (t.expires.Some? ==> t.expires.value <= MaxExpiry(maxTTL, t).value))
    // all versions of a token have one parent and one ceiling
    && (forall t, u ::
          t in w.seen && u in w.seen && t.id == u.id
          ==> t.parent == u.parent && MaxExpiry(maxTTL, t) == MaxExpiry(maxTTL, u))
    // a ceiling never passes the parent's
    && (forall t, u ::
          t in w.seen && u in w.seen && t.parent == Some(Hash(u.id))
          ==> AtMost(MaxExpiry(maxTTL, t), MaxExpiry(maxTTL, u)))
  }

  /** Renewing keeps the ceiling, records it, and stays below it. */
  lemma RenewedKeepsCeiling(maxTTL: int, t: Token, ttl: int, now: int)
    ensures var u := Renewed(maxTTL, t, ttl, now);
            && u.id == t.id && u.parent == t.parent
            && MaxExpiry(maxTTL, u) == MaxExpiry(maxTTL, t)
            && (u.expires.Some? ==> u.ceiling == MaxExpiry(maxTTL, u) && u.expires.value <= u.ceiling.value)
  {}

  lemma DoInv(maxTTL: int, w: World, op: Op)
    requires Inv(maxTTL, w)
    ensures Inv(maxTTL, Do(maxTTL, w, op))
  {
    match op
    case Renew(id, ttl, looked, now) =>
      if Do(maxTTL, w, op) != w {
        var t := w.records[Hash(id)];
        RenewedKeepsCeiling(maxTTL, t, ttl, now);
        SaveVersion(maxTTL, w, t, Renewed(maxTTL, t, ttl, now));
      }
    case Create(id, expires, bound, now) =>
      if Fresh(w, id) { SaveNew(maxTTL, w, Minted(maxTTL, id, expires, bound, None, now)); }
    case Child(parent, id, ttl, asked, now) =>
      if Fresh(w, id) && parent in w.seen {
        var t := ChildOf(maxTTL, parent, id, ttl, asked, now);
        assert AtMost(MaxExpiry(maxTTL, t), MaxExpiry(maxTTL, parent));
        forall u | u in w.seen && t.parent == Some(Hash(u.id))
            ensures AtMost(MaxExpiry(maxTTL, t), MaxExpiry(maxTTL, u)) {}
        SaveNew(maxTTL, w, t);
      }
    case Forget(_) =>
  }

  lemma SaveNew(maxTTL: int, w: World, t: Token)
    requires Inv(maxTTL, w) && Fresh(w, t.id) && t.parent != Some(Hash(t.id))
    requires (t.expires.Some? ==> t.expires.value <= MaxExpiry(maxTTL, t).value)
    requires forall u ::
               u in w.seen && t.parent == Some(Hash(u.id)) ==> AtMost(MaxExpiry(maxTTL, t), MaxExpiry(maxTTL, u))
    ensures Inv(maxTTL, Save(w, t))
  {
    hide MaxExpiry;
  }

  lemma SaveVersion(maxTTL: int, w: World, t: Token, u: Token)
    requires Inv(maxTTL, w) && t in w.seen && u.id == t.id && u.parent == t.parent
    requires MaxExpiry(maxTTL, u) == MaxExpiry(maxTTL, t)
    requires (u.expires.Some? ==> u.expires.value <= MaxExpiry(maxTTL, u).value)
    ensures Inv(maxTTL, Save(w, u))
  {
    hide MaxExpiry;
  }

  lemma {:induction false} RunInv(maxTTL: int, w: World, ops: seq<Op>)
    requires Inv(maxTTL, w)
    ensures Inv(maxTTL, Run(maxTTL, w, ops)) && w.seen <= Run(maxTTL, w, ops).seen
    decreases |ops|
  {
    if ops != [] {
      DoInv(maxTTL, w, ops[0]);
      hide Inv;
      RunInv(maxTTL, Do(maxTTL, w, ops[0]), ops[1..]);
    }
  }

  /** Over every run: a token's ceiling never changes, and no expiry passes its ceiling. */
  lemma CeilingIsFixed(maxTTL: int, w: World, ops: seq<Op>, t: Token, u: Token)
    requires Inv(maxTTL, w) && t in w.seen
    requires u in Run(maxTTL, w, ops).seen && u.id == t.id
    ensures MaxExpiry(maxTTL, u) == MaxExpiry(maxTTL, t)
    ensures u.expires.Some? ==> u.expires.value <= MaxExpiry(maxTTL, t).value
  {
    RunInv(maxTTL, w, ops);
  }

  /** A chain of parent links among the versions seen: each token was created by the next. */
  predicate IsLineage(w: World, chain: seq<Token>) {
    && (forall i :: 0 <= i < |chain| ==> chain[i] in w.seen)
    && (forall i :: 0 <= i < |chain| - 1 ==> chain[i].parent == Some(Hash(chain[i + 1].id)))
  }

  /** Over every run: no token's ceiling, nor its expiry, passes that of any ancestor. */
  lemma {:induction false} AncestorsBound(maxTTL: int, w: World, ops: seq<Op>, chain: seq<Token>)
    requires Inv(maxTTL, w) && IsLineage(Run(maxTTL, w, ops), chain) && chain != []
    ensures AtMost(MaxExpiry(maxTTL, chain[0]), MaxExpiry(maxTTL, chain[|chain| - 1]))
    ensures AtMost(chain[0].expires, MaxExpiry(maxTTL, chain[|chain| - 1]))
    decreases |chain|
  {
    RunInv(maxTTL, w, ops);
    hide MaxExpiry, Run;
    if |chain| > 1 {
      AncestorsBound(maxTTL, w, ops, chain[1..]);
      assert chain[0].parent == Some(Hash(chain[1].id));
    }
  }
}
