/** Which shares can reopen a sealed vault: after a rekey, saved or not, the new ones and the old ones. */
module Reopening {
  import opened Common
  import opened Keys
  import opened Barrier
  import opened Shamir
  import opened Core
  import opened Lifecycle
  import S = Shamir
  import Bytes
  import Polynomials

  /** Some run of unseal calls with these shares, seals included, opens the vault. */
  ghost predicate CanReopen(v: Vault, shares: seq<Share>) {
    exists acts :: Run(v, shares, acts).key.Some?
  }

  predicate FreshlySealed(v: Vault) { v.key.None? && v.progress == [] }

  // ---- exactly when ----

  /** The shares pending when a full set of them is always refused. */
  function Pending(n: nat, required: int, acts: seq<Act>): (picks: seq<nat>)
    ensures IsSelection(picks, n)
    decreases |acts|
  {
    if acts == [] then []
    else
      var before := Pending(n, required, acts[..|acts| - 1]);
      match acts[|acts| - 1]
      case SealNow => []
      case Give(i) =>
        if i >= n || i in before then before
        else if |before| + 1 >= required then []
        else before + [i]
  }

  /** No full set of these shares combines to the master key. */
  ghost predicate Useless(shares: seq<Share>, required: int, master: Octets) {
    forall picks :: IsSelection(picks, |shares|) && |picks| == required
        ==> Combined(Pick(shares, picks)) != S.Ok(master)
  }

  lemma RefusedStep(w: Vault, barrierKey: Octets, g: Deal, required: int, held: Deal, picks: seq<nat>, i: nat)
    requires Issued(w.disk, barrierKey, g, required) && IsDeal(held) && Useless(held.shares, required, g.master)
    requires IsSelection(picks, |held.shares|) && |picks| < required && i < |held.shares|
    requires w.key.None? && w.progress == Pick(held.shares, picks)
    ensures var next := if i in picks then picks else picks + [i];
            && IsSelection(next, |held.shares|)
            && Unsealing(w, held.shares[i]).0
               == w.(progress := if |next| >= required then [] else Pick(held.shares, next))
  {
    hide Combined, IsDeal, Pick, IsSelection, Gather;
    ShareLengths(held, i);
    Gathered(held, picks, i);
  }

  /** Shares no full set of which combines to the keyring's master key never unseal the vault. */
  lemma {:induction false} UselessSharesRefused(v: Vault, barrierKey: Octets, g: Deal, required: int, held: Deal,
                                                acts: seq<Act>)
    requires Issued(v.disk, barrierKey, g, required) && IsDeal(held) && Useless(held.shares, required, g.master)
    requires 1 <= required && v.key.None? && v.progress == []
    ensures var picks := Pending(|held.shares|, required, acts);
            |picks| < required && Run(v, held.shares, acts) == v.(progress := Pick(held.shares, picks))
    decreases |acts|
  {
    hide Issued, Unsealing, IsDeal, Useless;
    if acts != [] {
      var init, last := acts[..|acts| - 1], acts[|acts| - 1];
      UselessSharesRefused(v, barrierKey, g, required, held, init);
      if last.Give? && last.i < |held.shares| {
        RefusedStep(Run(v, held.shares, init), barrierKey, g, required, held, Pending(|held.shares|, required, init),
            last.i);
      }
    }
  }

  /** The chosen shares, one after the other. */
  function Gives(picks: seq<nat>): seq<Act> { seq(|picks|, i requires 0 <= i < |picks| => Give(picks[i])) }

  /** One more share: gathered, or the last one needed. */
  lemma GiveHeld(w: Vault, barrierKey: Octets, g: Deal, required: int, held: Deal, picks: seq<nat>, i: nat)
    requires Issued(w.disk, barrierKey, g, required) && IsDeal(held)
    requires IsSelection(picks, |held.shares|) && |picks| < required && i < |held.shares| && i !in picks
    requires w.key.None? && w.progress == Pick(held.shares, picks)
    ensures var next, after := picks + [i], Unsealing(w, held.shares[i]).0;
            && IsSelection(next, |held.shares|)
            && (|next| < required ==> after == w.(progress := Pick(held.shares, next)))
            && (|next| == required && Combined(Pick(held.shares, next)) == S.Ok(g.master)
               ==> after.key == Some(barrierKey))
  {
    hide Combined, IsDeal, Pick, IsSelection, Gather;
    ShareLengths(held, i);
    Gathered(held, picks, i);
    MasterLength(g);
  }

  lemma SelectionSplits(picks: seq<nat>, n: nat)
    requires IsSelection(picks, n) && picks != []
    ensures var init, i := picks[..|picks| - 1], picks[|picks| - 1];
            && IsSelection(init, n) && i < n && i !in init && init + [i] == picks
            && Gives(picks)[..|picks| - 1] == Gives(init) && Gives(picks)[|picks| - 1] == Give(i)
  {}

  lemma {:induction false} GivesGather(v: Vault, barrierKey: Octets, g: Deal, required: int, held: Deal,
                                       picks: seq<nat>)
    requires Issued(v.disk, barrierKey, g, required) && IsDeal(held) && FreshlySealed(v)
    requires IsSelection(picks, |held.shares|) && |picks| < required
    ensures Run(v, held.shares, Gives(picks)) == v.(progress := Pick(held.shares, picks))
    decreases |picks|
  {
    hide Issued, IsDeal, Unsealing, IsSelection;
    if picks != [] {
      SelectionSplits(picks, |held.shares|);
      var init := picks[..|picks| - 1];
      GivesGather(v, barrierKey, g, required, held, init);
      GiveHeld(Run(v, held.shares, Gives(init)), barrierKey, g, required, held, init, picks[|picks| - 1]);
    }
  }

  lemma GivesOpen(v: Vault, barrierKey: Octets, g: Deal, required: int, held: Deal, picks: seq<nat>)
    requires Issued(v.disk, barrierKey, g, required) && IsDeal(held) && FreshlySealed(v) && 1 <= required
    requires IsSelection(picks, |held.shares|) && |picks| == required
    requires Combined(Pick(held.shares, picks)) == S.Ok(g.master)
    ensures Run(v, held.shares, Gives(picks)).key == Some(barrierKey)
  {
    hide Issued, IsDeal, Unsealing, IsSelection, Combined;
    SelectionSplits(picks, |held.shares|);
    var init := picks[..|picks| - 1];
    GivesGather(v, barrierKey, g, required, held, init);
    GiveHeld(Run(v, held.shares, Gives(init)), barrierKey, g, required, held, init, picks[|picks| - 1]);
  }

  /** Shares of any deal can reopen a sealed vault exactly when some choice of as many of them as the
      configuration asks for combines to the master key of the keyring. */
  lemma ReopensIff(v: Vault, barrierKey: Octets, g: Deal, required: int, held: Deal)
    requires Issued(v.disk, barrierKey, g, required) && IsDeal(held) && FreshlySealed(v) && 1 <= required
    ensures CanReopen(v, held.shares) <==> !Useless(held.shares, required, g.master)
  {
    hide Issued, IsDeal, Combined, Run;
    if Useless(held.shares, required, g.master) {
      forall acts ensures Run(v, held.shares, acts).key.None? {
        UselessSharesRefused(v, barrierKey, g, required, held, acts);
      }
    } else {
      var picks :| IsSelection(picks, |held.shares|) && |picks| == required
                   && Combined(Pick(held.shares, picks)) == S.Ok(g.master);
      GivesOpen(v, barrierKey, g, required, held, picks);
    }
  }

  // ---- what a choice of shares combines to ----

  lemma {:induction false} Pigeonhole(picks: seq<nat>, from: set<nat>)
    requires Polynomials.Distinct(picks) && forall i :: 0 <= i < |picks| ==> picks[i] in from
    ensures |picks| <= |from|
    decreases |picks|
  {
    if picks != [] {
      var last := picks[|picks| - 1];
      Pigeonhole(picks[..|picks| - 1], from - {last});
    }
  }

  function Below(n: nat): (s: set<nat>)
    ensures |s| == n && forall i: nat :: i in s <==> i < n
  {
    if n == 0 then {} else Below(n - 1) + {n - 1}
  }

  /** Asked for at least their threshold, shares combine to their own master key or are too few. */
  lemma EnoughCombine(held: Deal, required: int, master: Octets)
    requires IsDeal(held) && held.threshold <= required
    ensures Useless(held.shares, required, master) <==> held.master != master || required > |held.shares|
  {
    hide Combined, IsDeal;
    forall picks | IsSelection(picks, |held.shares|) && |picks| == required
      ensures Combined(Pick(held.shares, picks)) == S.Ok(held.master) && required <= |held.shares|
    {
      DealCombines(held, picks);
      Pigeonhole(picks, Below(|held.shares|));
    }
    if required <= |held.shares| && held.master == master {
      assert IsSelection(FirstOnes(required), |held.shares|);
    }
  }

  function FirstOnes(n: nat): (picks: seq<nat>)
    ensures |picks| == n && forall i :: 0 <= i < n ==> picks[i] == i
  {
    seq(n, (i: nat) => i)
  }

  lemma ShortCombines(g: Deal, picks: seq<nat>)
    requires IsDeal(g) && IsSelection(picks, |g.shares|) && 2 <= |picks| < g.threshold
    requires g.coefficients[0][|picks| - 1] != 0
    requires forall k :: |picks| <= k < g.threshold - 1 ==> g.coefficients[0][k] == 0
    ensures Combined(Pick(g.shares, picks)) != S.Ok(g.master)
  {
    hide Polynomials.Eval, Polynomials.WeightedSum;
    var polys, s := Polys(g.master, g.coefficients), Pick(g.shares, picks);
    PickIsSharing(g.shares, polys, picks);
    assert forall i :: 0 <= i < |s| ==> Samples(s[i], polys);
    assert SameLength(s, |polys| + 1);
    var c, xs, ys := polys[0][..|picks| + 1], Xs(s), Column(s, 0);
    forall i | 0 <= i < |xs| ensures Polynomials.Eval(c, xs[i]) == ys[i] {
      Trimmed(polys[0], |picks| + 1, xs[i]);
    }
    Polynomials.ShortMisses(c, xs, ys);
    assert Combined(s).Ok? ==> Combined(s).value[0] == Polynomials.WeightedSum(xs, ys, |s|, 0);
  }

  /** Zero coefficients at the top do not count. */
  lemma {:induction false} Trimmed(p: Polynomials.Poly, n: nat, x: bv8)
    requires n <= |p| && forall k :: n <= k < |p| ==> p[k] == 0
    ensures Polynomials.Eval(p, x) == Polynomials.Eval(p[..n], x)
    decreases |p|
  {
    hide Polynomials.Eval;
    if n < |p| {
      var q := p[..|p| - 1];
      assert p == q + [0];
      Polynomials.EvalAppendZero(q, x);
      Trimmed(q, n, x);
      assert q[..n] == p[..n];
    } else {
      assert p[..n] == p;
    }
  }

  // ---- deals that exist ----

  /** The shares at x = 1 to n of the polynomials drawn for a master key. */
  function DealAt(master: Octets, coefficients: seq<seq<bv8>>, threshold: nat, n: nat): Deal
    requires |master| <= |coefficients| && n <= 255
  {
    var polys := Polys(master, coefficients);
    Deal(master, coefficients, threshold, seq(n, i requires 0 <= i < n => ShareAt(polys, Bytes.Point(i))))
  }

  function ShareAt(polys: seq<Polynomials.Poly>, x: bv8): (s: Share)
    ensures Samples(s, polys) && XOf(s) == x
  {
    seq(|polys|, k requires 0 <= k < |polys| => Polynomials.Eval(polys[k], x)) + [x]
  }

  lemma DealAtIsDeal(master: Octets, coefficients: seq<seq<bv8>>, threshold: nat, n: nat)
    requires |master| == KEY_SIZE <= |coefficients| && n <= 255 && 2 <= threshold
    requires forall k :: 0 <= k < |coefficients| ==> |coefficients[k]| == threshold - 1
    ensures IsDeal(DealAt(master, coefficients, threshold, n))
            && |DealAt(master, coefficients, threshold, n).shares| == n
  {
    hide Polynomials.Eval, Bytes.Point;
    var g := DealAt(master, coefficients, threshold, n);
    forall i, j | 0 <= i < n && 0 <= j < n
      ensures Xs(g.shares)[i] != 0 && (i < j ==> Xs(g.shares)[i] != Xs(g.shares)[j])
    {
      Bytes.PointsDiffer(i, j);
    }
  }

  /** Coefficient blocks that draw x^d for every byte. */
  function Monomials(d: nat, threshold: nat): (c: seq<seq<bv8>>)
    requires 1 <= d < threshold
    ensures |c| == KEY_SIZE && forall k :: 0 <= k < KEY_SIZE ==> |c[k]| == threshold - 1
    ensures forall j :: 0 <= j < threshold - 1 ==> c[0][j] == if j == d - 1 then 1 else 0
  {
    var block := seq(threshold - 1, j requires 0 <= j < threshold - 1 => if j == d - 1 then 1 else 0);
    seq(KEY_SIZE, k => block)
  }

  /** A sealed vault whose keyring is under a master key and whose configuration asks for `required`. */
  function VaultUnder(master: Octets, barrierKey: Octets, shares: int, required: int): Vault {
    Vault(map[KEYRING := Cipher(master, KEYRING, barrierKey),
        SEAL_CONFIG := Config(SealConfig(ShamirSeal, shares, required))],
          None, [], None)
  }

  lemma VaultUnderIssued(g: Deal, barrierKey: Octets, required: int)
    requires IsDeal(g) && |barrierKey| == KEY_SIZE
    ensures Issued(VaultUnder(g.master, barrierKey, |g.shares|, required).disk, barrierKey, g, required)
  {
    hide IsDeal;
    assert KEYRING != SEAL_CONFIG by { assert KEYRING[5] == 107 && SEAL_CONFIG[5] == 115; }
  }

  function ZeroKey(): (k: Octets)
    ensures |k| == KEY_SIZE
  {
    seq(KEY_SIZE, i => 0)
  }

  /** A deal of which no `required` shares, fewer than its threshold, combine to its master key. */
  lemma ShortDeal(n: nat, threshold: nat, required: nat) returns (g: Deal)
    requires LegalConfig(n, threshold) && 2 <= required < threshold
    ensures IsDeal(g) && |g.shares| == n && g.threshold == threshold && Useless(g.shares, required, g.master)
  {
    hide Combined, IsDeal, DealAt;
    g := DealAt(ZeroKey(), Monomials(required, threshold), threshold, n);
    DealAtIsDeal(ZeroKey(), Monomials(required, threshold), threshold, n);
    DealAtParts(ZeroKey(), Monomials(required, threshold), threshold, n);
    forall picks | IsSelection(picks, |g.shares|) && |picks| == required
      ensures Combined(Pick(g.shares, picks)) != S.Ok(g.master)
    {
      ShortCombines(g, picks);
    }
  }

  lemma DealAtParts(master: Octets, coefficients: seq<seq<bv8>>, threshold: nat, n: nat)
    requires |master| <= |coefficients| && n <= 255
    ensures var g := DealAt(master, coefficients, threshold, n);
            g.master == master && g.coefficients == coefficients && g.threshold == threshold
  {}

  // ---- the new shares, after a failed configuration write ----

  /** New shares reopen the vault, however they and the master key were drawn, when the configuration
      asks for `required` of them. */
  ghost predicate AlwaysReopens(n: nat, threshold: nat, required: int) {
    forall g: Deal, v: Vault, barrierKey: Octets ::
      Issued(v.disk, barrierKey, g, required) && |g.shares| == n && g.threshold == threshold && FreshlySealed(v)
      ==> CanReopen(v, g.shares)
  }

  /** A rekey whose configuration write failed leaves the old threshold in force. The new shares reopen
      the vault for every draw exactly when it lies between the new threshold and the new share count. */
  lemma AlwaysReopensIff(n: nat, threshold: nat, required: nat)
    requires LegalConfig(n, threshold) && 2 <= required
    ensures AlwaysReopens(n, threshold, required) <==> threshold <= required <= n
  {
    hide Issued, Combined, IsDeal, DealAt;
    if threshold <= required <= n {
      forall g: Deal, v: Vault, barrierKey: Octets
        | Issued(v.disk, barrierKey, g, required) && |g.shares| == n && g.threshold == threshold && FreshlySealed(v)
        ensures CanReopen(v, g.shares)
      {
        IssuedDeal(v.disk, barrierKey, g, required);
        EnoughCombine(g, required, g.master);
        ReopensIff(v, barrierKey, g, required, g);
      }
    } else {
      var g: Deal;
      if required < threshold {
        g := ShortDeal(n, threshold, required);
      } else {
        g := DealAt(ZeroKey(), Monomials(1, threshold), threshold, n);
        DealAtIsDeal(ZeroKey(), Monomials(1, threshold), threshold, n);
        DealAtParts(ZeroKey(), Monomials(1, threshold), threshold, n);
        EnoughCombine(g, required, g.master);
      }
      var v := VaultUnder(g.master, ZeroKey(), |g.shares|, required);
      VaultUnderIssued(g, ZeroKey(), required);
      ReopensIff(v, ZeroKey(), g, required, g);
      assert FreshlySealed(v) && !CanReopen(v, g.shares);
    }
  }

  lemma IssuedDeal(d: Disk, barrierKey: Octets, g: Deal, required: int)
    requires Issued(d, barrierKey, g, required)
    ensures IsDeal(g)
  {}

  // ---- the old shares, after a rekey ----

  /** Old shares never reopen the vault under another master key, however both were drawn. */
  ghost predicate AlwaysStale(n: nat, threshold: nat, required: int) {
    forall stale: Deal, g: Deal, v: Vault, barrierKey: Octets ::
      IsDeal(stale) && |stale.shares| == n && stale.threshold == threshold && stale.master != g.master
      && Issued(v.disk, barrierKey, g, required) && FreshlySealed(v)
      ==> !CanReopen(v, stale.shares)
  }

  /** Under another master key old shares stop working for certain exactly when the configuration now asks
      for at least as many as they need. */
  lemma AlwaysStaleIff(n: nat, threshold: nat, required: nat)
    requires LegalConfig(n, threshold) && 2 <= required
    ensures AlwaysStale(n, threshold, required) <==> threshold <= required
  {
    hide Issued, Combined, IsDeal;
    if threshold <= required {
      forall stale: Deal, g: Deal, v: Vault, barrierKey: Octets
        | IsDeal(stale) && |stale.shares| == n && stale.threshold == threshold && stale.master != g.master
          && Issued(v.disk, barrierKey, g, required) && FreshlySealed(v)
        ensures !CanReopen(v, stale.shares)
      {
        EnoughCombine(stale, required, g.master);
        ReopensIff(v, barrierKey, g, required, stale);
      }
    } else {
      StaleExample(n, threshold, required);
    }
  }

  /** Old shares never reopen the vault, however both deals were drawn, the same master key included. */
  ghost predicate AlwaysRefused(n: nat, threshold: nat, required: int) {
    forall stale: Deal, g: Deal, v: Vault, barrierKey: Octets ::
      IsDeal(stale) && |stale.shares| == n && stale.threshold == threshold
      && Issued(v.disk, barrierKey, g, required) && FreshlySealed(v)
      ==> !CanReopen(v, stale.shares)
  }

  /** Only a configuration that asks for more shares than there were refuses the old ones for every draw. */
  lemma AlwaysRefusedIff(n: nat, threshold: nat, required: nat)
    requires LegalConfig(n, threshold) && 2 <= required
    ensures AlwaysRefused(n, threshold, required) <==> n < required
  {
    hide Issued, Combined, IsDeal, DealAt;
    if n < required {
      forall stale: Deal, g: Deal, v: Vault, barrierKey: Octets
        | IsDeal(stale) && |stale.shares| == n && stale.threshold == threshold
          && Issued(v.disk, barrierKey, g, required) && FreshlySealed(v)
        ensures !CanReopen(v, stale.shares)
      {
        EnoughCombine(stale, required, g.master);
        ReopensIff(v, barrierKey, g, required, stale);
      }
    } else if threshold <= required {
      var stale := DealAt(ZeroKey(), Monomials(1, threshold), threshold, n);
      DealAtIsDeal(ZeroKey(), Monomials(1, threshold), threshold, n);
      DealAtParts(ZeroKey(), Monomials(1, threshold), threshold, n);
      var v := VaultUnder(stale.master, ZeroKey(), n, required);
      VaultUnderIssued(stale, ZeroKey(), required);
      EnoughCombine(stale, required, stale.master);
      ReopensIff(v, ZeroKey(), stale, required, stale);
      assert FreshlySealed(v) && CanReopen(v, stale.shares);
    } else {
      StaleExample(n, threshold, required);
    }
  }

  /** The draws with which they do: a rekey that lowers the threshold and happens on the key that fewer
      of the old shares combine to. */
  lemma StaleExample(n: nat, threshold: nat, required: nat)
    requires LegalConfig(n, threshold) && 2 <= required < threshold
    ensures exists stale: Deal, g: Deal, v: Vault, barrierKey: Octets ::
              && IsDeal(stale) && |stale.shares| == n && stale.threshold == threshold && stale.master != g.master
              && Issued(v.disk, barrierKey, g, required) && FreshlySealed(v) && g.threshold == required == |g.shares|
              && CanReopen(v, stale.shares)
  {
    hide Issued, Combined, IsDeal, DealAt;
    var stale := ShortDeal(n, threshold, required);
    var picks := FirstOnes(required);
    assert IsSelection(picks, n);
    var master := DealAnswers(stale, picks);
    assert master != stale.master;
    var g := DealAt(master, Monomials(1, required), required, required);
    DealAtIsDeal(master, Monomials(1, required), required, required);
    DealAtParts(master, Monomials(1, required), required, required);
    var v := VaultUnder(master, ZeroKey(), required, required);
    VaultUnderIssued(g, ZeroKey(), required);
    ReopensIff(v, ZeroKey(), g, required, stale);
    assert FreshlySealed(v);
  }

  /** Two or more shares of a deal always combine to some key. */
  lemma DealAnswers(held: Deal, picks: seq<nat>) returns (master: Octets)
    requires IsDeal(held) && IsSelection(picks, |held.shares|) && |picks| >= 2
    ensures Combined(Pick(held.shares, picks)) == S.Ok(master) && |master| == KEY_SIZE
  {
    hide Polynomials.WeightedSum, Polynomials.Eval;
    var polys, s := Polys(held.master, held.coefficients), Pick(held.shares, picks);
    PickIsSharing(held.shares, polys, picks);
    assert forall i :: 0 <= i < |s| ==> Samples(s[i], polys);
    assert SameLength(s, |polys| + 1);
    master := Combined(s).value;
  }
}
