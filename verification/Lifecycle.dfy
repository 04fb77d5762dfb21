/** What holds over whole runs of the lifecycle operations. */
module Lifecycle {
  import opened Common
  import opened Keys
  import opened Barrier
  import opened Shamir
  import opened Core
  import B = Barrier
  import S = Shamir

  datatype Act = Give(i: nat) | SealNow

  function Step(v: Vault, shares: seq<Share>, a: Act): Vault {
    match a
    case Give(i) => if i < |shares| then Unsealing(v, shares[i]).0 else v
    case SealNow => Sealing(v)
  }

  function Run(v: Vault, shares: seq<Share>, acts: seq<Act>): Vault
    decreases |acts|
  {
    if acts == [] then v else Step(Run(v, shares, acts[..|acts| - 1]), shares, acts[|acts| - 1])
  }

  /** The distinct shares given since the last seal, in the order they first came. */
  function Given(n: nat, acts: seq<Act>): (picks: seq<nat>)
    ensures IsSelection(picks, n)
    decreases |acts|
  {
    if acts == [] then []
    else
      var before := Given(n, acts[..|acts| - 1]);
      match acts[|acts| - 1]
      case SealNow => []
      case Give(i) => if i < n && i !in before then before + [i] else before
  }

  lemma SharesDiffer(g: Deal, picks: seq<nat>, i: nat)
    requires IsDeal(g) && IsSelection(picks, |g.shares|) && i < |g.shares| && i !in picks
    ensures g.shares[i] !in Pick(g.shares, picks)
  {
    forall j | 0 <= j < |picks| ensures g.shares[picks[j]] != g.shares[i] {
      var p := picks[j];
      assert Xs(g.shares)[p] == XOf(g.shares[p]) && Xs(g.shares)[i] == XOf(g.shares[i]);
      assert p < i || i < p;
    }
  }

  /** Any threshold distinct shares of a deal combine to its master key. */
  lemma DealCombines(g: Deal, picks: seq<nat>)
    requires IsDeal(g) && IsSelection(picks, |g.shares|) && |picks| >= g.threshold
    ensures Combined(Pick(g.shares, picks)) == S.Ok(g.master)
  {
    hide Combined;
    var polys := Polys(g.master, g.coefficients);
    CombineRecovers(g.shares, polys, g.threshold, picks);
    assert seq(|polys|, k requires 0 <= k < |polys| => polys[k][0]) == g.master;
  }

  /** Progress follows the distinct shares given. */
  lemma Gathered(g: Deal, picks: seq<nat>, i: nat)
    requires IsDeal(g) && IsSelection(picks, |g.shares|) && i < |g.shares|
    ensures var next := if i in picks then picks else picks + [i];
            IsSelection(next, |g.shares|) && Gather(Pick(g.shares, picks), g.shares[i]) == Pick(g.shares, next)
  {
    hide IsDeal;
    if i in picks {
      var j :| 0 <= j < |picks| && picks[j] == i;
      assert Pick(g.shares, picks)[j] == g.shares[i];
    } else {
      SharesDiffer(g, picks, i);
      assert Pick(g.shares, picks + [i]) == Pick(g.shares, picks) + [g.shares[i]];
    }
  }

  lemma GiveStep(w: Vault, barrierKey: Octets, g: Deal, required: int, picks: seq<nat>, i: nat)
    requires Issued(w.disk, barrierKey, g, required) && g.threshold <= required
    requires IsSelection(picks, |g.shares|) && i < |g.shares|
    requires w.key == (if |picks| >= required then Some(barrierKey) else None)
    requires w.progress == (if |picks| >= required then [] else Pick(g.shares, picks))
    ensures var next := if i in picks then picks else picks + [i];
            && IsSelection(next, |g.shares|)
            && Unsealing(w, g.shares[i]).0
               == (if |next| >= required then w.(key := Some(barrierKey), progress := [])
                   else w.(progress := Pick(g.shares, next)))
  {
    hide Combined, IsDeal, Pick, IsSelection, Gather;
    ShareLengths(g, i);
    Gathered(g, picks, i);
    var next := if i in picks then picks else picks + [i];
    MasterLength(g);
    if |picks| < required <= |next| { DealCombines(g, next); }
  }

  lemma ShareLengths(g: Deal, i: nat)
    requires IsDeal(g) && i < |g.shares|
    ensures |g.shares[i]| == KEY_SIZE + 1
  {
    assert Samples(g.shares[i], Polys(g.master, g.coefficients));
  }

  /** In every run of unseal calls with issued shares, repeats and seals included, the vault is
      unsealed exactly when the required number of distinct shares was given since the last seal,
      it then holds the barrier key of its keyring, and storage never changes. */
  lemma {:induction false} UnsealedIff(v: Vault, barrierKey: Octets, g: Deal, required: int, acts: seq<Act>)
    requires Issued(v.disk, barrierKey, g, required) && g.threshold <= required
    requires v.key.None? && v.progress == []
    ensures var w, picks := Run(v, g.shares, acts), Given(|g.shares|, acts);
            && w.disk == v.disk && w.rekey == v.rekey
            && w.key == (if |picks| >= required then Some(barrierKey) else None)
            && w.progress == (if |picks| >= required then [] else Pick(g.shares, picks))
    decreases |acts|
  {
    hide Issued, Unsealing;
    if acts == [] {
      IssuedRequires(v.disk, barrierKey, g, required);
    } else {
      var init, last := acts[..|acts| - 1], acts[|acts| - 1];
      UnsealedIff(v, barrierKey, g, required, init);
      IssuedRequires(v.disk, barrierKey, g, required);
      if last.Give? && last.i < |g.shares| {
        GiveStep(Run(v, g.shares, init), barrierKey, g, required, Given(|g.shares|, init), last.i);
      }
    }
  }

  lemma IssuedRequires(d: Disk, barrierKey: Octets, g: Deal, required: int)
    requires Issued(d, barrierKey, g, required)
    ensures 2 <= g.threshold
  {}

  // ---- rotating the shares ----

  /** Data paths are neither the keyring nor the configuration. */
  lemma RewrapKeepsData(d: Disk, master: Octets, a: Attempt, saved: bool, key: Option<Octets>, path: Key)
    requires KEYRING in d && d[KEYRING].Cipher?
    ensures Read(Rewrapped(d, master, a, saved), key, path) == Read(d, key, path)
  {
    hide ValidKey;
    assert CORE <= KEYRING && CORE <= SEAL_CONFIG;
  }

  /** A completed rekey: the same barrier key, now under the new deal; every path reads as before;
      the old master key still opens the keyring only if it was drawn again. */
  lemma RekeyTakesOver(v: Vault, nonce: nat, share: Share, barrierKey: Octets, g: Deal, required: int, next: Deal,
                       saved: bool)
    requires Issued(v.disk, barrierKey, g, required) && IsDeal(next)
    requires v.rekey.Some? && next.threshold == v.rekey.value.newThreshold
    requires Rekeying(v, nonce, share, next.master, S.Ok(next.shares), saved).1.Complete?
    ensures var w := Rekeying(v, nonce, share, next.master, S.Ok(next.shares), saved).0;
            && w == v.(disk := w.disk, rekey := None)
            && Issued(w.disk, barrierKey, next, if saved then next.threshold else required)
            && Verify(w.disk, next.master) == B.Ok(true)
            && Verify(w.disk, g.master) == B.Ok(g.master == next.master)
            && forall key, path :: Read(w.disk, key, path) == Read(v.disk, key, path)
  {
    hide IsDeal, Combined, ValidKey;
    assert |g.master| == |next.master| == KEY_SIZE by { MasterLength(g); MasterLength(next); }
    var a := v.rekey.value.(progress := Gather(v.rekey.value.progress, share));
    forall key, path ensures Read(Rewrapped(v.disk, next.master, a, saved), key, path) == Read(v.disk, key, path) {
      RewrapKeepsData(v.disk, next.master, a, saved, key, path);
    }
  }

  lemma MasterLength(g: Deal)
    requires IsDeal(g)
    ensures |g.master| == KEY_SIZE
  {}

  /** After a rekey and a seal, any new threshold of the new shares reopens every path exactly as it
      was, and fewer reopen nothing. */
  lemma RekeyThenUnseal(v: Vault, nonce: nat, share: Share, barrierKey: Octets, g: Deal, required: int, next: Deal,
                        acts: seq<Act>, path: Key)
    requires Issued(v.disk, barrierKey, g, required) && IsDeal(next)
    requires v.rekey.Some? && next.threshold == v.rekey.value.newThreshold
    requires Rekeying(v, nonce, share, next.master, S.Ok(next.shares), true).1.Complete?
    ensures var sealed := Sealing(Rekeying(v, nonce, share, next.master, S.Ok(next.shares), true).0);
            var w := Run(sealed, next.shares, acts);
            Read(w.disk, w.key, path)
            == Read(v.disk, if |Given(|next.shares|, acts)| >= next.threshold then Some(barrierKey) else None, path)
  {
    hide Issued, IsDeal, Rekeying, Run, Given, Read;
    RekeyTakesOver(v, nonce, share, barrierKey, g, required, next, true);
    var sealed := Sealing(Rekeying(v, nonce, share, next.master, S.Ok(next.shares), true).0);
    UnsealedIff(sealed, barrierKey, next, next.threshold, acts);
  }

  // ---- when a rekey completes ----

  /** One call of RekeyUpdate with the i-th current share, and what it would draw and yield. */
  datatype Call = Call(i: nat, master: Octets, dealt: S.Result<seq<Share>>, saved: bool)

  function Calling(v: Vault, nonce: nat, shares: seq<Share>, c: Call): (Vault, Reply)
    requires c.i < |shares|
  {
    Rekeying(v, nonce, shares[c.i], c.master, c.dealt, c.saved)
  }

  function Called(v: Vault, nonce: nat, shares: seq<Share>, calls: seq<Call>): Vault
    requires forall j :: 0 <= j < |calls| ==> calls[j].i < |shares|
    decreases |calls|
  {
    if calls == [] then v
    else Calling(Called(v, nonce, shares, calls[..|calls| - 1]), nonce, shares, calls[|calls| - 1]).0
  }

  /** The distinct shares supplied, in the order they first came. */
  function Supplied(n: nat, calls: seq<Call>): (picks: seq<nat>)
    requires forall j :: 0 <= j < |calls| ==> calls[j].i < n
    ensures IsSelection(picks, n)
    decreases |calls|
  {
    if calls == [] then []
    else
      var before, i := Supplied(n, calls[..|calls| - 1]), calls[|calls| - 1].i;
      if i in before then before else before + [i]
  }

  /** An unsealed vault with a rekey attempt that has gathered the chosen current shares. */
  ghost predicate Attempting(v: Vault, nonce: nat, barrierKey: Octets, g: Deal, required: int, picks: seq<nat>) {
    && Issued(v.disk, barrierKey, g, required) && g.threshold <= required && v.key.Some?
    && IsSelection(picks, |g.shares|) && |picks| < required
    && v.rekey.Some? && v.rekey.value.nonce == nonce && v.rekey.value.progress == Pick(g.shares, picks)
  }

  lemma CallStep(v: Vault, nonce: nat, barrierKey: Octets, g: Deal, required: int, picks: seq<nat>, c: Call)
    requires Attempting(v, nonce, barrierKey, g, required, picks) && c.i < |g.shares|
    ensures var next := if c.i in picks then picks else picks + [c.i];
            var (w, r) := Calling(v, nonce, g.shares, c);
            && (|next| < required ==> Attempting(w, nonce, barrierKey, g, required, next) && !r.Complete?)
            && (|next| >= required ==> w.rekey.None? && (r.Complete? <==> c.dealt.Ok?))
  {
    hide Combined, IsDeal, Pick, IsSelection, Gather;
    ShareLengths(g, c.i);
    Gathered(g, picks, c.i);
    MasterLength(g);
    var next := if c.i in picks then picks else picks + [c.i];
    if |next| >= required { DealCombines(g, next); }
  }

  lemma {:induction false} CallsGather(v: Vault, nonce: nat, barrierKey: Octets, g: Deal, required: int,
                                       calls: seq<Call>)
    requires Attempting(v, nonce, barrierKey, g, required, [])
    requires forall j :: 0 <= j < |calls| ==> calls[j].i < |g.shares|
    ensures var w, picks := Called(v, nonce, g.shares, calls), Supplied(|g.shares|, calls);
            if |picks| < required then Attempting(w, nonce, barrierKey, g, required, picks) else w.rekey.None?
    decreases |calls|
  {
    assert 0 < required;
    hide Attempting, Rekeying;
    if calls != [] {
      var init, last := calls[..|calls| - 1], calls[|calls| - 1];
      CallsGather(v, nonce, barrierKey, g, required, init);
      var w := Called(v, nonce, g.shares, init);
      if |Supplied(|g.shares|, init)| < required {
        CallStep(w, nonce, barrierKey, g, required, Supplied(|g.shares|, init), last);
      } else {
        NoAttempt(w, nonce, g.shares, last);
      }
    }
  }

  lemma NoAttempt(v: Vault, nonce: nat, shares: seq<Share>, c: Call)
    requires v.rekey.None? && c.i < |shares|
    ensures Calling(v, nonce, shares, c).0 == v && !Calling(v, nonce, shares, c).1.Complete?
  {}

  /** In every run of RekeyUpdate calls with current shares, repeats included, the call that completes the
      rekey is exactly the one that brings the distinct shares to the required number, if the new master
      key can be split. */
  lemma RekeyCompletesIff(v: Vault, nonce: nat, barrierKey: Octets, g: Deal, required: int, calls: seq<Call>, c: Call)
    requires Attempting(v, nonce, barrierKey, g, required, [])
    requires (forall j :: 0 <= j < |calls| ==> calls[j].i < |g.shares|) && c.i < |g.shares|
    ensures Calling(Called(v, nonce, g.shares, calls), nonce, g.shares, c).1.Complete?
            <==> |Supplied(|g.shares|, calls)| == required - 1 && c.i !in Supplied(|g.shares|, calls) && c.dealt.Ok?
  {
    hide Attempting, Rekeying;
    CallsGather(v, nonce, barrierKey, g, required, calls);
    var w, picks := Called(v, nonce, g.shares, calls), Supplied(|g.shares|, calls);
    if |picks| < required {
      CallStep(w, nonce, barrierKey, g, required, picks, c);
    } else {
      NoAttempt(w, nonce, g.shares, c);
    }
  }

  // ---- every operation, every input ----

  datatype Event =
    | Init(setup: Setup)
    | Supply(share: Share)
    | Seal
    | Begin(nonce: nat, newShares: int, newThreshold: int)
    | Cancel
    | Rekey(nonce: nat, share: Share, master: Octets, dealt: S.Result<seq<Share>>, saved: bool)
    | Put(path: Key, value: Octets)
    | Delete(path: Key)

  predicate Accepts(v: Vault, path: Key) { v.key.Some? && CheckDataKey(path).None? }

  /** An accepted write or delete of the path. */
  predicate Changes(v: Vault, ev: Event, path: Key) { (ev.Put? || ev.Delete?) && ev.path == path && Accepts(v, path) }

  function Do(v: Vault, ev: Event): Vault {
    match ev
    case Init(setup) => Initializing(v, setup).0
    case Supply(share) => Unsealing(v, share).0
    case Seal => Sealing(v)
    case Begin(nonce, n, t) => Beginning(v, nonce, n, t).0
    case Cancel => v.(rekey := None)
    case Rekey(nonce, share, master, dealt, saved) => Rekeying(v, nonce, share, master, dealt, saved).0
    case Put(path, value) =>
      if Accepts(v, path) then v.(disk := v.disk[path := Cipher(v.key.value, path, value)]) else v
    case Delete(path) => if Accepts(v, path) then v.(disk := v.disk - {path}) else v
  }

  function After(v: Vault, evs: seq<Event>): Vault
    decreases |evs|
  {
    if evs == [] then v else Do(After(v, evs[..|evs| - 1]), evs[|evs| - 1])
  }

  /** What a path should read: as the last write or delete accepted for it left it, else as at first. */
  function LastLeft(v: Vault, evs: seq<Event>, path: Key, initial: B.Result<Option<Octets>>): B.Result<Option<Octets>>
    decreases |evs|
  {
    if evs == [] then initial
    else
      var init, last := evs[..|evs| - 1], evs[|evs| - 1];
      if Changes(After(v, init), last, path) then B.Ok(if last.Put? then Some(last.value) else None)
      else LastLeft(v, init, path, initial)
  }

  /** Unlocked only by the one barrier key the keyring has always held. */
  ghost predicate Anchored(v: Vault, barrierKey: Octets) {
    && KEYRING in v.disk && v.disk[KEYRING].Cipher? && v.disk[KEYRING].plaintext == barrierKey
    && (v.key.None? || v.key == Some(barrierKey))
  }

  lemma SupplyAnchored(v: Vault, share: Share, barrierKey: Octets)
    requires Anchored(v, barrierKey)
    ensures Anchored(Unsealing(v, share).0, barrierKey) && Unsealing(v, share).0.disk == v.disk
  {
    hide Combined, Gather;
  }

  lemma RekeyAnchored(v: Vault, ev: Event, barrierKey: Octets, path: Key)
    requires Anchored(v, barrierKey) && ev.Rekey?
    ensures Anchored(Do(v, ev), barrierKey)
    ensures Read(Do(v, ev).disk, Some(barrierKey), path) == Read(v.disk, Some(barrierKey), path)
  {
    hide Combined, Gather, ValidKey, Read;
    if v.rekey.Some? {
      var a := v.rekey.value.(progress := Gather(v.rekey.value.progress, ev.share));
      RewrapKeepsData(v.disk, ev.master, a, ev.saved, Some(barrierKey), path);
    }
  }

  lemma ChangeAnchored(v: Vault, ev: Event, barrierKey: Octets, path: Key)
    requires Anchored(v, barrierKey) && (ev.Put? || ev.Delete?)
    ensures Anchored(Do(v, ev), barrierKey)
    ensures Read(Do(v, ev).disk, Some(barrierKey), path)
            == if Changes(v, ev, path) then B.Ok(if ev.Put? then Some(ev.value) else None)
               else Read(v.disk, Some(barrierKey), path)
  {
    hide ValidKey;
    assert CORE <= KEYRING;
  }

  /** Over every run of initializations, unseals (with any bytes), seals, rekeys (whatever they draw, finished or
      not, saved or not), writes and deletes: the keyring holds the same barrier key, the vault is only ever
      unsealed with that key, and each path reads exactly as the last change accepted for it left it. */
  lemma {:induction false} DataSurvives(v: Vault, evs: seq<Event>, barrierKey: Octets, path: Key)
    requires Anchored(v, barrierKey)
    ensures Anchored(After(v, evs), barrierKey)
    ensures Read(After(v, evs).disk, Some(barrierKey), path)
            == LastLeft(v, evs, path, Read(v.disk, Some(barrierKey), path))
    decreases |evs|
  {
    hide Read, Anchored, Initializing, Unsealing, Rekeying, Accepts, CheckDataKey;
    if evs != [] {
      var init, last := evs[..|evs| - 1], evs[|evs| - 1];
      DataSurvives(v, init, barrierKey, path);
      var w := After(v, init);
      match last {
        case Supply(share) => SupplyAnchored(w, share, barrierKey);
        case Rekey(_, _, _, _, _) => RekeyAnchored(w, last, barrierKey, path);
        case Put(_, _) => ChangeAnchored(w, last, barrierKey, path);
        case Delete(_) => ChangeAnchored(w, last, barrierKey, path);
        case _ => PlainAnchored(w, last, barrierKey);
      }
    }
  }

  lemma PlainAnchored(v: Vault, ev: Event, barrierKey: Octets)
    requires Anchored(v, barrierKey) && (ev.Init? || ev.Seal? || ev.Begin? || ev.Cancel?)
    ensures Anchored(Do(v, ev), barrierKey) && Do(v, ev).disk == v.disk
  {}

  // ---- answers, whatever bytes are given ----

  /** The shares gathered once this one is in. */
  function With(progress: seq<Share>, share: Share): (s: seq<Share>)
    ensures share in s && (forall x :: x in s <==> x in progress || x == share)
    ensures |s| == |progress| + (if share in progress then 0 else 1)
  {
    if share in progress then progress else progress + [share]
  }

  /** The gathered shares combine to the very key that the keyring is sealed under. */
  ghost predicate Proves(d: Disk, gathered: seq<Share>) {
    && Combined(gathered).Ok? && |Combined(gathered).value| == 32
    && KEYRING in d && d[KEYRING].Cipher? && d[KEYRING].path == KEYRING && d[KEYRING].key == Combined(gathered).value
  }

  predicate ShamirThreshold(d: Disk, threshold: int) {
    SEAL_CONFIG in d && d[SEAL_CONFIG].Config? && d[SEAL_CONFIG].config.threshold == threshold
    && d[SEAL_CONFIG].config.kind.ShamirSeal?
  }

  /** For any bytes and any sealed vault: a share of the wrong length is refused, one short of the threshold
      is counted, and a full set opens the vault exactly if it proves the keyring's key; if not, the
      progress is discarded and the answer says why. */
  lemma UnsealAnswers(v: Vault, share: Share, threshold: int)
    requires v.key.None? && ShamirThreshold(v.disk, threshold)
    ensures var (w, r) := Unsealing(v, share); var gathered := With(v.progress, share);
            && w.disk == v.disk && w.rekey == v.rekey
            && (|share| != 33 ==> r == InvalidShare && w == v)
            && (|share| == 33 && |gathered| < threshold ==>
                  r == Status(true, |gathered|) && w.key.None? && w.progress == gathered)
            && (|share| == 33 && |gathered| >= threshold ==>
                  && w.progress == []
                  && (w.key.Some? <==> Proves(v.disk, gathered) && |v.disk[KEYRING].plaintext| == 32)
                  && (w.key.Some? ==> r == Status(false, 0) && w.key.value == v.disk[KEYRING].plaintext)
                  && (Combined(gathered).Err? ==> r == ShareError(Combined(gathered).error))
                  && (Combined(gathered).Ok? && KEYRING in v.disk && !Proves(v.disk, gathered) ==> r == UnsealFailed))
  {
    hide Combined;
  }

  /** A vault without a readable Shamir configuration takes no share and starts no rekey. */
  lemma NoConfigAnswers(v: Vault, share: Share, nonce: nat, n: int, k: int)
    requires |share| == 33 && 2 <= k <= n <= 255
    ensures SEAL_CONFIG !in v.disk ==> Unsealing(v, share) == (v, ConfigError(NotInitialized))
                                       && Beginning(v, nonce, n, k) == (v, ConfigError(NotInitialized))
    ensures SEAL_CONFIG in v.disk && v.disk[SEAL_CONFIG].Config? && v.disk[SEAL_CONFIG].config.kind.AutoSeal? ==>
              Unsealing(v, share) == (v, NotShamir) && Beginning(v, nonce, n, k) == (v, NotShamir)
  {}

  /** A rekey is begun exactly on an unsealed vault with a legal new configuration; a sealed one says so. */
  lemma BeginAnswers(v: Vault, nonce: nat, n: int, k: int, threshold: int)
    requires ShamirThreshold(v.disk, threshold)
    ensures var (w, r) := Beginning(v, nonce, n, k);
            && (r == Started(nonce) <==> 2 <= k <= n <= 255 && v.key.Some?)
            && (r != Started(nonce) ==> w == v)
            && (!(2 <= k <= n <= 255) ==> r == InvalidConfig)
            && (2 <= k <= n <= 255 && v.key.None? ==> r == IsSealed)
            && (r == Started(nonce) ==> w == v.(rekey := Some(Attempt(nonce, n, k, []))))
  {}

  /** A rekey call short of the threshold is counted; one without its attempt, nonce or an unsealed vault is
      refused, and so is a share of the wrong length. */
  lemma RekeyAnswers(v: Vault, nonce: nat, share: Share, master: Octets, dealt: S.Result<seq<Share>>, saved: bool,
                     threshold: int)
    requires ShamirThreshold(v.disk, threshold)
    ensures var (w, r) := Rekeying(v, nonce, share, master, dealt, saved);
            if |share| != 33 then (w, r) == (v, InvalidShare)
            else if v.rekey.None? then (w, r) == (v, NotStarted)
            else if nonce != v.rekey.value.nonce then (w, r) == (v, WrongNonce)
            else if v.key.None? then (w, r) == (v, IsSealed)
            else var gathered := With(v.rekey.value.progress, share);
                 |gathered| < threshold ==>
                   (w, r) == (v.(rekey := Some(v.rekey.value.(progress := gathered))), Status(false, |gathered|))
  {
    hide Combined;
  }

  /** An unsealed vault answers so and changes nothing. */
  lemma UnsealedAnswers(v: Vault, share: Share, threshold: int)
    requires v.key.Some? && ShamirThreshold(v.disk, threshold) && |share| == 33
    ensures Unsealing(v, share) == (v, Status(false, |v.progress|))
  {}

  /** A rekey call that could complete: the vault is unsealed, the nonce is the attempt's, and with this
      share the attempt has as many as the configuration asks for. */
  ghost predicate Full(v: Vault, nonce: nat, share: Share) {
    && |share| == 33 && v.key.Some? && v.rekey.Some? && v.rekey.value.nonce == nonce
    && SEAL_CONFIG in v.disk && v.disk[SEAL_CONFIG].Config?
    && |With(v.rekey.value.progress, share)| >= v.disk[SEAL_CONFIG].config.threshold
  }

  /** For any bytes and any vault: a rekey call completes exactly if the shares gathered prove the keyring's
      key and the new one can be split; then the keyring alone is rewrapped, and the configuration is that
      of the attempt if it could be stored. In every other case the disk does not change, and a full set
      that proves nothing is answered as failed and ends the attempt. */
  lemma RekeyGuarded(v: Vault, nonce: nat, share: Share, master: Octets, dealt: S.Result<seq<Share>>, saved: bool)
    ensures var (w, r) := Rekeying(v, nonce, share, master, dealt, saved);
            && w.key == v.key && w.progress == v.progress
            && (r.Complete? <==> && Full(v, nonce, share) && dealt.Ok?
                                 && Proves(v.disk, With(v.rekey.value.progress, share)))
            && (!r.Complete? ==> w.disk == v.disk)
            && (r.Complete? ==>
                  && r == Complete(dealt.value, saved) && w.rekey.None?
                  && KEYRING in w.disk && w.disk[KEYRING] == Cipher(master, KEYRING, v.disk[KEYRING].plaintext)
                  && w.disk.Keys == v.disk.Keys
                  && (forall p :: p in v.disk && p != KEYRING && p != SEAL_CONFIG ==> w.disk[p] == v.disk[p])
                  && var a := v.rekey.value;
                     w.disk[SEAL_CONFIG] == if saved then Config(SealConfig(ShamirSeal, a.newShares, a.newThreshold))
                                            else v.disk[SEAL_CONFIG])
            && (Full(v, nonce, share) ==> w.rekey.None?)
            && (Full(v, nonce, share) ==>
                  var combined := Combined(With(v.rekey.value.progress, share));
                  (KEYRING in v.disk && combined.Ok? && |combined.value| == 32
                   && !Proves(v.disk, With(v.rekey.value.progress, share))) ==> r == UnsealFailed)
  {
    hide Combined;
    assert KEYRING != SEAL_CONFIG by { assert KEYRING[5] == 107 && SEAL_CONFIG[5] == 115; }
  }

  /** Over every run, with any bytes, the keyring changes only at a rekey call whose shares prove it. */
  lemma {:induction false} KeyringChangesOnlyIfProved(v: Vault, evs: seq<Event>)
    requires KEYRING in v.disk
    ensures KEYRING in After(v, evs).disk
    ensures After(v, evs).disk[KEYRING] != v.disk[KEYRING] ==>
              exists i :: 0 <= i < |evs| && evs[i].Rekey? && var w := After(v, evs[..i]);
                          w.rekey.Some? && Proves(w.disk, With(w.rekey.value.progress, evs[i].share))
    decreases |evs|
  {
    hide Do, Proves, With;
    if evs != [] {
      var n := |evs| - 1;
      KeyringChangesOnlyIfProved(v, evs[..n]);
      var w := After(v, evs[..n]);
      forall i | 0 <= i < n ensures evs[..n][..i] == evs[..i] {}
      assert forall i :: 0 <= i < n ==> evs[..n][i] == evs[i];
      KeyringStep(w, evs[n]);
    }
  }

  lemma KeyringStep(v: Vault, ev: Event)
    requires KEYRING in v.disk
    ensures KEYRING in Do(v, ev).disk
    ensures Do(v, ev).disk[KEYRING] != v.disk[KEYRING] ==>
              ev.Rekey? && v.rekey.Some? && Proves(v.disk, With(v.rekey.value.progress, ev.share))
  {
    hide Combined, ValidKey;
    assert CORE <= KEYRING;
    if ev.Rekey? { RekeyGuarded(v, ev.nonce, ev.share, ev.master, ev.dealt, ev.saved); }
    hide Rekeying;
  }

  /** From start to end: an attempt begun for n shares with threshold k, once completed and saved, leaves a
      configuration for exactly those. */
  lemma BegunIsConfigured(v: Vault, nonce: nat, n: int, k: int, shares: seq<Share>, calls: seq<Call>, c: Call)
    requires Beginning(v, nonce, n, k).1 == Started(nonce)
    requires (forall j :: 0 <= j < |calls| ==> calls[j].i < |shares|) && c.i < |shares| && c.saved
    requires Calling(Called(Beginning(v, nonce, n, k).0, nonce, shares, calls), nonce, shares, c).1.Complete?
    ensures var w := Calling(Called(Beginning(v, nonce, n, k).0, nonce, shares, calls), nonce, shares, c).0;
            ReadConfig(w.disk) == B.Ok(SealConfig(ShamirSeal, n, k)) && 2 <= k <= n <= 255
  {
    hide Beginning, Rekeying, Called, Calling, ReadConfig;
    var begun := Beginning(v, nonce, n, k).0;
    BeginStores(v, nonce, n, k);
    AttemptKept(begun, nonce, shares, calls);
    CompletedConfigures(Called(begun, nonce, shares, calls), nonce, shares, c);
  }

  lemma BeginStores(v: Vault, nonce: nat, n: int, k: int)
    requires Beginning(v, nonce, n, k).1 == Started(nonce)
    ensures Beginning(v, nonce, n, k).0 == v.(rekey := Some(Attempt(nonce, n, k, []))) && 2 <= k <= n <= 255
  {}

  lemma CompletedConfigures(v: Vault, nonce: nat, shares: seq<Share>, c: Call)
    requires c.i < |shares| && c.saved && Calling(v, nonce, shares, c).1.Complete?
    ensures v.rekey.Some?
    ensures ReadConfig(Calling(v, nonce, shares, c).0.disk)
            == B.Ok(SealConfig(ShamirSeal, v.rekey.value.newShares, v.rekey.value.newThreshold))
  {
    hide Rekeying, Proves, With;
    RekeyGuarded(v, nonce, shares[c.i], c.master, c.dealt, c.saved);
  }

  /** An open attempt keeps the numbers it was begun with. */
  lemma {:induction false} AttemptKept(v: Vault, nonce: nat, shares: seq<Share>, calls: seq<Call>)
    requires forall j :: 0 <= j < |calls| ==> calls[j].i < |shares|
    ensures var w := Called(v, nonce, shares, calls);
            w.rekey.Some? ==> v.rekey.Some? && w.rekey.value.newShares == v.rekey.value.newShares
                              && w.rekey.value.newThreshold == v.rekey.value.newThreshold
    decreases |calls|
  {
    hide Combined;
    if calls != [] { AttemptKept(v, nonce, shares, calls[..|calls| - 1]); }
  }

  /** An illegal configuration is refused first, then a store that has a keyring; neither changes anything. */
  lemma InitRefused(v: Vault, u: Setup)
    ensures !(2 <= u.threshold <= u.parts <= 255) ==> Initializing(v, u) == (v, InvalidConfig)
    ensures 2 <= u.threshold <= u.parts <= 255 && KEYRING in v.disk ==>
              Initializing(v, u) == (v, BarrierError(AlreadyInitialized))
  {}

  /** After a complete initialization the root token reads back under the barrier key drawn. */
  lemma RootReadsBack(v: Vault, u: Setup)
    requires CheckDataKey(u.rootPath).None? && Initializing(v, u).1.Complete?
    ensures Read(Initializing(v, u).0.disk, Some(u.barrierKey), u.rootPath) == B.Ok(Some(u.root))
  {
    hide ValidKey;
    assert CORE <= SEAL_CONFIG;
  }

  // ---- an initialization that failed half-way ----

  /** A keyring without a configuration. */
  predicate Stranded(v: Vault) { KEYRING in v.disk && SEAL_CONFIG !in v.disk && v.key.None? }

  /** Initializing a fresh store leaves one exactly when it fails after the keyring was written. */
  lemma HalfInitialized(v: Vault, u: Setup)
    requires KEYRING !in v.disk && SEAL_CONFIG !in v.disk && CheckDataKey(u.rootPath).None?
    ensures Stranded(Initializing(v, u).0)
            <==> && LegalConfig(u.parts, u.threshold) && !u.fault.KeyringFault?
                 && (!u.fault.NoFault? || u.dealt.Err? || !u.saved)
  {
    hide ValidKey;
    assert CORE <= SEAL_CONFIG && KEYRING[5] == 107 && SEAL_CONFIG[5] == 115;
  }

  lemma StrandedStep(v: Vault, ev: Event)
    requires Stranded(v)
    ensures Stranded(Do(v, ev)) && Do(v, ev).disk == v.disk
    ensures ev.Init? && LegalConfig(ev.setup.parts, ev.setup.threshold) ==>
              Initializing(v, ev.setup).1 == BarrierError(AlreadyInitialized)
    ensures ev.Supply? && |ev.share| == KEY_SIZE + 1 ==> Unsealing(v, ev.share).1 == ConfigError(NotInitialized)
  {
    hide Combined, Gather, ValidKey;
  }

  /** It is never repaired: in every later run the vault stays sealed and storage as it is, initializing
      again is refused as done, and unsealing as not done. */
  lemma {:induction false} StrandedForever(v: Vault, evs: seq<Event>)
    requires Stranded(v)
    ensures Stranded(After(v, evs)) && After(v, evs).disk == v.disk
    decreases |evs|
  {
    hide Do, Stranded;
    if evs != [] {
      StrandedForever(v, evs[..|evs| - 1]);
      StrandedStep(After(v, evs[..|evs| - 1]), evs[|evs| - 1]);
    }
  }
}
