/** The vault's lifecycle: unseal shares -> master key -> barrier key -> data, and rotating the shares. */
module Core {
  import opened Common
  import opened Keys
  import opened Barrier
  import opened Shamir
  import B = Barrier
  import S = Shamir

  datatype Attempt = Attempt(nonce: nat, newShares: int, newThreshold: int, progress: seq<Share>)

  /** All that the lifecycle operations read and write. */
  datatype Vault = Vault(disk: Disk, key: Option<Octets>, progress: seq<Share>, rekey: Option<Attempt>)

  datatype Reply =
    | Status(isSealed: bool, progress: nat)
    | Started(nonce: nat)
    | Complete(keys: seq<Share>, saved: bool) // saved: the new share configuration was stored
    | InvalidShare
    | InvalidConfig
    | ConfigError(barrier: B.Error)
    | NotShamir
    | IsSealed
    | NotStarted
    | WrongNonce
    | ShareError(shamir: S.Error)
    | BarrierError(barrier: B.Error)
    | UnsealFailed
    | ConfigNotSaved
    | StepFailed(fault: InitFault)

  /** What fails of an initialization before the master key is split: drawing the keys and writing the
      keyring, unsealing with it, creating the root token, or none of these. */
  datatype InitFault = NoFault | KeyringFault | UnsealFault | RootFault

  /** One call of Initialize in Shamir mode: its configuration, the keys it draws, the record of the first
      root token, which early step fails, what splitting the master key yields, and whether the
      configuration can be stored. */
  datatype Setup = Setup(parts: int, threshold: int, master: Octets, barrierKey: Octets, rootPath: Key, root: Octets,
                         fault: InitFault, dealt: S.Result<seq<Share>>, saved: bool)

  /** readSealConfig. */
  function ReadConfig(d: Disk): B.Result<SealConfig> {
    if SEAL_CONFIG !in d then B.Err(NotInitialized)
    else if d[SEAL_CONFIG].Config? then B.Ok(d[SEAL_CONFIG].config)
    else B.Err(Malformed)
  }

  /** containsShare, then append. */
  function Gather(progress: seq<Share>, share: Share): seq<Share> {
    if share in progress then progress else progress + [share]
  }

  /** Initialize. */
  function Initializing(v: Vault, u: Setup): (Vault, Reply) {
    if !LegalConfig(u.parts, u.threshold) then (v, InvalidConfig)
    else if KEYRING in v.disk then (v, BarrierError(AlreadyInitialized))
    else if u.fault.KeyringFault? then (v, StepFailed(KeyringFault))
    else
      var d := v.disk[KEYRING := Cipher(u.master, KEYRING, u.barrierKey)];
      if !u.fault.NoFault? then (v.(disk := d, key := None), StepFailed(u.fault))
      else
        var rooted := d[u.rootPath := Cipher(u.barrierKey, u.rootPath, u.root)];
        if u.dealt.Err? then (v.(disk := rooted, key := None), ShareError(u.dealt.error))
        else if !u.saved then (v.(disk := rooted, key := None), ConfigNotSaved)
        else
          var config := Config(SealConfig(ShamirSeal, u.parts, u.threshold));
          (v.(disk := rooted[SEAL_CONFIG := config], key := None), Complete(u.dealt.value, true))
  }

  /** Unseal with one share. */
  function Unsealing(v: Vault, share: Share): (Vault, Reply) {
    if |share| != KEY_SIZE + 1 then (v, InvalidShare)
    else match ReadConfig(v.disk)
      case Err(e) => (v, ConfigError(e))
      case Ok(cfg) =>
        if cfg.kind.AutoSeal? then (v, NotShamir)
        else if v.key.Some? then (v, Status(false, |v.progress|))
        else
          var progress := Gather(v.progress, share);
          if |progress| < cfg.threshold then (v.(progress := progress), Status(true, |progress|))
          else match Combined(progress)
            case Err(e) => (v.(progress := []), ShareError(e))
            case Ok(master) => match Unlock(v.disk, master)
              case Err(e) => (v.(progress := []), if e == InvalidKey then UnsealFailed else BarrierError(e))
              case Ok(k) => (v.(progress := [], key := Some(k)), Status(false, 0))
  }

  function Sealing(v: Vault): Vault { v.(key := None, progress := []) }

  /** RekeyInit. */
  function Beginning(v: Vault, nonce: nat, newShares: int, newThreshold: int): (Vault, Reply) {
    if !LegalConfig(newShares, newThreshold) then (v, InvalidConfig)
    else match ReadConfig(v.disk)
      case Err(e) => (v, ConfigError(e))
      case Ok(cfg) =>
        if cfg.kind.AutoSeal? then (v, NotShamir)
        else if v.key.None? then (v, IsSealed)
        else (v.(rekey := Some(Attempt(nonce, newShares, newThreshold, []))), Started(nonce))
  }

  /** The keyring under a new master key and, if it could be stored, the new configuration. */
  function Rewrapped(d: Disk, master: Octets, a: Attempt, saved: bool): Disk
    requires KEYRING in d && d[KEYRING].Cipher?
  {
    var rewrapped := d[KEYRING := Cipher(master, KEYRING, d[KEYRING].plaintext)];
    if saved then rewrapped[SEAL_CONFIG := Config(SealConfig(ShamirSeal, a.newShares, a.newThreshold))] else rewrapped
  }

  /** RekeyUpdate with one share: `master` is the new master key it draws, `dealt` what splitting
      it yields, `saved` whether the new configuration can be stored. */
  function Rekeying(v: Vault, nonce: nat, share: Share, master: Octets, dealt: S.Result<seq<Share>>,
                    saved: bool): (Vault, Reply) {
    if |share| != KEY_SIZE + 1 then (v, InvalidShare)
    else if v.rekey.None? then (v, NotStarted)
    else if nonce != v.rekey.value.nonce then (v, WrongNonce)
    else match ReadConfig(v.disk)
      case Err(e) => (v, ConfigError(e))
      case Ok(cfg) =>
        if v.key.None? then (v, IsSealed)
        else
          var a := v.rekey.value.(progress := Gather(v.rekey.value.progress, share));
          if |a.progress| < cfg.threshold then (v.(rekey := Some(a)), Status(false, |a.progress|))
          else match Combined(a.progress)
            case Err(e) => (v.(rekey := None), ShareError(e))
            case Ok(current) => match Verify(v.disk, current)
              case Err(e) => (v.(rekey := None), BarrierError(e))
              case Ok(genuine) =>
                if !genuine then (v.(rekey := None), UnsealFailed)
                else if dealt.Err? then (v.(rekey := None), ShareError(dealt.error))
                else (v.(rekey := None, disk := Rewrapped(v.disk, master, a, saved)), Complete(dealt.value, saved))
  }

  // ---- issued shares ----

  /** A master key and the shares it was split into. */
  datatype Deal = Deal(master: Octets, coefficients: seq<seq<bv8>>, threshold: nat, shares: seq<Share>)

  ghost predicate IsDeal(g: Deal) {
    && |g.master| == KEY_SIZE <= |g.coefficients|
    && 2 <= g.threshold
    && (forall k :: 0 <= k < |g.coefficients| ==> |g.coefficients[k]| == g.threshold - 1)
    && IsSharing(g.shares, Polys(g.master, g.coefficients))
  }

  /** The keyring holds barrierKey under the deal's master key; Unseal asks for `required` shares. */
  ghost predicate Issued(d: Disk, barrierKey: Octets, g: Deal, required: int) {
    && IsDeal(g)
    && KEYRING in d && d[KEYRING] == Cipher(g.master, KEYRING, barrierKey) && |barrierKey| == KEY_SIZE
    && ReadConfig(d).Ok? && ReadConfig(d).value.kind == ShamirSeal && ReadConfig(d).value.threshold == required
  }

  class Core {
    const phys: Physical
    const barrier: B.Barrier
    var progress: seq<Share>
    var rekey: Option<Attempt>

    constructor ()
      ensures fresh(phys) && fresh(barrier) && Valid()
      ensures View() == Vault(map[], None, [], None)
    {
      var p := new Physical();
      var b := new B.Barrier(p);
      phys, barrier, progress, rekey := p, b, [], None;
    }

    ghost predicate Valid()
      reads this, phys, barrier
    {
      && barrier.phys == phys
      && (KEYRING !in phys.data ==> barrier.key.None?)
      && (rekey.Some? ==> LegalConfig(rekey.value.newShares, rekey.value.newThreshold))
    }

    ghost function View(): Vault
      reads this, phys, barrier
    {
      Vault(phys.data, barrier.key, progress, rekey)
    }

    /** Initialize. A failure after the keyring was written leaves it without a configuration. `dealt` is what
        splitting the master key yields with entropy `e`; the one in `u` is not used. */
    method Initialize(u: Setup, e: Entropy) returns (r: Reply, ghost dealt: S.Result<seq<Share>>)
      requires Valid() && Legal(e, u.threshold) && CheckDataKey(u.rootPath).None?
      requires |u.master| == |u.barrierKey| == KEY_SIZE
      modifies this, phys, barrier
      ensures Valid()
      ensures (View(), r) == Initializing(old(View()), u.(dealt := dealt))
      ensures LegalConfig(u.parts, u.threshold) && KEYRING !in old(phys.data) ==>
                if !u.fault.NoFault? then r == StepFailed(u.fault)
                else if !(u.parts <= |e.indices| && KEY_SIZE <= |e.coefficients|) then r == ShareError(RandomSource)
                else if !u.saved then r == ConfigNotSaved
                else
                  && r.Complete? && |r.keys| == u.parts
                  && Issued(phys.data, u.barrierKey, Deal(u.master, e.coefficients, u.threshold, r.keys), u.threshold)
    {
      hide IsSharing;
      dealt := S.Err(EmptySecret);
      if u.parts < 2 || u.parts > 255 || u.threshold < 2 || u.threshold > u.parts { return InvalidConfig, dealt; }
      if KEYRING in phys.data { return BarrierError(AlreadyInitialized), dealt; }
      if u.fault.KeyringFault? { return StepFailed(KeyringFault), dealt; }
      var made := barrier.Initialize(u.master, u.barrierKey);
      if u.fault.UnsealFault? { return StepFailed(UnsealFault), dealt; }
      var unlocked := barrier.Unseal(u.master);
      if u.fault.RootFault? {
        barrier.Seal();
        return StepFailed(RootFault), dealt;
      }
      var rooted := barrier.Put(u.rootPath, u.root);
      barrier.Seal();
      var split := Split(u.master, u.parts, u.threshold, e);
      dealt := split;
      if split.Err? { return ShareError(split.error), dealt; }
      if !u.saved { return ConfigNotSaved, dealt; }
      phys.data := phys.data[SEAL_CONFIG := Config(SealConfig(ShamirSeal, u.parts, u.threshold))];
      r := Complete(split.value, true);
    }

    method Unseal(share: Share) returns (r: Reply)
      requires Valid()
      modifies this, barrier
      ensures Valid()
      ensures (View(), r) == Unsealing(old(View()), share)
    {
      hide Combined;
      if |share| != KEY_SIZE + 1 { return InvalidShare; }
      var config := ReadConfig(phys.data);
      if config.Err? { return ConfigError(config.error); }
      var cfg := config.value;
      if cfg.kind.AutoSeal? { return NotShamir; }
      if barrier.key.Some? { return Status(false, |progress|); }
      if share !in progress { progress := progress + [share]; }
      if |progress| < cfg.threshold { return Status(true, |progress|); }
      var master := Combine(progress);
      if master.Err? {
        progress := [];
        return ShareError(master.error);
      }
      var unlocked := barrier.Unseal(master.value);
      progress := [];
      if unlocked.Err? {
        return if unlocked.error == InvalidKey then UnsealFailed else BarrierError(unlocked.error);
      }
      r := Status(false, 0);
    }

    method Seal()
      requires Valid()
      modifies this, barrier
      ensures Valid() && View() == Sealing(old(View()))
    {
      barrier.Seal();
      progress := [];
    }

    method RekeyInit(nonce: nat, newShares: int, newThreshold: int) returns (r: Reply)
      requires Valid()
      modifies this
      ensures Valid()
      ensures (View(), r) == Beginning(old(View()), nonce, newShares, newThreshold)
    {
      if newShares < 2 || newShares > 255 || newThreshold < 2 || newThreshold > newShares { return InvalidConfig; }
      var config := ReadConfig(phys.data);
      if config.Err? { return ConfigError(config.error); }
      if config.value.kind.AutoSeal? { return NotShamir; }
      if barrier.key.None? { return IsSealed; }
      rekey := Some(Attempt(nonce, newShares, newThreshold, []));
      r := Started(nonce);
    }

    method RekeyCancel()
      requires Valid()
      modifies this
      ensures Valid() && View() == old(View()).(rekey := None)
    {
      rekey := None;
    }

    /** RekeyUpdate: `master` is the new master key drawn, `saved` whether the configuration write
        succeeds. The new key is split before anything is written. */
    method RekeyUpdate(nonce: nat, share: Share, master: Octets, e: Entropy, saved: bool)
      returns (r: Reply, ghost dealt: S.Result<seq<Share>>)
      requires Valid() && |master| == KEY_SIZE
      requires rekey.Some? ==> Legal(e, rekey.value.newThreshold)
      modifies this, phys
      ensures Valid()
      ensures (View(), r) == Rekeying(old(View()), nonce, share, master, dealt, saved)
      ensures r.Complete? ==> |r.keys| == old(rekey).value.newShares
                              && IsDeal(Deal(master, e.coefficients, old(rekey).value.newThreshold, r.keys))
    {
      hide Combined, IsSharing;
      dealt := S.Err(EmptySecret);
      if |share| != KEY_SIZE + 1 { return InvalidShare, dealt; }
      if rekey.None? { return NotStarted, dealt; }
      if nonce != rekey.value.nonce { return WrongNonce, dealt; }
      var config := ReadConfig(phys.data);
      if config.Err? { return ConfigError(config.error), dealt; }
      if barrier.key.None? { return IsSealed, dealt; }
      var attempt := rekey.value;
      if share !in attempt.progress { attempt := attempt.(progress := attempt.progress + [share]); }
      rekey := Some(attempt);
      if |attempt.progress| < config.value.threshold { return Status(false, |attempt.progress|), dealt; }
      var current := Combine(attempt.progress);
      rekey := None;
      if current.Err? { return ShareError(current.error), dealt; }
      var genuine := Verify(phys.data, current.value);
      if genuine.Err? { return BarrierError(genuine.error), dealt; }
      if !genuine.value { return UnsealFailed, dealt; }
      var split := Split(master, attempt.newShares, attempt.newThreshold, e);
      dealt := split;
      if split.Err? { return ShareError(split.error), dealt; }
      var rewrapped := barrier.Rekey(current.value, master);
      if saved {
        phys.data := phys.data[SEAL_CONFIG := Config(SealConfig(ShamirSeal, attempt.newShares, attempt.newThreshold))];
      }
      r := Complete(split.value, saved);
    }
  }
}
