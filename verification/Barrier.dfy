/** The encryption barrier: values sealed under a barrier key, the barrier key sealed under a master
    key. Ciphertexts are symbolic: one opens only under its own key and at its own path. */
module Barrier {
  import opened Common
  import opened Keys

  type Octets = seq<bv8>

  const KEY_SIZE: nat := 32

  datatype SealType = ShamirSeal | AutoSeal

  datatype SealConfig = SealConfig(kind: SealType, shares: int, threshold: int)

  /** What physical storage holds: AES-GCM ciphertexts bound to their path, the seal configuration
      (stored in the clear), or bytes that are neither. */
  datatype Blob =
    | Cipher(key: Octets, path: Key, plaintext: Octets)
    | Config(config: SealConfig)
    | Other(bytes: Octets)

  type Disk = map<Key, Blob>

  datatype Error = Sealed | NotInitialized | AlreadyInitialized | InvalidKey | ReservedPath | InvalidPath | Malformed

  datatype Result<+T> = Ok(value: T) | Err(error: Error)

  const CORE: Key := [99, 111, 114, 101, 47] // "core/"
  const KEYRING: Key := CORE + [107, 101, 121, 114, 105, 110, 103] // "core/keyring"
  const SEAL_CONFIG: Key := CORE + [115, 101, 97, 108, 45, 99, 111, 110, 102, 105, 103] // "core/seal-config"

  function Open(key: Octets, b: Blob, path: Key): Option<Octets> {
    if b.Cipher? && b.key == key && b.path == path then Some(b.plaintext) else None
  }

  /** checkDataKey. */
  function CheckDataKey(key: Key): Option<Error> {
    if !ValidKey(key) then Some(InvalidPath) else if CORE <= key then Some(ReservedPath) else None
  }

  /** The barrier key a master key unlocks. */
  function Unlock(d: Disk, master: Octets): Result<Octets> {
    if |master| != KEY_SIZE then Err(InvalidKey)
    else if KEYRING !in d then Err(NotInitialized)
    else match Open(master, d[KEYRING], KEYRING)
      case None => Err(InvalidKey)
      case Some(k) => if |k| == KEY_SIZE then Ok(k) else Err(Malformed)
  }

  /** VerifyMasterKey. */
  function Verify(d: Disk, master: Octets): Result<bool> {
    if |master| != KEY_SIZE then Err(InvalidKey)
    else if KEYRING !in d then Err(NotInitialized)
    else Ok(Open(master, d[KEYRING], KEYRING).Some?)
  }

  /** Get, for a barrier holding `key`. */
  function Read(d: Disk, key: Option<Octets>, path: Key): Result<Option<Octets>> {
    if CheckDataKey(path).Some? then Err(CheckDataKey(path).value)
    else if key.None? then Err(Sealed)
    else if path !in d then Ok(None)
    else match Open(key.value, d[path], path)
      case None => Err(Malformed)
      case Some(p) => Ok(Some(p))
  }

  class Physical {
    var data: Disk
    constructor ()
      ensures data == map[]
    {
      data := map[];
    }
  }

  class Barrier {
    const phys: Physical
    var key: Option<Octets> // the barrier key; None while sealed

    constructor (phys: Physical)
      ensures this.phys == phys && key == None
    {
      this.phys, this.key := phys, None;
    }

    /** Initialize, with the barrier key it draws. */
    method Initialize(master: Octets, drawn: Octets) returns (r: Result<()>)
      modifies phys
      ensures r == if |master| != KEY_SIZE then Err(InvalidKey)
                   else if KEYRING in old(phys.data) then Err(AlreadyInitialized) else Ok(())
      ensures phys.data == if r.Ok? then old(phys.data)[KEYRING := Cipher(master, KEYRING, drawn)] else old(phys.data)
    {
      if |master| != KEY_SIZE { return Err(InvalidKey); }
      if KEYRING in phys.data { return Err(AlreadyInitialized); }
      phys.data := phys.data[KEYRING := Cipher(master, KEYRING, drawn)];
      r := Ok(());
    }

    /** Rekey: the same barrier key under a new master key. */
    method Rekey(oldMaster: Octets, newMaster: Octets) returns (r: Result<()>)
      modifies phys
      ensures r.Ok? <==> Verify(old(phys.data), oldMaster) == Ok(true) && |newMaster| == KEY_SIZE
      ensures r.Ok? ==>
                phys.data == old(phys.data)[KEYRING := Cipher(newMaster, KEYRING, old(phys.data)[KEYRING].plaintext)]
      ensures r.Err? ==> phys.data == old(phys.data)
    {
      if |oldMaster| != KEY_SIZE || |newMaster| != KEY_SIZE { return Err(InvalidKey); }
      if KEYRING !in phys.data { return Err(NotInitialized); }
      match Open(oldMaster, phys.data[KEYRING], KEYRING)
      case None => return Err(InvalidKey);
      case Some(k) =>
        phys.data := phys.data[KEYRING := Cipher(newMaster, KEYRING, k)];
        r := Ok(());
    }

    method Unseal(master: Octets) returns (r: Result<()>)
      modifies this
      ensures r == if |master| != KEY_SIZE then Err(InvalidKey)
                   else if old(key).Some? then Ok(())
                   else if Unlock(phys.data, master).Ok? then Ok(()) else Err(Unlock(phys.data, master).error)
      ensures key == if r.Ok? && old(key).None? then Some(Unlock(phys.data, master).value) else old(key)
    {
      if |master| != KEY_SIZE { return Err(InvalidKey); }
      if key.Some? { return Ok(()); }
      if KEYRING !in phys.data { return Err(NotInitialized); }
      match Open(master, phys.data[KEYRING], KEYRING)
      case None => return Err(InvalidKey);
      case Some(k) =>
        if |k| != KEY_SIZE { return Err(Malformed); }
        key := Some(k);
        r := Ok(());
    }

    method Seal()
      modifies this
      ensures key == None
    {
      key := None;
    }

    method Get(path: Key) returns (r: Result<Option<Octets>>)
      ensures r == Read(phys.data, key, path)
    {
      var bad := CheckDataKey(path);
      if bad.Some? { return Err(bad.value); }
      if key.None? { return Err(Sealed); }
      if path !in phys.data { return Ok(None); }
      match Open(key.value, phys.data[path], path)
      case None => return Err(Malformed);
      case Some(p) => return Ok(Some(p));
    }

    /** Put. What was written reads back, and no other path's reading changes. */
    method Put(path: Key, value: Octets) returns (r: Result<()>)
      modifies phys
      ensures r.Ok? <==> CheckDataKey(path).None? && key.Some?
      ensures phys.data == if r.Ok? then old(phys.data)[path := Cipher(key.value, path, value)] else old(phys.data)
      ensures r.Ok? ==> Read(phys.data, key, path) == Ok(Some(value))
      ensures forall p :: p != path ==> Read(phys.data, key, p) == Read(old(phys.data), key, p)
    {
      var bad := CheckDataKey(path);
      if bad.Some? { return Err(bad.value); }
      if key.None? { return Err(Sealed); }
      phys.data := phys.data[path := Cipher(key.value, path, value)];
      r := Ok(());
    }

    /** Delete. The path then reads as absent, and no other path's reading changes. */
    method Delete(path: Key) returns (r: Result<()>)
      modifies phys
      ensures r.Ok? <==> CheckDataKey(path).None? && key.Some?
      ensures phys.data == if r.Ok? then old(phys.data) - {path} else old(phys.data)
      ensures r.Ok? ==> Read(phys.data, key, path) == Ok(None)
      ensures forall p :: p != path ==> Read(phys.data, key, p) == Read(old(phys.data), key, p)
    {
      var bad := CheckDataKey(path);
      if bad.Some? { return Err(bad.value); }
      if key.None? { return Err(Sealed); }
      phys.data := phys.data - {path};
      r := Ok(());
    }
  }

  /** A reading yields a value exactly when the path may be read, the barrier is unsealed and the entry there
      was sealed under its key at that path; sealed, it yields nothing, and a forged entry is an error. */
  lemma ReadIff(d: Disk, key: Option<Octets>, path: Key, value: Octets)
    ensures Read(d, key, path) == Ok(Some(value))
            <==> && ValidKey(path) && !(CORE <= path) && key.Some?
                 && path in d && d[path] == Cipher(key.value, path, value)
    ensures key.None? ==> Read(d, key, path).Err?
    ensures Read(d, key, path) == Ok(None) <==> ValidKey(path) && !(CORE <= path) && key.Some? && path !in d
  {}

  /** A ciphertext moved to another path does not open there. */
  lemma PathIsBound(d: Disk, key: Octets, from: Key, to: Key, value: Octets)
    requires CheckDataKey(to).None? && from != to
    ensures Read(d[to := Cipher(key, from, value)], Some(key), to) == Err(Malformed)
  {}
}
