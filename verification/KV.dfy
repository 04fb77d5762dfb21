/** The versioned key/value engine: its store refines a plain per-path history of writes. */
module KV {
  import opened Common
  import opened Keys
  import opened Versions

  class Engine {
    const prefix: Key
    const maxVer: nat
    var store: Store
    ghost var log: seq<Op>

    constructor (prefix: Key)
      ensures this.prefix == prefix && maxVer == 10 && store == map[] && log == [] && Valid()
    {
      this.prefix, this.maxVer, this.store, this.log := prefix, 10, map[], [];
    }

    ghost predicate Valid()
      reads this
    {
      maxVer >= 1 && forall path :: PathOk(store, prefix, maxVer, path, Hist(log, maxVer, path))
    }

    predicate ValidPath(path: Key) { path != [] && ValidKey(MetaKey(prefix, path)) }

    /** A path is accepted exactly when it is not empty and "<prefix>/meta/<path>" is a valid key. */
    lemma ValidPathIff(path: Key)
      ensures ValidPath(path) <==> path != [] && ValidKey(prefix + [47, 109, 101, 116, 97, 47] + path)
    {
      hide ValidKey;
    }

    /** readExistingMeta. */
    function ReadMeta(path: Key): Option<Metadata>
      reads this
    {
      var key := MetaKey(prefix, path);
      if key in store && store[key].Meta? then Some(store[key].meta) else None
    }

    /** Re-establishes validity after an operation on one path. */
    lemma Extended(before: Store, was: seq<Op>, op: Op)
      requires maxVer >= 1
      requires forall path :: PathOk(before, prefix, maxVer, path, Hist(was, maxVer, path))
      requires log == was + [op] && SameElsewhere(before, store, prefix, op.path)
      requires PathOk(store, prefix, maxVer, op.path, Effect(Hist(was, maxVer, op.path), maxVer, op))
      ensures Valid()
    {
      hide PathOk, SameElsewhere, Effect;
      assert log[..|log| - 1] == was;
      forall path ensures PathOk(store, prefix, maxVer, path, Hist(log, maxVer, path)) {
        if path != op.path { ElsewhereOk(before, store, prefix, maxVer, op.path, path, Hist(was, maxVer, path)); }
      }
    }

    method Read(path: Key, version: int) returns (r: Outcome<Payload>)
      requires Valid()
      ensures r == if !ValidPath(path) then InvalidPath else Answer(Hist(log, maxVer, path), maxVer, version)
    {
      hide ValidKey, Hist, DataKey, MetaKey;
      if !ValidPath(path) { return InvalidPath; }
      ghost var h := Hist(log, maxVer, path);
      assert PathOk(store, prefix, maxVer, path, h);
      var meta := ReadMeta(path);
      if meta.None? { return SecretNotFound; }
      var v := if version == 0 then meta.value.current else version;
      if v !in meta.value.versions { return VersionNotFound; }
      var vm := meta.value.versions[v];
      if vm.destroyed { return VersionDestroyed; }
      if vm.deleted { return VersionDeleted; }
      var key := DataKey(prefix, path, v);
      assert Stored(h.value, maxVer, v);
      if key !in store || !store[key].Data? { return VersionNotFound; }
      r := Ok(store[key].payload);
    }

    /** enforceMaxVersions. */
    method EnforceMaxVersions(path: Key, meta: Metadata) returns (m: Metadata)
      requires 0 <= meta.oldest
      modifies `store
      ensures m == meta.(oldest := Aged(meta), versions := Without(meta.versions, meta.oldest, Aged(meta)))
      ensures store == old(store) - VersionKeys(prefix, path, meta.oldest, Aged(meta))
    {
      hide DataKey;
      m := meta;
      while m.current - m.oldest + 1 > m.max
        invariant m == meta.(oldest := m.oldest, versions := Without(meta.versions, meta.oldest, m.oldest))
        invariant meta.oldest <= m.oldest <= Aged(meta)
        invariant store == old(store) - VersionKeys(prefix, path, meta.oldest, m.oldest)
        decreases m.current - m.oldest + 1 - m.max
      {
        var oldest := m.oldest;
        store := store - {DataKey(prefix, path, oldest)};
        m := m.(versions := m.versions - {oldest}, oldest := oldest + 1);
        VersionKeysSplit(prefix, path, meta.oldest, m.oldest);
      }
    }

    /** Write: a new version; the oldest one past the maximum ages out. */
    method Write(path: Key, x: Payload) returns (r: Outcome<int>)
      requires Valid()
      modifies this
      ensures Valid()
      ensures log == old(log) + (if ValidPath(path) then [Op.Write(path, x)] else [])
      ensures r == if ValidPath(path) then Ok(|Hist(log, maxVer, path).value.values|) else InvalidPath
    {
      hide ValidKey, MetaKey, DataKey, PathOk, SameElsewhere, Render;
      if !ValidPath(path) { return InvalidPath; }
      ghost var h, before := Hist(log, maxVer, path), store;
      assert PathOk(store, prefix, maxVer, path, h);
      PathMeta(path, h);
      var found := ReadMeta(path);
      var meta := if found.Some? then found.value else Metadata(0, 0, maxVer, map[]);
      var version := meta.current + 1;
      RenderCurrent(h, maxVer);
      WriteMeta(h, maxVer, path, x);
      store := store[DataKey(prefix, path, version) := Data(x)];
      meta := meta.(versions := meta.versions[version := VersionMeta(version, false, false)], current := version);
      if meta.oldest == 0 { meta := meta.(oldest := version); }
      assert meta == Grown(h, maxVer);
      meta := EnforceMaxVersions(path, meta);
      store := store[MetaKey(prefix, path) := Meta(meta)];
      WriteOk(before, prefix, maxVer, path, h, x);
      log := log + [Op.Write(path, x)];
      Extended(before, old(log), Op.Write(path, x));
      assert log[..|log| - 1] == old(log);
      r := Ok(version);
    }

    lemma PathMeta(path: Key, h: Option<History>)
      requires PathOk(store, prefix, maxVer, path, h)
      ensures ReadMeta(path) == if h.None? then None else Some(Render(h.value, maxVer))
      ensures h.Some? ==> Sane(h.value)
    {}

    /** mutateVersions, for a soft delete or its reversal. */
    method MutateVersions(path: Key, flag: Flag, versions: seq<int>) returns (r: Outcome<()>)
      requires Valid() && flag != Flag.Destroy
      modifies this
      ensures Valid()
      ensures log == old(log) + (if ValidPath(path) then [Mark(path, flag, versions)] else [])
      ensures r == if !ValidPath(path) then InvalidPath
                   else if Hist(old(log), maxVer, path).None? then SecretNotFound
                   else Ok(())
    {
      hide ValidKey, MetaKey, DataKey, PathOk, SameElsewhere, Render;
      if !ValidPath(path) { return InvalidPath; }
      ghost var h, before := Hist(log, maxVer, path), store;
      assert PathOk(store, prefix, maxVer, path, h);
      PathMeta(path, h);
      var found := ReadMeta(path);
      if found.None? {
        log := log + [Mark(path, flag, versions)];
        Unchanged(before, old(log), Mark(path, flag, versions));
        return SecretNotFound;
      }
      var meta := found.value;
      RenderCurrent(h, maxVer);
      var targets := if versions == [] then [meta.current] else versions;
      assert targets[..0] == [];
      for i := 0 to |targets|
        invariant store == before && log == old(log)
        invariant Sane(MarkAll(h.value, maxVer, flag, targets[..i]))
        invariant meta == Render(MarkAll(h.value, maxVer, flag, targets[..i]), maxVer)
      {
        assert targets[..i + 1][..i] == targets[..i];
        MarkStep(MarkAll(h.value, maxVer, flag, targets[..i]), maxVer, flag, targets[i]);
        if targets[i] in meta.versions {
          meta := meta.(versions := meta.versions[targets[i] := MarkMeta(meta.versions[targets[i]], flag)]);
        }
      }
      assert targets[..|targets|] == targets;
      ghost var next := MarkAll(h.value, maxVer, flag, targets);
      MarkKeepsDestroyed(h.value, maxVer, flag, targets);
      store := store[MetaKey(prefix, path) := Meta(meta)];
      MarkOk(before, prefix, maxVer, path, h.value, next);
      log := log + [Mark(path, flag, versions)];
      Extended(before, old(log), Mark(path, flag, versions));
      r := Ok(());
    }

    lemma Unchanged(before: Store, was: seq<Op>, op: Op)
      requires maxVer >= 1 && store == before && log == was + [op]
      requires forall path :: PathOk(before, prefix, maxVer, path, Hist(was, maxVer, path))
      requires Hist(was, maxVer, op.path).None? && !op.Write?
      ensures Valid()
    {
      hide PathOk;
      Extended(before, was, op);
    }

    method Delete(path: Key, versions: seq<int>) returns (r: Outcome<()>)
      requires Valid()
      modifies this
      ensures Valid()
      ensures log == old(log) + (if ValidPath(path) then [Mark(path, Flag.Delete, versions)] else [])
      ensures r == if !ValidPath(path) then InvalidPath
                   else if Hist(old(log), maxVer, path).None? then SecretNotFound
                   else Ok(())
    {
      r := MutateVersions(path, Flag.Delete, versions);
    }

    method Undelete(path: Key, versions: seq<int>) returns (r: Outcome<()>)
      requires Valid()
      modifies this
      ensures Valid()
      ensures log == old(log) + (if ValidPath(path) then [Mark(path, Flag.Undelete, versions)] else [])
      ensures r == if !ValidPath(path) then InvalidPath
                   else if Hist(old(log), maxVer, path).None? then SecretNotFound
                   else Ok(())
    {
      r := MutateVersions(path, Flag.Undelete, versions);
    }

    /** Destroy: the versions' data is gone, their metadata stays. */
    method Destroy(path: Key, versions: seq<int>) returns (r: Outcome<()>)
      requires Valid()
      modifies this
      ensures Valid()
      ensures log == old(log) + (if ValidPath(path) then [Mark(path, Flag.Destroy, versions)] else [])
      ensures r == if !ValidPath(path) then InvalidPath
                   else if Hist(old(log), maxVer, path).None? then SecretNotFound
                   else Ok(())
    {
      hide ValidKey, MetaKey, DataKey, PathOk, DataOk, SameElsewhere, Render, BelongsTo;
      if !ValidPath(path) { return InvalidPath; }
      ghost var h, before := Hist(log, maxVer, path), store;
      assert PathOk(store, prefix, maxVer, path, h);
      PathMeta(path, h);
      var found := ReadMeta(path);
      if found.None? {
        log := log + [Mark(path, Flag.Destroy, versions)];
        Unchanged(before, old(log), Mark(path, Flag.Destroy, versions));
        return SecretNotFound;
      }
      var meta := found.value;
      RenderCurrent(h, maxVer);
      var targets := if versions == [] then [meta.current] else versions;
      meta := DestroyAll(path, meta, targets, h.value);
      ghost var next, wiped := MarkAll(h.value, maxVer, Flag.Destroy, targets), store;
      store := store[MetaKey(prefix, path) := Meta(meta)];
      MetaWritten(wiped, prefix, maxVer, path, next);
      SameTransitive(before, wiped, store, prefix, path);
      log := log + [Mark(path, Flag.Destroy, versions)];
      Extended(before, old(log), Mark(path, Flag.Destroy, versions));
      r := Ok(());
    }

    /** The loop of Destroy. */
    method DestroyAll(path: Key, meta: Metadata, targets: seq<int>, ghost h: History) returns (m: Metadata)
      requires PathOk(store, prefix, maxVer, path, Some(h)) && meta == Render(h, maxVer)
      modifies `store
      ensures m == Render(MarkAll(h, maxVer, Flag.Destroy, targets), maxVer)
      ensures Sane(MarkAll(h, maxVer, Flag.Destroy, targets))
      ensures DataOk(store, prefix, maxVer, path, Some(MarkAll(h, maxVer, Flag.Destroy, targets)))
      ensures SameElsewhere(old(store), store, prefix, path)
    {
      hide MetaKey, DataKey, DataOk, SameElsewhere, Render;
      m := meta;
      assert targets[..0] == [];
      Reflexive(store, prefix, path);
      for i := 0 to |targets|
        invariant Sane(MarkAll(h, maxVer, Flag.Destroy, targets[..i]))
        invariant m == Render(MarkAll(h, maxVer, Flag.Destroy, targets[..i]), maxVer)
        invariant DataOk(store, prefix, maxVer, path, Some(MarkAll(h, maxVer, Flag.Destroy, targets[..i])))
        invariant SameElsewhere(old(store), store, prefix, path)
      {
        assert targets[..i + 1][..i] == targets[..i];
        ghost var part, before := MarkAll(h, maxVer, Flag.Destroy, targets[..i]), store;
        MarkStep(part, maxVer, Flag.Destroy, targets[i]);
        RenderKeys(part, maxVer, targets[i]);
        if targets[i] in m.versions {
          DestroyOk(store, prefix, maxVer, path, part, targets[i]);
          store := store - {DataKey(prefix, path, targets[i])};
          SameTransitive(old(store), before, store, prefix, path);
          m := m.(versions := m.versions[targets[i] := m.versions[targets[i]].(destroyed := true)]);
        }
      }
      assert targets[..|targets|] == targets;
    }

    /** DeleteMetadata: every version's data and the metadata. */
    method DeleteMetadata(path: Key) returns (r: Outcome<()>)
      requires Valid()
      modifies this
      ensures Valid()
      ensures log == old(log) + (if ValidPath(path) then [Remove(path)] else [])
      ensures r == if ValidPath(path) then Ok(()) else InvalidPath
    {
      hide ValidKey, MetaKey, DataKey, PathOk, SameElsewhere, Render, OnlyVersions;
      if !ValidPath(path) { return InvalidPath; }
      ghost var h, before := Hist(log, maxVer, path), store;
      assert PathOk(store, prefix, maxVer, path, h);
      PathMeta(path, h);
      var found := ReadMeta(path);
      if found.None? {
        log := log + [Remove(path)];
        Unchanged(before, old(log), Remove(path));
        return Ok(());
      }
      var todo: set<int> := found.value.versions.Keys;
      VersionsAll(store, prefix, maxVer, path, h.value);
      Reflexive(store, prefix, path);
      while todo != {}
        invariant log == old(log)
        invariant todo <= found.value.versions.Keys
        invariant OnlyVersions(store, prefix, path, todo)
        invariant SameElsewhere(before, store, prefix, path)
        decreases |todo|
      {
        var v := AnyOf(todo);
        ghost var now := store;
        RemoveVersion(store, prefix, path, todo, v);
        store := store - {DataKey(prefix, path, v)};
        SameTransitive(before, now, store, prefix, path);
        todo := todo - {v};
      }
      ghost var wiped := store;
      RemoveOk(store, prefix, maxVer, path);
      store := store - {MetaKey(prefix, path)};
      SameTransitive(before, wiped, store, prefix, path);
      log := log + [Remove(path)];
      Extended(before, old(log), Remove(path));
      r := Ok(());
    }
  }
}
