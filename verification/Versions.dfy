/** Versioned secrets: their storage keys, the per-path history they stand for, and how one is stored as the other. */
module Versions {
  import opened Common
  import opened Keys

  type Payload = seq<Byte>

  // ---- storage keys ----

  const META: Key := [47, 109, 101, 116, 97, 47] // "/meta/"
  const DATA: Key := [47, 100, 97, 116, 97, 47] // "/data/"
  const ZERO: Byte := 48

  function Itoa(n: nat): (s: Key)
    ensures s != [] && forall i :: 0 <= i < |s| ==> ZERO <= s[i] <= ZERO + 9
  {
    if n < 10 then [ZERO + n] else Itoa(n / 10) + [ZERO + n % 10]
  }

  function Atoi(s: Key): int
    decreases |s|
  {
    if s == [] then 0 else Atoi(s[..|s| - 1]) * 10 + (s[|s| - 1] - ZERO)
  }

  function MetaKey(prefix: Key, path: Key): Key { prefix + META + path }

  function DataKey(prefix: Key, path: Key, version: nat): Key { prefix + DATA + path + [SLASH] + Itoa(version) }

  /** The index of the last slash, or -1. */
  function LastSlash(s: Key): (i: int)
    ensures -1 <= i < |s| && (i >= 0 ==> s[i] == SLASH)
    ensures forall j :: i < j < |s| ==> s[j] != SLASH
    decreases |s|
  {
    if s == [] then -1 else if s[|s| - 1] == SLASH then |s| - 1 else LastSlash(s[..|s| - 1])
  }

  datatype Slot = MetaSlot(path: Key) | DataSlot(path: Key, version: int) | NoSlot

  /** Which secret, and which of its versions, a storage key belongs to. */
  function Locate(prefix: Key, key: Key): Slot {
    var n := |prefix| + 6;
    if |key| < n then NoSlot
    else if key[..n] == prefix + META then MetaSlot(key[n..])
    else if key[..n] == prefix + DATA && LastSlash(key[n..]) >= 0 then
      var rest := key[n..];
      DataSlot(rest[..LastSlash(rest)], Atoi(rest[LastSlash(rest) + 1..]))
    else NoSlot
  }

  lemma {:induction false} AtoiItoa(n: nat)
    ensures Atoi(Itoa(n)) == n
    decreases n
  {
    if n < 10 {
      assert Atoi([]) == 0;
      assert Itoa(n)[..0] == [];
    } else {
      AtoiItoa(n / 10);
      assert Itoa(n)[..|Itoa(n)| - 1] == Itoa(n / 10);
    }
  }

  /** Versions are written in decimal: "7", "10", "365". */
  lemma ItoaDecimal()
    ensures Itoa(7) == [55] && Itoa(10) == [49, 48] && Itoa(365) == [51, 54, 53]
  {
    assert Itoa(1) == [49] && Itoa(3) == [51] && Itoa(36) == [51, 54];
  }

  lemma LastSlashIs(s: Key, i: nat)
    requires i < |s| && s[i] == SLASH && forall j :: i < j < |s| ==> s[j] != SLASH
    ensures LastSlash(s) == i
  {
    assert LastSlash(s) <= i;
    assert i <= LastSlash(s);
  }

  lemma LocateMeta(prefix: Key, path: Key)
    ensures Locate(prefix, MetaKey(prefix, path)) == MetaSlot(path)
  {
    var key := MetaKey(prefix, path);
    assert key[..|prefix| + 6] == prefix + META;
    assert key[|prefix| + 6..] == path;
  }

  /** Storage keys determine the path and the version they were made from. */
  lemma LocateData(prefix: Key, path: Key, version: nat)
    ensures Locate(prefix, DataKey(prefix, path, version)) == DataSlot(path, version)
  {
    var key, n := DataKey(prefix, path, version), |prefix| + 6;
    var rest := path + [SLASH] + Itoa(version);
    assert key[..n] == prefix + DATA;
    assert key[n..] == rest;
    assert key[|prefix| + 1] == DATA[1] && (prefix + META)[|prefix| + 1] == META[1];
    LastSlashIs(rest, |path|);
    assert rest[..|path|] == path && rest[|path| + 1..] == Itoa(version);
    AtoiItoa(version);
  }

  /** Both, for every path and version: no two keys meet. */
  lemma KeysApart(prefix: Key)
    ensures forall path :: Locate(prefix, MetaKey(prefix, path)) == MetaSlot(path)
    ensures forall path, version: nat :: Locate(prefix, DataKey(prefix, path, version)) == DataSlot(path, version)
  {
    forall path ensures Locate(prefix, MetaKey(prefix, path)) == MetaSlot(path) { LocateMeta(prefix, path); }
    forall path, version: nat ensures Locate(prefix, DataKey(prefix, path, version)) == DataSlot(path, version) {
      LocateData(prefix, path, version);
    }
  }

  /** Checking the metadata key is enough: the keys of all versions are then well-formed too. */
  lemma DataKeyIsValid(prefix: Key, path: Key, version: nat)
    requires ValidKey(MetaKey(prefix, path))
    ensures ValidKey(DataKey(prefix, path, version))
  {
    hide ValidUtf8, Segments, Itoa;
    var meta, data, digits := [109, 101, 116, 97], [100, 97, 116, 97], Itoa(version);
    var m, d := MetaKey(prefix, path), DataKey(prefix, path, version);
    var tail := path + [SLASH] + digits;
    assert m == prefix + [SLASH] + (meta + [SLASH] + path);
    assert d == prefix + [SLASH] + (data + [SLASH] + tail);
    Utf8SplitsAtSlash(prefix, meta + [SLASH] + path);
    Utf8SplitsAtSlash(meta, path);
    Utf8SplitsAtSlash(prefix, data + [SLASH] + tail);
    Utf8SplitsAtSlash(data, tail);
    Utf8SplitsAtSlash(path, digits);
    SegmentsConcat(prefix, meta + [SLASH] + path);
    SegmentsConcat(meta, path);
    SegmentsConcat(prefix, data + [SLASH] + tail);
    SegmentsConcat(data, tail);
    SegmentsConcat(path, digits);
    Plain(digits);
    Plain(data);
    assert Segments(d) == Segments(prefix) + ([data] + (Segments(path) + [digits]));
    assert m[|prefix|] == SLASH;
    assert d[0] == m[0];
    assert d[|d| - 1] == digits[|digits| - 1];
  }

  lemma {:induction false} Plain(s: Key)
    requires forall i :: 0 <= i < |s| ==> s[i] < 0x80 && s[i] != SLASH
    ensures ValidUtf8(s) && Segments(s) == [s]
    decreases |s|
  {
    if s != [] { Plain(s[1..]); }
  }

  // ---- histories ----

  /** The writes since the secret was last removed, and the versions flagged. */
  datatype History = History(values: seq<Payload>, deleted: set<int>, destroyed: set<int>)

  datatype Flag = Delete | Undelete | Destroy

  datatype Op = Write(path: Key, value: Payload) | Mark(path: Key, flag: Flag, versions: seq<int>) | Remove(path: Key)

  function Oldest(h: History, max: nat): int { if |h.values| <= max then 1 else |h.values| - max + 1 }

  predicate Retained(h: History, max: nat, v: int) { Oldest(h, max) <= v <= |h.values| }

  function MarkOne(h: History, max: nat, flag: Flag, v: int): History {
    if !Retained(h, max, v) then h
    else match flag
      case Delete => if v in h.destroyed then h else h.(deleted := h.deleted + {v})
      case Undelete => if v in h.destroyed then h else h.(deleted := h.deleted - {v})
      case Destroy => h.(destroyed := h.destroyed + {v})
  }

  function MarkAll(h: History, max: nat, flag: Flag, vs: seq<int>): (r: History)
    ensures r.values == h.values
    decreases |vs|
  {
    if vs == [] then h else MarkOne(MarkAll(h, max, flag, vs[..|vs| - 1]), max, flag, vs[|vs| - 1])
  }

  /** No versions named means the current one. */
  function Targets(h: History, vs: seq<int>): seq<int> { if vs == [] then [|h.values|] else vs }

  function Effect(h: Option<History>, max: nat, op: Op): Option<History> {
    match op
    case Write(_, x) => if h.None? then Some(History([x], {}, {})) else Some(h.value.(values := h.value.values + [x]))
    case Mark(_, flag, vs) => if h.None? then None else Some(MarkAll(h.value, max, flag, Targets(h.value, vs)))
    case Remove(_) => None
  }

  /** One path's history in a log of operations on all paths. */
  function Hist(log: seq<Op>, max: nat, path: Key): Option<History>
    decreases |log|
  {
    if log == [] then None
    else
      var before := Hist(log[..|log| - 1], max, path);
      if log[|log| - 1].path == path then Effect(before, max, log[|log| - 1]) else before
  }

  datatype Outcome<+T> = Ok(value: T) | InvalidPath | SecretNotFound | VersionNotFound | VersionDeleted
    | VersionDestroyed

  /** What reading a version should answer; version 0 is the current one. */
  function Answer(h: Option<History>, max: nat, version: int): Outcome<Payload> {
    if h.None? then SecretNotFound
    else
      var v := if version == 0 then |h.value.values| else version;
      if !Retained(h.value, max, v) then VersionNotFound
      else if v in h.value.destroyed then VersionDestroyed
      else if v in h.value.deleted then VersionDeleted
      else Ok(h.value.values[v - 1])
  }

  // ---- what the store holds ----

  datatype VersionMeta = VersionMeta(version: int, deleted: bool, destroyed: bool)

  datatype Metadata = Metadata(current: int, oldest: int, max: int, versions: map<int, VersionMeta>)

  datatype Value = Meta(meta: Metadata) | Data(payload: Payload)

  type Store = map<Key, Value>

  function Render(h: History, max: nat): Metadata {
    Metadata(|h.values|, Oldest(h, max), max,
             map v | Oldest(h, max) <= v <= |h.values| :: VersionMeta(v, v in h.deleted, v in h.destroyed))
  }

  predicate Stored(h: History, max: nat, v: int) { Retained(h, max, v) && v !in h.destroyed }

  ghost predicate MetaOk(store: Store, prefix: Key, max: nat, path: Key, h: Option<History>) {
    var key := MetaKey(prefix, path);
    if h.None? then key !in store else key in store && store[key] == Meta(Render(h.value, max))
  }

  ghost predicate DataOk(store: Store, prefix: Key, max: nat, path: Key, h: Option<History>) {
    forall v: nat ::
      var key := DataKey(prefix, path, v);
      if h.Some? && Stored(h.value, max, v) then key in store && store[key] == Data(h.value.values[v - 1])
      else key !in store
  }

  /** Flags name versions that were written. */
  predicate Sane(h: History) {
    && h.values != []
    && (forall v :: v in h.deleted ==> 1 <= v <= |h.values|)
    && (forall v :: v in h.destroyed ==> 1 <= v <= |h.values|)
  }

  /** The store holds exactly one path's metadata and its retained, undestroyed versions. */
  ghost predicate PathOk(store: Store, prefix: Key, max: nat, path: Key, h: Option<History>) {
    MetaOk(store, prefix, max, path, h) && DataOk(store, prefix, max, path, h) && (h.Some? ==> Sane(h.value))
  }

  predicate BelongsTo(prefix: Key, key: Key, path: Key) {
    var slot := Locate(prefix, key);
    slot != NoSlot && slot.path == path
  }

  /** The two stores differ at most on one path's keys. */
  ghost predicate SameElsewhere(a: Store, b: Store, prefix: Key, path: Key) {
    forall key :: !BelongsTo(prefix, key, path) ==> (key in a <==> key in b) && (key in a ==> a[key] == b[key])
  }

  lemma ElsewhereOk(a: Store, b: Store, prefix: Key, max: nat, path: Key, other: Key, h: Option<History>)
    requires SameElsewhere(a, b, prefix, path) && other != path
    requires PathOk(a, prefix, max, other, h)
    ensures PathOk(b, prefix, max, other, h)
  {
    hide Locate, MetaKey, DataKey, Render, Stored, Sane;
    KeysApart(prefix);
    assert !BelongsTo(prefix, MetaKey(prefix, other), path);
    forall v: nat
      ensures !BelongsTo(prefix, DataKey(prefix, other, v), path)
    {
    }
  }

  /** The storage keys of a run of versions. */
  function VersionKeys(prefix: Key, path: Key, lo: nat, hi: int): set<Key> {
    set v: nat | lo <= v < hi :: DataKey(prefix, path, v)
  }

  lemma VersionKeysSplit(prefix: Key, path: Key, lo: nat, hi: int)
    requires lo < hi
    ensures VersionKeys(prefix, path, lo, hi) == VersionKeys(prefix, path, lo, hi - 1) + {DataKey(prefix, path, hi - 1)}
  {}

  function Aged(meta: Metadata): (lo: int)
    ensures lo >= meta.oldest
  {
    if meta.current - meta.oldest + 1 > meta.max then meta.current - meta.max + 1 else meta.oldest
  }

  function Without(versions: map<int, VersionMeta>, lo: int, hi: int): map<int, VersionMeta> {
    map v | v in versions && !(lo <= v < hi) :: versions[v]
  }

  /** The metadata Write holds before ageing versions out. */
  function Grown(h: Option<History>, max: nat): Metadata {
    var meta := if h.None? then Metadata(0, 0, max, map[]) else Render(h.value, max);
    var version := meta.current + 1;
    var oldest := if meta.oldest == 0 then version else meta.oldest;
    Metadata(version, oldest, max, meta.versions[version := VersionMeta(version, false, false)])
  }

  lemma WriteMeta(h: Option<History>, max: nat, path: Key, x: Payload)
    requires max >= 1 && (h.Some? ==> Sane(h.value))
    ensures var next := Effect(h, max, Write(path, x)).value; var meta := Grown(h, max);
            && Sane(next)
            && meta.oldest == (if h.None? then 1 else Oldest(h.value, max)) && Aged(meta) == Oldest(next, max)
            && meta.(oldest := Aged(meta), versions := Without(meta.versions, meta.oldest, Aged(meta)))
               == Render(next, max)
  {}

  lemma WriteOk(before: Store, prefix: Key, max: nat, path: Key, h: Option<History>, x: Payload)
    requires max >= 1 && PathOk(before, prefix, max, path, h)
    ensures var next := Effect(h, max, Write(path, x)); var meta := Grown(h, max);
            var after := (before[DataKey(prefix, path, meta.current) := Data(x)]
                          - VersionKeys(prefix, path, meta.oldest, Aged(meta)))
                         [MetaKey(prefix, path) := Meta(Render(next.value, max))];
            PathOk(after, prefix, max, path, next) && SameElsewhere(before, after, prefix, path)
  {
    hide Locate, MetaKey, DataKey, Render, Grown, Aged;
    KeysApart(prefix);
    WriteMeta(h, max, path, x);
    var next, meta := Effect(h, max, Write(path, x)), Grown(h, max);
    GrownCurrent(h, max);
    var aged := VersionKeys(prefix, path, meta.oldest, Aged(meta));
    var after := (before[DataKey(prefix, path, meta.current) := Data(x)] - aged)
                 [MetaKey(prefix, path) := Meta(Render(next.value, max))];
    forall v: nat ensures DataKey(prefix, path, v) in aged <==> meta.oldest <= v < Aged(meta) {
      if DataKey(prefix, path, v) in aged {
        var u: nat :| meta.oldest <= u < Aged(meta) && DataKey(prefix, path, u) == DataKey(prefix, path, v);
        assert Locate(prefix, DataKey(prefix, path, u)) == DataSlot(path, u);
      }
    }
    assert MetaKey(prefix, path) in after;
    assert DataOk(after, prefix, max, path, next);
  }

  lemma RenderCurrent(h: Option<History>, max: nat)
    ensures h.Some? ==> Render(h.value, max).current == |h.value.values| && Render(h.value, max).max == max
  {}

  lemma GrownCurrent(h: Option<History>, max: nat)
    ensures Grown(h, max).current == (if h.None? then 1 else |h.value.values| + 1)
  {}

  /** One version's metadata under a flag. */
  function MarkMeta(vm: VersionMeta, flag: Flag): VersionMeta {
    match flag
    case Delete => if vm.destroyed then vm else vm.(deleted := true)
    case Undelete => if vm.destroyed then vm else vm.(deleted := false)
    case Destroy => vm.(destroyed := true)
  }

  lemma MarkStep(h: History, max: nat, flag: Flag, v: int)
    requires Sane(h)
    ensures Sane(MarkOne(h, max, flag, v))
    ensures var versions := Render(h, max).versions;
            Render(MarkOne(h, max, flag, v), max)
            == Render(h, max).(versions := if v in versions then versions[v := MarkMeta(versions[v], flag)]
               else versions)
  {
    var next := MarkOne(h, max, flag, v);
    assert Oldest(next, max) == Oldest(h, max);
  }

  /** Soft deletes touch no data. */
  lemma {:induction false} MarkKeepsDestroyed(h: History, max: nat, flag: Flag, vs: seq<int>)
    requires flag != Destroy
    ensures MarkAll(h, max, flag, vs).destroyed == h.destroyed
    decreases |vs|
  {
    if vs != [] { MarkKeepsDestroyed(h, max, flag, vs[..|vs| - 1]); }
  }

  lemma MarkOk(before: Store, prefix: Key, max: nat, path: Key, h: History, next: History)
    requires PathOk(before, prefix, max, path, Some(h))
    requires Sane(next) && next.values == h.values && next.destroyed == h.destroyed
    ensures var after := before[MetaKey(prefix, path) := Meta(Render(next, max))];
            PathOk(after, prefix, max, path, Some(next)) && SameElsewhere(before, after, prefix, path)
  {
    hide Locate, MetaKey, DataKey, Render;
    KeysApart(prefix);
    var after := before[MetaKey(prefix, path) := Meta(Render(next, max))];
    assert forall v :: Stored(next, max, v) <==> Stored(h, max, v);
    assert DataOk(after, prefix, max, path, Some(next));
  }

  lemma DestroyOk(before: Store, prefix: Key, max: nat, path: Key, h: History, v: nat)
    requires DataOk(before, prefix, max, path, Some(h)) && Retained(h, max, v)
    ensures var after := before - {DataKey(prefix, path, v)};
            DataOk(after, prefix, max, path, Some(MarkOne(h, max, Destroy, v)))
                && SameElsewhere(before, after, prefix, path)
  {
    hide Locate, MetaKey, DataKey;
    KeysApart(prefix);
    var after, next := before - {DataKey(prefix, path, v)}, MarkOne(h, max, Destroy, v);
    forall u: nat
      ensures u != v ==> DataKey(prefix, path, u) != DataKey(prefix, path, v)
      ensures Stored(next, max, u) <==> u != v && Stored(h, max, u)
    {
      assert Locate(prefix, DataKey(prefix, path, u)) == DataSlot(path, u);
    }
  }

  lemma MetaWritten(before: Store, prefix: Key, max: nat, path: Key, h: History)
    requires DataOk(before, prefix, max, path, Some(h)) && Sane(h)
    ensures var after := before[MetaKey(prefix, path) := Meta(Render(h, max))];
            PathOk(after, prefix, max, path, Some(h)) && SameElsewhere(before, after, prefix, path)
  {
    hide Locate, MetaKey, DataKey, Render, Stored;
    KeysApart(prefix);
    var after := before[MetaKey(prefix, path) := Meta(Render(h, max))];
    assert DataOk(after, prefix, max, path, Some(h));
  }

  lemma SameTransitive(a: Store, b: Store, c: Store, prefix: Key, path: Key)
    requires SameElsewhere(a, b, prefix, path) && SameElsewhere(b, c, prefix, path)
    ensures SameElsewhere(a, c, prefix, path)
  {
    hide BelongsTo;
  }

  lemma Reflexive(a: Store, prefix: Key, path: Key)
    ensures SameElsewhere(a, a, prefix, path)
  {}

  lemma RenderKeys(h: History, max: nat, v: int)
    ensures v in Render(h, max).versions <==> Retained(h, max, v)
    ensures Retained(h, max, v) ==>
              var vm := Render(h, max).versions[v]; v >= 1 && MarkMeta(vm, Flag.Destroy) == vm.(destroyed := true)
  {}

  /** No data of a path is left but that of some versions. */
  ghost predicate OnlyVersions(store: Store, prefix: Key, path: Key, left: set<int>) {
    forall v: nat :: DataKey(prefix, path, v) in store ==> v in left
  }

  lemma RemoveVersion(before: Store, prefix: Key, path: Key, left: set<int>, v: nat)
    requires OnlyVersions(before, prefix, path, left)
    ensures var after := before - {DataKey(prefix, path, v)};
            OnlyVersions(after, prefix, path, left - {v}) && SameElsewhere(before, after, prefix, path)
  {
    hide Locate, DataKey, MetaKey;
    KeysApart(prefix);
  }

  lemma RemoveOk(before: Store, prefix: Key, max: nat, path: Key)
    requires OnlyVersions(before, prefix, path, {})
    ensures var after := before - {MetaKey(prefix, path)};
            PathOk(after, prefix, max, path, None) && SameElsewhere(before, after, prefix, path)
  {
    hide Locate, DataKey, MetaKey;
    KeysApart(prefix);
  }

  lemma VersionsAll(store: Store, prefix: Key, max: nat, path: Key, h: History)
    requires PathOk(store, prefix, max, path, Some(h))
    ensures OnlyVersions(store, prefix, path, Render(h, max).versions.Keys)
    ensures forall v :: v in Render(h, max).versions <==> Retained(h, max, v)
    ensures forall v :: v in Render(h, max).versions ==> v >= 1
  {
    hide DataKey;
    assert forall v: nat :: DataKey(prefix, path, v) in store ==> Stored(h, max, v);
  }

  // ---- what histories promise ----

  /** The writes to a path since it was last removed. */
  function Writes(log: seq<Op>, path: Key): seq<Payload>
    decreases |log|
  {
    if log == [] then []
    else
      var before, last := Writes(log[..|log| - 1], path), log[|log| - 1];
      if last.path != path then before
      else match last
        case Write(_, x) => before + [x]
        case Mark(_, _, _) => before
        case Remove(_) => []
  }

  lemma {:induction false} HistoryIsWrites(log: seq<Op>, max: nat, path: Key)
    ensures Hist(log, max, path).None? ==> Writes(log, path) == []
    ensures Hist(log, max, path).Some? ==> Hist(log, max, path).value.values == Writes(log, path) != []
    decreases |log|
  {
    if log != [] { HistoryIsWrites(log[..|log| - 1], max, path); }
  }

  /** Reading version v yields x exactly when x was the v-th write since the last removal, v is among
      the last `max`, and v is neither soft-deleted nor destroyed. */
  lemma ReadIff(log: seq<Op>, max: nat, path: Key, v: int, x: Payload)
    requires v > 0
    ensures var writes, h := Writes(log, path), Hist(log, max, path);
            Answer(h, max, v) == Ok(x)
            <==> |writes| - max < v <= |writes| && writes[v - 1] == x && h.Some? && v !in h.value.deleted
                 && v !in h.value.destroyed
  {
    HistoryIsWrites(log, max, path);
  }

  /** Reading version 0 yields x exactly when x was the last write since the last removal and that version
      is neither soft-deleted nor destroyed. */
  lemma CurrentIff(log: seq<Op>, max: nat, path: Key, x: Payload)
    requires max >= 1
    ensures var writes, h := Writes(log, path), Hist(log, max, path); var n := |writes|;
            Answer(h, max, 0) == Ok(x)
            <==> n > 0 && writes[n - 1] == x && h.Some? && n !in h.value.deleted && n !in h.value.destroyed
  {
    HistoryIsWrites(log, max, path);
  }

  /** Why a read fails: no write since the last removal; a version not written or aged out; a version
      destroyed, whether or not it was soft-deleted before; a version soft-deleted only. */
  lemma ReadErrors(log: seq<Op>, max: nat, path: Key, v: int)
    requires v != 0
    ensures var n, h := |Writes(log, path)|, Hist(log, max, path); var r := Answer(h, max, v);
            && (r == SecretNotFound <==> n == 0)
            && (r == VersionNotFound <==> n > 0 && !(1 <= v <= n && n - max < v))
            && (r == VersionDestroyed <==> n > 0 && 1 <= v <= n && n - max < v && v in h.value.destroyed)
            && (r == VersionDeleted
                <==> n > 0 && 1 <= v <= n && n - max < v && v !in h.value.destroyed && v in h.value.deleted)
            && r != InvalidPath
  {
    HistoryIsWrites(log, max, path);
  }

  /** A batch of flags is the set of retained versions it names. */
  lemma {:induction false} MarkMeans(h: History, max: nat, flag: Flag, vs: seq<int>, v: int)
    ensures var r, hit := MarkAll(h, max, flag, vs), v in vs && Retained(h, max, v);
            match flag
            case Delete => r.destroyed == h.destroyed
                && (v in r.deleted <==> v in h.deleted || (hit && v !in h.destroyed))
            case Undelete => r.destroyed == h.destroyed
                && (v in r.deleted <==> v in h.deleted && !(hit && v !in h.destroyed))
            case Destroy => r.deleted == h.deleted && (v in r.destroyed <==> v in h.destroyed || hit)
    decreases |vs|
  {
    if vs != [] { MarkMeans(h, max, flag, vs[..|vs| - 1], v); }
  }

  /** A version 0 in a list names nothing, although reading version 0 reads the current one. */
  lemma {:induction false} ZeroNamesNothing(h: History, max: nat, flag: Flag, vs: seq<int>)
    requires forall i :: 0 <= i < |vs| ==> vs[i] == 0
    ensures MarkAll(h, max, flag, vs) == h
    decreases |vs|
  {
    if vs != [] { ZeroNamesNothing(h, max, flag, vs[..|vs| - 1]); }
  }

  /** A soft delete hides the current version from a read of version 0 exactly when its list is empty or
      names that version by its number. */
  lemma DeletesCurrentIff(h: History, max: nat, vs: seq<int>)
    requires Sane(h) && max >= 1 && |h.values| !in h.destroyed && |h.values| !in h.deleted
    ensures Answer(Some(MarkAll(h, max, Flag.Delete, Targets(h, vs))), max, 0) == VersionDeleted
            <==> vs == [] || |h.values| in vs
  {
    MarkMeans(h, max, Flag.Delete, Targets(h, vs), |h.values|);
  }

  /** Undelete takes back exactly what Delete did: what both name reads as written. */
  lemma UndeleteRestores(h: History, max: nat, vs: seq<int>, v: int)
    requires v in vs && v > 0
    ensures var back := MarkAll(MarkAll(h, max, Flag.Delete, vs), max, Flag.Undelete, vs);
            Answer(Some(back), max, v)
                == Answer(Some(h.(deleted := h.deleted - (if v in h.destroyed then {} else {v}))), max, v)
  {
    var gone := MarkAll(h, max, Flag.Delete, vs);
    MarkMeans(h, max, Flag.Delete, vs, v);
    MarkMeans(gone, max, Flag.Undelete, vs, v);
  }

  /** Until a removal: written values never change, destroyed versions stay destroyed, and the
      retained window only moves forward. */
  lemma {:induction false} Permanent(log: seq<Op>, more: seq<Op>, max: nat, path: Key)
    requires Hist(log, max, path).Some?
    requires Remove(path) !in more
    ensures var h, g := Hist(log, max, path), Hist(log + more, max, path);
            && g.Some? && h.value.values <= g.value.values && h.value.destroyed <= g.value.destroyed
            && Oldest(h.value, max) <= Oldest(g.value, max)
    decreases |more|
  {
    if more == [] {
      assert log + more == log;
    } else {
      var init, last := more[..|more| - 1], more[|more| - 1];
      Permanent(log, init, max, path);
      assert (log + more)[..|log + more| - 1] == log + init;
      if last.Mark? && last.path == path {
        var g := Hist(log + init, max, path).value;
        forall v | v in g.destroyed ensures v in MarkAll(g, max, last.flag, Targets(g, last.versions)).destroyed {
          MarkMeans(g, max, last.flag, Targets(g, last.versions), v);
        }
      }
    }
  }

  /** Operations on other paths leave a path's history alone. */
  lemma {:induction false} PathsIndependent(log: seq<Op>, more: seq<Op>, max: nat, path: Key)
    requires forall op :: op in more ==> op.path != path
    ensures Hist(log + more, max, path) == Hist(log, max, path)
    decreases |more|
  {
    if more == [] {
      assert log + more == log;
    } else {
      PathsIndependent(log, more[..|more| - 1], max, path);
      assert (log + more)[..|log + more| - 1] == log + more[..|more| - 1];
    }
  }
}
