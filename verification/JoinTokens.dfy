/** The replicated state machine's commands, and the join-token records among its entries. */
module JoinTokens {
  import opened Common
  import opened Keys

  type Value = seq<Byte>

  // ---- the record codec ----

  const TWO63: int := 0x8000_0000_0000_0000
  const TWO64: int := 0x1_0000_0000_0000_0000

  type Int64 = x: int | -TWO63 <= x < TWO63

  /** Two's-complement wrap-around of 64-bit arithmetic. */
  function Wrap(x: int): Int64 {
    var u := x % TWO64;
    if u < TWO63 then u else u - TWO64
  }

  function BigEndian(u: nat, n: nat): (s: Value)
    ensures |s| == n
    decreases n
  {
    if n == 0 then [] else BigEndian(u / 256, n - 1) + [u % 256]
  }

  function FromBigEndian(s: Value): nat {
    if s == [] then 0 else FromBigEndian(s[..|s| - 1]) * 256 + s[|s| - 1]
  }

  function Pow256(n: nat): (r: nat)
    ensures r > 0
  {
    if n == 0 then 1 else 256 * Pow256(n - 1)
  }

  lemma {:induction false} BigEndianRoundTrip(u: nat, n: nat)
    requires u < Pow256(n)
    ensures FromBigEndian(BigEndian(u, n)) == u
    decreases n
  {
    if n > 0 {
      BigEndianRoundTrip(u / 256, n - 1);
      assert BigEndian(u, n)[..n - 1] == BigEndian(u / 256, n - 1);
    }
  }

  const FRESH: Byte := 0
  const SPENT: Byte := 1

  datatype Record = Record(state: Byte, expiry: Int64)

  /** encodeTokenRecord: the state byte, then the expiry in eight big-endian bytes. */
  function Encode(r: Record): (b: Value)
    ensures |b| == 9
  {
    [r.state] + BigEndian(r.expiry % TWO64, 8)
  }

  /** decodeTokenRecord. */
  function Decode(b: Value): Option<Record> {
    if |b| != 9 then None else Some(Record(b[0], Wrap(FromBigEndian(b[1..]))))
  }

  /** A record is nine bytes, no more and no fewer. */
  lemma DecodeIff(b: Value)
    ensures Decode(b).Some? <==> |b| == 9
    ensures |b| == 9 ==> Decode(b).value.state == b[0]
  {}

  lemma WrapOfResidue(x: Int64)
    ensures Wrap(x % TWO64) == x
  {}

  lemma EightBytes(u: nat)
    requires u < TWO64
    ensures FromBigEndian(BigEndian(u, 8)) == u
  {
    assert Pow256(4) == 0x1_0000_0000;
    assert Pow256(8) == TWO64;
    BigEndianRoundTrip(u, 8);
  }

  lemma DecodeEncode(r: Record)
    ensures Decode(Encode(r)) == Some(r)
  {
    hide Wrap, FromBigEndian, BigEndian;
    EightBytes(r.expiry % TWO64);
    WrapOfResidue(r.expiry);
    assert Encode(r)[1..] == BigEndian(r.expiry % TWO64, 8);
  }

  // ---- commands ----

  const DAY: int := 24 * 60 * 60 * 1_000_000_000

  function Ascii(s: string): Key { seq(|s|, i requires 0 <= i < |s| => s[i] as int % 256) }

  const TOKEN_PREFIX: Key := Ascii("raft-internal/join-token/")

  predicate IsTokenKey(k: Key) { TOKEN_PREFIX <= k }

  /** The "op" field of a log entry; a name this build does not know is Unknown. */
  datatype Op = Put | Delete | TokenMint | TokenBurn | Unknown

  datatype Command = Command(version: int, op: Op, key: Key, value: Value, now: Int64)

  const VERSION: int := 1

  /** decodeCommand accepts a log entry that parses, speaks this version and names a known op. */
  predicate Decodable(data: Option<Command>) {
    data.Some? && data.value.version == VERSION && !data.value.op.Unknown?
  }

  datatype Reply = Done | TokenInvalid | TokenUsed | TokenExpired | Failed

  predicate Stale(v: Value, now: Int64) {
    Decode(v).Some? && Decode(v).value.expiry < Wrap(now - DAY)
  }

  /** The records a mint at `now` prunes. */
  function StaleKeys(kv: map<Key, Value>, now: Int64): set<Key> {
    set k | k in kv && IsTokenKey(k) && Stale(kv[k], now)
  }

  function BurnReply(kv: map<Key, Value>, key: Key, now: Int64): Reply {
    var r := if key in kv then Decode(kv[key]) else None;
    if r.None? then TokenInvalid
    else if r.value.state == SPENT then TokenUsed
    else if now > r.value.expiry then TokenExpired
    else Done
  }

  /** The effect of one decodable command, with the set of records a mint drops as a parameter. */
  function EffectDropping(kv: map<Key, Value>, c: Command, dropped: set<Key>): (map<Key, Value>, Reply) {
    if c.op.TokenMint? then ((kv - dropped)[c.key := c.value], Done)
    else if c.op.TokenBurn? then
      var reply := BurnReply(kv, c.key, c.now);
      (if reply == Done
       then kv[c.key := Encode(Record(SPENT, Decode(kv[c.key]).value.expiry))] else kv, reply)
    else if c.op.Put? then (kv[c.key := c.value], Done)
    else (kv - {c.key}, Done)
  }

  function Effect(kv: map<Key, Value>, c: Command): (map<Key, Value>, Reply) {
    EffectDropping(kv, c, StaleKeys(kv, c.now))
  }

  /** The same command in a state machine that never prunes. */
  function EffectKeeping(kv: map<Key, Value>, c: Command): (map<Key, Value>, Reply) {
    EffectDropping(kv, c, {})
  }

  // ---- applying a log once, entry by entry ----

  function After(cs: seq<Command>, n: nat): map<Key, Value>
    requires n <= |cs|
  {
    if n == 0 then map[] else Effect(After(cs, n - 1), cs[n - 1]).0
  }

  function ReplyAt(cs: seq<Command>, i: nat): Reply
    requires i < |cs|
  {
    Effect(After(cs, i), cs[i]).1
  }

  function KeptAfter(cs: seq<Command>, n: nat): map<Key, Value>
    requires n <= |cs|
  {
    if n == 0 then map[] else EffectKeeping(KeptAfter(cs, n - 1), cs[n - 1]).0
  }

  function KeptReplyAt(cs: seq<Command>, i: nat): Reply
    requires i < |cs|
  {
    EffectKeeping(KeptAfter(cs, i), cs[i]).1
  }

  /** What MintJoinToken, RedeemJoinToken and the guards of Put and Delete ensure about a log. */
  ghost predicate WellUsed(cs: seq<Command>) {
    && (forall i :: 0 <= i < |cs| ==> !cs[i].op.Unknown?)
    && (forall i :: 0 <= i < |cs| && cs[i].op.TokenMint? ==>
          IsTokenKey(cs[i].key) && Decode(cs[i].value).Some? && Decode(cs[i].value).value.state == FRESH)
    && (forall i :: 0 <= i < |cs| && cs[i].op.TokenBurn? ==> IsTokenKey(cs[i].key))
    && (forall i :: 0 <= i < |cs| && (cs[i].op.Put? || cs[i].op.Delete?) ==> !IsTokenKey(cs[i].key))
    && (forall i, j :: 0 <= i < j < |cs| && cs[i].op.TokenMint? && cs[j].op.TokenMint? ==> cs[i].key != cs[j].key)
  }

  /** Entry i redeems the token of key k. */
  predicate Redeems(cs: seq<Command>, i: nat, k: Key)
    requires i < |cs|
  {
    cs[i].op.TokenBurn? && cs[i].key == k && ReplyAt(cs, i) == Done
  }

  predicate Mints(c: Command, k: Key) { c.op.TokenMint? && c.key == k }

  /** The record is that of an earlier mint of its key, fresh or spent. */
  ghost predicate FromMint(cs: seq<Command>, n: nat, k: Key, v: Value)
    requires n <= |cs|
  {
    && Decode(v).Some?
    && (Decode(v).value.state == FRESH || Decode(v).value.state == SPENT)
    && exists m ::
         0 <= m < n && Mints(cs[m], k) && Decode(cs[m].value).Some?
         && Decode(cs[m].value).value.expiry == Decode(v).value.expiry
  }

  ghost predicate TokensOk(cs: seq<Command>, n: nat)
    requires n <= |cs|
  {
    && (forall k :: k in After(cs, n) && IsTokenKey(k) ==> FromMint(cs, n, k, After(cs, n)[k]))
    && (forall i, k ::
          0 <= i < n && Redeems(cs, i, k) && k in After(cs, n)
          ==> Decode(After(cs, n)[k]) != None && Decode(After(cs, n)[k]).value.state == SPENT)
    && (forall i, k :: 0 <= i < n && Redeems(cs, i, k) ==> exists m :: 0 <= m < i && Mints(cs[m], k))
  }

  lemma {:induction false} TokensStayOk(cs: seq<Command>, n: nat)
    requires WellUsed(cs) && n <= |cs|
    ensures TokensOk(cs, n)
  {
    if n == 0 {
      assert After(cs, 0) == map[];
    } else {
      hide TokensOk, WellUsed;
      TokensStayOk(cs, n - 1);
      TokensStep(cs, n - 1);
    }
  }

  lemma TokensStep(cs: seq<Command>, n: nat)
    requires WellUsed(cs) && n < |cs| && TokensOk(cs, n)
    ensures TokensOk(cs, n + 1)
  {
    hide Decode, Encode, IsTokenKey;
    var kv, kv', c := After(cs, n), After(cs, n + 1), cs[n];
    forall k | k in kv' && IsTokenKey(k) ensures FromMint(cs, n + 1, k, kv'[k]) {
      if c.op.TokenMint? && c.key == k {
        assert Mints(cs[n], k);
      } else {
        assert FromMint(cs, n, k, kv[k]);
        if c.op.TokenBurn? && c.key == k && ReplyAt(cs, n) == Done {
          DecodeEncode(Record(SPENT, Decode(kv[k]).value.expiry));
        }
      }
    }
    forall i, k | 0 <= i < n + 1 && Redeems(cs, i, k)
      ensures exists m :: 0 <= m < i && Mints(cs[m], k)
      ensures k in kv' ==> Decode(kv'[k]) != None && Decode(kv'[k]).value.state == SPENT
    {
      if i == n {
        assert FromMint(cs, n, k, kv[k]);
        DecodeEncode(Record(SPENT, Decode(kv[k]).value.expiry));
      } else {
        var m :| 0 <= m < i && Mints(cs[m], k);
        if c.op.TokenBurn? && c.key == k && k in kv { assert BurnReply(kv, k, c.now) != Done; }
      }
    }
  }

  /** At most one redemption of a token takes effect, and only at or before the token's expiry. */
  lemma RedeemedOnce(cs: seq<Command>, i: nat, j: nat, k: Key)
    requires WellUsed(cs) && i < j < |cs| && Redeems(cs, i, k)
    ensures !Redeems(cs, j, k)
  {
    hide Decode;
    TokensStayOk(cs, j);
  }

  lemma RedeemedInTime(cs: seq<Command>, i: nat, k: Key) returns (m: nat)
    requires WellUsed(cs) && i < |cs| && Redeems(cs, i, k)
    ensures m < i && Mints(cs[m], k)
    ensures Decode(cs[m].value).Some? && cs[i].now <= Decode(cs[m].value).value.expiry
  {
    hide Decode;
    TokensStayOk(cs, i);
    assert FromMint(cs, i, k, After(cs, i)[k]);
    m :| 0 <= m < i && Mints(cs[m], k) && Decode(cs[m].value).Some?
        && Decode(cs[m].value).value.expiry == Decode(After(cs, i)[k]).value.expiry;
  }

  // ---- pruning ----

  function ExpiryOf(v: Value): Int64 { if Decode(v).Some? then Decode(v).value.expiry else 0 }

  /** Some mint after the token's own found it expired for more than a day. */
  ghost predicate PrunedBy(cs: seq<Command>, n: nat, k: Key)
    requires n <= |cs|
  {
    exists m, i :: 0 <= m < i < n && Mints(cs[m], k) && cs[i].op.TokenMint?
        && ExpiryOf(cs[m].value) < Wrap(cs[i].now - 86_400_000_000_000)
  }

  /** For one key: the state machine that never prunes holds its mint's expiry, and the real one
      holds the same record exactly unless the token was pruned. */
  ghost predicate KeyOk(cs: seq<Command>, n: nat, k: Key)
    requires n <= |cs|
  {
    var kv, full := After(cs, n), KeptAfter(cs, n);
    && (k in kv ==> k in full && full[k] == kv[k])
    && (k in full ==> (k in kv <==> !(IsTokenKey(k) && PrunedBy(cs, n, k))))
    && (k in full && IsTokenKey(k) ==> && Decode(full[k]).Some?
                                       && exists m ::
                                            0 <= m < n && Mints(cs[m], k) && ExpiryOf(cs[m].value) == ExpiryOf(full[k]))
  }

  lemma {:induction false} KeyStaysOk(cs: seq<Command>, n: nat, k: Key)
    requires WellUsed(cs) && n <= |cs|
    ensures KeyOk(cs, n, k)
  {
    hide KeyOk, WellUsed, After, KeptAfter;
    if n == 0 {
      KeyOkAtStart(cs, k);
    } else {
      KeyStaysOk(cs, n - 1, k);
      if Mints(cs[n - 1], k) {
        OwnMintStep(cs, n - 1, k);
      } else if cs[n - 1].op.TokenMint? {
        OtherMintStep(cs, n - 1, k);
      } else {
        PlainStep(cs, n - 1, k);
      }
    }
  }

  lemma KeyOkAtStart(cs: seq<Command>, k: Key)
    ensures KeyOk(cs, 0, k)
  {
    hide PrunedBy, IsTokenKey;
  }

  lemma OwnMintStep(cs: seq<Command>, n: nat, k: Key)
    requires WellUsed(cs) && n < |cs| && Mints(cs[n], k)
    ensures KeyOk(cs, n + 1, k)
  {
    hide Decode, IsTokenKey, Wrap, Stale;
    assert !PrunedBy(cs, n + 1, k);
    assert Mints(cs[n], k) && KeptAfter(cs, n + 1)[k] == cs[n].value;
  }

  lemma MintEffect(cs: seq<Command>, n: nat, k: Key)
    requires n < |cs| && cs[n].op.TokenMint? && cs[n].key != k
    ensures k in KeptAfter(cs, n + 1) <==> k in KeptAfter(cs, n)
    ensures k in KeptAfter(cs, n) ==> KeptAfter(cs, n + 1)[k] == KeptAfter(cs, n)[k]
    ensures k in After(cs, n + 1) <==> k in After(cs, n) && !(IsTokenKey(k) && Stale(After(cs, n)[k], cs[n].now))
    ensures k in After(cs, n + 1) ==> After(cs, n + 1)[k] == After(cs, n)[k]
  {
    hide Stale, IsTokenKey;
  }

  lemma OtherMintStep(cs: seq<Command>, n: nat, k: Key)
    requires WellUsed(cs) && n < |cs| && cs[n].op.TokenMint? && cs[n].key != k && KeyOk(cs, n, k)
    ensures KeyOk(cs, n + 1, k)
  {
    hide After, KeptAfter, Decode, IsTokenKey, Wrap;
    MintEffect(cs, n, k);
    var full := KeptAfter(cs, n);
    if k in full && IsTokenKey(k) {
      var o :| 0 <= o < n && Mints(cs[o], k) && ExpiryOf(cs[o].value) == ExpiryOf(full[k]);
      assert forall m :: 0 <= m < |cs| && Mints(cs[m], k) ==> m == o;
      PrunedNext(cs, n, k, o);
      hide PrunedBy, WellUsed;
    }
  }

  lemma PrunedNext(cs: seq<Command>, n: nat, k: Key, o: nat)
    requires n < |cs| && cs[n].op.TokenMint? && o < n && Mints(cs[o], k)
    requires forall m :: 0 <= m < |cs| && Mints(cs[m], k) ==> m == o
    ensures PrunedBy(cs, n + 1, k) <==> PrunedBy(cs, n, k) || ExpiryOf(cs[o].value) < Wrap(cs[n].now - DAY)
  {
    hide ExpiryOf, Wrap;
    if PrunedBy(cs, n + 1, k) {
      var m, i :| 0 <= m < i < n + 1 && Mints(cs[m], k) && cs[i].op.TokenMint?
          && ExpiryOf(cs[m].value) < Wrap(cs[i].now - DAY);
      assert i < n ==> PrunedBy(cs, n, k);
    }
  }

  /** Entries other than mints prune nothing. */
  lemma PlainStep(cs: seq<Command>, n: nat, k: Key)
    requires WellUsed(cs) && n < |cs| && !cs[n].op.TokenMint? && KeyOk(cs, n, k)
    ensures KeyOk(cs, n + 1, k)
  {
    hide Decode, Encode, IsTokenKey, Wrap;
    assert PrunedBy(cs, n + 1, k) <==> PrunedBy(cs, n, k);
    hide PrunedBy;
    var c, kv, full := cs[n], After(cs, n), KeptAfter(cs, n);
    assert (c.op.Put? || c.op.Delete?) ==> !IsTokenKey(c.key);
    hide WellUsed;
    if c.op.TokenBurn? && c.key == k && BurnReply(full, k, c.now) == Done {
      DecodeEncode(Record(SPENT, Decode(full[k]).value.expiry));
    }
  }

  /** A redemption answers as it would without pruning, unless the token was pruned: then that it is unknown. */
  lemma RedeemIff(cs: seq<Command>, j: nat)
    requires WellUsed(cs) && j < |cs| && cs[j].op.TokenBurn?
    ensures ReplyAt(cs, j) == if PrunedBy(cs, j, cs[j].key) then TokenInvalid else KeptReplyAt(cs, j)
  {
    KeyStaysOk(cs, j, cs[j].key);
    assert IsTokenKey(cs[j].key);
    hide PrunedBy, WellUsed, Decode, IsTokenKey;
  }

  /** No redemption's clock is more than a day behind an earlier mint's. */
  ghost predicate ClocksClose(cs: seq<Command>) {
    forall i, j :: 0 <= i < j < |cs| && cs[i].op.TokenMint? && cs[j].op.TokenBurn?
        ==> cs[j].now >= Wrap(cs[i].now - 86_400_000_000_000)
  }

  /** With close clocks, pruning turns no redemption from success to failure or back. What it can change
      is the reason for a failure: a pruned token is unknown, not used or expired. */
  lemma PruningIsInvisible(cs: seq<Command>, j: nat)
    requires WellUsed(cs) && ClocksClose(cs) && j < |cs| && cs[j].op.TokenBurn?
    ensures ReplyAt(cs, j) == Done <==> KeptReplyAt(cs, j) == Done
    ensures ReplyAt(cs, j) == KeptReplyAt(cs, j) || ReplyAt(cs, j) == TokenInvalid
  {
    RedeemIff(cs, j);
    if KeptReplyAt(cs, j) == Done {
      forall m, i | 0 <= m < i < j && Mints(cs[m], cs[j].key) && cs[i].op.TokenMint?
        ensures ExpiryOf(cs[m].value) >= Wrap(cs[i].now - DAY)
      {
        LiveIsNotStale(cs, m, i, j);
      }
      hide ExpiryOf, Wrap, WellUsed, ClocksClose;
    }
  }

  lemma LiveIsNotStale(cs: seq<Command>, m: nat, i: nat, j: nat)
    requires WellUsed(cs) && ClocksClose(cs) && m < i < j < |cs|
    requires cs[j].op.TokenBurn? && KeptReplyAt(cs, j) == Done && Mints(cs[m], cs[j].key) && cs[i].op.TokenMint?
    ensures ExpiryOf(cs[m].value) >= Wrap(cs[i].now - DAY)
  {
    hide Decode, IsTokenKey, Wrap;
    var k := cs[j].key;
    KeyStaysOk(cs, j, k);
    assert IsTokenKey(k);
    var o :| 0 <= o < j && Mints(cs[o], k) && ExpiryOf(cs[o].value) == ExpiryOf(KeptAfter(cs, j)[k]);
    assert m == o;
  }

  // ---- every answer, from the log alone ----

  /** The record of a token key that is still there: its mint's expiry, and spent exactly if redeemed. */
  ghost predicate RecordIs(cs: seq<Command>, n: nat, k: Key)
    requires n <= |cs|
  {
    k in After(cs, n) ==>
      && Decode(After(cs, n)[k]).Some?
      && (exists m :: 0 <= m < n && Mints(cs[m], k) && ExpiryOf(cs[m].value) == ExpiryOf(After(cs, n)[k]))
      && (Decode(After(cs, n)[k]).value.state == if Redeemed(cs, n, k) then SPENT else FRESH)
  }

  predicate Redeemed(cs: seq<Command>, n: nat, k: Key)
    requires n <= |cs|
  {
    exists i :: 0 <= i < n && Redeems(cs, i, k)
  }

  lemma {:induction false} RecordStays(cs: seq<Command>, n: nat, k: Key)
    requires WellUsed(cs) && n <= |cs| && IsTokenKey(k)
    ensures RecordIs(cs, n, k)
  {
    hide Decode, Encode, IsTokenKey, StaleKeys, RecordIs, WellUsed;
    if n == 0 {
      NoRecord(cs, k);
    } else {
      RecordStays(cs, n - 1, k);
      RecordStep(cs, n - 1, k);
    }
  }

  lemma NoRecord(cs: seq<Command>, k: Key)
    ensures RecordIs(cs, 0, k)
  {}

  lemma RecordStep(cs: seq<Command>, n: nat, k: Key)
    requires WellUsed(cs) && n < |cs| && IsTokenKey(k) && RecordIs(cs, n, k)
    ensures RecordIs(cs, n + 1, k)
  {
    assert Mints(cs[n], k) ==> !Redeems(cs, n, k);
    hide Decode, Encode, IsTokenKey, StaleKeys, After, Redeems, RecordIs, WellUsed;
    assert Redeemed(cs, n + 1, k) <==> Redeemed(cs, n, k) || Redeems(cs, n, k);
    if Mints(cs[n], k) {
      TokensStayOk(cs, n);
      NotBeforeMint(cs, n, k);
      MintedRecord(cs, n, k);
    } else {
      KeptRecord(cs, n, k);
    }
  }

  lemma MintedRecord(cs: seq<Command>, n: nat, k: Key)
    requires WellUsed(cs) && n < |cs| && Mints(cs[n], k) && !Redeemed(cs, n + 1, k)
    ensures RecordIs(cs, n + 1, k)
  {
    hide Decode, Encode, IsTokenKey, StaleKeys, Redeemed;
  }

  lemma KeptRecord(cs: seq<Command>, n: nat, k: Key)
    requires WellUsed(cs) && n < |cs| && IsTokenKey(k) && RecordIs(cs, n, k) && !Mints(cs[n], k)
    requires Redeemed(cs, n + 1, k) <==> Redeemed(cs, n, k) || Redeems(cs, n, k)
    ensures RecordIs(cs, n + 1, k)
  {
    hide Decode, Encode, IsTokenKey, StaleKeys, Redeemed;
    var c, kv := cs[n], After(cs, n);
    assert (c.op.Put? || c.op.Delete?) ==> c.key != k;
    hide WellUsed;
    if Redeems(cs, n, k) { DecodeEncode(Record(SPENT, Decode(kv[k]).value.expiry)); }
  }

  /** Nothing is redeemed before it is minted. */
  lemma NotBeforeMint(cs: seq<Command>, n: nat, k: Key)
    requires WellUsed(cs) && n < |cs| && Mints(cs[n], k) && TokensOk(cs, n)
    ensures !Redeemed(cs, n, k)
  {
    hide Decode, IsTokenKey, Redeems;
    assert forall m :: 0 <= m < n ==> !Mints(cs[m], k);
  }

  lemma {:induction false} MintedIsKept(cs: seq<Command>, n: nat, k: Key, m: nat)
    requires WellUsed(cs) && m < n <= |cs| && Mints(cs[m], k)
    ensures k in KeptAfter(cs, n)
    decreases n
  {
    hide Decode, Encode;
    assert IsTokenKey(k);
    hide IsTokenKey;
    if m < n - 1 { MintedIsKept(cs, n - 1, k, m); }
  }

  /** What a burn answers, read off the log: unknown if never minted or pruned since, used if redeemed
      before, expired if its clock is past the expiry minted, and otherwise done. */
  lemma BurnAnswers(cs: seq<Command>, j: nat)
    requires WellUsed(cs) && j < |cs| && cs[j].op.TokenBurn?
    ensures var k := cs[j].key;
            if PrunedBy(cs, j, k) || (forall m :: 0 <= m < j ==> !Mints(cs[m], k)) then ReplyAt(cs, j) == TokenInvalid
            else if exists i :: 0 <= i < j && Redeems(cs, i, k) then ReplyAt(cs, j) == TokenUsed
            else exists m :: 0 <= m < j && Mints(cs[m], k)
                   && ReplyAt(cs, j) == if cs[j].now > ExpiryOf(cs[m].value) then TokenExpired else Done
  {
    var k := cs[j].key;
    KeyStaysOk(cs, j, k);
    RecordStays(cs, j, k);
    RedeemIff(cs, j);
    if !PrunedBy(cs, j, k) && exists m :: 0 <= m < j && Mints(cs[m], k) {
      var m :| 0 <= m < j && Mints(cs[m], k);
      MintedIsKept(cs, j, k, m);
    }
    assert IsTokenKey(k);
    hide PrunedBy, IsTokenKey, StaleKeys;
  }

  // ---- plain keys ----

  /** Minting and burning stay within the token prefix, and every command is known. */
  ghost predicate TokenOps(cs: seq<Command>) {
    forall i :: 0 <= i < |cs| ==>
      !cs[i].op.Unknown? && (cs[i].op.TokenMint? || cs[i].op.TokenBurn? ==> IsTokenKey(cs[i].key))
  }

  /** The value of the last put of k among the first n commands that no delete of k follows. */
  function LastPut(cs: seq<Command>, n: nat, k: Key): Option<Value>
    requires n <= |cs|
  {
    if n == 0 then None
    else
      var c := cs[n - 1];
      if c.key == k && c.op.Put? then Some(c.value)
      else if c.key == k && c.op.Delete? then None
      else LastPut(cs, n - 1, k)
  }

  /** Outside the token prefix the state is that of the last writer. */
  lemma {:induction false} PlainKeys(cs: seq<Command>, n: nat, k: Key)
    requires TokenOps(cs) && n <= |cs| && !IsTokenKey(k)
    ensures k in After(cs, n) <==> LastPut(cs, n, k).Some?
    ensures k in After(cs, n) ==> After(cs, n)[k] == LastPut(cs, n, k).value
  {
    hide IsTokenKey, Stale;
    if n > 0 { PlainKeys(cs, n - 1, k); }
  }

  /** The record's bytes: the state first, and the expiry's least significant byte last. */
  lemma EncodedBytes(r: Record)
    ensures |Encode(r)| == 9 && Encode(r)[0] == r.state && Encode(r)[8] == r.expiry % 256
  {
    var u := r.expiry % TWO64;
    LowByte(u, 7);
    LowByteOfResidue(r.expiry);
    hide BigEndian;
    assert Encode(r)[8] == BigEndian(u, 8)[7];
  }

  lemma LowByte(u: nat, n: nat)
    ensures BigEndian(u, n + 1)[n] == u % 256
  {}

  lemma LowByteOfResidue(x: int)
    ensures x % TWO64 % 256 == x % 256
  {
    var q, u := x / TWO64, x % TWO64;
    assert x == q * TWO64 + u;
    SameRemainder(x, u, q * 0x100_0000_0000_0000);
  }

  lemma SameRemainder(x: int, u: int, q: int)
    requires x == 256 * q + u
    ensures u % 256 == x % 256
  {}
}
