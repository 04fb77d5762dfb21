/** Storage keys: "/"-separated byte strings, their order and their hierarchy. */
module Keys {
  import opened Common

  type Byte = x: int | 0 <= x < 256

  type Key = seq<Byte>

  const SLASH: Byte := 47
  const DOT: Byte := 46

  // ---- well-formed keys ----

  predicate Continuation(b: Byte) { 0x80 <= b <= 0xBF }

  /** The length of the UTF-8 sequence a string starts with; zero if it is ill-formed. */
  function LeadLength(s: Key): (n: nat)
    requires s != []
    ensures n <= |s| && n <= 4
  {
    var b := s[0];
    if b < 0x80 then 1
    else if 0xC2 <= b <= 0xDF then
      if |s| >= 2 && Continuation(s[1]) then 2 else 0
    else if 0xE0 <= b <= 0xEF then
      if |s| >= 3 && Continuation(s[1]) && Continuation(s[2])
         && (b == 0xE0 ==> s[1] >= 0xA0) && (b == 0xED ==> s[1] <= 0x9F) then 3 else 0
    else if 0xF0 <= b <= 0xF4 then
      if |s| >= 4 && Continuation(s[1]) && Continuation(s[2]) && Continuation(s[3])
         && (b == 0xF0 ==> s[1] >= 0x90) && (b == 0xF4 ==> s[1] <= 0x8F) then 4 else 0
    else 0
  }

  predicate ValidUtf8(s: Key) {
    s == [] || (LeadLength(s) > 0 && ValidUtf8(s[LeadLength(s)..]))
  }

  /** The index of the first slash, or the length. */
  function FirstSlash(s: Key): (i: nat)
    ensures i <= |s| && (i < |s| ==> s[i] == SLASH)
    ensures forall j :: 0 <= j < i ==> s[j] != SLASH
  {
    if s == [] || s[0] == SLASH then 0 else 1 + FirstSlash(s[1..])
  }

  function Segments(s: Key): (r: seq<Key>)
    ensures r != []
    decreases |s|
  {
    var i := FirstSlash(s);
    if i == |s| then [s] else [s[..i]] + Segments(s[i + 1..])
  }

  predicate ValidSegment(s: Key) { s != [] && s != [DOT] && s != [DOT, DOT] }

  /** ValidateKey. */
  predicate ValidKey(s: Key) {
    && s != []
    && ValidUtf8(s)
    && s[0] != SLASH && s[|s| - 1] != SLASH
    && forall seg :: seg in Segments(s) ==> ValidSegment(seg)
  }

  predicate EndsInSlash(s: Key) { s != [] && s[|s| - 1] == SLASH }

  /** validatePrefix. */
  predicate ValidPrefix(p: Key) { p == [] || (EndsInSlash(p) && ValidKey(p[..|p| - 1])) }

  /** childUnder. */
  function ChildUnder(prefix: Key, key: Key): Option<Key> {
    if !(prefix <= key) || key == prefix then None
    else
      var rest := key[|prefix|..];
      var i := FirstSlash(rest);
      if i < |rest| then Some(rest[..i] + [SLASH]) else Some(rest)
  }

  // ---- valid keys split at slashes ----

  lemma {:induction false} Utf8SplitsAtSlash(a: Key, b: Key)
    ensures ValidUtf8(a + [SLASH] + b) <==> ValidUtf8(a) && ValidUtf8(b)
    decreases |a|
  {
    var s := a + [SLASH] + b;
    if a == [] {
      assert s[1..] == b;
    } else {
      var n := LeadLength(s);
      assert s[|a|] == SLASH && forall i :: 0 <= i < |a| ==> s[i] == a[i];
      if 0 < n <= |a| {
        assert s[n..] == a[n..] + [SLASH] + b;
        Utf8SplitsAtSlash(a[n..], b);
      }
    }
  }

  lemma {:induction false} SegmentsConcat(a: Key, b: Key)
    ensures Segments(a + [SLASH] + b) == Segments(a) + Segments(b)
    decreases |a|
  {
    hide FirstSlash;
    var s := a + [SLASH] + b;
    var i := FirstSlash(a);
    FirstSlashConcat(a, b);
    if i == |a| {
      assert s[..i] == a && s[i + 1..] == b;
    } else {
      assert s[..i] == a[..i] && s[i + 1..] == a[i + 1..] + [SLASH] + b;
      SegmentsConcat(a[i + 1..], b);
      assert [a[..i]] + (Segments(a[i + 1..]) + Segments(b)) == ([a[..i]] + Segments(a[i + 1..])) + Segments(b);
    }
  }

  lemma FirstSlashConcat(a: Key, b: Key)
    ensures FirstSlash(a + [SLASH] + b) == FirstSlash(a)
  {
    hide FirstSlash;
    var s := a + [SLASH] + b;
    assert s[|a|] == SLASH && forall j :: 0 <= j < |a| ==> s[j] == a[j];
    FirstSlashOf(s, FirstSlash(a));
  }

  lemma FirstSlashOf(s: Key, i: nat)
    requires i < |s| && s[i] == SLASH && forall j :: 0 <= j < i ==> s[j] != SLASH
    ensures FirstSlash(s) == i
  {
    hide FirstSlash;
  }

  /** Every directory above a valid key is itself well-formed. */
  lemma ParentIsValid(a: Key, b: Key)
    requires ValidKey(a + [SLASH] + b)
    ensures ValidKey(a)
  {
    hide ValidUtf8, Segments;
    var s := a + [SLASH] + b;
    Utf8SplitsAtSlash(a, b);
    SegmentsConcat(a, b);
    assert s[0] != SLASH;
    assert a[0] == s[0];
    assert forall seg :: seg in Segments(a) ==> seg in Segments(s);
    if EndsInSlash(a) { TrailingSlashSegment(a, []); }
  }

  lemma TrailingSlashSegment(a: Key, e: Key)
    requires EndsInSlash(a) && e == []
    ensures e in Segments(a)
  {
    hide Segments, FirstSlash;
    var init := a[..|a| - 1];
    SegmentsConcat(init, e);
    SegmentsOfEmpty();
    assert init + [SLASH] + e == a;
    assert Segments(a) == Segments(init) + [e];
  }

  lemma SegmentsOfEmpty()
    ensures Segments([]) == [[]]
  {
    assert FirstSlash([]) == 0;
  }

  /** Whether a key is valid: valid UTF-8, and no part between slashes empty, "." or "..". */
  lemma ValidKeyIff(s: Key)
    ensures ValidKey(s)
            <==> ValidUtf8(s) && forall seg :: seg in Segments(s) ==> seg != [] && seg != [46] && seg != [46, 46]
  {
    hide ValidUtf8, Segments;
    var empty: Key := [];
    if s == [] || s[0] == SLASH || EndsInSlash(s) {
      EmptySegment(s, empty);
      assert empty in Segments(s);
    }
  }

  lemma EmptySegment(s: Key, empty: Key)
    requires (s == [] || s[0] == SLASH || EndsInSlash(s)) && empty == []
    ensures empty in Segments(s)
  {
    hide Segments;
    SegmentsOfEmpty();
    if s == [] {
      assert Segments(s)[0] == empty;
    } else if s[0] == SLASH {
      assert s == empty + [SLASH] + s[1..];
      SegmentsConcat(empty, s[1..]);
      assert Segments(s)[0] == empty;
    } else {
      TrailingSlashSegment(s, empty);
    }
  }

  lemma BadSegment(s: Key, seg: Key)
    requires seg in Segments(s) && (seg == [46] || seg == [46, 46])
    ensures !ValidKey(s)
  {
    hide ValidUtf8, Segments;
  }

  /** No key can climb out of its directory, wherever the dots stand in it. */
  lemma DotsRefused(a: Key, dots: Key, b: Key)
    requires dots == [46] || dots == [46, 46]
    ensures !ValidKey(dots) && !ValidKey(a + [47] + dots) && !ValidKey(dots + [47] + b)
    ensures !ValidKey(a + [47] + dots + [47] + b)
  {
    hide Segments, ValidKey;
    NoSlashSegments(dots);
    SegmentsConcat(a, dots);
    SegmentsConcat(dots, b);
    DotSegment(a, dots, b);
    assert Segments(dots)[0] == dots;
    assert Segments(a + [47] + dots)[|Segments(a)|] == dots;
    assert Segments(dots + [47] + b)[0] == dots;
    BadSegment(dots, dots);
    BadSegment(a + [47] + dots, dots);
    BadSegment(dots + [47] + b, dots);
    BadSegment(a + [47] + dots + [47] + b, dots);
  }

  lemma NoSlashSegments(s: Key)
    requires SLASH !in s
    ensures Segments(s) == [s]
  {}

  lemma DotSegment(a: Key, dots: Key, b: Key)
    requires SLASH !in dots
    ensures dots in Segments(a + [47] + dots + [47] + b)
  {
    NoSlashSegments(dots);
    SegmentsConcat(a, dots);
    SegmentsConcat(a + [47] + dots, b);
    hide Segments;
    assert Segments(a + [47] + dots + [47] + b)[|Segments(a)|] == dots;
  }

  /** A prefix is valid exactly when it is empty or a name put behind it makes a valid key. */
  lemma PrefixIff(p: Key)
    ensures ValidPrefix(p) <==> p == [] || (p[|p| - 1] == 47 && ValidKey(p + [97]))
  {
    hide ValidUtf8, Segments;
    if EndsInSlash(p) {
      var init := p[..|p| - 1];
      assert p + [97] == init + [SLASH] + [97];
      Utf8SplitsAtSlash(init, [97]);
      SegmentsConcat(init, [97]);
      NoSlashSegments([97]);
      OneLetter();
      assert Segments(p + [97]) == Segments(init) + [[97]];
      assert forall seg :: seg in Segments(p + [97]) <==> seg in Segments(init) || seg == [97];
      ValidKeyIff(init);
      ValidKeyIff(p + [97]);
      hide ValidKey;
    }
  }

  lemma OneLetter()
    ensures ValidUtf8([97])
  {}

  // ---- children partition the keys under a prefix ----

  lemma ChildShape(prefix: Key, key: Key)
    requires ChildUnder(prefix, key).Some?
    ensures var c := ChildUnder(prefix, key).value;
            && c != [] && prefix + c <= key
            && (EndsInSlash(c) <==> SLASH in key[|prefix|..])
            && (!EndsInSlash(c) ==> prefix + c == key && SLASH !in c)
            && (EndsInSlash(c) ==> FirstSlash(c) == |c| - 1)
  {
    var rest := key[|prefix|..];
    assert key == prefix + rest;
    var i := FirstSlash(rest);
    if i < |rest| {
      FirstSlashOf(rest[..i] + [SLASH], i);
      assert rest[i] in rest;
    } else {
      assert rest[|rest| - 1] in rest;
    }
  }

  lemma UnderChildOnly(prefix: Key, c: Key, key: Key)
    requires EndsInSlash(c) && FirstSlash(c) == |c| - 1 && prefix + c <= key
    ensures ChildUnder(prefix, key) == Some(c)
  {
    hide FirstSlash;
    var rest := key[|prefix|..];
    forall j | 0 <= j < |c| ensures rest[j] == c[j] {
      assert rest[j] == key[|prefix| + j] == (prefix + c)[|prefix| + j];
    }
    FirstSlashOf(rest, |c| - 1);
    assert rest[..|c| - 1] + [SLASH] == c;
    assert prefix <= key && key != prefix;
  }

  /** A key lies below a subtree child exactly when that is its child. */
  lemma UnderChild(prefix: Key, c: Key, key: Key)
    requires EndsInSlash(c) && FirstSlash(c) == |c| - 1
    ensures prefix + c <= key <==> ChildUnder(prefix, key) == Some(c)
  {
    hide FirstSlash;
    if prefix + c <= key { UnderChildOnly(prefix, c, key); }
    if ChildUnder(prefix, key) == Some(c) { ChildShape(prefix, key); }
  }

  lemma IsLeafChild(prefix: Key, c: Key, key: Key)
    requires c != [] && SLASH !in c
    ensures key == prefix + c <==> ChildUnder(prefix, key) == Some(c)
  {
    if key == prefix + c {
      assert key[|prefix|..] == c;
      assert FirstSlash(c) == |c|;
    }
    if ChildUnder(prefix, key) == Some(c) {
      ChildShape(prefix, key);
    }
  }

  /** The prefix of a subtree child is one List accepts. */
  lemma SubtreeIsValid(prefix: Key, key: Key)
    requires ValidKey(key) && ChildUnder(prefix, key).Some? && EndsInSlash(ChildUnder(prefix, key).value)
    ensures ValidPrefix(prefix + ChildUnder(prefix, key).value)
    ensures |prefix + ChildUnder(prefix, key).value| < |key|
  {
    hide FirstSlash, ValidUtf8, Segments;
    ChildShape(prefix, key);
    var p := prefix + ChildUnder(prefix, key).value;
    hide ChildUnder;
    var a := p[..|p| - 1];
    assert key == a + [SLASH] + key[|p|..];
    assert key[|p| - 1] == SLASH;
    ParentIsValid(a, key[|p|..]);
  }

  // ---- byte-wise lexicographic order ----

  predicate Less(a: Key, b: Key) {
    b != [] && (a == [] || a[0] < b[0] || (a[0] == b[0] && Less(a[1..], b[1..])))
  }

  lemma {:induction false} LessTotal(a: Key, b: Key)
    ensures a == b || Less(a, b) || Less(b, a)
    ensures !(Less(a, b) && Less(b, a)) && !Less(a, a)
    decreases |a|
  {
    if a != [] {
      LessTotal(a[1..], a[1..]);
      if b != [] {
        LessTotal(a[1..], b[1..]);
        if a[0] == b[0] && a[1..] == b[1..] { assert a == [a[0]] + a[1..] == b; }
      }
    }
  }

  lemma {:induction false} LessTransitive(a: Key, b: Key, c: Key)
    requires Less(a, b) && Less(b, c)
    ensures Less(a, c)
    decreases |a|
  {
    if a != [] && a[0] == b[0] == c[0] { LessTransitive(a[1..], b[1..], c[1..]); }
  }

  predicate StrictlySorted(s: seq<Key>) {
    forall i, j :: 0 <= i < j < |s| ==> Less(s[i], s[j])
  }

  /** A strictly sorted listing of exactly the elements of a set. */
  ghost predicate IsListing(s: seq<Key>, elements: set<Key>) {
    StrictlySorted(s) && forall k :: k in s <==> k in elements
  }

  lemma {:induction false} ListingUnique(s: seq<Key>, t: seq<Key>, elements: set<Key>)
    requires IsListing(s, elements) && IsListing(t, elements)
    ensures s == t
    decreases |s|
  {
    assert s != [] ==> s[0] in elements;
    assert t != [] ==> t[0] in elements;
    if s != [] {
      ListingHead(s, t, elements);
      ListingHead(t, s, elements);
      LessTotal(s[0], t[0]);
      ListingTail(s, elements);
      ListingTail(t, elements);
      ListingUnique(s[1..], t[1..], elements - {s[0]});
      assert s == [s[0]] + s[1..] && t == [t[0]] + t[1..];
    }
  }

  lemma ListingHead(s: seq<Key>, t: seq<Key>, elements: set<Key>)
    requires IsListing(s, elements) && IsListing(t, elements) && s != [] && t != []
    ensures !Less(t[0], s[0])
  {
    assert t[0] in s;
    var i :| 0 <= i < |s| && s[i] == t[0];
    LessTotal(s[0], t[0]);
  }

  lemma ListingTail(s: seq<Key>, elements: set<Key>)
    requires IsListing(s, elements) && s != []
    ensures IsListing(s[1..], elements - {s[0]})
  {
    LessTotal(s[0], s[0]);
    forall i | 1 <= i < |s| ensures s[i] != s[0] {
      LessTotal(s[i], s[i]);
    }
    assert s == [s[0]] + s[1..];
    forall i | 0 <= i < |s[1..]| ensures s[1..][i] != s[0] {
      assert s[1..][i] == s[i + 1];
    }
  }
}
