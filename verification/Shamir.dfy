/** Shamir's secret sharing over GF(2^8): splitting, combining and what shares reveal. */
module Shamir {
  import opened Galois
  import opened Polynomials
  import Bytes

  datatype Error =
    | EmptySecret
    | ThresholdRange
    | PartsRange
    | TooFewShares
    | ShareLength
    | DuplicateShares
    | RandomSource // crypto/rand failed

  datatype Result<T> = Ok(value: T) | Err(error: Error)

  /** One y-value per secret byte, then the x-coordinate. */
  type Share = seq<bv8>

  /** What crypto/rand yields during one Split. A stream that is too short stands for a
      failing reader: `indices` are the draws of randIntn, one per coordinate, and
      `coefficients` the blocks read by randomPolynomial, one per secret byte. */
  datatype Entropy = Entropy(indices: seq<nat>, coefficients: seq<seq<bv8>>)

  ghost predicate Legal(e: Entropy, threshold: int) {
    && LegalDraws(e.indices)
    && (forall k :: 0 <= k < |e.coefficients| ==> |e.coefficients[k]| == threshold - 1)
  }

  /** evaluate: Horner's rule from the top coefficient down. */
  method Evaluate(coeffs: Poly, x: bv8) returns (out: bv8)
    requires coeffs != []
    ensures out == Eval(coeffs, x)
  {
    hide Add, Mul;
    out := coeffs[|coeffs| - 1];
    assert coeffs[|coeffs| - 1..][1..] == [];
    Zero(x);
    AddLaws(out, 0, 0);
    var i := |coeffs| - 2;
    while i >= 0
      invariant -1 <= i < |coeffs| - 1
      invariant out == Eval(coeffs[i + 1..], x)
    {
      assert coeffs[i..][1..] == coeffs[i + 1..];
      var m := GfMul(out, x);
      out := Add(m, coeffs[i]);
      i := i - 1;
    }
    assert coeffs[0..] == coeffs;
  }

  /** interpolate: the Lagrange sum at zero. Whatever polynomial of at most |xs| coefficients
      passes through the points, the result is its constant term. */
  method Interpolate(xs: seq<bv8>, ys: seq<bv8>) returns (result: bv8)
    requires |xs| == |ys|
    ensures result == WeightedSum(xs, ys, |xs|, 0)
    ensures Distinct(xs) ==> forall c: Poly :: |c| <= |xs| && Through(c, xs, ys) ==> result == Eval(c, 0)
  {
    hide Add, Mul, Inverse;
    result := 0;
    for i := 0 to |xs|
      invariant result == WeightedSum(xs, ys, i, 0)
    {
      var num: bv8, den: bv8 := 1, 1;
      for j := 0 to |xs|
        invariant num == Others(xs, i, j, 0)
        invariant den == Others(xs, i, j, xs[i])
      {
        if i != j {
          AddLaws(xs[j], 0, 0);
          num := GfMul(num, xs[j]);
          den := GfMul(den, Add(xs[i], xs[j]));
        }
      }
      var inv := GfInverse(den);
      var li := GfMul(num, inv);
      var term := GfMul(ys[i], li);
      result := Add(result, term);
    }
    hide Eval, WeightedSum;
    forall c: Poly | Distinct(xs) && |c| <= |xs| && Through(c, xs, ys)
      ensures result == Eval(c, 0)
    {
      Interpolation(c, xs, ys, 0);
    }
  }

  /** 1..255 as bytes. */
  function Points(): (s: seq<bv8>)
    ensures |s| == 255 && forall i :: 0 <= i < 255 ==> s[i] == Bytes.Point(i)
  {
    seq(255, i requires 0 <= i < 255 => Bytes.Point(i))
  }

  lemma PointsDistinct()
    ensures Distinct(Points()) && 0 !in Points()
  {
    hide Bytes.Point;
    forall i, j | 0 <= i < 255 && 0 <= j < 255
      ensures Points()[i] != 0 && (i < j ==> Points()[i] != Points()[j])
    {
      Bytes.PointsDiffer(i, j);
    }
  }

  method Counted() returns (all: array<bv8>)
    ensures fresh(all) && all[..] == Points()
  {
    all := new bv8[255];
    for i := 0 to 255
      invariant forall p :: 0 <= p < i ==> all[p] == Bytes.Point(p)
    {
      all[i] := (i + 1) as bv8;
    }
    assert all[..] == Points();
  }

  predicate LegalDraws(draws: seq<nat>) { forall i :: 0 <= i < |draws| && i < 255 ==> draws[i] < 255 - i }

  /** The first n exchanges of the shuffle. */
  function Shuffled(draws: seq<nat>, n: nat): (s: seq<bv8>)
    requires n <= 255 && n <= |draws| && LegalDraws(draws)
    ensures |s| == 255
  {
    if n == 0 then Points()
    else
      var s, i, j := Shuffled(draws, n - 1), n - 1, draws[n - 1] + n - 1;
      s[i := s[j]][j := s[i]]
  }

  lemma {:induction false} ShuffleKeeps(draws: seq<nat>, n: nat)
    requires n <= 255 && n <= |draws| && LegalDraws(draws)
    ensures Distinct(Shuffled(draws, n)) && forall x :: x in Shuffled(draws, n) <==> x in Points()
  {
    if n == 0 {
      PointsDistinct();
    } else {
      ShuffleKeeps(draws, n - 1);
      var s, i, j := Shuffled(draws, n - 1), n - 1, draws[n - 1] + n - 1;
      var t := s[i := s[j]][j := s[i]];
      assert t[i] == s[j] && t[j] == s[i] && forall k :: 0 <= k < 255 && k != i && k != j ==> t[k] == s[k];
      forall x ensures x in t <==> x in s {
        if x in s { var k :| 0 <= k < 255 && s[k] == x; assert t[if k == i then j else if k == j then i else k] == x; }
      }
    }
  }

  /** randomCoordinates: a partial Fisher-Yates shuffle of 1..255. */
  method RandomCoordinates(n: nat, draws: seq<nat>) returns (r: Result<seq<bv8>>)
    requires n <= 255 && LegalDraws(draws)
    ensures r.Ok? <==> n <= |draws|
    ensures r.Err? ==> r.error == RandomSource
    ensures r.Ok? ==> |r.value| == n && Distinct(r.value) && 0 !in r.value
    ensures r.Ok? ==> r.value == Shuffled(draws, n)[..n]
  {
    hide Bytes.Point, Points;
    var all := Counted();
    for i := 0 to n
      invariant i <= |draws|
      invariant all[..] == Shuffled(draws, i)
    {
      if i >= |draws| { return Err(RandomSource); }
      var j := draws[i] + i;
      all[i], all[j] := all[j], all[i];
    }
    ShuffleKeeps(draws, n);
    PointsDistinct();
    r := Ok(all[..n]);
  }

  lemma NonZeroIsPoint(x: bv8)
    requires x != 0
    ensures x in Points()
  {
    hide Bytes.Point;
    Bytes.PointOf(x);
    assert Points()[x as int - 1] == x;
  }

  lemma {:induction false} ShufflePrefix(draws: seq<nat>, more: seq<nat>, n: nat)
    requires n <= |draws| <= 255 && LegalDraws(draws) && LegalDraws(draws + more)
    ensures Shuffled(draws + more, n) == Shuffled(draws, n)
    decreases n
  {
    if n > 0 { ShufflePrefix(draws, more, n - 1); }
  }

  /** Every choice of distinct non-zero coordinates, in every order, is one that some draws yield. */
  lemma {:induction false} EveryArrangement(target: seq<bv8>) returns (draws: seq<nat>)
    requires Distinct(target) && 0 !in target && |target| <= 255
    ensures |draws| == |target| && LegalDraws(draws) && Shuffled(draws, |target|)[..|target|] == target
    decreases |target|
  {
    hide Points;
    draws := [];
    if target != [] {
      var n := |target| - 1;
      var before := EveryArrangement(target[..n]);
      var s := Shuffled(before, n);
      NonZeroIsPoint(target[n]);
      ShuffleKeeps(before, n);
      var j :| 0 <= j < 255 && s[j] == target[n];
      assert j >= n by { assert forall k :: 0 <= k < n ==> s[k] == s[..n][k] == target[k]; }
      draws := before + [j - n];
      OneMore(target, before, j);
    }
  }

  lemma OneMore(target: seq<bv8>, before: seq<nat>, j: nat)
    requires |before| + 1 == |target| <= 255 && LegalDraws(before) && |before| <= j < 255
    requires var s, n := Shuffled(before, |before|), |before|; s[..n] == target[..n] && s[j] == target[n]
    ensures LegalDraws(before + [j - |before|])
    ensures Shuffled(before + [j - |before|], |target|)[..|target|] == target
  {
    NextExchange(before, j);
    hide Shuffled;
    SwapIn(Shuffled(before, |before|), target, |before|, j);
  }

  lemma NextExchange(before: seq<nat>, j: nat)
    requires |before| <= j < 255 && LegalDraws(before)
    ensures LegalDraws(before + [j - |before|])
    ensures var s, n := Shuffled(before, |before|), |before|;
            Shuffled(before + [j - n], n + 1) == s[n := s[j]][j := s[n]]
  {
    hide Points;
    ShufflePrefix(before, [j - |before|], |before|);
  }

  lemma SwapIn(s: seq<bv8>, target: seq<bv8>, n: nat, j: nat)
    requires n <= j < |s| && |target| == n + 1 && s[..n] == target[..n] && s[j] == target[n]
    ensures s[n := s[j]][j := s[n]][..n + 1] == target
  {
    var t := s[n := s[j]][j := s[n]];
    forall k | 0 <= k < n + 1 ensures t[k] == target[k] {
      if k < n { assert s[..n][k] == target[..n][k]; }
    }
  }

  predicate LegalConfig(parts: int, threshold: int) {
    2 <= threshold <= parts <= 255
  }

  /** The polynomials drawn for a secret: intercept the secret byte, the rest random. */
  function Polys(secret: seq<bv8>, coefficients: seq<seq<bv8>>): (ps: seq<Poly>)
    requires |secret| <= |coefficients|
    ensures |ps| == |secret|
  {
    seq(|secret|, k requires 0 <= k < |secret| => [secret[k]] + coefficients[k])
  }

  /** Share s samples the k-th polynomial at the share's own x-coordinate. */
  predicate Samples(s: Share, polys: seq<Poly>) {
    |s| == |polys| + 1 && forall k :: 0 <= k < |polys| ==> s[k] == Eval(polys[k], s[|polys|])
  }

  function XOf(s: Share): bv8
    requires s != []
  {
    s[|s| - 1]
  }

  function Xs(shares: seq<Share>): (xs: seq<bv8>)
    requires forall i :: 0 <= i < |shares| ==> shares[i] != []
    ensures |xs| == |shares|
    ensures forall i :: 0 <= i < |shares| ==> xs[i] == XOf(shares[i])
  {
    seq(|shares|, i requires 0 <= i < |shares| => XOf(shares[i]))
  }

  /** All shares sample the same polynomials, at distinct non-zero points. */
  predicate IsSharing(shares: seq<Share>, polys: seq<Poly>) {
    && (forall i :: 0 <= i < |shares| ==> Samples(shares[i], polys))
    && Distinct(Xs(shares))
    && 0 !in Xs(shares)
  }

  /** Byte k of each share is the value, at the share's own x-coordinate, of the polynomial with constant
      term secret[k] and higher coefficients coefficients[k]: one polynomial per byte. */
  ghost predicate Drawn(shares: seq<Share>, secret: seq<bv8>, coefficients: seq<seq<bv8>>) {
    && |secret| <= |coefficients|
    && (forall i :: 0 <= i < |shares| ==> |shares[i]| == |secret| + 1)
    && (forall i, k :: 0 <= i < |shares| && 0 <= k < |secret| ==>
          shares[i][k] == Eval([secret[k]] + coefficients[k], shares[i][|secret|]))
  }

  /** Split. */
  method Split(secret: seq<bv8>, parts: int, threshold: int, e: Entropy) returns (r: Result<seq<Share>>)
    requires Legal(e, threshold)
    ensures secret == [] ==> r == Err(EmptySecret)
    ensures secret != [] && !(2 <= parts <= 255) ==> r == Err(PartsRange)
    ensures secret != [] && 2 <= parts <= 255 && !(2 <= threshold <= parts) ==> r == Err(ThresholdRange)
    ensures secret != [] && LegalConfig(parts, threshold) ==>
              if parts <= |e.indices| && |secret| <= |e.coefficients|
              then r.Ok? && |r.value| == parts && IsSharing(r.value, Polys(secret, e.coefficients))
              else r == Err(RandomSource)
    ensures r.Ok? ==> Drawn(r.value, secret, e.coefficients)
    ensures r.Ok? ==> Xs(r.value) == Shuffled(e.indices, parts)[..parts]
  {
    if secret == [] { return Err(EmptySecret); }
    if parts < 2 || parts > 255 { return Err(PartsRange); }
    if threshold < 2 || threshold > parts { return Err(ThresholdRange); }
    var coords := RandomCoordinates(parts, e.indices);
    if coords.Err? { return Err(coords.error); }
    var xs := coords.value;
    var n := |secret|;
    var blank: Share := seq(n, i => 0);
    var shares := seq(parts, i requires 0 <= i < parts => blank + [xs[i]]);
    for idx := 0 to n
      invariant idx <= |e.coefficients|
      invariant |shares| == parts
      invariant forall i :: 0 <= i < parts ==> |shares[i]| == n + 1 && shares[i][n] == xs[i]
      invariant forall i, k ::
                  0 <= i < parts && 0 <= k < idx ==> shares[i][k] == Eval([secret[k]] + e.coefficients[k], xs[i])
    {
      if idx >= |e.coefficients| { return Err(RandomSource); }
      var coeffs := [secret[idx]] + e.coefficients[idx];
      shares := Sample(shares, idx, coeffs);
    }
    ghost var polys := Polys(secret, e.coefficients);
    assert Xs(shares) == xs;
    assert forall i :: 0 <= i < parts ==> Samples(shares[i], polys);
    r := Ok(shares);
  }

  /** The inner loop of Split: set byte idx of every share to its sample of coeffs. */
  method Sample(shares: seq<Share>, idx: nat, coeffs: Poly) returns (r: seq<Share>)
    requires coeffs != []
    requires forall i :: 0 <= i < |shares| ==> idx < |shares[i]| - 1
    ensures |r| == |shares|
    ensures forall i :: 0 <= i < |shares| ==> r[i] == shares[i][idx := Eval(coeffs, XOf(shares[i]))]
  {
    r := shares;
    for i := 0 to |shares|
      invariant |r| == |shares|
      invariant forall p :: 0 <= p < i ==> r[p] == shares[p][idx := Eval(coeffs, XOf(shares[p]))]
      invariant forall p :: i <= p < |shares| ==> r[p] == shares[p]
    {
      var y := Evaluate(coeffs, XOf(shares[i]));
      r := r[i := r[i][idx := y]];
    }
  }

  // ---- combining ----

  function Column(shares: seq<Share>, k: nat): (ys: seq<bv8>)
    requires forall i :: 0 <= i < |shares| ==> k < |shares[i]|
    ensures |ys| == |shares|
  {
    seq(|shares|, i requires 0 <= i < |shares| => shares[i][k])
  }

  predicate SameLength(shares: seq<Share>, n: nat) {
    forall i :: 0 <= i < |shares| ==> |shares[i]| == n
  }

  /** What Combine answers, error cases included. */
  function Combined(shares: seq<Share>): Result<seq<bv8>> {
    if |shares| < 2 then Err(TooFewShares)
    else if |shares[0]| < 2 || !SameLength(shares, |shares[0]|) then Err(ShareLength)
    else if 0 in Xs(shares) || !Distinct(Xs(shares)) then Err(DuplicateShares)
    else Ok(seq(|shares[0]| - 1, k requires 0 <= k < |shares[0]| - 1 =>
                  WeightedSum(Xs(shares), Column(shares, k), |shares|, 0)))
  }

  /** The x-coordinates of equally long shares, unless one is zero or repeated. */
  method Coordinates(shares: seq<Share>, secretLen: nat) returns (r: Result<seq<bv8>>)
    requires SameLength(shares, secretLen + 1)
    ensures r == if 0 in Xs(shares) || !Distinct(Xs(shares)) then Err(DuplicateShares) else Ok(Xs(shares))
  {
    ghost var all := Xs(shares);
    var xs: seq<bv8> := [];
    var seen: set<bv8> := {};
    for i := 0 to |shares|
      invariant xs == all[..i]
      invariant seen == set x | x in xs
      invariant 0 !in xs && Distinct(xs)
    {
      var x := shares[i][secretLen];
      assert x == all[i];
      if x == 0 {
        assert all[i] in all;
        return Err(DuplicateShares);
      }
      if x in seen {
        ghost var p :| 0 <= p < i && xs[p] == x;
        assert all[p] == all[i];
        return Err(DuplicateShares);
      }
      seen := seen + {x};
      xs := xs + [x];
    }
    assert xs == all;
    r := Ok(xs);
  }

  /** Combine. */
  method Combine(shares: seq<Share>) returns (r: Result<seq<bv8>>)
    ensures r == Combined(shares)
  {
    hide WeightedSum;
    if |shares| < 2 { return Err(TooFewShares); }
    var shareLen := |shares[0]|;
    if shareLen < 2 { return Err(ShareLength); }
    for i := 0 to |shares|
      invariant forall p :: 0 <= p < i ==> |shares[p]| == shareLen
    {
      if |shares[i]| != shareLen { return Err(ShareLength); }
    }
    var secretLen := shareLen - 1;
    var coords := Coordinates(shares, secretLen);
    if coords.Err? { return Err(coords.error); }
    var xs := coords.value;
    var secret := Reconstruct(xs, shares, secretLen);
    assert Combined(shares).Ok? && secret == Combined(shares).value;
    r := Ok(secret);
  }

  /** The byte-by-byte loop of Combine. */
  method Reconstruct(xs: seq<bv8>, shares: seq<Share>, secretLen: nat) returns (secret: seq<bv8>)
    requires |xs| == |shares| && SameLength(shares, secretLen + 1)
    ensures |secret| == secretLen
    ensures forall k :: 0 <= k < secretLen ==> secret[k] == WeightedSum(xs, Column(shares, k), |shares|, 0)
  {
    hide WeightedSum;
    secret := [];
    for idx := 0 to secretLen
      invariant |secret| == idx
      invariant forall k :: 0 <= k < idx ==> secret[k] == WeightedSum(xs, Column(shares, k), |shares|, 0)
    {
      var ys: seq<bv8> := [];
      for i := 0 to |shares|
        invariant ys == Column(shares, idx)[..i]
      {
        ys := ys + [shares[i][idx]];
      }
      assert ys == Column(shares, idx);
      var b := Interpolate(xs, ys);
      secret := secret + [b];
    }
  }

  // ---- theorems ----

  predicate IsSelection(picks: seq<nat>, n: nat) {
    Distinct(picks) && forall i :: 0 <= i < |picks| ==> picks[i] < n
  }

  function Pick(shares: seq<Share>, picks: seq<nat>): (s: seq<Share>)
    requires IsSelection(picks, |shares|)
    ensures |s| == |picks|
    ensures forall i :: 0 <= i < |picks| ==> s[i] == shares[picks[i]]
  {
    seq(|picks|, i requires 0 <= i < |picks| => shares[picks[i]])
  }

  lemma PickIsSharing(shares: seq<Share>, polys: seq<Poly>, picks: seq<nat>)
    requires IsSharing(shares, polys) && IsSelection(picks, |shares|)
    ensures IsSharing(Pick(shares, picks), polys)
  {
    var s := Pick(shares, picks);
    forall i, j | 0 <= i < j < |s| ensures Xs(s)[i] != Xs(s)[j] {
      var p, q := picks[i], picks[j];
      assert Xs(shares)[p] != Xs(shares)[q];
    }
    forall i | 0 <= i < |s| ensures Xs(s)[i] != 0 {
      assert Xs(shares)[picks[i]] in Xs(shares);
    }
  }

  /** Any selection of at least as many shares as the polynomials have coefficients, in any
      order, combines to exactly the constant terms. */
  lemma CombineRecovers(shares: seq<Share>, polys: seq<Poly>, threshold: nat, picks: seq<nat>)
    requires IsSharing(shares, polys) && IsSelection(picks, |shares|)
    requires polys != [] && 2 <= threshold <= |picks|
    requires forall k :: 0 <= k < |polys| ==> |polys[k]| == threshold
    ensures Combined(Pick(shares, picks)) == Ok(seq(|polys|, k requires 0 <= k < |polys| => polys[k][0]))
  {
    hide Eval, WeightedSum;
    var s := Pick(shares, picks);
    PickIsSharing(shares, polys, picks);
    assert forall i :: 0 <= i < |s| ==> Samples(s[i], polys);
    assert SameLength(s, |polys| + 1);
    forall k | 0 <= k < |polys|
      ensures WeightedSum(Xs(s), Column(s, k), |s|, 0) == polys[k][0]
    {
      assert Through(polys[k], Xs(s), Column(s, k));
      Interpolation(polys[k], Xs(s), Column(s, k), 0);
      EvalAtZero(polys[k]);
    }
    assert Combined(s).Ok?;
    assert Combined(s).value == seq(|polys|, k requires 0 <= k < |polys| => polys[k][0]);
  }

  /** Split followed by Combine of any threshold-or-more distinct shares is the identity. */
  lemma RoundTrip(secret: seq<bv8>, parts: int, threshold: int, e: Entropy, shares: seq<Share>, picks: seq<nat>)
    requires secret != [] && LegalConfig(parts, threshold) && Legal(e, threshold)
    requires |secret| <= |e.coefficients|
    requires |shares| == parts && IsSharing(shares, Polys(secret, e.coefficients))
    requires IsSelection(picks, parts) && |picks| >= threshold
    ensures Combined(Pick(shares, picks)) == Ok(secret)
  {
    var polys := Polys(secret, e.coefficients);
    CombineRecovers(shares, polys, threshold, picks);
    assert seq(|polys|, k requires 0 <= k < |polys| => polys[k][0]) == secret;
  }

  /** `polys` could have been drawn for `secret` and produced exactly these shares. */
  predicate Explains(polys: seq<Poly>, secret: seq<bv8>, threshold: nat, shares: seq<Share>) {
    && |polys| == |secret|
    && (forall k :: 0 <= k < |secret| ==> |polys[k]| == threshold && threshold > 0 && polys[k][0] == secret[k])
    && (forall i :: 0 <= i < |shares| ==> Samples(shares[i], polys))
  }

  /** The one explanation of threshold - 1 shares that a candidate secret admits. */
  function Explanation(secret: seq<bv8>, shares: seq<Share>): (polys: seq<Poly>)
    requires SameLength(shares, |secret| + 1)
    ensures |polys| == |secret|
  {
    seq(|secret|, k requires 0 <= k < |secret| =>
          Lagrange([0] + Xs(shares), [secret[k]] + Column(shares, k), |shares| + 1))
  }

  /** Perfect secrecy: threshold - 1 well-formed shares fit every candidate secret, each through
      exactly one choice of the random coefficients. */
  lemma SharesRevealNothing(candidate: seq<bv8>, threshold: nat, shares: seq<Share>)
    requires threshold == |shares| + 1
    requires SameLength(shares, |candidate| + 1)
    requires Distinct(Xs(shares)) && 0 !in Xs(shares)
    ensures Explains(Explanation(candidate, shares), candidate, threshold, shares)
    ensures forall polys :: Explains(polys, candidate, threshold, shares) ==> polys == Explanation(candidate, shares)
  {
    hide Eval, Lagrange;
    var xs := [0] + Xs(shares);
    var best := Explanation(candidate, shares);
    assert Distinct(xs) by { assert forall i :: 0 <= i < |shares| ==> Xs(shares)[i] in Xs(shares); }
    forall k | 0 <= k < |candidate|
      ensures best[k][0] == candidate[k]
      ensures forall i :: 0 <= i < |shares| ==> Eval(best[k], XOf(shares[i])) == shares[i][k]
    {
      var ys := [candidate[k]] + Column(shares, k);
      LagrangeThrough(xs, ys);
      EvalAtZero(best[k]);
      assert Eval(best[k], xs[0]) == ys[0];
      forall i | 0 <= i < |shares| ensures Eval(best[k], XOf(shares[i])) == shares[i][k] {
        assert xs[i + 1] == XOf(shares[i]) && ys[i + 1] == shares[i][k];
      }
    }
    forall polys | Explains(polys, candidate, threshold, shares)
      ensures polys == best
    {
      forall k | 0 <= k < |candidate| ensures polys[k] == best[k] {
        EvalAtZero(polys[k]);
        EvalAtZero(best[k]);
        forall i | 0 <= i < |xs| ensures Eval(polys[k], xs[i]) == Eval(best[k], xs[i]) {
          if i > 0 { assert Samples(shares[i - 1], polys); }
        }
        Uniqueness(polys[k], best[k], xs);
      }
    }
  }

  /** One block of threshold - 1 coefficients for each byte. */
  predicate IsDraw(coefficients: seq<seq<bv8>>, secret: seq<bv8>, threshold: nat) {
    |coefficients| == |secret| && forall k :: 0 <= k < |secret| ==> |coefficients[k]| == threshold - 1
  }

  /** Secrecy over the draws of Split: threshold - 1 shares fit every candidate secret, each with exactly
      one draw of the coefficients. */
  lemma OneDrawFits(candidate: seq<bv8>, threshold: nat, shares: seq<Share>) returns (draw: seq<seq<bv8>>)
    requires threshold == |shares| + 1 && SameLength(shares, |candidate| + 1)
    requires Distinct(Xs(shares)) && 0 !in Xs(shares)
    ensures IsDraw(draw, candidate, threshold) && Drawn(shares, candidate, draw)
    ensures forall c :: IsDraw(c, candidate, threshold) && Drawn(shares, candidate, c) ==> c == draw
  {
    hide Eval, Lagrange;
    SharesRevealNothing(candidate, threshold, shares);
    var best := Explanation(candidate, shares);
    draw := seq(|candidate|, k requires 0 <= k < |candidate| => best[k][1..]);
    forall i, k | 0 <= i < |shares| && 0 <= k < |candidate|
      ensures shares[i][k] == Eval([candidate[k]] + draw[k], shares[i][|candidate|])
    {
      assert Samples(shares[i], best);
      assert [candidate[k]] + draw[k] == best[k];
    }
    forall c | IsDraw(c, candidate, threshold) && Drawn(shares, candidate, c) ensures c == draw {
      var polys := Polys(candidate, c);
      assert forall i :: 0 <= i < |shares| ==> Samples(shares[i], polys);
      assert Explains(polys, candidate, threshold, shares);
      forall k | 0 <= k < |candidate| ensures c[k] == draw[k] { assert polys[k][1..] == c[k]; }
    }
  }

  /** When Combine refuses, in terms of the bytes given: too few shares, a length that differs or is below
      two, or a last byte that is zero or repeated. */
  lemma CombineErrors(shares: seq<Share>)
    ensures Combined(shares) == Err(TooFewShares) <==> |shares| < 2
    ensures Combined(shares) == Err(ShareLength)
            <==> |shares| >= 2 && (|shares[0]| < 2 || exists i :: 0 <= i < |shares| && |shares[i]| != |shares[0]|)
    ensures Combined(shares) == Err(DuplicateShares)
            <==> && |shares| >= 2 && |shares[0]| >= 2 && (forall i :: 0 <= i < |shares| ==> |shares[i]| == |shares[0]|)
                 && var n := |shares[0]| - 1;
                    || (exists i :: 0 <= i < |shares| && shares[i][n] == 0)
                    || (exists i, j :: 0 <= i < j < |shares| && shares[i][n] == shares[j][n])
    ensures Combined(shares).Err? ==> Combined(shares).error in {TooFewShares, ShareLength, DuplicateShares}
  {
    hide WeightedSum;
    if |shares| >= 2 && |shares[0]| >= 2 && SameLength(shares, |shares[0]|) {
      var n := |shares[0]| - 1;
      assert forall i :: 0 <= i < |shares| ==> Xs(shares)[i] == shares[i][n];
    }
  }
}
