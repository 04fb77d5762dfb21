/** Conversion between integers and bytes. */
module Bytes {
  lemma IndexRoundTrip(i: int)
    requires 0 <= i < 256
    ensures ((i as bv8) as int) == i
  {}

  /** The i-th non-zero byte. */
  function Point(i: nat): bv8
    requires i < 255
  {
    (i + 1) as bv8
  }

  lemma PointsDiffer(i: nat, j: nat)
    requires i < 255 && j < 255
    ensures Point(i) != 0 && (Point(i) == Point(j) ==> i == j)
  {
    IndexRoundTrip(i + 1);
    IndexRoundTrip(j + 1);
    IndexRoundTrip(0);
  }

  lemma PointOf(x: bv8)
    requires x != 0
    ensures 1 <= x as int <= 255 && Point(x as int - 1) == x
  {}
}
