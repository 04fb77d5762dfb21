/** What valid UTF-8 is: the encodings of Unicode scalar values, one after the other. */
module Utf8 {
  import opened Keys

  type Scalar = c: int | (0 <= c < 0xD800 || 0xE000 <= c <= 0x10FFFF)

  /** Section 3 of RFC 3629. */
  function Encode(c: Scalar): (s: Key)
    ensures 1 <= |s| <= 4
  {
    if c < 0x80 then [c]
    else if c < 0x800 then [0xC0 + c / 64, 0x80 + c % 64]
    else if c < 0x1_0000 then [0xE0 + c / 4096, 0x80 + c / 64 % 64, 0x80 + c % 64]
    else [0xF0 + c / 262144, 0x80 + c / 4096 % 64, 0x80 + c / 64 % 64, 0x80 + c % 64]
  }

  function EncodeAll(cs: seq<Scalar>): Key {
    if cs == [] then [] else Encode(cs[0]) + EncodeAll(cs[1..])
  }

  lemma EncodedIsLead(c: Scalar, rest: Key)
    ensures LeadLength(Encode(c) + rest) == |Encode(c)|
  {
    var s := Encode(c) + rest;
    assert s[0] == Encode(c)[0];
    if c >= 0x80 { assert s[1] == Encode(c)[1]; }
    if c >= 0x800 { assert s[2] == Encode(c)[2]; }
    if c >= 0x1_0000 { assert s[3] == Encode(c)[3]; }
  }

  lemma LeadIsEncoded(s: Key) returns (c: Scalar)
    requires s != [] && LeadLength(s) > 0
    ensures s[..LeadLength(s)] == Encode(c)
  {
    var n, a := LeadLength(s), s[0] as int;
    if n == 1 {
      c := a;
    } else if n == 2 {
      c := Two(s[0], s[1]);
    } else if n == 3 {
      c := Three(s[0], s[1], s[2]);
    } else {
      c := Four(s[0], s[1], s[2], s[3]);
    }
  }

  lemma Two(a: Byte, b: Byte) returns (c: Scalar)
    requires 0xC2 <= a <= 0xDF && Continuation(b)
    ensures Encode(c) == [a, b]
  {
    c := (a as int - 0xC0) * 64 + (b - 0x80);
  }

  lemma Three(a: Byte, b: Byte, d: Byte) returns (c: Scalar)
    requires 0xE0 <= a <= 0xEF && Continuation(b) && Continuation(d)
    requires (a == 0xE0 ==> b >= 0xA0) && (a == 0xED ==> b <= 0x9F)
    ensures Encode(c) == [a, b, d]
  {
    c := (a - 0xE0) * 4096 + (b - 0x80) * 64 + (d - 0x80);
    assert c / 64 == (a - 0xE0) * 64 + (b - 0x80);
  }

  lemma Four(a: Byte, b: Byte, d: Byte, e: Byte) returns (c: Scalar)
    requires 0xF0 <= a <= 0xF4 && Continuation(b) && Continuation(d) && Continuation(e)
    requires (a == 0xF0 ==> b >= 0x90) && (a == 0xF4 ==> b <= 0x8F)
    ensures Encode(c) == [a, b, d, e]
  {
    c := (a - 0xF0) * 262144 + (b - 0x80) * 4096 + (d - 0x80) * 64 + (e - 0x80);
    assert c / 64 == (a - 0xF0) * 4096 + (b - 0x80) * 64 + (d - 0x80);
    assert c / 4096 == (a - 0xF0) * 64 + (b - 0x80);
  }

  lemma {:induction false} EncodedIsValid(cs: seq<Scalar>)
    ensures ValidUtf8(EncodeAll(cs))
    decreases |cs|
  {
    hide Encode, LeadLength;
    if cs != [] {
      EncodedIsValid(cs[1..]);
      EncodedIsLead(cs[0], EncodeAll(cs[1..]));
      var s := EncodeAll(cs);
      assert s[LeadLength(s)..] == EncodeAll(cs[1..]);
    }
  }

  lemma {:induction false} ValidIsEncoded(s: Key) returns (cs: seq<Scalar>)
    requires ValidUtf8(s)
    ensures EncodeAll(cs) == s
    decreases |s|
  {
    hide Encode, LeadLength;
    cs := [];
    if s != [] {
      var n := LeadLength(s);
      var c := LeadIsEncoded(s);
      var rest := ValidIsEncoded(s[n..]);
      cs := [c] + rest;
      assert cs[1..] == rest;
      assert s == s[..n] + s[n..];
    }
  }

  /** The byte test accepts exactly the encodings of scalar values: no overlong form, no surrogate, nothing
      above U+10FFFF. */
  lemma ValidIff(s: Key)
    ensures ValidUtf8(s) <==> exists cs :: EncodeAll(cs) == s
  {
    if ValidUtf8(s) {
      var cs := ValidIsEncoded(s);
    } else if cs :| EncodeAll(cs) == s {
      EncodedIsValid(cs);
    }
  }
}
