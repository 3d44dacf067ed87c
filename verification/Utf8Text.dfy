/** Valid UTF-8 by its own definition: the encodings of Unicode scalar values one behind the other. */
module Utf8Text {
  import opened Wire
  import M = Messages

  /** A code point that is no surrogate. */
  type scalar = c: int | 0 <= c < 0xD800 || 0xE000 <= c < 0x11_0000

  /** The table of section 3 of RFC 3629. */
  function EncodeScalar(c: scalar): Bytes {
    if c < 0x80 then [c]
    else if c < 0x800 then [0xC0 + c / 0x40, 0x80 + c % 0x40]
    else if c < 0x1_0000 then [0xE0 + c / 0x1000, 0x80 + c / 0x40 % 0x40, 0x80 + c % 0x40]
    else [0xF0 + c / 0x4_0000, 0x80 + c / 0x1000 % 0x40, 0x80 + c / 0x40 % 0x40, 0x80 + c % 0x40]
  }

  function EncodeText(cs: seq<scalar>): Bytes {
    if cs == [] then [] else EncodeScalar(cs[0]) + EncodeText(cs[1..])
  }

  lemma ScalarIsValid(c: scalar, rest: Bytes)
    ensures M.Utf8(EncodeScalar(c) + rest) == M.Utf8(rest)
  {
    var e := EncodeScalar(c);
    ScalarIsWellFormed(c);
    hide EncodeScalar;
    var s := e + rest;
    assert s[|e|..] == rest && s[..|e|] == e;
    assert forall i | 0 <= i < |e| :: s[i] == e[i];
  }

  /** The first byte gives the length; the second excludes overlong forms, surrogates and values too large. */
  lemma ScalarIsWellFormed(c: scalar)
    ensures var e := EncodeScalar(c);
      && (forall i | 1 <= i < |e| :: 0x80 <= e[i] < 0xC0)
      && if |e| == 1 then e[0] < 0x80
         else if |e| == 2 then 0xC2 <= e[0] < 0xE0
         else if |e| == 3 then
           0xE0 <= e[0] < 0xF0 && (e[0] == 0xE0 ==> e[1] >= 0xA0) && (e[0] == 0xED ==> e[1] < 0xA0)
         else
           |e| == 4 && 0xF0 <= e[0] < 0xF5 && (e[0] == 0xF0 ==> e[1] >= 0x90) && (e[0] == 0xF4 ==> e[1] < 0x90)
  {
  }

  lemma {:induction false} TextIsValid(cs: seq<scalar>)
    ensures M.Utf8(EncodeText(cs))
  {
    if cs != [] {
      TextIsValid(cs[1..]);
      ScalarIsValid(cs[0], EncodeText(cs[1..]));
    }
  }

  lemma OneByte(c: scalar)
    requires c < 0x80
    ensures EncodeScalar(c) == [c]
  {
  }

  lemma TwoBytes(a: nat, x: nat)
    requires 2 <= a < 0x20 && x < 0x40
    ensures EncodeScalar(a * 0x40 + x) == [0xC0 + a, 0x80 + x]
  {
    QuotientAndRemainder(a * 0x40 + x, 0x40, a, x);
  }

  lemma ThreeBytes(a: nat, x: nat, y: nat)
    requires a < 0x10 && x < 0x40 && y < 0x40 && (a == 0 ==> x >= 0x20) && (a == 0xD ==> x < 0x20)
    ensures var c := a * 0x1000 + x * 0x40 + y;
      (c < 0xD800 || 0xE000 <= c < 0x11_0000) && EncodeScalar(c) == [0xE0 + a, 0x80 + x, 0x80 + y]
  {
    var c := a * 0x1000 + x * 0x40 + y;
    QuotientAndRemainder(c, 0x1000, a, x * 0x40 + y);
    QuotientAndRemainder(c, 0x40, a * 0x40 + x, y);
    QuotientAndRemainder(a * 0x40 + x, 0x40, a, x);
  }

  lemma FourBytes(a: nat, x: nat, y: nat, z: nat)
    requires a < 5 && x < 0x40 && y < 0x40 && z < 0x40 && (a == 0 ==> x >= 0x10) && (a == 4 ==> x < 0x10)
    ensures var c := a * 0x4_0000 + x * 0x1000 + y * 0x40 + z;
      0x1_0000 <= c < 0x11_0000 && EncodeScalar(c) == [0xF0 + a, 0x80 + x, 0x80 + y, 0x80 + z]
  {
    var c := a * 0x4_0000 + x * 0x1000 + y * 0x40 + z;
    QuotientAndRemainder(c, 0x4_0000, a, x * 0x1000 + y * 0x40 + z);
    QuotientAndRemainder(c, 0x1000, a * 0x40 + x, y * 0x40 + z);
    QuotientAndRemainder(c, 0x40, a * 0x1000 + x * 0x40 + y, z);
    QuotientAndRemainder(a * 0x40 + x, 0x40, a, x);
    QuotientAndRemainder(a * 0x1000 + x * 0x40 + y, 0x40, a * 0x40 + x, y);
  }

  /** The first scalar value of a valid text. */
  lemma FirstScalar(s: Bytes) returns (c: scalar, n: nat)
    requires M.Utf8(s) && s != []
    ensures 0 < n <= |s| && s[..n] == EncodeScalar(c) && M.Utf8(s[n..])
  {
    hide EncodeScalar;
    if s[0] < 0x80 {
      c, n := s[0], 1;
      OneByte(c);
    } else if s[0] < 0xE0 {
      var a: nat, x: nat := s[0] - 0xC0, s[1] - 0x80;
      TwoBytes(a, x);
      c, n := a * 0x40 + x, 2;
    } else if s[0] < 0xF0 {
      var a: nat, x: nat, y: nat := s[0] - 0xE0, s[1] - 0x80, s[2] - 0x80;
      ThreeBytes(a, x, y);
      c, n := a * 0x1000 + x * 0x40 + y, 3;
    } else {
      var a: nat, x: nat, y: nat, z: nat := s[0] - 0xF0, s[1] - 0x80, s[2] - 0x80, s[3] - 0x80;
      FourBytes(a, x, y, z);
      c, n := a * 0x4_0000 + x * 0x1000 + y * 0x40 + z, 4;
    }
  }

  lemma {:induction false} ValidIsText(s: Bytes) returns (cs: seq<scalar>)
    requires M.Utf8(s)
    ensures s == EncodeText(cs)
    decreases |s|
  {
    if s == [] {
      cs := [];
    } else {
      var c, n := FirstScalar(s);
      var rest := ValidIsText(s[n..]);
      cs := [c] + rest;
      assert s == s[..n] + s[n..];
    }
  }

  /** The structural check accepts exactly the encodings of sequences of scalar values. */
  lemma Utf8Exactly(s: Bytes)
    ensures M.Utf8(s) <==> exists cs :: s == EncodeText(cs)
  {
    if M.Utf8(s) {
      var cs := ValidIsText(s);
    }
    forall cs | s == EncodeText(cs) ensures M.Utf8(s) {
      TextIsValid(cs);
    }
  }
}
