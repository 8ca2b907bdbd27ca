/** Characters by their numbers: what valid UTF-8 is (section 3 of RFC 3629), and what ill-formed runs are. */
module Scalars {
  import opened Bytes
  import opened Utf8

  /** The numbers of characters: up to 0x10FFFF, without the surrogates. */
  type Scalar = c: int | 0 <= c < 0xD800 || 0xE000 <= c <= 0x10_FFFF

  /** The number of a character spread over one to four bytes, six bits in each byte but the first. */
  function Utf8Of(c: Scalar): (bs: seq<Byte>)
    ensures 1 <= |bs| <= 4
  {
    if c < 0x80 then [c]
    else if c < 0x800 then [0xC0 + c / 0x40, 0x80 + c % 0x40]
    else if c < 0x1_0000 then [0xE0 + c / 0x1000, 0x80 + c / 0x40 % 0x40, 0x80 + c % 0x40]
    else [0xF0 + c / 0x4_0000, 0x80 + c / 0x1000 % 0x40, 0x80 + c / 0x40 % 0x40, 0x80 + c % 0x40]
  }

  function TextOf(cs: seq<Scalar>): seq<Byte> {
    if cs == [] then [] else Utf8Of(cs[0]) + TextOf(cs[1..])
  }

  lemma ReplacementIsFFFD()
    ensures Utf8Of(0xFFFD) == REPLACEMENT
  {}

  lemma CharacterIsOk(c: Scalar)
    ensures First(Utf8Of(c)) == Chunk(|Utf8Of(c)|, true)
  {
    var bs := Utf8Of(c);
    assert Width(bs[0]) == |bs|;
    assert |bs| > 1 ==> Second(bs[0], bs[1]);
  }

  /** Every character is recognized, whatever follows it. */
  lemma CharacterIsFirst(c: Scalar, rest: seq<Byte>)
    ensures First(Utf8Of(c) + rest) == Chunk(|Utf8Of(c)|, true)
  {
    hide Utf8Of, First;
    CharacterIsOk(c);
    var bs := Utf8Of(c);
    assert forall i :: 0 <= i < |bs| ==> bs[i] == (bs + rest)[i];
    FirstOfSame(bs, bs + rest);
  }

  lemma OkBytes(bs: seq<Byte>) returns (c: Scalar)
    requires bs != [] && First(bs) == Chunk(|bs|, true)
    ensures Utf8Of(c) == bs
  {
    match |bs|
    case 2 => c := TwoBytes(bs[0], bs[1]);
    case 3 => c := ThreeBytes(bs[0], bs[1], bs[2]);
    case 4 => c := FourBytes(bs[0], bs[1], bs[2], bs[3]);
    case _ => c := bs[0];
  }

  lemma TwoBytes(a: Byte, b: Byte) returns (c: Scalar)
    requires 0xC2 <= a <= 0xDF && Tail(b)
    ensures Utf8Of(c) == [a, b]
  {
    c := (a as int - 0xC0) * 0x40 + (b as int - 0x80);
    assert 0x80 <= c < 0x800;
    assert c / 0x40 == a - 0xC0 && c % 0x40 == b - 0x80;
  }

  lemma ThreeBytes(a: Byte, b: Byte, d: Byte) returns (c: Scalar)
    requires 0xE0 <= a <= 0xEF && Second(a, b) && Tail(d)
    ensures Utf8Of(c) == [a, b, d]
  {
    var x, y, z := a as int - 0xE0, b as int - 0x80, d as int - 0x80;
    c := x * 0x1000 + y * 0x40 + z;
    assert 0x800 <= c < 0x1_0000;
    Quotient(c, 0x1000, x, y * 0x40 + z);
    Digit(x, y, z, c);
  }

  lemma FourBytes(a: Byte, b: Byte, d: Byte, e: Byte) returns (c: Scalar)
    requires 0xF0 <= a <= 0xF4 && Second(a, b) && Tail(d) && Tail(e)
    ensures Utf8Of(c) == [a, b, d, e]
  {
    var w, x, y, z := a as int - 0xF0, b as int - 0x80, d as int - 0x80, e as int - 0x80;
    c := w * 0x4_0000 + x * 0x1000 + y * 0x40 + z;
    assert 0x1_0000 <= c <= 0x10_FFFF;
    Quotient(c, 0x4_0000, w, x * 0x1000 + y * 0x40 + z);
    Quotient(c, 0x1000, w * 0x40 + x, y * 0x40 + z);
    Digit(w * 0x40 + x, y, z, c);
  }

  /** The last two digits of a number in base 64. */
  lemma Digit(x: nat, y: nat, z: nat, c: nat)
    requires y < 0x40 && z < 0x40 && c == x * 0x1000 + y * 0x40 + z
    ensures c / 0x40 % 0x40 == y && c % 0x40 == z
  {
    Quotient(c, 0x40, x * 0x40 + y, z);
  }

  /** Nothing else is recognized: a well-formed chunk is one character. */
  lemma OkIsCharacter(bs: seq<Byte>) returns (c: Scalar)
    requires bs != [] && First(bs).ok
    ensures bs[..First(bs).len] == Utf8Of(c)
  {
    var n := First(bs).len;
    FirstOfPart(bs, n);
    hide First;
    c := OkBytes(bs[..n]);
  }

  /** Text is valid exactly when it is the encoding of some characters. */
  lemma ValidIffText(bs: seq<Byte>)
    ensures Valid(bs) <==> exists cs: seq<Scalar> :: bs == TextOf(cs)
  {
    hide Valid, TextOf;
    if Valid(bs) {
      var cs := CharactersOf(bs);
    }
    forall cs: seq<Scalar> | bs == TextOf(cs) ensures Valid(bs) {
      TextIsValid(cs);
    }
  }

  lemma {:induction false} CharactersOf(bs: seq<Byte>) returns (cs: seq<Scalar>)
    requires Valid(bs)
    ensures TextOf(cs) == bs
  {
    hide First, Utf8Of;
    cs := [];
    if bs != [] {
      var n := First(bs).len;
      var c := OkIsCharacter(bs);
      var rest := CharactersOf(bs[n..]);
      cs := [c] + rest;
      assert bs == bs[..n] + bs[n..];
    }
  }

  lemma {:induction false} TextIsValid(cs: seq<Scalar>)
    ensures Valid(TextOf(cs))
  {
    hide First, Utf8Of;
    if cs != [] {
      var bs, rest := Utf8Of(cs[0]), TextOf(cs[1..]);
      TextIsValid(cs[1..]);
      CharacterIsFirst(cs[0], rest);
      assert (bs + rest)[|bs|..] == rest;
    }
  }

  // ------------------------------------------------------------------
  // Ill-formed runs
  // ------------------------------------------------------------------

  /** Some character starts with these bytes. */
  ghost predicate StartsCharacter(p: seq<Byte>) {
    exists c: Scalar :: p <= Utf8Of(c)
  }

  /** The start of a character of some width. */
  predicate Begun(p: seq<Byte>) {
    p != [] && |p| <= Width(p[0]) &&
    (|p| > 1 ==> Second(p[0], p[1])) && (|p| > 2 ==> Tail(p[2])) && (|p| > 3 ==> Tail(p[3]))
  }

  lemma BegunIsStart(p: seq<Byte>)
    requires Begun(p)
    ensures StartsCharacter(p)
  {
    var w := Width(p[0]);
    var second := if p[0] == 0xE0 then 0xA0 else if p[0] == 0xF0 then 0x90 else 0x80;
    var full := p + (if |p| == 1 && w > 1 then [second] else []);
    full := full + seq(w - |full|, _ => 0x80);
    Completed(full);
    assert p <= full;
  }

  lemma Completed(full: seq<Byte>)
    requires full != [] && |full| == Width(full[0]) && Begun(full)
    ensures StartsCharacter(full)
  {
    assert First(full) == Chunk(|full|, true);
    hide First;
    var c := OkBytes(full);
    assert full <= Utf8Of(c);
  }

  lemma StartIsBegun(p: seq<Byte>, c: Scalar)
    requires p != [] && p <= Utf8Of(c)
    ensures Begun(p)
  {
    var bs := Utf8Of(c);
    assert Begun(bs) && |bs| == Width(bs[0]);
    assert forall i :: 0 <= i < |p| ==> p[i] == bs[i];
  }

  lemma RunIsBegun(bs: seq<Byte>, k: nat)
    requires bs != [] && !First(bs).ok && 0 < k <= |bs| && Begun(bs[..k])
    ensures k <= First(bs).len
  {}

  lemma LongRunIsBegun(bs: seq<Byte>)
    requires bs != [] && !First(bs).ok && First(bs).len > 1
    ensures Begun(bs[..First(bs).len])
  {}

  /**
    An ill-formed run is the longest start of a character that the bytes begin with, or one byte if
    they begin with none.
   */
  lemma RunIsLongestStart(bs: seq<Byte>)
    requires bs != [] && !First(bs).ok
    ensures var n := First(bs).len;
            && (n > 1 ==> StartsCharacter(bs[..n]))
            && forall k :: n < k <= |bs| ==> !StartsCharacter(bs[..k])
  {
    hide First, Begun, Utf8Of;
    var n := First(bs).len;
    if n > 1 {
      LongRunIsBegun(bs);
      BegunIsStart(bs[..n]);
    }
    forall k | n < k <= |bs| ensures !StartsCharacter(bs[..k]) {
      if StartsCharacter(bs[..k]) {
        var c: Scalar :| bs[..k] <= Utf8Of(c);
        StartIsBegun(bs[..k], c);
        RunIsBegun(bs, k);
      }
    }
  }
}
