/** UTF-8 (section 4 of RFC 3629) and its lossy decoding, on byte strings. */
module Utf8 {
  import opened Bytes

  /** Length of the sequence a lead byte announces; 0 for a byte that cannot lead. */
  function Width(lead: Byte): nat {
    if lead <= 0x7F then 1
    else if 0xC2 <= lead <= 0xDF then 2
    else if 0xE0 <= lead <= 0xEF then 3
    else if 0xF0 <= lead <= 0xF4 then 4
    else 0
  }

  predicate Tail(b: Byte) { 0x80 <= b <= 0xBF }

  predicate Second(lead: Byte, b: Byte) {
    if lead == 0xE0 then 0xA0 <= b <= 0xBF
    else if lead == 0xED then 0x80 <= b <= 0x9F
    else if lead == 0xF0 then 0x90 <= b <= 0xBF
    else if lead == 0xF4 then 0x80 <= b <= 0x8F
    else Tail(b)
  }

  /** The first chunk of a byte string: one character, or one maximal ill-formed run. */
  datatype Chunk = Chunk(len: nat, ok: bool)

  function First(bs: seq<Byte>): (c: Chunk)
    requires bs != []
    ensures 1 <= c.len <= |bs|
  {
    var w := Width(bs[0]);
    if w <= 1 then Chunk(1, w == 1)
    else if |bs| < 2 || !Second(bs[0], bs[1]) then Chunk(1, false)
    else if w == 2 then Chunk(2, true)
    else if |bs| < 3 || !Tail(bs[2]) then Chunk(2, false)
    else if w == 3 then Chunk(3, true)
    else if |bs| < 4 || !Tail(bs[3]) then Chunk(3, false)
    else Chunk(4, true)
  }

  predicate Valid(bs: seq<Byte>) {
    bs == [] || (First(bs).ok && Valid(bs[First(bs).len..]))
  }

  /** The text type: byte strings that are valid UTF-8. */
  type Str = bs: seq<Byte> | Valid(bs)

  /** U+FFFD. */
  const REPLACEMENT: seq<Byte> := [0xEF, 0xBF, 0xBD]

  /** Decoding that puts U+FFFD in place of every ill-formed run. */
  function Lossy(bs: seq<Byte>): (s: Str)
  {
    if bs == [] then []
    else
      var c := First(bs);
      var head := if c.ok then bs[..c.len] else REPLACEMENT;
      ValidAppend(head, Lossy(bs[c.len..]));
      head + Lossy(bs[c.len..])
  }

  lemma ValidAppend(head: seq<Byte>, rest: seq<Byte>)
    requires (head != [] && First(head) == Chunk(|head|, true)) || head == REPLACEMENT
    requires Valid(rest)
    ensures Valid(head + rest)
  {
    assert (head + rest)[|head|..] == rest;
  }

  lemma ReplacementIsOk(rest: seq<Byte>)
    ensures First(REPLACEMENT + rest) == Chunk(3, true)
  {
    var bs := REPLACEMENT + rest;
    assert bs[0] == 0xEF && bs[1] == 0xBF && bs[2] == 0xBD;
  }

  /** A character is recognized by its own bytes; part of one is ill-formed to its end. */
  lemma FirstOfPart(s: seq<Byte>, n: nat)
    requires s != [] && First(s).ok && 0 < n <= |s|
    ensures First(s[..n]) == if First(s).len <= n then First(s) else Chunk(n, false)
  {}

  lemma SameTail(a: seq<Byte>, b: seq<Byte>, c: seq<Byte>)
    ensures a + b == a + c <==> b == c
  {
    assert (a + b)[|a|..] == b && (a + c)[|a|..] == c;
  }

  /** Lossy decoding is the identity exactly on valid UTF-8. */
  lemma {:induction false} LossyIsIdentityIffValid(bs: seq<Byte>)
    ensures Lossy(bs) == bs <==> Valid(bs)
  {
    hide First, REPLACEMENT;
    if bs != [] {
      var n := First(bs).len;
      var rest := Lossy(bs[n..]);
      if First(bs).ok {
        LossyIsIdentityIffValid(bs[n..]);
        SameTail(bs[..n], rest, bs[n..]);
        assert bs[..n] + bs[n..] == bs;
      } else {
        ReplacementIsOk(rest);
      }
    }
  }

  lemma FirstThenRest(a: seq<Byte>, b: seq<Byte>, n: nat)
    requires n <= |a|
    ensures (a + b)[n..] == a[n..] + b && (a + b)[..n] == a[..n] && a == a[..n] + a[n..]
  {}

  /** Text that is valid up to some point is decoded unchanged up to there. */
  lemma {:induction false} LossyAppend(a: seq<Byte>, b: seq<Byte>)
    requires Valid(a)
    ensures Lossy(a + b) == a + Lossy(b)
  {
    hide First, Valid, REPLACEMENT;
    if a == [] {
      assert a + b == b;
    } else {
      var n := FirstOfValid(a, b);
      FirstThenRest(a, b, n);
      LossyAppend(a[n..], b);
      hide Lossy;
      assert a[..n] + (a[n..] + Lossy(b)) == a + Lossy(b);
    }
  }

  lemma FirstOfValid(a: seq<Byte>, b: seq<Byte>) returns (n: nat)
    requires a != [] && Valid(a)
    ensures First(a + b) == First(a) == Chunk(n, true) && n <= |a| && Valid(a[n..])
  {
    n := First(a).len;
    assert (a + b)[..|a|] == a;
    FirstOfSame(a, a + b);
  }

  lemma FirstOfSame(a: seq<Byte>, c: seq<Byte>)
    requires a != [] && First(a).ok && |a| <= |c|
    requires forall i :: 0 <= i < |a| ==> a[i] == c[i]
    ensures First(c) == First(a)
  {}

  /** The longest prefix of at most n bytes that ends between characters. */
  lemma {:induction false} CutCharacter(s: seq<Byte>, n: nat) returns (m: nat)
    requires Valid(s) && n <= |s|
    ensures m <= n <= m + 3 && Valid(s[..m])
    ensures m < n ==> First(s[m..n]) == Chunk(n - m, false)
  {
    hide First;
    m := 0;
    if n > 0 {
      var c := First(s).len;
      FirstOfPart(s, n);
      assert s[0..n] == s[..n];
      if c <= n {
        var d := CutCharacter(s[c..], n - c);
        m := c + d;
        CutThenDrop(s, c, m);
        FirstOfPart(s, m);
        assert s[c..][d..n - c] == s[m..n];
      } else {
        ChunkIsShort(s);
      }
    }
  }

  lemma ChunkIsShort(s: seq<Byte>)
    requires s != []
    ensures First(s).len <= 4
  {}

  /** Cutting a valid text keeps all whole characters; a cut one becomes one U+FFFD. */
  lemma LossyOfCut(s: seq<Byte>, n: nat) returns (m: nat)
    requires Valid(s) && n <= |s|
    ensures m <= n <= m + 3 && Valid(s[..m])
    ensures Lossy(s[..n]) == s[..m] + if m == n then [] else REPLACEMENT
  {
    hide First, REPLACEMENT, Valid;
    m := CutCharacter(s, n);
    assert s[..n] == s[..m] + s[m..n];
    LossyAppend(s[..m], s[m..n]);
    LossyOfBroken(s[m..n]);
  }

  lemma LossyOfBroken(bs: seq<Byte>)
    requires bs == [] || First(bs) == Chunk(|bs|, false)
    ensures Lossy(bs) == if bs == [] then [] else REPLACEMENT
  {
    hide First;
    assert bs[|bs|..] == [];
  }
}
