/**
  The bitwise CRC-32 that turns method names into method ids.
  A 32-bit register is the sequence of its bits, least significant first.
 */
module Crc32 {
  import opened Bytes

  type Bits = seq<bool>
  type Word = c: Bits | |c| == 32 witness Zeros(32)

  function Zeros(n: nat): (r: Bits)
    ensures |r| == n
    ensures forall i :: 0 <= i < n ==> !r[i]
  {
    seq(n, _ => false)
  }

  function Xor(a: Bits, b: Bits): (r: Bits)
    requires |a| == |b|
    ensures |r| == |a|
    ensures forall i :: 0 <= i < |a| ==> r[i] == (a[i] != b[i])
  {
    seq(|a|, i requires 0 <= i < |a| => a[i] != b[i])
  }

  function Complement(a: Bits): (r: Bits)
    ensures |r| == |a|
    ensures forall i :: 0 <= i < |a| ==> r[i] == !a[i]
  {
    seq(|a|, i requires 0 <= i < |a| => !a[i])
  }

  /** The n low bits of a number, least significant first. */
  function BitsOf(x: nat, n: nat): (r: Bits)
    ensures |r| == n
  {
    if n == 0 then [] else [x % 2 == 1] + BitsOf(x / 2, n - 1)
  }

  const POLY: Word := BitsOf(0xEDB8_8320, 32)
  const ALL_ONES: Word := Complement(Zeros(32))

  // ------------------------------------------------------------------
  // What the nested loop computes
  // ------------------------------------------------------------------

  function ShiftRight(c: Word): Word {
    c[1..] + [false]
  }

  /** One turn of the inner loop. */
  function Step(c: Word): Word {
    if c[0] then Xor(ShiftRight(c), POLY) else ShiftRight(c)
  }

  function Steps(c: Word, n: nat): Word {
    if n == 0 then c else Step(Steps(c, n - 1))
  }

  /** Zero extension. */
  function Widen(bits: Bits): Word
    requires |bits| <= 32
  {
    bits + Zeros(32 - |bits|)
  }

  /** One turn of the outer loop. */
  function ByteStep(c: Word, b: Byte): Word {
    Steps(Xor(c, Widen(BitsOf(b, 8))), 8)
  }

  function Register(c: Word, data: seq<Byte>): Word {
    if data == [] then c else ByteStep(Register(c, data[..|data| - 1]), data[|data| - 1])
  }

  function Crc(data: seq<Byte>): Word {
    Complement(Register(ALL_ONES, data))
  }

  /** Method ids are CRCs of method names. */
  method MethodId(name: seq<Byte>) returns (id: Word)
    ensures id == Crc(name)
  {
    var crc := ALL_ONES;
    for i := 0 to |name|
      invariant crc == Register(ALL_ONES, name[..i])
    {
      assert name[..i + 1][..i] == name[..i];
      crc := Xor(crc, Widen(BitsOf(name[i], 8)));
      ghost var mixed := crc;
      for j := 0 to 8
        invariant crc == Steps(mixed, j)
      {
        if crc[0] {
          crc := Xor(ShiftRight(crc), POLY);
        } else {
          crc := ShiftRight(crc);
        }
      }
    }
    assert name[..|name|] == name;
    id := Complement(crc);
  }

  // ------------------------------------------------------------------
  // The bit step is a linear bijection
  // ------------------------------------------------------------------

  lemma {:induction false} TopBit(x: nat, n: nat)
    requires n > 0 && Pow2(n - 1) <= x < Pow2(n)
    ensures BitsOf(x, n)[n - 1]
  {
    if n > 1 {
      TopBit(x / 2, n - 1);
    }
  }

  /** The generator has degree 32: its top coefficient is set. */
  lemma TopOfPoly()
    ensures POLY[31]
  {
    assert Pow2(7) == 0x80;
    assert Pow2(15) == 0x8000;
    assert Pow2(23) == 0x80_0000;
    assert Pow2(31) == 0x8000_0000;
    TopBit(0xEDB8_8320, 32);
  }

  /** The inverse of `Step` for a generator p: the top bit tells which branch was taken. */
  function UnStep(c: Word, p: Word): Word {
    if c[31] then [true] + Xor(c, p)[..31] else [false] + c[..31]
  }

  lemma StepIsBijective(c: Word)
    ensures UnStep(Step(c), POLY) == c
    ensures Step(UnStep(c, POLY)) == c
  {
    hide BitsOf;
    TopOfPoly();
    UnStepStep(c, POLY);
    StepUnStep(c, POLY);
  }

  lemma UnStepStep(c: Word, p: Word)
    requires p[31]
    ensures UnStep(if c[0] then Xor(ShiftRight(c), p) else ShiftRight(c), p) == c
  {
    var s := ShiftRight(c);
    XorTwice(s, p);
    hide Xor;
    assert s[..31] == c[1..];
    if c[0] {
      XorTop(s, p);
      assert [true] + s[..31] == c;
    } else {
      assert [false] + s[..31] == c;
    }
  }

  lemma XorTwice(a: Word, p: Word)
    ensures Xor(Xor(a, p), p) == a
  {}

  lemma XorTop(a: Word, p: Word)
    requires !a[31] && p[31]
    ensures Xor(a, p)[31]
  {}

  lemma StepUnStep(c: Word, p: Word)
    requires p[31]
    ensures var d := UnStep(c, p); (if d[0] then Xor(ShiftRight(d), p) else ShiftRight(d)) == c
  {
    if c[31] {
      assert ShiftRight([true] + Xor(c, p)[..31]) == Xor(c, p);
      XorTwice(c, p);
    }
  }

  lemma StepIsLinear(x: Word, y: Word)
    ensures Step(Xor(x, y)) == Xor(Step(x), Step(y))
  {
    assert ShiftRight(Xor(x, y)) == Xor(ShiftRight(x), ShiftRight(y));
  }

  lemma {:induction false} StepsAreLinear(x: Word, y: Word, n: nat)
    ensures Steps(Xor(x, y), n) == Xor(Steps(x, n), Steps(y, n))
  {
    hide Step;
    if n > 0 {
      StepsAreLinear(x, y, n - 1);
      StepIsLinear(Steps(x, n - 1), Steps(y, n - 1));
    }
  }

  lemma {:induction false} StepsAreInjective(x: Word, y: Word, n: nat)
    requires Steps(x, n) == Steps(y, n)
    ensures x == y
  {
    hide Step, UnStep, BitsOf;
    if n > 0 {
      StepIsBijective(Steps(x, n - 1));
      StepIsBijective(Steps(y, n - 1));
      StepsAreInjective(x, y, n - 1);
    }
  }

  lemma {:induction false} FirstStep(c: Word, n: nat)
    requires n > 0
    ensures Steps(c, n) == Steps(Step(c), n - 1)
  {
    if n > 1 {
      FirstStep(c, n - 1);
    }
  }

  // ------------------------------------------------------------------
  // Reference: the register of a serial CRC, fed one bit at a time
  // ------------------------------------------------------------------

  function Mix(c: Word, x: bool): Word {
    [c[0] != x] + c[1..]
  }

  function FeedBit(c: Word, x: bool): Word {
    Step(Mix(c, x))
  }

  function Feed(c: Word, bits: Bits): Word
    decreases |bits|
  {
    if bits == [] then c else Feed(FeedBit(c, bits[0]), bits[1..])
  }

  /** The bits of a byte string, in the order the loops consume them. */
  function Stream(data: seq<Byte>): (r: Bits)
    ensures |r| == 8 * |data|
  {
    if data == [] then [] else Stream(data[..|data| - 1]) + BitsOf(data[|data| - 1], 8)
  }

  lemma {:induction false} FeedAppend(c: Word, a: Bits, b: Bits)
    ensures Feed(c, a + b) == Feed(Feed(c, a), b)
    decreases |a|
  {
    if a == [] {
      assert a + b == b;
    } else {
      assert (a + b)[1..] == a[1..] + b;
      FeedAppend(FeedBit(c, a[0]), a[1..], b);
    }
  }

  /** Up to 32 bits may be mixed in at once and then stepped over. */
  lemma {:induction false} WordAtOnce(c: Word, bits: Bits)
    requires |bits| <= 32
    ensures Feed(c, bits) == Steps(Xor(c, Widen(bits)), |bits|)
    decreases |bits|
  {
    hide Step, Steps, Widen, Mix;
    if bits == [] {
      WidenNothing(c);
    } else {
      var rest := bits[1..];
      var head, tail := Mix(c, bits[0]), Tail(rest);
      SplitWord(c, bits);
      StepIsLinear(head, tail);
      StepOfTail(rest);
      FirstStep(Xor(c, Widen(bits)), |bits|);
      WordAtOnce(FeedBit(c, bits[0]), rest);
    }
  }

  /** All but the first of some bits, in their places. */
  function Tail(rest: Bits): Word
    requires |rest| < 32
  {
    [false] + rest + Zeros(31 - |rest|)
  }

  lemma WidenNothing(c: Word)
    ensures Xor(c, Widen([])) == c && Steps(c, 0) == c
  {}

  lemma SplitWord(c: Word, bits: Bits)
    requires 0 < |bits| <= 32
    ensures Xor(c, Widen(bits)) == Xor(Mix(c, bits[0]), Tail(bits[1..]))
  {}

  lemma StepOfTail(rest: Bits)
    requires |rest| < 32
    ensures Step(Tail(rest)) == Widen(rest)
  {}

  /** The byte-wise loop is the serial CRC of the bit stream. */
  lemma {:induction false} RegisterIsFeed(c: Word, data: seq<Byte>)
    ensures Register(c, data) == Feed(c, Stream(data))
  {
    if data != [] {
      var n := |data| - 1;
      RegisterIsFeed(c, data[..n]);
      WordAtOnce(Register(c, data[..n]), BitsOf(data[n], 8));
      FeedAppend(c, Stream(data[..n]), BitsOf(data[n], 8));
    }
  }

  lemma {:induction false} FeedIsLinear(c: Word, d: Word, a: Bits, b: Bits)
    requires |a| == |b|
    ensures Feed(Xor(c, d), Xor(a, b)) == Xor(Feed(c, a), Feed(d, b))
    decreases |a|
  {
    hide Step;
    if a != [] {
      var x, y := Mix(c, a[0]), Mix(d, b[0]);
      StepIsLinear(x, y);
      MixIsLinear(c, d, a[0], b[0]);
      assert Xor(a, b)[1..] == Xor(a[1..], b[1..]);
      FeedIsLinear(FeedBit(c, a[0]), FeedBit(d, b[0]), a[1..], b[1..]);
    }
  }

  lemma MixIsLinear(c: Word, d: Word, x: bool, y: bool)
    ensures Mix(Xor(c, d), x != y) == Xor(Mix(c, x), Mix(d, y))
  {}

  lemma {:induction false} FeedIsInjective(c: Word, d: Word, bits: Bits)
    requires Feed(c, bits) == Feed(d, bits)
    ensures c == d
    decreases |bits|
  {
    hide Step;
    if bits != [] {
      FeedIsInjective(FeedBit(c, bits[0]), FeedBit(d, bits[0]), bits[1..]);
      var x, y := Mix(c, bits[0]), Mix(d, bits[0]);
      StepIsBijective(x);
      StepIsBijective(y);
      assert c == [c[0]] + x[1..] && d == [d[0]] + y[1..];
    }
  }

  // ------------------------------------------------------------------
  // Main results
  // ------------------------------------------------------------------

  /** The byte string with the given bit stream. */
  function Unstream(bits: Bits): (data: seq<Byte>)
    requires |bits| % 8 == 0
    ensures |data| == |bits| / 8
  {
    if bits == [] then []
    else
      var last := bits[|bits| - 8..];
      NumberBound(last);
      assert Pow2(8) == 256;
      Unstream(bits[..|bits| - 8]) + [Number(last)]
  }

  function Number(bits: Bits): nat {
    if bits == [] then 0 else (if bits[0] then 1 else 0) + 2 * Number(bits[1..])
  }

  lemma {:induction false} NumberBound(bits: Bits)
    ensures Number(bits) < Pow2(|bits|)
  {
    if bits != [] {
      NumberBound(bits[1..]);
    }
  }

  lemma {:induction false} NumberOfBits(x: nat, n: nat)
    requires x < Pow2(n)
    ensures Number(BitsOf(x, n)) == x
  {
    if n > 0 {
      NumberOfBits(x / 2, n - 1);
    }
  }

  lemma {:induction false} BitsOfNumber(bits: Bits)
    ensures BitsOf(Number(bits), |bits|) == bits
  {
    if bits != [] {
      BitsOfNumber(bits[1..]);
    }
  }

  lemma {:induction false} StreamOfUnstream(bits: Bits)
    requires |bits| % 8 == 0
    ensures Stream(Unstream(bits)) == bits
  {
    hide BitsOf, Number, Stream;
    if bits == [] {
      assert Stream([]) == [];
    } else {
      var n := |bits| - 8;
      StreamOfUnstream(bits[..n]);
      BitsOfNumber(bits[n..]);
      NumberBound(bits[n..]);
      assert Pow2(8) == 256;
      StreamGrows(Unstream(bits[..n]), Number(bits[n..]));
      assert bits == bits[..n] + bits[n..];
    }
  }

  lemma StreamGrows(data: seq<Byte>, b: Byte)
    ensures Stream(data + [b]) == Stream(data) + BitsOf(b, 8)
  {
    hide BitsOf;
    assert (data + [b])[..|data|] == data;
  }

  /** Bitwise exclusive or of byte strings. */
  function XorBytes(a: seq<Byte>, b: seq<Byte>): (r: seq<Byte>)
    requires |a| == |b|
    ensures |r| == |a|
  {
    Unstream(Xor(Stream(a), Stream(b)))
  }

  /** CRC-32 is affine over equal-length strings. */
  lemma CrcIsAffine(a: seq<Byte>, b: seq<Byte>, d: seq<Byte>)
    requires |a| == |b| == |d|
    ensures Crc(XorBytes(XorBytes(a, b), d)) == Xor(Xor(Crc(a), Crc(b)), Crc(d))
  {
    var ab := XorBytes(a, b);
    StreamOfUnstream(Xor(Stream(a), Stream(b)));
    StreamOfUnstream(Xor(Stream(ab), Stream(d)));
    RegisterIsFeed(ALL_ONES, a);
    RegisterIsFeed(ALL_ONES, b);
    RegisterIsFeed(ALL_ONES, d);
    RegisterIsFeed(ALL_ONES, XorBytes(ab, d));
    FeedIsLinear(ALL_ONES, ALL_ONES, Stream(a), Stream(b));
    FeedIsLinear(Xor(ALL_ONES, ALL_ONES), ALL_ONES, Stream(ab), Stream(d));
    assert Xor(Xor(ALL_ONES, ALL_ONES), ALL_ONES) == ALL_ONES;
  }

  lemma WindowIsInjective(c: Word, v: Bits, w: Bits)
    requires |v| == |w| <= 32
    requires Feed(c, v) == Feed(c, w)
    ensures v == w
  {
    WordAtOnce(c, v);
    WordAtOnce(c, w);
    StepsAreInjective(Xor(c, Widen(v)), Xor(c, Widen(w)), |v|);
    assert Widen(v) == Xor(c, Xor(c, Widen(v)));
    assert Widen(w) == Xor(c, Xor(c, Widen(w)));
    assert v == Widen(v)[..|v|] && w == Widen(w)[..|w|];
  }

  /** The two streams agree outside `width` bits starting at `lo`. */
  ghost predicate DifferInside(a: Bits, b: Bits, lo: nat, width: nat) {
    |a| == |b| && a != b && lo + width <= |a| &&
    a[..lo] == b[..lo] && a[lo + width..] == b[lo + width..]
  }

  lemma BurstChangesFeed(c: Word, p: Bits, v: Bits, w: Bits, s: Bits)
    requires |v| == |w| <= 32 && v != w
    ensures Feed(c, p + v + s) != Feed(c, p + w + s)
  {
    SplitFeed(c, p, v, s);
    SplitFeed(c, p, w, s);
    if Feed(c, p + v + s) == Feed(c, p + w + s) {
      FeedIsInjective(Feed(Feed(c, p), v), Feed(Feed(c, p), w), s);
      WindowIsInjective(Feed(c, p), v, w);
    }
  }

  /** Every burst of at most 32 bits, wherever it starts, changes the checksum. */
  lemma BurstChangesCrc(a: seq<Byte>, b: seq<Byte>, lo: nat, width: nat)
    requires width <= 32
    requires DifferInside(Stream(a), Stream(b), lo, width)
    ensures Crc(a) != Crc(b)
  {
    hide Stream, Feed, Register, BitsOf;
    var s, t := Stream(a), Stream(b);
    var v, w := s[lo..lo + width], t[lo..lo + width];
    assert s == s[..lo] + v + s[lo + width..];
    assert t == s[..lo] + w + s[lo + width..];
    BurstChangesFeed(ALL_ONES, s[..lo], v, w, s[lo + width..]);
    RegisterIsFeed(ALL_ONES, a);
    RegisterIsFeed(ALL_ONES, b);
    ComplementIsInjective(Register(ALL_ONES, a), Register(ALL_ONES, b));
  }

  lemma ComplementIsInjective(x: Bits, y: Bits)
    ensures Complement(x) == Complement(y) ==> x == y
  {
    assert Complement(Complement(x)) == x && Complement(Complement(y)) == y;
  }

  lemma SplitFeed(c: Word, p: Bits, v: Bits, s: Bits)
    ensures Feed(c, p + v + s) == Feed(Feed(Feed(c, p), v), s)
  {
    FeedAppend(c, p + v, s);
    FeedAppend(c, p, v);
  }

  lemma {:induction false} StreamAppend(a: seq<Byte>, b: seq<Byte>)
    ensures Stream(a + b) == Stream(a) + Stream(b)
  {
    hide BitsOf;
    if b == [] {
      assert a + b == a;
    } else {
      var n := |b| - 1;
      assert (a + b)[..|a + b| - 1] == a + b[..n];
      StreamAppend(a, b[..n]);
      assert Stream(a + b) == (Stream(a) + Stream(b[..n])) + BitsOf(b[n], 8);
    }
  }

  lemma {:induction false} StreamIsInjective(a: seq<Byte>, b: seq<Byte>)
    requires |a| == |b| && Stream(a) == Stream(b)
    ensures a == b
  {
    hide BitsOf, Stream, Number;
    if a != [] {
      var n := |a| - 1;
      LastByte(a);
      LastByte(b);
      StreamIsInjective(a[..n], b[..n]);
      assert Pow2(8) == 256;
      NumberOfBits(a[n], 8);
      NumberOfBits(b[n], 8);
      assert a == a[..n] + [a[n]] && b == b[..n] + [b[n]];
    }
  }

  lemma LastByte(a: seq<Byte>)
    requires a != []
    ensures var n := |a| - 1; Stream(a[..n]) == Stream(a)[..8 * n] && BitsOf(a[n], 8) == Stream(a)[8 * n..]
  {
    hide BitsOf;
  }

  /** Names differing only inside four consecutive bytes have different method ids. */
  lemma WindowChangesId(p: seq<Byte>, v: seq<Byte>, w: seq<Byte>, s: seq<Byte>)
    requires |v| == |w| <= 4 && v != w
    ensures Crc(p + v + s) != Crc(p + w + s)
  {
    StreamAppend(p + v, s);
    StreamAppend(p, v);
    StreamAppend(p + w, s);
    StreamAppend(p, w);
    var a, b := Stream(p + v + s), Stream(p + w + s);
    var lo, hi := |Stream(p)|, |Stream(p)| + 8 * |v|;
    assert a == Stream(p) + Stream(v) + Stream(s) && b == Stream(p) + Stream(w) + Stream(s);
    assert a[..lo] == Stream(p) == b[..lo];
    assert a[hi..] == Stream(s) == b[hi..];
    if a == b {
      assert Stream(v) == a[lo..hi] && Stream(w) == b[lo..hi];
      StreamIsInjective(v, w);
    }
    BurstChangesCrc(p + v + s, p + w + s, lo, 8 * |v|);
  }

  // ------------------------------------------------------------------
  // The bound of 32 bits is sharp
  // ------------------------------------------------------------------

  /** Feeding the register its own content drains it. */
  lemma {:induction false} FeedDrains(c: Word, bits: Bits)
    requires |bits| <= 32 && c == Widen(bits)
    ensures Feed(c, bits) == Zeros(32)
    decreases |bits|
  {
    if bits == [] {
      assert Widen(bits) == Zeros(32);
    } else {
      assert Mix(c, bits[0]) == Tail(bits[1..]);
      StepOfTail(bits[1..]);
      FeedDrains(FeedBit(c, bits[0]), bits[1..]);
    }
  }

  const ONE: Word := [true] + Zeros(31)

  lemma StepOfOne()
    ensures Step(ONE) == POLY
  {
    hide BitsOf;
    assert ShiftRight(ONE) == Zeros(32);
    assert Xor(Zeros(32), POLY) == POLY;
  }

  /** From zero, feeding the generator leads back to zero. */
  lemma GeneratorDrains()
    ensures Feed(Zeros(32), [true] + POLY) == Zeros(32)
  {
    hide Step, BitsOf;
    assert Mix(Zeros(32), true) == ONE;
    StepOfOne();
    assert ([true] + POLY)[1..] == POLY == Widen(POLY);
    FeedDrains(POLY, POLY);
  }

  /** The generator itself, a burst of 33 bits, leaves no trace in any register. */
  lemma GeneratorIsInvisible(c: Word, v: Bits)
    requires |v| == 33
    ensures Feed(c, v) == Feed(c, Xor(v, [true] + POLY))
  {
    hide Feed, BitsOf;
    FeedIsLinear(c, Zeros(32), v, [true] + POLY);
    GeneratorDrains();
    assert Xor(c, Zeros(32)) == c;
    assert Xor(Feed(c, v), Zeros(32)) == Feed(c, v);
  }

  lemma SplitCrc(p: seq<Byte>, v: seq<Byte>, s: seq<Byte>)
    ensures Crc(p + v + s) == Complement(Feed(Feed(Feed(ALL_ONES, Stream(p)), Stream(v)), Stream(s)))
  {
    hide Feed, Stream, Register;
    StreamAppend(p + v, s);
    StreamAppend(p, v);
    RegisterIsFeed(ALL_ONES, p + v + s);
    SplitFeed(ALL_ONES, Stream(p), Stream(v), Stream(s));
  }

  /** The bits u with the bits g mixed in from position k on. */
  function Flip(u: Bits, g: Bits, k: nat): (r: Bits)
    requires k + |g| <= |u|
    ensures |r| == |u|
  {
    u[..k] + Xor(u[k..k + |g|], g) + u[k + |g|..]
  }

  lemma FlipAt(u: Bits, g: Bits, k: nat, i: nat)
    requires k + |g| <= |u| && i < |u|
    ensures Flip(u, g, k)[i] == if k <= i < k + |g| then u[i] != g[i - k] else u[i]
  {}

  lemma FlipIsInvisible(c: Word, u: Bits, k: nat)
    requires k + 33 <= |u|
    ensures Feed(c, Flip(u, [true] + POLY, k)) == Feed(c, u)
  {
    hide Feed, BitsOf, Xor;
    var p, v, s := u[..k], u[k..k + 33], u[k + 33..];
    assert u == p + v + s;
    SplitFeed(c, p, v, s);
    SplitFeed(c, p, Xor(v, [true] + POLY), s);
    GeneratorIsInvisible(Feed(c, p), v);
  }

  lemma {:induction false} BitAt(x: nat, n: nat, i: nat)
    requires i < n
    ensures BitsOf(x, n)[i] == (x / Pow2(i) % 2 == 1)
  {
    if i > 0 {
      BitAt(x / 2, n - 1, i - 1);
      HalveTwice(x, Pow2(i - 1));
    }
  }

  lemma HalveTwice(x: nat, m: nat)
    requires m > 0
    ensures x / 2 / m == x / (2 * m)
  {
    var q, r := x / 2 / m, x / 2 % m;
    assert x / 2 == m * q + r;
    assert x == 2 * m * q + (2 * r + x % 2);
    Quotient(x, 2 * m, q, 2 * r + x % 2);
  }

  /** Mixed in twice, four positions apart, the generator leaves the top bit of every byte alone. */
  lemma TopBitsStay(u: Bits, g: Bits, i: nat)
    requires |u| == 40 && |g| == 33 && i < 5
    requires g[7] == g[3] && g[15] == g[11] && g[23] == g[19] && g[31] == g[27]
    ensures Flip(Flip(u, g, 0), g, 4)[8 * i + 7] == u[8 * i + 7]
  {
    hide Flip;
    FlipAt(u, g, 0, 8 * i + 7);
    FlipAt(Flip(u, g, 0), g, 4, 8 * i + 7);
  }

  lemma PolyPairs()
    ensures POLY[6] == POLY[2] && POLY[14] == POLY[10] && POLY[22] == POLY[18] && POLY[30] == POLY[26]
  {
    var x := 0xEDB8_8320;
    Powers();
    BitAt(x, 32, 2);
    BitAt(x, 32, 6);
    BitAt(x, 32, 10);
    BitAt(x, 32, 14);
    BitAt(x, 32, 18);
    BitAt(x, 32, 22);
    BitAt(x, 32, 26);
    BitAt(x, 32, 30);
  }

  lemma Powers()
    ensures Pow2(2) == 0x4 && Pow2(6) == 0x40 && Pow2(10) == 0x400 && Pow2(14) == 0x4000
    ensures Pow2(18) == 0x4_0000 && Pow2(22) == 0x40_0000 && Pow2(26) == 0x400_0000 && Pow2(30) == 0x4000_0000
  {
    assert Pow2(6) == 0x40;
    assert Pow2(10) == 0x400;
    assert Pow2(14) == 0x4000;
    assert Pow2(18) == 0x4_0000;
    assert Pow2(22) == 0x40_0000;
    assert Pow2(26) == 0x400_0000;
  }

  /** The top bit of a byte tells whether it is ASCII. */
  lemma {:induction false} TopBitOf(data: seq<Byte>, i: nat)
    requires i < |data|
    ensures Stream(data)[8 * i + 7] <==> data[i] >= 0x80
  {
    var n := |data| - 1;
    if i < n {
      TopBitOf(data[..n], i);
    } else {
      BitAt(data[n], 8, 7);
      assert Pow2(7) == 0x80;
    }
  }

  /**
    Five bytes are too many: every five-byte window has another with the same id, with ASCII
    characters in the same places, so that every window of five ASCII characters has an ASCII twin.
   */
  lemma FiveBytesCollide(p: seq<Byte>, v: seq<Byte>, s: seq<Byte>) returns (w: seq<Byte>)
    requires |v| == 5
    ensures |w| == 5 && w != v
    ensures forall i :: 0 <= i < 5 ==> (w[i] < 0x80 <==> v[i] < 0x80)
    ensures Crc(p + v + s) == Crc(p + w + s)
  {
    hide Feed, Stream, Register, Unstream, BitsOf, Crc;
    var u := Stream(v);
    var g := [true] + POLY;
    var once := Flip(u, g, 0);
    var x := Flip(once, g, 4);
    w := Unstream(x);
    StreamOfUnstream(x);
    FlipAt(u, g, 0, 0);
    FlipAt(once, g, 4, 0);
    assert x[0] != u[0];
    hide Flip;
    SplitCrc(p, v, s);
    SplitCrc(p, w, s);
    var c := Feed(ALL_ONES, Stream(p));
    FlipIsInvisible(c, u, 0);
    FlipIsInvisible(c, once, 4);
    PolyPairs();
    forall i | 0 <= i < 5 ensures w[i] < 0x80 <==> v[i] < 0x80 {
      TopBitsStay(u, g, i);
      TopBitOf(v, i);
      TopBitOf(w, i);
    }
  }
}
