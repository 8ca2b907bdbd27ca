/** MessagePack values, and the integers they carry. */
module Values {
  import opened Bytes
  import opened Utf8
  import opened SortedMap

  type I32 = x: int | -0x8000_0000 <= x < 0x8000_0000
  type I64 = x: int | -0x8000_0000_0000_0000 <= x < 0x8000_0000_0000_0000
  type U64 = x: int | 0 <= x < 0x1_0000_0000_0000_0000

  /** The generic value; a float is its IEEE 754 bit pattern. */
  datatype Value =
    | Nil
    | Bool(b: bool)
    | Integer(i: I64)
    | Float(bits: U64)
    | String(s: Str)
    | Binary(data: seq<Byte>)
    | Array(items: seq<Value>)
    | Map(entries: Sorted<Value>)

  /** Casts to signed integers keep the low bits. */
  function ToI8(x: int): (r: int) {
    var u := x % 0x100;
    if u < 0x80 then u else u - 0x100
  }

  function ToI16(x: int): (r: int) {
    var u := x % 0x1_0000;
    if u < 0x8000 then u else u - 0x1_0000
  }

  function ToI32(x: int): (r: I32) {
    var u := x % 0x1_0000_0000;
    if u < 0x8000_0000 then u else u - 0x1_0000_0000
  }

  function ToI64(x: int): (r: I64) {
    var u := x % 0x1_0000_0000_0000_0000;
    if u < 0x8000_0000_0000_0000 then u else u - 0x1_0000_0000_0000_0000
  }

  /** The low n bytes of x, most significant first. */
  function BigEndian(x: int, n: nat): (bs: seq<Byte>)
    ensures |bs| == n
    decreases n
  {
    if n == 0 then [] else BigEndian(x / 0x100, n - 1) + [x % 0x100]
  }

  /** The number a big-endian byte string denotes. */
  function Unsigned(bs: seq<Byte>): (u: nat)
    ensures u < Pow256(|bs|)
  {
    if bs == [] then 0 else Unsigned(bs[..|bs| - 1]) * 0x100 + bs[|bs| - 1]
  }

  function Pow256(n: nat): (r: nat)
    ensures r > 0
  {
    if n == 0 then 1 else Pow256(n - 1) * 0x100
  }

  lemma {:induction false} UnsignedOfBigEndian(x: int, n: nat)
    ensures Unsigned(BigEndian(x, n)) == x % Pow256(n)
    decreases n
  {
    if n > 0 {
      UnsignedOfBigEndian(x / 0x100, n - 1);
      ModStep(x, Pow256(n - 1));
    }
  }

  lemma ModStep(x: int, m: nat)
    requires m > 0
    ensures x / 0x100 % m * 0x100 + x % 0x100 == x % (m * 0x100)
  {
    var q, r := x / 0x100 / m, x / 0x100 % m;
    var s := r * 0x100 + x % 0x100;
    assert x == (q * m + r) * 0x100 + x % 0x100;
    assert x == q * (m * 0x100) + s;
    assert 0 <= s < m * 0x100;
    ModUnique(x, m * 0x100, q, s);
  }

  lemma ModUnique(x: int, d: nat, q: int, r: nat)
    requires d > 0 && x == q * d + r && r < d
    ensures x % d == r
  {
    var k := x / d - q;
    assert x == x / d * d + x % d;
    assert k * d == r - x % d;
    SmallMultiple(k, d);
  }

  lemma Pow256Values()
    ensures Pow256(1) == 0x100 && Pow256(2) == 0x1_0000 && Pow256(4) == 0x1_0000_0000
    ensures Pow256(7) == 0x100_0000_0000_0000 && Pow256(8) == 0x1_0000_0000_0000_0000
  {
    assert Pow256(3) == 0x100_0000;
    assert Pow256(5) == 0x100_0000_0000;
    assert Pow256(6) == 0x1_0000_0000_0000;
  }
}
