/** The codec as it runs: buffers pushed to, cursors advanced in loops. */
module CodecLoops {
  import opened Bytes
  import opened Utf8
  import opened SortedMap
  import opened Values
  import opened Encoder
  import opened Decoder
  import opened ArgIndex

  // ------------------------------------------------------------------
  // Encoding
  // ------------------------------------------------------------------

  method ArrayOf(items: seq<seq<Byte>>) returns (out: seq<Byte>)
    requires |items| <= 15
    ensures out == EncodeArray(items)
  {
    out := [0x90 + |items|];
    for i := 0 to |items|
      invariant out + Concat(items[i..]) == EncodeArray(items)
    {
      assert items[i..][1..] == items[i + 1..];
      assert out + Concat(items[i..]) == out + items[i] + Concat(items[i + 1..]);
      out := out + items[i];
    }
    assert out + [] == out;
  }

  method EncodeValue(val: Value) returns (out: seq<Byte>)
    requires ArraysFit(val)
    ensures out == Encode(val)
    decreases val
  {
    match val
    case Nil => out := [0xC0];
    case Bool(b) => out := [if b then 0xC3 else 0xC2];
    case Integer(i) => out := EncodeInt(i);
    case Float(bits) => out := [0xCB] + BigEndian(bits, 8);
    case String(s) => out := EncodeStr(s);
    case Binary(data) => out := EncodeBytes(data);
    case Array(arr) =>
      var items := [];
      for i := 0 to |arr|
        invariant items + EncodeEach(arr[i..]) == EncodeEach(arr)
      {
        var item := EncodeValue(arr[i]);
        assert arr[i..][1..] == arr[i + 1..];
        assert items + EncodeEach(arr[i..]) == items + [item] + EncodeEach(arr[i + 1..]);
        items := items + [item];
      }
      assert items + [] == items;
      out := ArrayOf(items);
    case Map(map') => out := EncodeMap(map');
  }

  method EncodeMap(map': Sorted<Value>) returns (out: seq<Byte>)
    requires forall i :: 0 <= i < |map'| ==> ArraysFit(map'[i].val)
    ensures out == MapHeader(|map'|) + Concat(EncodeEntries(map'))
    decreases map'
  {
    hide Encode, EncodeStr, Less, Valid, ArraysFit;
    var count := |map'|;
    if count <= 15 {
      out := [0x80 + count];
    } else {
      TwoBytes(count);
      out := [0xDE, count / 0x100 % 0x100, count % 0x100];
    }
    ghost var all := MapHeader(count) + Concat(EncodeEntries(map'));
    assert map'[0..] == map';
    for i := 0 to count
      invariant out + Concat(EncodeEntries(map'[i..])) == all
    {
      var e := map'[i];
      assert map'[i..][1..] == map'[i + 1..];
      assert EncodeEntries(map'[i..])[1..] == EncodeEntries(map'[i + 1..]);
      var v := EncodeValue(e.val);
      assert out + Concat(EncodeEntries(map'[i..]))
          == out + EncodeStr(e.key) + v + Concat(EncodeEntries(map'[i + 1..]));
      out := out + EncodeStr(e.key) + v;
    }
    assert out + [] == out;
  }

  lemma TwoBytes(x: nat)
    ensures BigEndian(x, 2) == [x / 0x100 % 0x100, x % 0x100]
  {
    assert BigEndian(x / 0x100 / 0x100, 0) == [];
    assert BigEndian(x / 0x100, 1) == [x / 0x100 % 0x100];
  }

  // ------------------------------------------------------------------
  // Skipping
  // ------------------------------------------------------------------

  /** An offset, or -1. */
  function OrMinusOne(r: Option<nat>): int {
    match r case None => -1 case Some(p) => p
  }

  method SkipElement(data: seq<Byte>, pos: nat) returns (next: int)
    ensures next == OrMinusOne(Skip(data, pos))
    decreases Left(data, pos)
  {
    if pos >= |data| {
      return -1;
    }
    var b := data[pos];
    if b <= 0x7F || b >= 0xE0 {
      next := pos + 1;
    } else if b <= 0x9F {
      var n := if b <= 0x8F then (b - 0x80) * 2 else b - 0x90;
      var p := pos + 1;
      for i := 0 to n
        invariant pos < p
        invariant SkipMany(data, pos + 1, n) == SkipMany(data, p, n - i)
      {
        next := SkipElement(data, p);
        if next < 0 {
          return -1;
        }
        p := next;
      }
      next := p;
    } else if b <= 0xBF {
      next := pos + 1 + (b - 0xA0);
    } else {
      match b
      case 0xC0 => next := pos + 1;
      case 0xC2 => next := pos + 1;
      case 0xC3 => next := pos + 1;
      case 0xCA => next := pos + 5;
      case 0xCE => next := pos + 5;
      case 0xD2 => next := pos + 5;
      case 0xCB => next := pos + 9;
      case 0xCF => next := pos + 9;
      case 0xD3 => next := pos + 9;
      case 0xCC => next := pos + 2;
      case 0xD0 => next := pos + 2;
      case 0xCD => next := pos + 3;
      case 0xD1 => next := pos + 3;
      case 0xD9 => next := pos + 2 + Get(data, pos + 1);
      case _ => next := -1;
    }
  }

  method ArgOffset(data: seq<Byte>, index: nat) returns (off: int)
    ensures off == OrMinusOne(Offset(data, index))
  {
    if data == [] {
      return -1;
    }
    var b0 := data[0];
    if !(0x90 <= b0 <= 0x9F) {
      return if index == 0 then 0 else -1;
    }
    if index >= b0 - 0x90 {
      return -1;
    }
    var pos := 1;
    for i := 0 to index
      invariant SkipMany(data, 1, index) == SkipMany(data, pos, index - i)
    {
      var next := SkipElement(data, pos);
      if next < 0 {
        return -1;
      }
      pos := next;
    }
    off := pos;
  }

  method DecodeInt64At(data: seq<Byte>, index: nat) returns (v: I64)
    ensures v == Int64Arg(data, index)
  {
    var off := ArgOffset(data, index);
    if off < 0 || off >= |data| {
      return 0;
    }
    var pos: nat := off;
    var b := data[pos];
    if b <= 0x7F {
      v := b;
    } else if b >= 0xE0 {
      v := ToI8(b);
    } else {
      match b
      case 0xCC => v := Get(data, pos + 1);
      case 0xCD => v := Get(data, pos + 1) * 0x100 + Get(data, pos + 2);
      case 0xCE => v := Four(data, pos);
      case 0xD0 => v := ToI8(Get(data, pos + 1));
      case 0xD1 => v := ToI16(Get(data, pos + 1) * 0x100 + Get(data, pos + 2));
      case 0xD2 => v := ToI32(Four(data, pos));
      case 0xD3 =>
        if |data| < pos + 9 {
          return 0;
        }
        v := ShiftIn(data[pos + 1..pos + 9]);
      case _ => v := 0;
    }
  }

  /** Bytes shifted into a 64-bit register, the top ones first. */
  method ShiftIn(bs: seq<Byte>) returns (val: I64)
    ensures val == ToI64(Unsigned(bs))
  {
    val := 0;
    for i := 0 to |bs|
      invariant val == ToI64(Unsigned(bs[..i]))
    {
      assert bs[..i + 1][..i] == bs[..i];
      WrapStep(Unsigned(bs[..i]), bs[i]);
      val := ToI64(val * 0x100) + bs[i];
    }
    assert bs[..|bs|] == bs;
  }

  lemma WrapStep(u: nat, b: Byte)
    ensures ToI64(ToI64(u) * 0x100) + b == ToI64(u * 0x100 + b)
  {
    ScaledMod(u, b);
    ScaledMod(ToI64(u), 0);
    LowBits(u);
  }

  lemma LowBits(u: nat)
    ensures ToI64(u) % 0x100_0000_0000_0000 == u % 0x100_0000_0000_0000
  {
    var q, r := u / 0x1_0000_0000_0000_0000, u % 0x1_0000_0000_0000_0000;
    var x, y := r / 0x100_0000_0000_0000, r % 0x100_0000_0000_0000;
    assert u == (q * 0x100 + x) * 0x100_0000_0000_0000 + y;
    ModUnique(u, 0x100_0000_0000_0000, q * 0x100 + x, y);
    var z := if r < 0x8000_0000_0000_0000 then x else x - 0x100;
    assert ToI64(u) == z * 0x100_0000_0000_0000 + y;
    ModUnique(ToI64(u), 0x100_0000_0000_0000, z, y);
  }

  lemma ScaledMod(v: int, b: Byte)
    ensures (v * 0x100 + b) % 0x1_0000_0000_0000_0000 == v % 0x100_0000_0000_0000 * 0x100 + b
  {
    var q, r := v / 0x100_0000_0000_0000, v % 0x100_0000_0000_0000;
    assert v * 0x100 + b == q * 0x1_0000_0000_0000_0000 + (r * 0x100 + b);
    ModUnique(v * 0x100 + b, 0x1_0000_0000_0000_0000, q, r * 0x100 + b);
  }

  // ------------------------------------------------------------------
  // Decoding
  // ------------------------------------------------------------------

  method DecodeItemsAt(data: seq<Byte>, pos: nat, count: nat) returns (r: Option<Decoded<seq<Value>>>)
    requires pos <= |data|
    ensures r == Shift(pos, DecodeItems(data[pos..], count, []))
    decreases |data| - pos, 1
  {
    hide Decode;
    var arr := [];
    var cur := pos;
    for i := 0 to count
      invariant pos <= cur <= |data|
      invariant Shift(cur, DecodeItems(data[cur..], count - i, arr)) == Shift(pos, DecodeItems(data[pos..], count, []))
    {
      var d := DecodeAt(data, cur);
      if d.None? {
        return None;
      }
      assert data[cur..][d.value.used - cur..] == data[d.value.used..];
      arr := arr + [d.value.v];
      cur := d.value.used;
    }
    r := Some(Decoded(arr, cur));
  }

  method DecodeEntriesAt(data: seq<Byte>, pos: nat, count: nat) returns (r: Option<Decoded<Sorted<Value>>>)
    requires pos <= |data|
    ensures r == Shift(pos, DecodeEntries(data[pos..], count, []))
    decreases |data| - pos, 1
  {
    hide Decode, DecodeEntries, Insert, Less, Valid;
    var map': Sorted<Value> := [];
    var cur := pos;
    for i := 0 to count
      invariant pos <= cur <= |data|
      invariant Shift(cur, DecodeEntries(data[cur..], count - i, map'))
             == Shift(pos, DecodeEntries(data[pos..], count, []))
    {
      var k := DecodeAt(data, cur);
      if k.None? || !k.value.v.String? {
        EntriesStuck(data[cur..], count - i, map');
        return None;
      }
      ghost var w := k.value.used - cur;
      assert data[cur..][w..] == data[k.value.used..];
      var d := DecodeAt(data, k.value.used);
      if d.None? {
        EntriesStuck(data[cur..], count - i, map');
        return None;
      }
      ghost var x := d.value.used - k.value.used;
      assert data[cur..][w + x..] == data[d.value.used..];
      EntriesNext(data[cur..], count - i, map', Decoded(k.value.v, w), Decoded(d.value.v, x));
      map' := Insert(map', k.value.v.s, d.value.v);
      cur := d.value.used;
    }
    NoEntries(data[cur..], map');
    r := Some(Decoded(map', cur));
  }

  method DecodeAt(data: seq<Byte>, pos: nat) returns (r: Option<Decoded<Value>>)
    ensures r == DecodedAt(data, pos)
    ensures r.Some? ==> pos < r.value.used <= |data|
    decreases Left(data, pos), 0
  {
    hide DecodeItems, DecodeEntries, Lossy, Promote, Unsigned, IntOf, Pow256;
    if pos >= |data| {
      return None;
    }
    var bs := data[pos..];
    match ReadHead(bs)
    case Reject => r := None;
    case Leaf(v, used) => r := Some(Decoded(v, pos + used));
    case ArrayOf(count, used) =>
      var items := DecodeItemsAt(data, pos + used, count);
      assert bs[used..] == data[pos + used..];
      r := match items case None => None case Some(d) => Some(Decoded(Array(d.v), d.used));
    case MapOf(count, used) =>
      var entries := DecodeEntriesAt(data, pos + used, count);
      assert bs[used..] == data[pos + used..];
      r := match entries case None => None case Some(d) => Some(Decoded(Map(d.v), d.used));
  }
}
