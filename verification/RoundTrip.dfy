/** Decoding undoes encoding. */
module RoundTrip {
  import opened Bytes
  import opened Utf8
  import opened SortedMap
  import opened Values
  import opened Encoder
  import opened Decoder

  // ------------------------------------------------------------------
  // Heads of encodings
  // ------------------------------------------------------------------

  /** A field written big-endian is read back, whatever follows. */
  lemma FieldOfBigEndian(tag: Byte, x: int, w: nat, t: seq<Byte>)
    ensures Field([tag] + BigEndian(x, w) + t, w) == x % Pow256(w)
  {
    assert ([tag] + BigEndian(x, w) + t)[1..1 + w] == BigEndian(x, w);
    UnsignedOfBigEndian(x, w);
  }

  lemma HeadOfIntField(tag: Byte, x: int, w: nat, signed: bool, t: seq<Byte>)
    requires Classify(tag) == Int(w, signed)
    ensures ReadHead([tag] + BigEndian(x, w) + t) == Leaf(Integer(IntOf(x % Pow256(w), w, signed)), 1 + w)
  {
    hide Classify, Lossy, Promote, IntOf, Unsigned, BigEndian, Pow256, Field;
    FieldOfBigEndian(tag, x, w, t);
  }

  lemma HeadOfFixint(i: I64, t: seq<Byte>)
    requires -32 <= i <= 0x7F
    ensures ReadHead([i % 0x100] + t) == Leaf(Integer(i), 1)
  {
    hide Lossy, Promote, Unsigned, Pow256, Field, IntOf;
    assert ([i % 0x100] + t)[0] == i % 0x100;
  }

  lemma OneByte(i: Byte)
    ensures BigEndian(i, 1) == [i]
  {
    assert BigEndian(i / 0x100, 0) == [];
  }

  lemma IntOfBack(i: I64)
    ensures 0 <= i <= 0xFF ==> IntOf(i % Pow256(1), 1, false) == i
    ensures 0 <= i <= 0xFFFF ==> IntOf(i % Pow256(2), 2, false) == i
    ensures -0x8000_0000 <= i < 0x8000_0000 ==> IntOf(i % Pow256(4), 4, true) == i
    ensures IntOf(i % Pow256(8), 8, true) == i
  {
    hide Pow256, IntOf;
    Pow256Values();
    if 0 <= i <= 0xFFFF {
      UnsignedBack(i);
    }
    SignedBack(i);
  }

  lemma UnsignedBack(i: nat)
    requires i <= 0xFFFF
    ensures i <= 0xFF ==> i % 0x100 == i
    ensures i % 0x1_0000 == i && IntOf(i, 1, false) == IntOf(i, 2, false) == i
  {}

  lemma SignedBack(i: I64)
    ensures -0x8000_0000 <= i < 0x8000_0000 ==> IntOf(i % 0x1_0000_0000, 4, true) == i
    ensures IntOf(i % 0x1_0000_0000_0000_0000, 8, true) == i
  {}

  lemma HeadOfInt(i: I64, t: seq<Byte>)
    ensures ReadHead(EncodeInt(i) + t) == Leaf(Integer(i), |EncodeInt(i)|)
  {
    hide ReadHead, BigEndian, Pow256, IntOf;
    IntOfBack(i);
    if -32 <= i <= 0x7F {
      HeadOfFixint(i, t);
    } else if 0 <= i <= 0xFF {
      OneByte(i);
      assert [0xCC, i] == [0xCC] + BigEndian(i, 1);
      HeadOfIntField(0xCC, i, 1, false, t);
    } else if 0 <= i <= 0xFFFF {
      HeadOfIntField(0xCD, i, 2, false, t);
    } else if -0x8000_0000 <= i < 0x8000_0000 {
      HeadOfIntField(0xD2, i, 4, true, t);
    } else {
      HeadOfIntField(0xD3, i, 8, true, t);
    }
  }

  lemma ByteField(tag: Byte, n: Byte, t: seq<Byte>)
    ensures Field([tag, n] + t, 1) == n
  {
    assert ([tag, n] + t)[1..2] == [n];
    assert Unsigned([n][..0]) == 0;
  }

  lemma HeadOfFloat(bits: U64, t: seq<Byte>)
    ensures ReadHead([0xCB] + BigEndian(bits, 8) + t) == Leaf(Float(bits), 9)
  {
    hide Lossy, Promote, IntOf, Unsigned, BigEndian, Pow256, Field;
    Pow256Values();
    FieldOfBigEndian(0xCB, bits, 8, t);
  }

  lemma HeadOfText(bs: seq<Byte>, w: nat, end: nat, raw: seq<Byte>)
    requires bs != [] && Classify(bs[0]).Text? && Classify(bs[0]).width == w
    requires 1 + w <= end <= |bs| && end == 1 + w + Classify(bs[0]).short + Field(bs, w)
    requires bs[1 + w..end] == raw
    ensures ReadHead(bs) == Leaf(String(Lossy(raw)), end)
  {
    hide Classify, Lossy, Promote, IntOf, Pow256, Field;
  }

  lemma TagTable(n: nat)
    requires n <= 31
    ensures Classify(0xA0 + n) == Text(0, n)
    ensures Classify(0xD9) == Text(1, 0) && Classify(0xC4) == Blob(1) && Classify(0xC5) == Blob(2)
    ensures Classify(0xDA) == Text(2, 0) && Classify(0xDC) == Items(2, 0)
  {}

  lemma HeadOfShortStr(n: nat, s: seq<Byte>, t: seq<Byte>)
    requires n == |s| <= 31
    ensures ReadHead([0xA0 + n] + s + t) == Leaf(String(Lossy(s)), 1 + n)
  {
    hide *;
    var tag: Byte := 0xA0 + n;
    var bs := [tag] + s + t;
    TagTable(n);
    assert bs == [tag] + (s + t);
    EmptyField(bs);
    SliceAll([tag], s, t);
    HeadOfText(bs, 0, 1 + n, s);
  }

  lemma HeadOfLongStr(n: Byte, s: seq<Byte>, t: seq<Byte>)
    requires n <= |s|
    ensures ReadHead([0xD9, n] + s + t) == Leaf(String(Lossy(s[..n])), 2 + n)
  {
    hide *;
    var bs := [0xD9, n] + s + t;
    TagTable(0);
    assert bs == [0xD9, n] + (s + t);
    ByteField(0xD9, n, s + t);
    SliceAfter([0xD9, n], s, t, n);
    HeadOfText(bs, 1, 2 + n, s[..n]);
  }

  /** What is left of a text after its length is cut to a byte. */
  function Kept(s: seq<Byte>): (r: seq<Byte>)
    ensures r == s <==> |s| <= 0xFF
  {
    if |s| <= 31 then s else s[..|s| % 0x100]
  }

  /** What reading an encoded text gives, whatever its length. */
  lemma DecodeOfStr(s: seq<Byte>, t: seq<Byte>)
    ensures Decode(EncodeStr(s) + t)
         == Some(Decoded(String(Lossy(Kept(s))), |EncodeStr(s)| - |s| + |Kept(s)|))
  {
    hide ReadHead, Lossy, DecodeItems, DecodeEntries;
    if |s| <= 31 {
      HeadOfShortStr(|s|, s, t);
    } else {
      HeadOfLongStr(|s| % 0x100, s, t);
    }
  }

  lemma HeadOfBlob(bs: seq<Byte>, w: nat, n: nat)
    requires bs != [] && Classify(bs[0]) == Blob(w)
    requires 1 + w <= |bs| && Field(bs, w) == n
    requires 1 + w + n <= |bs|
    ensures ReadHead(bs) == Leaf(Binary(bs[1 + w..1 + w + n]), 1 + w + n)
  {
    hide Classify, Lossy, Promote, IntOf, Pow256, Field;
  }

  lemma HeadOfShortBytes(data: seq<Byte>, t: seq<Byte>)
    requires |data| <= 0xFF
    ensures ReadHead([0xC4, |data|] + data + t) == Leaf(Binary(data), 2 + |data|)
  {
    hide *;
    var bs := [0xC4, |data|] + data + t;
    TagTable(0);
    assert bs == [0xC4, |data|] + (data + t);
    ByteField(0xC4, |data|, data + t);
    assert bs[2..2 + |data|] == data by { SliceAll([0xC4, |data|], data, t); }
    HeadOfBlob(bs, 1, |data|);
  }

  lemma HeadOfLongBytes(n: nat, data: seq<Byte>, t: seq<Byte>)
    requires n == |data| % Pow256(2) <= |data|
    ensures ReadHead([0xC5] + BigEndian(|data|, 2) + data + t) == Leaf(Binary(data[..n]), 3 + n)
  {
    hide *;
    var header := [0xC5] + BigEndian(|data|, 2);
    var bs := header + data + t;
    TagTable(0);
    Regroup([0xC5], BigEndian(|data|, 2), data, t);
    FieldOfBigEndian(0xC5, |data|, 2, data + t);
    assert bs[0] == header[0] == 0xC5;
    assert |header| == 3 && |bs| == 3 + |data| + |t|;
    SliceAfter(header, data, t, n);
    HeadOfBlob(bs, 2, n);
  }

  /** What reading encoded binary data gives, whatever its length. */
  lemma HeadOfBytes(data: seq<Byte>, t: seq<Byte>)
    ensures |data| <= 0xFF ==> ReadHead(EncodeBytes(data) + t) == Leaf(Binary(data), 2 + |data|)
    ensures |data| > 0xFF ==>
      ReadHead(EncodeBytes(data) + t) == Leaf(Binary(data[..|data| % 0x1_0000]), 3 + |data| % 0x1_0000)
  {
    hide ReadHead, BigEndian, Pow256;
    Pow256Values();
    if |data| <= 0xFF {
      HeadOfShortBytes(data, t);
    } else {
      HeadOfLongBytes(|data| % 0x1_0000, data, t);
    }
  }

  lemma HeadOfArray(count: nat, t: seq<Byte>)
    requires count <= 15
    ensures ReadHead([0x90 + count] + t) == ArrayOf(count, 1)
  {
    hide Lossy, Promote, IntOf, Pow256;
    EmptyField([0x90 + count] + t);
  }

  lemma HeadOfMap(count: nat, t: seq<Byte>)
    ensures ReadHead(MapHeader(count) + t) == MapOf(count % 0x1_0000, |MapHeader(count)|)
  {
    hide Lossy, Promote, IntOf, Unsigned, BigEndian, Pow256, Field;
    Pow256Values();
    var bs := MapHeader(count) + t;
    if count <= 15 {
      EmptyField(bs);
    } else {
      FieldOfBigEndian(0xDE, count, 2, t);
    }
  }

  // ------------------------------------------------------------------
  // Whole values
  // ------------------------------------------------------------------

  /** Every encodable value comes back, with its exact length, whatever bytes follow. */
  lemma {:induction false} DecodeOfEncode(v: Value, t: seq<Byte>)
    requires Encodable(v)
    ensures ArraysFit(v)
    ensures Decode(Encode(v) + t) == Some(Decoded(v, |Encode(v)|))
    decreases v
  {
    hide ReadHead, Lossy, DecodeItems, DecodeEntries, EncodeInt, EncodeStr, EncodeBytes, BigEndian, MapHeader;
    hide Concat, EncodeEach, EncodeEntries, Valid, Less;
    EncodableFits(v);
    match v
    case Nil => SimpleHeads(t);
    case Bool(b) => SimpleHeads(t);
    case Integer(i) => HeadOfInt(i, t);
    case Float(bits) => HeadOfFloat(bits, t);
    case String(s) =>
      DecodeOfStr(s, t);
      LossyIsIdentityIffValid(s);
    case Binary(data) =>
      HeadOfBytes(data, t);
      assert |data| > 0xFF ==> data[..|data| % 0x1_0000] == data;
      BytesLength(data);
    case Array(items) =>
      var body := Concat(EncodeEach(items));
      HeadOfArray(|items|, body + t);
      assert Encode(v) + t == [0x90 + |items|] + (body + t);
      assert (Encode(v) + t)[1..] == body + t;
      DecodeOfItems(items, t, []);
      assert [] + items == items;
    case Map(entries) =>
      var header, body := MapHeader(|entries|), Concat(EncodeEntries(entries));
      HeadOfMap(|entries|, body + t);
      assert Encode(v) + t == header + (body + t);
      assert (Encode(v) + t)[|header|..] == body + t;
      assert entries[0..] == entries && entries[..0] == [];
      DecodeOfEntries(entries, 0, t);
  }

  lemma SimpleHeads(t: seq<Byte>)
    ensures ReadHead([0xC0] + t) == Leaf(Nil, 1)
    ensures ReadHead([0xC2] + t) == Leaf(Bool(false), 1)
    ensures ReadHead([0xC3] + t) == Leaf(Bool(true), 1)
  {}

  lemma BytesLength(data: seq<Byte>)
    ensures |EncodeBytes(data)| == (if |data| <= 0xFF then 2 else 3) + |data|
  {}

  lemma {:induction false} DecodeOfItems(items: seq<Value>, t: seq<Byte>, acc: seq<Value>)
    requires forall i :: 0 <= i < |items| ==> Encodable(items[i]) && ArraysFit(items[i])
    ensures DecodeItems(Concat(EncodeEach(items)) + t, |items|, acc)
         == Some(Decoded(acc + items, |Concat(EncodeEach(items))|))
    decreases items
  {
    hide ReadHead, Decode, Encode, Encodable, ArraysFit;
    var bs := Concat(EncodeEach(items)) + t;
    if items == [] {
      assert acc + items == acc;
    } else {
      var first, rest := Encode(items[0]), Concat(EncodeEach(items[1..]));
      assert EncodeEach(items)[1..] == EncodeEach(items[1..]);
      assert bs == first + (rest + t);
      DecodeOfEncode(items[0], rest + t);
      assert bs[|first|..] == rest + t;
      DecodeOfItems(items[1..], t, acc + [items[0]]);
      assert acc + [items[0]] + items[1..] == acc + items;
    }
  }

  lemma {:induction false} DecodeOfEntries(m: Sorted<Value>, i: nat, t: seq<Byte>)
    requires i <= |m|
    requires forall j :: 0 <= j < |m| ==> |m[j].key| <= 0xFF && Encodable(m[j].val) && ArraysFit(m[j].val)
    ensures DecodeEntries(Concat(EncodeEntries(m[i..])) + t, |m| - i, m[..i])
         == Some(Decoded(m, |Concat(EncodeEntries(m[i..]))|))
    decreases m[i..]
  {
    hide ReadHead, Decode, Encode, Encodable, ArraysFit, Insert, EncodeStr, Less, Valid, DecodeEntries;
    var bs := Concat(EncodeEntries(m[i..])) + t;
    if i == |m| {
      assert m[..i] == m;
      NoEntries(bs, m);
    } else {
      var e := m[i];
      var k, v, rest := EncodeStr(e.key), Encode(e.val), Concat(EncodeEntries(m[i + 1..]));
      assert m[i..][1..] == m[i + 1..];
      assert EncodeEntries(m[i..])[1..] == EncodeEntries(m[i + 1..]);
      assert bs == k + (v + (rest + t));
      DecodeOfKey(e.key, v + (rest + t));
      assert bs[|k|..] == v + (rest + t);
      DecodeOfEncode(e.val, rest + t);
      assert bs[|k| + |v|..] == rest + t;
      InsertLast(m[..i], e.key, e.val);
      assert m[..i] + [Entry(e.key, e.val)] == m[..i + 1];
      DecodeOfEntries(m, i + 1, t);
      EntriesNext(bs, |m| - i, m[..i], Decoded(String(e.key), |k|), Decoded(e.val, |v|));
    }
  }

  lemma DecodeOfKey(k: Str, t: seq<Byte>)
    requires |k| <= 0xFF
    ensures Decode(EncodeStr(k) + t) == Some(Decoded(String(k), |EncodeStr(k)|))
  {
    hide Decode, Lossy, EncodeStr;
    DecodeOfStr(k, t);
    LossyIsIdentityIffValid(k);
  }

  // ------------------------------------------------------------------
  // Forms that are read but never written
  // ------------------------------------------------------------------

  lemma DecodeOfStr16(s: seq<Byte>, t: seq<Byte>)
    requires |s| <= 0xFFFF
    ensures Decode([0xDA] + BigEndian(|s|, 2) + s + t) == Some(Decoded(String(Lossy(s)), 3 + |s|))
  {
    hide *;
    Pow256Values();
    var header := [0xDA] + BigEndian(|s|, 2);
    var bs := header + s + t;
    TagTable(0);
    Regroup([0xDA], BigEndian(|s|, 2), s, t);
    FieldOfBigEndian(0xDA, |s|, 2, s + t);
    assert bs[0] == 0xDA;
    SliceAll(header, s, t);
    HeadOfText(bs, 2, 3 + |s|, s);
    DecodeLeaf(bs);
  }

  lemma DecodeLeaf(bs: seq<Byte>)
    requires bs != [] && ReadHead(bs).Leaf?
    ensures Decode(bs) == Some(Decoded(ReadHead(bs).v, ReadHead(bs).used))
  {
    hide ReadHead;
  }

  lemma HeadOfArray16(count: nat, t: seq<Byte>)
    requires count <= 0xFFFF
    ensures ReadHead([0xDC] + BigEndian(count, 2) + t) == ArrayOf(count, 3)
  {
    hide *;
    Pow256Values();
    TagTable(0);
    var bs := [0xDC] + BigEndian(count, 2) + t;
    FieldOfBigEndian(0xDC, count, 2, t);
    HeadOfItems(bs, 2, count);
  }

  lemma HeadOfItems(bs: seq<Byte>, w: nat, count: nat)
    requires bs != [] && Classify(bs[0]) == Items(w, 0)
    requires 1 + w <= |bs| && Field(bs, w) == count
    ensures ReadHead(bs) == ArrayOf(count, 1 + w)
  {
    hide Classify, Lossy, Promote, IntOf, Pow256, Field;
  }

  /** An array 16 of encoded values is read as the list of them. */
  lemma DecodeOfArray16(items: seq<Value>, t: seq<Byte>)
    requires |items| <= 0xFFFF
    requires forall i :: 0 <= i < |items| ==> Encodable(items[i]) && ArraysFit(items[i])
    ensures var body := Concat(EncodeEach(items));
            Decode([0xDC] + BigEndian(|items|, 2) + body + t) == Some(Decoded(Array(items), 3 + |body|))
  {
    hide ReadHead, DecodeItems, DecodeEntries, Concat, EncodeEach, Encodable, ArraysFit, BigEndian;
    var header, body := [0xDC] + BigEndian(|items|, 2), Concat(EncodeEach(items));
    HeadOfArray16(|items|, body + t);
    assert header + body + t == header + (body + t);
    assert (header + (body + t))[3..] == body + t;
    DecodeOfItems(items, t, []);
    assert [] + items == items;
  }

  // ------------------------------------------------------------------
  // Consequences
  // ------------------------------------------------------------------

  /** No encoding is a prefix of another: encodings can be told apart in any stream. */
  lemma EncodingIsPrefixFree(v: Value, w: Value, t: seq<Byte>, u: seq<Byte>)
    requires Encodable(v) && Encodable(w)
    requires ArraysFit(v) && ArraysFit(w)
    requires Encode(v) + t == Encode(w) + u
    ensures v == w && t == u
  {
    DecodeOfEncode(v, t);
    DecodeOfEncode(w, u);
    assert t == (Encode(v) + t)[|Encode(v)|..];
    assert u == (Encode(w) + u)[|Encode(w)|..];
  }

  /** Behind any bytes and before any others, a value is read back up to the end of its encoding. */
  lemma DecodeBetween(p: seq<Byte>, v: Value, t: seq<Byte>)
    requires Encodable(v) && ArraysFit(v)
    ensures DecodedAt(p + Encode(v) + t, |p|) == Some(Decoded(v, |p| + |Encode(v)|))
  {
    hide Decode, Encode, Encodable, ArraysFit;
    DecodeOfEncode(v, t);
    assert (p + Encode(v) + t)[|p|..] == Encode(v) + t;
  }
}
