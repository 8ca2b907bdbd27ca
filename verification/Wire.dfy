/** The forms on the wire, by their first byte and plain arithmetic on the bytes that follow. */
module Wire {
  import opened Bytes
  import opened Utf8
  import opened SortedMap
  import opened Values
  import opened Encoder
  import opened Decoder
  import opened RoundTrip

  /** The number some bytes denote, the first one weighing most. */
  function Number(bs: seq<Byte>): nat {
    if bs == [] then 0 else bs[0] * Pow256(|bs| - 1) + Number(bs[1..])
  }

  /** The same as a number with a sign: the upper half of the range is negative. */
  function Signed(bs: seq<Byte>): int
    requires bs != []
  {
    if bs[0] >= 0x80 then Number(bs) - Pow256(|bs|) else Number(bs)
  }

  // ------------------------------------------------------------------
  // What is written
  // ------------------------------------------------------------------

  /** An integer: in the tag itself, or in 1, 2, 4 or 8 bytes after it. */
  predicate IntForm(i: I64, bs: seq<Byte>) {
    if 0 <= i <= 0x7F then bs == [i]
    else if -32 <= i < 0 then bs == [0x100 + i]
    else if 0 <= i <= 0xFF then |bs| == 2 && bs[0] == 0xCC && bs[1] == i
    else if 0 <= i <= 0xFFFF then |bs| == 3 && bs[0] == 0xCD && Number(bs[1..]) == i
    else if -0x8000_0000 <= i < 0x8000_0000 then |bs| == 5 && bs[0] == 0xD2 && Signed(bs[1..]) == i
    else |bs| == 9 && bs[0] == 0xD3 && Signed(bs[1..]) == i
  }

  /** A text of at most 31 bytes has its length in the tag, a longer one in a byte after it. */
  predicate StrForm(s: seq<Byte>, bs: seq<Byte>) {
    if |s| <= 31 then |bs| == 1 + |s| && bs[0] == 0xA0 + |s| && bs[1..] == s
    else |bs| == 2 + |s| && bs[0] == 0xD9 && bs[1] == |s| && bs[2..] == s
  }

  predicate BytesForm(data: seq<Byte>, bs: seq<Byte>) {
    if |data| <= 0xFF then |bs| == 2 + |data| && bs[0] == 0xC4 && bs[1] == |data| && bs[2..] == data
    else |bs| == 3 + |data| && bs[0] == 0xC5 && Number(bs[1..3]) == |data| && bs[3..] == data
  }

  /** The one form a value is written in. */
  ghost predicate IsForm(v: Value, bs: seq<Byte>)
    decreases v
  {
    match v
    case Nil => bs == [0xC0]
    case Bool(b) => bs == [if b then 0xC3 else 0xC2]
    case Integer(i) => IntForm(i, bs)
    case Float(bits) => |bs| == 9 && bs[0] == 0xCB && Number(bs[1..]) == bits
    case String(s) => StrForm(s, bs)
    case Binary(data) => BytesForm(data, bs)
    case Array(items) => |items| <= 15 && bs != [] && bs[0] == 0x90 + |items| && ItemsForm(items, bs[1..])
    case Map(entries) =>
      if |entries| <= 15 then bs != [] && bs[0] == 0x80 + |entries| && EntriesForm(entries, bs[1..])
      else |bs| >= 3 && bs[0] == 0xDE && Number(bs[1..3]) == |entries| && EntriesForm(entries, bs[3..])
  }

  /** One value after the other. */
  ghost predicate ItemsForm(items: seq<Value>, bs: seq<Byte>)
    decreases items
  {
    if items == [] then bs == []
    else exists n :: 0 <= n <= |bs| && IsForm(items[0], bs[..n]) && ItemsForm(items[1..], bs[n..])
  }

  /** One key and its value after the other. */
  ghost predicate EntriesForm(entries: seq<Entry<Value>>, bs: seq<Byte>)
    decreases entries
  {
    if entries == [] then bs == []
    else exists m, n ::
      0 <= m <= n <= |bs| && EntryForm(entries[0], bs[..m], bs[m..n]) && EntriesForm(entries[1..], bs[n..])
  }

  ghost predicate EntryForm(e: Entry<Value>, k: seq<Byte>, v: seq<Byte>)
    decreases e
  {
    StrForm(e.key, k) && IsForm(e.val, v)
  }

  // ------------------------------------------------------------------
  // Numbers
  // ------------------------------------------------------------------

  lemma {:induction false} NumberSnoc(bs: seq<Byte>, b: Byte)
    ensures Number(bs + [b]) == Number(bs) * 0x100 + b
  {
    if bs == [] {
      assert [b][1..] == [];
    } else {
      NumberSnoc(bs[1..], b);
      assert (bs + [b])[1..] == bs[1..] + [b];
      assert bs[0] * Pow256(|bs|) == bs[0] * Pow256(|bs| - 1) * 0x100;
    }
  }

  lemma {:induction false} NumberIsUnsigned(bs: seq<Byte>)
    ensures Number(bs) == Unsigned(bs)
  {
    if bs != [] {
      var n := |bs| - 1;
      NumberIsUnsigned(bs[..n]);
      NumberSnoc(bs[..n], bs[n]);
      assert bs == bs[..n] + [bs[n]];
    }
  }

  lemma {:induction false} UnsignedBack(bs: seq<Byte>)
    ensures BigEndian(Unsigned(bs), |bs|) == bs
  {
    if bs != [] {
      var n := |bs| - 1;
      UnsignedBack(bs[..n]);
      var u := Unsigned(bs[..n]) * 0x100 + bs[n];
      assert u / 0x100 == Unsigned(bs[..n]) && u % 0x100 == bs[n];
    }
  }

  /** The bytes of a number are determined by it. */
  lemma NumberIff(x: int, bs: seq<Byte>)
    ensures Number(bs) == x % Pow256(|bs|) <==> bs == BigEndian(x, |bs|)
  {
    NumberIsUnsigned(bs);
    UnsignedOfBigEndian(x, |bs|);
    UnsignedBack(bs);
    if Number(bs) == x % Pow256(|bs|) {
      UnsignedBack(BigEndian(x, |bs|));
    }
  }

  lemma {:induction false} FirstByte(bs: seq<Byte>)
    requires bs != []
    ensures bs[0] * Pow256(|bs| - 1) <= Number(bs) < (bs[0] + 1) * Pow256(|bs| - 1)
  {
    NumberIsUnsigned(bs[1..]);
  }

  lemma SignedIff4(i: int, bs: seq<Byte>)
    requires |bs| == 4 && -0x8000_0000 <= i < 0x8000_0000
    ensures Signed(bs) == i <==> Number(bs) == i % 0x1_0000_0000
  {
    Pow256Values();
    FirstByte(bs);
    assert Pow256(3) == 0x100_0000;
    NumberIsUnsigned(bs);
  }

  lemma SignedIff8(i: I64, bs: seq<Byte>)
    requires |bs| == 8
    ensures Signed(bs) == i <==> Number(bs) == i % 0x1_0000_0000_0000_0000
  {
    Pow256Values();
    FirstByte(bs);
    NumberIsUnsigned(bs);
  }

  /** A tag and a field. */
  lemma FieldIff(tag: Byte, x: int, w: nat, bs: seq<Byte>)
    ensures bs == [tag] + BigEndian(x, w) <==>
            |bs| == 1 + w && bs[0] == tag && Number(bs[1..]) == x % Pow256(w)
  {
    if |bs| == 1 + w {
      NumberIff(x, bs[1..]);
      assert bs == [bs[0]] + bs[1..];
    }
  }

  // ------------------------------------------------------------------
  // The encoder writes these forms and no others
  // ------------------------------------------------------------------

  lemma IntFormIff(i: I64, bs: seq<Byte>)
    ensures IntForm(i, bs) <==> bs == EncodeInt(i)
  {
    hide Number, Signed, BigEndian, Pow256;
    Pow256Values();
    FieldIff(0xCD, i, 2, bs);
    FieldIff(0xD2, i, 4, bs);
    FieldIff(0xD3, i, 8, bs);
    if |bs| == 5 && -0x8000_0000 <= i < 0x8000_0000 {
      SignedIff4(i, bs[1..]);
    }
    if |bs| == 9 {
      SignedIff8(i, bs[1..]);
    }
  }

  lemma StrFormIff(s: seq<Byte>, bs: seq<Byte>)
    requires |s| <= 0xFF
    ensures StrForm(s, bs) <==> bs == EncodeStr(s)
  {
    if StrForm(s, bs) {
      if |s| <= 31 {
        assert bs == [bs[0]] + bs[1..];
      } else {
        assert bs == [bs[0], bs[1]] + bs[2..];
      }
    }
  }

  lemma BytesFormIff(data: seq<Byte>, bs: seq<Byte>)
    requires |data| <= 0xFFFF
    ensures BytesForm(data, bs) <==> bs == EncodeBytes(data)
  {
    hide Number, BigEndian, Pow256;
    Pow256Values();
    if |data| <= 0xFF {
      if BytesForm(data, bs) {
        assert bs == [bs[0], bs[1]] + bs[2..];
      }
    } else {
      var header := [0xC5] + BigEndian(|data|, 2);
      if |bs| >= 3 {
        FieldIff(0xC5, |data|, 2, bs[..3]);
        assert bs[..3][1..] == bs[1..3] && bs == bs[..3] + bs[3..];
      }
      assert (header + data)[..3] == header && (header + data)[3..] == data;
    }
  }

  lemma HeaderIff(count: nat, bs: seq<Byte>)
    requires 15 < count <= 0xFFFF && |bs| >= 3
    ensures bs[0] == 0xDE && Number(bs[1..3]) == count <==> bs[..3] == MapHeader(count)
  {
    hide Number, BigEndian, Pow256;
    Pow256Values();
    FieldIff(0xDE, count, 2, bs[..3]);
    assert bs[..3][1..] == bs[1..3];
  }

  /** The encoding of an encodable value is exactly its form. */
  lemma {:induction false} IsFormIff(v: Value, bs: seq<Byte>)
    requires Encodable(v) && ArraysFit(v)
    ensures IsForm(v, bs) <==> bs == Encode(v)
    decreases v, 0
  {
    hide Number, BigEndian, Pow256, EncodeInt, EncodeStr, EncodeBytes, IntForm, StrForm, BytesForm, Concat, EncodeEach;
    hide EncodeEntries, ItemsForm, EntriesForm, MapHeader, Less, Valid;
    match v
    case Integer(i) => IntFormIff(i, bs);
    case Float(bits) =>
      Pow256Values();
      FieldIff(0xCB, bits, 8, bs);
    case String(s) => StrFormIff(s, bs);
    case Binary(data) => BytesFormIff(data, bs);
    case Array(items) =>
      if bs != [] {
        ItemsFormIff(items, bs[1..]);
        assert bs == [bs[0]] + bs[1..];
      }
    case Map(entries) => MapFormIff(entries, bs);
    case _ =>
  }

  lemma MapFormIff(m: Sorted<Value>, bs: seq<Byte>)
    requires Encodable(Map(m)) && ArraysFit(Map(m))
    ensures IsForm(Map(m), bs) <==> bs == MapHeader(|m|) + Concat(EncodeEntries(m))
    decreases m, 2
  {
    hide Number, BigEndian, Concat, EncodeEntries, EntriesForm, Less, Valid;
    var body := Concat(EncodeEntries(m));
    if |m| <= 15 {
      if bs != [] {
        EntriesFormIff(m, bs[1..]);
        assert bs == [bs[0]] + bs[1..];
      }
    } else {
      assert |MapHeader(|m|)| == 3;
      if |bs| >= 3 {
        HeaderIff(|m|, bs);
        EntriesFormIff(m, bs[3..]);
        hide MapHeader;
        assert bs == bs[..3] + bs[3..];
        assert (MapHeader(|m|) + body)[..3] == MapHeader(|m|) && (MapHeader(|m|) + body)[3..] == body;
      }
    }
  }

  lemma ItemsFirst(items: seq<Value>)
    requires items != [] && forall i :: 0 <= i < |items| ==> ArraysFit(items[i])
    ensures Concat(EncodeEach(items)) == Encode(items[0]) + Concat(EncodeEach(items[1..]))
  {
    hide Encode, ArraysFit;
    assert EncodeEach(items)[1..] == EncodeEach(items[1..]);
  }

  lemma {:induction false} ItemsFormIff(items: seq<Value>, bs: seq<Byte>)
    requires forall i :: 0 <= i < |items| ==> Encodable(items[i]) && ArraysFit(items[i])
    ensures ItemsForm(items, bs) <==> bs == Concat(EncodeEach(items))
    decreases items, 1
  {
    hide IsForm, Encode, Encodable, ArraysFit;
    if items != [] {
      ItemsFirst(items);
      hide Concat, EncodeEach;
      var first, rest := Encode(items[0]), Concat(EncodeEach(items[1..]));
      if ItemsForm(items, bs) {
        var n :| 0 <= n <= |bs| && IsForm(items[0], bs[..n]) && ItemsForm(items[1..], bs[n..]);
        ItemsPart(items, bs, n);
      }
      if bs == first + rest {
        var n := |first|;
        assert bs[..n] == first && bs[n..] == rest;
        ItemsPart(items, bs, n);
      }
    }
  }

  /** The first value takes n bytes exactly if they are its encoding and the others take the rest. */
  lemma ItemsPart(items: seq<Value>, bs: seq<Byte>, n: nat)
    requires items != [] && forall i :: 0 <= i < |items| ==> Encodable(items[i]) && ArraysFit(items[i])
    requires n <= |bs|
    ensures IsForm(items[0], bs[..n]) && ItemsForm(items[1..], bs[n..]) <==>
            bs[..n] == Encode(items[0]) && bs[n..] == Concat(EncodeEach(items[1..]))
    ensures bs == bs[..n] + bs[n..]
    decreases items, 0
  {
    hide IsForm, Encode, Encodable, ArraysFit, ItemsForm, Concat, EncodeEach;
    IsFormIff(items[0], bs[..n]);
    ItemsFormIff(items[1..], bs[n..]);
  }

  lemma EntriesFirst(entries: seq<Entry<Value>>)
    requires entries != [] && forall i :: 0 <= i < |entries| ==> ArraysFit(entries[i].val)
    ensures Concat(EncodeEntries(entries)) ==
            EncodeStr(entries[0].key) + Encode(entries[0].val) + Concat(EncodeEntries(entries[1..]))
  {
    hide Encode, ArraysFit, EncodeStr;
    assert EncodeEntries(entries)[1..] == EncodeEntries(entries[1..]);
  }

  lemma {:induction false} EntriesFormIff(entries: seq<Entry<Value>>, bs: seq<Byte>)
    requires forall i :: 0 <= i < |entries| ==>
      |entries[i].key| <= 0xFF && Encodable(entries[i].val) && ArraysFit(entries[i].val)
    ensures EntriesForm(entries, bs) <==> bs == Concat(EncodeEntries(entries))
    decreases entries, 1
  {
    hide EntryForm, Encode, Encodable, ArraysFit, EncodeStr, Valid;
    if entries != [] {
      EntriesFirst(entries);
      hide Concat, EncodeEntries;
      var kb, vb, rest := EncodeStr(entries[0].key), Encode(entries[0].val), Concat(EncodeEntries(entries[1..]));
      if EntriesForm(entries, bs) {
        var m, n :| 0 <= m <= n <= |bs| && EntryForm(entries[0], bs[..m], bs[m..n]) &&
          EntriesForm(entries[1..], bs[n..]);
        EntriesPart(entries, bs, m, n);
      }
      if bs == kb + vb + rest {
        var m, n := |kb|, |kb| + |vb|;
        assert bs[..m] == kb && bs[m..n] == vb && bs[n..] == rest;
        EntriesPart(entries, bs, m, n);
      }
    }
  }

  lemma EntriesPart(entries: seq<Entry<Value>>, bs: seq<Byte>, m: nat, n: nat)
    requires entries != [] && forall i :: 0 <= i < |entries| ==>
      |entries[i].key| <= 0xFF && Encodable(entries[i].val) && ArraysFit(entries[i].val)
    requires m <= n <= |bs|
    ensures EntryForm(entries[0], bs[..m], bs[m..n]) && EntriesForm(entries[1..], bs[n..]) <==>
            bs[..m] == EncodeStr(entries[0].key) && bs[m..n] == Encode(entries[0].val) &&
            bs[n..] == Concat(EncodeEntries(entries[1..]))
    ensures bs == bs[..m] + bs[m..n] + bs[n..]
    decreases entries, 0
  {
    hide IsForm, StrForm, EncodeStr, Encode, Encodable, ArraysFit, EntriesForm, Concat, EncodeEntries, Valid;
    StrFormIff(entries[0].key, bs[..m]);
    IsFormIff(entries[0].val, bs[m..n]);
    EntriesFormIff(entries[1..], bs[n..]);
  }

  /** A value in its form is read as that value, whatever follows. */
  lemma FormIsRead(v: Value, bs: seq<Byte>, t: seq<Byte>)
    requires Encodable(v) && IsForm(v, bs)
    ensures Decode(bs + t) == Some(Decoded(v, |bs|))
  {
    hide IsForm, Encode, Decode, Encodable, ArraysFit;
    EncodableFits(v);
    IsFormIff(v, bs);
    DecodeOfEncode(v, t);
  }

  // ------------------------------------------------------------------
  // What is read besides
  // ------------------------------------------------------------------

  lemma FieldIsNumber(tag: Byte, f: seq<Byte>, t: seq<Byte>)
    ensures Field([tag] + f + t, |f|) == Number(f)
  {
    assert ([tag] + f + t)[1..1 + |f|] == f;
    NumberIsUnsigned(f);
  }

  /** A field read as an integer, with or without a sign. */
  lemma IntOfField(f: seq<Byte>, signed: bool)
    requires |f| in {1, 2, 4} || (|f| == 8 && signed)
    ensures Number(f) < Pow256(|f|)
    ensures IntOf(Number(f), |f|, signed) == if signed then Signed(f) else Number(f)
  {
    FirstByte(f);
    NumberIsUnsigned(f);
    hide Number, Unsigned;
    SmallPowers();
    hide Pow256;
    CastOfField(f[0], Number(f));
  }

  lemma SmallPowers()
    ensures Pow256(0) == 1 && Pow256(1) == 0x100 && Pow256(2) == 0x1_0000 && Pow256(3) == 0x100_0000
    ensures Pow256(4) == 0x1_0000_0000
    ensures Pow256(7) == 0x100_0000_0000_0000 && Pow256(8) == 0x1_0000_0000_0000_0000
  {
    Pow256Values();
  }

  /** The first byte of a number tells its half of the range. */
  lemma CastOfField(b: Byte, u: nat)
    ensures b <= u < b + 1 ==> ToI8(u) == if b >= 0x80 then u - 0x100 else u
    ensures b * 0x100 <= u < (b + 1) * 0x100 ==> ToI16(u) == if b >= 0x80 then u - 0x1_0000 else u
    ensures b * 0x100_0000 <= u < (b + 1) * 0x100_0000 ==> ToI32(u) == if b >= 0x80 then u - 0x1_0000_0000 else u
    ensures b * 0x100_0000_0000_0000 <= u < (b + 1) * 0x100_0000_0000_0000 ==>
            ToI64(u) == if b >= 0x80 then u - 0x1_0000_0000_0000_0000 else u
    ensures u < 0x1_0000_0000 ==> ToI64(u) == u
  {}

  /** Every integer tag, with its field of 1, 2, 4 or 8 bytes; from 0xD0 on they have a sign. */
  lemma IntIsRead(tag: Byte, f: seq<Byte>, t: seq<Byte>)
    requires (tag, |f|) in {(0xCC, 1), (0xCD, 2), (0xCE, 4), (0xD0, 1), (0xD1, 2), (0xD2, 4), (0xD3, 8)}
    ensures var x := if tag >= 0xD0 then Signed(f) else Number(f);
            -0x8000_0000_0000_0000 <= x < 0x8000_0000_0000_0000 &&
            Decode([tag] + f + t) == Some(Decoded(Integer(x), 1 + |f|))
  {
    hide Number, Signed, IntOf, Lossy, Promote, Field, DecodeItems, DecodeEntries, Pow256;
    FieldIsNumber(tag, f, t);
    SmallPowers();
    IntOfField(f, tag >= 0xD0);
  }

  /** A float 32, widened. */
  lemma FloatIsRead(f: seq<Byte>, t: seq<Byte>)
    requires |f| == 4
    ensures Number(f) < 0x1_0000_0000
    ensures Decode([0xCA] + f + t) == Some(Decoded(Float(Promote(Number(f))), 5))
  {
    hide Number, IntOf, Lossy, Promote, Field, DecodeItems, DecodeEntries;
    Pow256Values();
    NumberIsUnsigned(f);
    FieldIsNumber(0xCA, f, t);
  }

  /** These tags are not read: ext, bin 32, str 32, array 32, map 32, uint 64 and the one never used. */
  lemma UnreadTags(bs: seq<Byte>)
    requires bs != []
    requires bs[0] in {0xC1, 0xC6, 0xC7, 0xC8, 0xC9, 0xCF, 0xD4, 0xD5, 0xD6, 0xD7, 0xD8, 0xDB, 0xDD, 0xDF}
    ensures Decode(bs) == None
  {
    hide Field, Lossy, Promote, IntOf, Pow256, DecodeItems, DecodeEntries;
  }
}
