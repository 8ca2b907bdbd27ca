/** Reading back the arguments that the encoder wrote, one at a time. */
module ArgRoundTrip {
  import opened Bytes
  import opened Utf8
  import opened SortedMap
  import opened Values
  import opened Encoder
  import opened Decoder
  import opened RoundTrip
  import opened ArgIndex

  /** Values whose encoding can be skipped: no binary data and no map of more than 15 entries. */
  predicate Skippable(v: Value) {
    match v
    case Binary(_) => false
    case Array(items) => forall i :: 0 <= i < |items| ==> Skippable(items[i])
    case Map(entries) => |entries| <= 15 && forall i :: 0 <= i < |entries| ==> Skippable(entries[i].val)
    case _ => true
  }

  lemma TagOfInt(i: I64, t: seq<Byte>)
    ensures TagsKnown(EncodeInt(i) + t)
    ensures -0x8000_0000 <= i < 0x8000_0000 ==> EncodeInt(i)[0] !in {0xCE, 0xD3}
  {
    hide Decode, AllKnown, BigEndian;
  }

  lemma TagOfStr(s: seq<Byte>, t: seq<Byte>)
    ensures TagsKnown(EncodeStr(s) + t)
  {
    hide Decode, AllKnown;
  }

  lemma TagOfBytes(data: seq<Byte>, t: seq<Byte>)
    ensures !TagsKnown(EncodeBytes(data) + t)
  {
    hide Decode, AllKnown, BigEndian;
  }

  lemma TagOfScalar(t: seq<Byte>)
    ensures TagsKnown([0xC0] + t) && TagsKnown([0xC2] + t) && TagsKnown([0xC3] + t) && TagsKnown([0xCB] + t)
  {
    hide Decode, AllKnown;
  }

  lemma TagOfArray(n: nat, t: seq<Byte>)
    requires n <= 15
    ensures TagsKnown([0x90 + n] + t) <==> AllKnown(t, n)
  {
    hide Decode, AllKnown;
    assert ([0x90 + n] + t)[1..] == t;
  }

  lemma TagOfMap(n: nat, t: seq<Byte>)
    requires n <= 0xFFFF
    ensures TagsKnown(MapHeader(n) + t) <==> n <= 15 && AllKnown(t, 2 * n)
  {
    hide Decode, AllKnown, BigEndian;
    if n <= 15 {
      assert ([0x80 + n] + t)[1..] == t;
    }
  }

  /** The tags of an encoding are all known to skipping exactly when the value is skippable. */
  lemma {:induction false} EncodedTags(v: Value, t: seq<Byte>)
    requires Encodable(v) && ArraysFit(v)
    ensures TagsKnown(Encode(v) + t) <==> Skippable(v)
    decreases v
  {
    hide TagsKnown, AllKnown, EncodeInt, EncodeStr, EncodeBytes, MapHeader, BigEndian;
    hide Concat, EncodeEach, EncodeEntries;
    match v
    case Nil => TagOfScalar(t);
    case Bool(_) => TagOfScalar(t);
    case Integer(i) => TagOfInt(i, t);
    case Float(bits) =>
      assert Encode(v) + t == [0xCB] + (BigEndian(bits, 8) + t);
      TagOfScalar(BigEndian(bits, 8) + t);
    case String(s) => TagOfStr(s, t);
    case Binary(data) => TagOfBytes(data, t);
    case Array(items) =>
      var body := Concat(EncodeEach(items));
      assert Encode(v) + t == [0x90 + |items|] + (body + t);
      TagOfArray(|items|, body + t);
      EncodedItemTags(items, t, |items|);
    case Map(entries) =>
      var body := Concat(EncodeEntries(entries));
      assert Encode(v) + t == MapHeader(|entries|) + (body + t);
      TagOfMap(|entries|, body + t);
      EncodedEntryTags(entries, t);
  }

  lemma KnownStep(a: Value, t: seq<Byte>, n: nat)
    requires Encodable(a) && ArraysFit(a)
    ensures AllKnown(Encode(a) + t, n + 1) <==> TagsKnown(Encode(a) + t) && AllKnown(t, n)
  {
    hide TagsKnown, Encode, Decode;
    DecodeOfEncode(a, t);
    assert (Encode(a) + t)[|Encode(a)|..] == t;
  }

  lemma {:induction false} EncodedItemTags(items: seq<Value>, t: seq<Byte>, k: nat)
    requires forall i :: 0 <= i < |items| ==> Encodable(items[i]) && ArraysFit(items[i])
    requires k <= |items|
    ensures AllKnown(Concat(EncodeEach(items)) + t, k) <==> forall i :: 0 <= i < k ==> Skippable(items[i])
    decreases items, k
  {
    hide TagsKnown, Encode, Decode, Encodable, ArraysFit, Skippable;
    if k > 0 {
      var rest := Concat(EncodeEach(items[1..])) + t;
      assert EncodeEach(items)[1..] == EncodeEach(items[1..]);
      assert Concat(EncodeEach(items)) + t == Encode(items[0]) + rest;
      EncodedTags(items[0], rest);
      KnownStep(items[0], rest, k - 1);
      EncodedItemTags(items[1..], t, k - 1);
      assert (forall i :: 0 <= i < k ==> Skippable(items[i])) <==>
             (Skippable(items[0]) && forall i :: 0 <= i < k - 1 ==> Skippable(items[1..][i])) by {
        assert forall i :: 1 <= i < k ==> items[i] == items[1..][i - 1];
      }
    }
  }

  /** Key and value of an entry. */
  lemma EntryKnownStep(e: Entry<Value>, t: seq<Byte>, n: nat)
    requires |e.key| <= 0xFF && Encodable(e.val) && ArraysFit(e.val)
    ensures AllKnown(EncodeStr(e.key) + (Encode(e.val) + t), n + 2) <==> TagsKnown(Encode(e.val) + t) && AllKnown(t, n)
  {
    hide TagsKnown, EncodeStr, Encode, Decode;
    var u := Encode(e.val) + t;
    DecodeOfKey(e.key, u);
    TagOfStr(e.key, u);
    assert (EncodeStr(e.key) + u)[|EncodeStr(e.key)|..] == u;
    KnownStep(e.val, t, n);
  }

  lemma SkippableFromFirst(entries: seq<Entry<Value>>)
    requires entries != []
    ensures (forall i :: 0 <= i < |entries| ==> Skippable(entries[i].val)) <==>
            (Skippable(entries[0].val) && forall i :: 0 <= i < |entries[1..]| ==> Skippable(entries[1..][i].val))
  {
    hide Skippable;
    assert forall i :: 1 <= i < |entries| ==> entries[i] == entries[1..][i - 1];
  }

  lemma EntriesFromFirst(entries: seq<Entry<Value>>, t: seq<Byte>)
    requires entries != [] && forall i :: 0 <= i < |entries| ==> ArraysFit(entries[i].val)
    ensures Concat(EncodeEntries(entries)) + t ==
            EncodeStr(entries[0].key) + (Encode(entries[0].val) + (Concat(EncodeEntries(entries[1..])) + t))
  {
    hide Encode, EncodeStr, ArraysFit, Skippable;
    var k, v, rest := EncodeStr(entries[0].key), Encode(entries[0].val), Concat(EncodeEntries(entries[1..]));
    assert EncodeEntries(entries)[1..] == EncodeEntries(entries[1..]);
    assert Concat(EncodeEntries(entries)) == k + v + rest;
    Nest(k, v, rest, t);
  }

  lemma {:induction false} EncodedEntryTags(entries: seq<Entry<Value>>, t: seq<Byte>)
    requires forall i :: 0 <= i < |entries| ==>
      |entries[i].key| <= 0xFF && Encodable(entries[i].val) && ArraysFit(entries[i].val)
    ensures AllKnown(Concat(EncodeEntries(entries)) + t, 2 * |entries|)
       <==> forall i :: 0 <= i < |entries| ==> Skippable(entries[i].val)
    decreases entries
  {
    hide TagsKnown, Encode, Decode, Encodable, ArraysFit, Skippable, EncodeStr, EncodeEntries, Concat, Valid;
    if entries != [] {
      hide AllKnown;
      var e, rest := entries[0], Concat(EncodeEntries(entries[1..])) + t;
      EntriesFromFirst(entries, t);
      EntryKnownStep(e, rest, 2 * |entries| - 2);
      EncodedTags(e.val, rest);
      EncodedEntryTags(entries[1..], t);
      SkippableFromFirst(entries);
    }
  }

  // ------------------------------------------------------------------
  // Arguments read back
  // ------------------------------------------------------------------

  lemma EncodedArgs(vs: seq<Value>)
    requires Encodable(Array(vs)) && ArraysFit(Array(vs))
    ensures DecodesTo(Encode(Array(vs)), vs)
    ensures Encode(Array(vs))[1..] == Concat(EncodeEach(vs)) + []
  {
    hide Decode, Concat, EncodeEach;
    DecodeOfEncode(Array(vs), []);
    assert Encode(Array(vs)) + [] == Encode(Array(vs));
  }

  /** Skipping finds argument k of an encoded list exactly when every argument before it is skippable. */
  lemma EncodedArgIsFound(vs: seq<Value>, k: nat)
    requires Encodable(Array(vs)) && ArraysFit(Array(vs)) && k < |vs|
    ensures Offset(Encode(Array(vs)), k).Some? <==> forall i :: 0 <= i < k ==> Skippable(vs[i])
  {
    hide Encode, Decode, AllKnown, Offset, DecodesTo;
    EncodedArgs(vs);
    EncodedItemTags(vs, [], k);
    OffsetRefinesDecode(Encode(Array(vs)), vs, k);
  }

  /** Every 64-bit integer argument is read back, across all width classes and both signs. */
  lemma Int64ArgRoundTrip(vs: seq<Value>, k: nat)
    requires Encodable(Array(vs)) && ArraysFit(Array(vs)) && k < |vs|
    requires forall i :: 0 <= i < k ==> Skippable(vs[i])
    ensures Int64Arg(Encode(Array(vs)), k) == if vs[k].Integer? then vs[k].i else 0
  {
    hide Encode, Decode, AllKnown, Int64Arg, DecodesTo;
    EncodedArgs(vs);
    EncodedItemTags(vs, [], k);
    Int64ArgIsElement(Encode(Array(vs)), vs, k);
  }

  /** The bytes of argument k start where the decoder starts reading it. */
  lemma {:induction false} EncodedItemAt(items: seq<Value>, k: nat, t: seq<Byte>) returns (u: seq<Byte>)
    requires forall i :: 0 <= i < |items| ==> Encodable(items[i]) && ArraysFit(items[i])
    requires k < |items|
    ensures var bs := Concat(EncodeEach(items)) + t;
            && ItemStart(bs, k).Some? && ItemStart(bs, k).value <= |bs|
            && bs[ItemStart(bs, k).value..] == Encode(items[k]) + u
    decreases k
  {
    hide Encode, Decode, Encodable, ArraysFit;
    var bs := Concat(EncodeEach(items)) + t;
    var rest := Concat(EncodeEach(items[1..])) + t;
    var first := Encode(items[0]);
    assert EncodeEach(items)[1..] == EncodeEach(items[1..]);
    assert bs == first + rest;
    if k == 0 {
      u := rest;
      assert bs[0..] == bs;
    } else {
      u := EncodedItemAt(items[1..], k - 1, t);
      DecodeOfEncode(items[0], rest);
      assert bs[|first|..] == rest;
      var o := ItemStart(rest, k - 1).value;
      assert bs[|first|..][o..] == bs[|first| + o..];
    }
  }

  /** A list of at most 15 32-bit integers is read back by the 32-bit reader. */
  lemma Int32ArgRoundTrip(ints: seq<I32>, k: nat)
    requires |ints| <= 15 && k < |ints|
    ensures Int32Arg(EncodeArray(seq(|ints|, i requires 0 <= i < |ints| => EncodeInt(ints[i]))), k) == ints[k]
  {
    hide Decode, AllKnown, Int32Arg, DecodesTo, Skippable, Concat, ItemStart, EncodeInt, EncodeEach;
    var parts := seq(|ints|, i requires 0 <= i < |ints| => EncodeInt(ints[i]));
    var vs := seq(|ints|, i requires 0 <= i < |ints| => Integer(ints[i]));
    assert forall i :: 0 <= i < |vs| ==> Encodable(vs[i]) && ArraysFit(vs[i]);
    EachOfInts(ints, vs);
    var data := Encode(Array(vs));
    assert EncodeEach(vs) == parts;
    EncodedArgs(vs);
    IntsAreSkippable(vs);
    EncodedItemTags(vs, [], k);
    Int32ArgIsElement(data, vs, k);
    var u := EncodedItemAt(vs, k, []);
    var o := ItemStart(data[1..], k).value;
    assert data[1..][o..][0] == data[1 + o];
    TagOfInt(ints[k], u);
    assert Encode(vs[k]) == EncodeInt(ints[k]);
    assert ArgStart(data, k) == 1 + o;
  }

  lemma {:induction false} EachOfInts(ints: seq<I32>, vs: seq<Value>)
    requires |ints| == |vs| && forall i :: 0 <= i < |vs| ==> vs[i] == Integer(ints[i])
    ensures forall i :: 0 <= i < |vs| ==> EncodeEach(vs)[i] == EncodeInt(ints[i])
  {
    if vs != [] {
      EachOfInts(ints[1..], vs[1..]);
      forall i | 0 <= i < |vs| ensures EncodeEach(vs)[i] == EncodeInt(ints[i]) {
        if i > 0 { assert EncodeEach(vs)[i] == EncodeEach(vs[1..])[i - 1]; }
      }
    }
  }

  lemma IntsAreSkippable(vs: seq<Value>)
    requires forall i :: 0 <= i < |vs| ==> vs[i].Integer?
    ensures forall i :: 0 <= i < |vs| ==> Skippable(vs[i])
  {}

  lemma SliceAt(data: seq<Byte>, o: nat, h: seq<Byte>, s: seq<Byte>, u: seq<Byte>)
    requires o <= |data| && data[o..] == h + s + u
    ensures |data| == o + |h| + |s| + |u| && data[o + |h|..o + |h| + |s|] == s
    ensures forall i :: 0 <= i < |h| ==> data[o + i] == h[i]
  {
    SliceAll(h, s, u);
    assert data[o + |h|..o + |h| + |s|] == data[o..][|h|..|h| + |s|];
    assert forall i :: 0 <= i < |h| ==> data[o + i] == data[o..][i];
  }

  lemma EncodedRawText(data: seq<Byte>, o: nat, s: seq<Byte>, u: seq<Byte>)
    requires o < |data| && data[o..] == EncodeStr(s) + u && |s| <= 0xFF
    ensures RawText(data, o) == Some(s)
  {
    if |s| <= 31 {
      ShortRawText(data, o, s, u);
    } else {
      LongRawText(data, o, s, u);
    }
  }

  lemma ShortRawText(data: seq<Byte>, o: nat, s: seq<Byte>, u: seq<Byte>)
    requires |s| <= 31 && o < |data| && data[o..] == [0xA0 + |s|] + s + u
    ensures RawText(data, o) == Some(s)
  {
    SliceAt(data, o, [0xA0 + |s|], s, u);
  }

  lemma LongRawText(data: seq<Byte>, o: nat, s: seq<Byte>, u: seq<Byte>)
    requires 31 < |s| <= 0xFF && o < |data| && data[o..] == [0xD9, |s|] + s + u
    ensures RawText(data, o) == Some(s)
  {
    SliceAt(data, o, [0xD9, |s|], s, u);
    assert data[o + 0] == 0xD9 && data[o + 1] == |s|;
  }

  lemma TextElement(vs: seq<Value>, k: nat)
    requires Encodable(Array(vs)) && ArraysFit(Array(vs)) && k < |vs| && vs[k].String?
    ensures RawText(Encode(Array(vs)), ArgStart(Encode(Array(vs)), k)) == Some(vs[k].s)
  {
    hide Decode, Concat, EncodeEach, ItemStart, DecodesTo, RawText;
    var data := Encode(Array(vs));
    EncodedArgs(vs);
    var u := EncodedItemAt(vs, k, []);
    var o := ItemStart(data[1..], k).value;
    assert Encode(vs[k]) == EncodeStr(vs[k].s) && Encode(vs[k]) != [];
    assert Encodable(vs[k]) && |vs[k].s| <= 0xFF;
    hide Encode, EncodeStr;
    assert 1 + o < |data| by {
      assert |data[1..][o..]| == |EncodeStr(vs[k].s)| + |u|;
    }
    assert data[1 + o..] == data[1..][o..] == EncodeStr(vs[k].s) + u;
    EncodedRawText(data, 1 + o, vs[k].s, u);
  }

  /** Texts and bools among the arguments of an encoded list are read back too. */
  lemma TextArgRoundTrip(vs: seq<Value>, k: nat)
    requires Encodable(Array(vs)) && ArraysFit(Array(vs)) && k < |vs|
    requires forall i :: 0 <= i < k ==> Skippable(vs[i])
    ensures StrArg(Encode(Array(vs)), k) == if vs[k].String? then vs[k].s else []
    ensures BoolArg(Encode(Array(vs)), k) == Some(vs[k] == Bool(true))
  {
    hide Encode, Decode, AllKnown, StrArg, BoolArg, DecodesTo, RawText, Lossy, ItemStart, ArgStart;
    var data := Encode(Array(vs));
    EncodedArgs(vs);
    EncodedItemTags(vs, [], k);
    BoolArgIsElement(data, vs, k);
    StrArgIsElement(data, vs, k);
    if vs[k].String? {
      TextElement(vs, k);
    }
  }

  /** A value that is no list is its own single argument. */
  lemma SingleArgRoundTrip(v: Value)
    requires Encodable(v) && ArraysFit(v) && !v.Array?
    ensures Int64Arg(Encode(v), 0) == if v.Integer? then v.i else 0
    ensures BoolArg(Encode(v), 0) == Some(v == Bool(true))
    ensures StrArg(Encode(v), 0) == if v.String? then v.s else []
  {
    var data := Encode(v);
    DecodeOfEncode(v, []);
    assert data + [] == data;
    NoListTag(v);
    if v.String? {
      assert data[0..] == EncodeStr(v.s) + [];
      EncodedRawText(data, 0, v.s, []);
    }
    hide Encode, Decode, Int64Arg, BoolArg, StrArg, RawText, Lossy;
    SingleArg(data, 0);
  }

  lemma NoListTag(v: Value)
    requires Encodable(v) && ArraysFit(v) && !v.Array?
    ensures Encode(v) != [] && !(0x90 <= Encode(v)[0] <= 0x9F)
    ensures v.String? ==> Encode(v)[0] != 0xDA
  {
    hide Concat, EncodeEach, EncodeEntries, BigEndian;
  }
}
