/** Which values come back from their encoding: exactly the encodable ones. */
module Boundary {
  import opened Bytes
  import opened Utf8
  import opened SortedMap
  import opened Values
  import opened Encoder
  import opened Decoder
  import opened RoundTrip

  /** What an encoded key reads as does not come after the key itself. */
  predicate DoesNotRise(k: Str) {
    !Less(k, Lossy(Kept(k)))
  }

  /** So it is with every map key. */
  predicate KeysDoNotRise(v: Value) {
    match v
    case Array(items) => forall i :: 0 <= i < |items| ==> KeysDoNotRise(items[i])
    case Map(entries) =>
      forall i :: 0 <= i < |entries| ==> DoesNotRise(entries[i].key) && KeysDoNotRise(entries[i].val)
    case _ => true
  }

  /** Keys that fit, and longer ones cut between two characters, do not rise. */
  lemma CleanCutDoesNotRise(k: Str)
    requires Valid(Kept(k))
    ensures DoesNotRise(k)
  {
    hide Lossy, Valid, Less;
    LossyIsIdentityIffValid(Kept(k));
    if |Kept(k)| < |k| {
      assert Kept(k) == k[..|Kept(k)|];
      CutIsLess(k, |Kept(k)|);
    }
    LessIsStrict(k, Kept(k));
  }

  /** A key that is too long never reads as itself. */
  lemma LongIsLost(k: Str)
    ensures Lossy(Kept(k)) == k <==> |k| <= 0xFF
  {
    hide Lossy, Valid;
    if |k| <= 0xFF {
      LossyIsIdentityIffValid(k);
    } else {
      assert Kept(k) == k[..|Kept(k)|];
      var m := LossyOfCut(k, |Kept(k)|);
    }
  }

  /** The value is what decoding its encoding gives, whatever number of bytes that takes. */
  predicate ComesBack(v: Value, t: seq<Byte>)
    requires ArraysFit(v)
  {
    var r := Decode(Encode(v) + t);
    r.Some? && r.value.v == v
  }

  // ------------------------------------------------------------------
  // What decoding keeps of what it has
  // ------------------------------------------------------------------

  lemma {:induction false} InsertNew<V>(m: Sorted<V>, k: Str, v: V)
    ensures Entry(k, v) in Insert(m, k, v)
    ensures |Insert(m, k, v)| > |m| ==>
      (forall e :: e in m ==> e.key != k && e in Insert(m, k, v))
    decreases |m|
  {
    if m != [] && m[0].key != k {
      if Less(k, m[0].key) {
        BelowAll(m, k);
        forall e | e in m ensures e.key != k { LessIsStrict(k, e.key); }
      } else {
        InsertNew(m[1..], k, v);
        assert m == [m[0]] + m[1..];
      }
    }
  }

  /** Decoding n entries makes a map at most n larger; n larger only if no entry is overwritten. */
  lemma {:induction false} EntriesBound(bs: seq<Byte>, count: nat, acc: Sorted<Value>)
    requires DecodeEntries(bs, count, acc).Some?
    ensures var m := DecodeEntries(bs, count, acc).value.v;
            |m| <= |acc| + count && (|m| == |acc| + count ==> forall e :: e in acc ==> e in m)
    decreases count
  {
    hide Decode, DecodeEntries, Insert, Less, Valid;
    if count == 0 {
      NoEntries(bs, acc);
    } else {
      var k, d, rest := EntriesUnfold(bs, count, acc);
      InsertNew(acc, k.v.s, d.v);
      EntriesBound(bs[k.used + d.used..], count - 1, Insert(acc, k.v.s, d.v));
    }
  }

  // ------------------------------------------------------------------
  // Only encodable values come back
  // ------------------------------------------------------------------

  lemma {:induction false} ComesBackOnlyIf(v: Value, t: seq<Byte>)
    requires ArraysFit(v) && KeysDoNotRise(v) && ComesBack(v, t)
    ensures Encodable(v)
    decreases v
  {
    hide ReadHead, Lossy, DecodeItems, DecodeEntries, EncodeInt, EncodeStr, EncodeBytes, BigEndian, MapHeader;
    hide Concat, EncodeEach, EncodeEntries, Valid, Less, DoesNotRise;
    match v
    case String(s) =>
      DecodeOfStr(s, t);
      LongIsLost(s);
    case Binary(data) =>
      HeadOfBytes(data, t);
    case Array(items) =>
      var body := Concat(EncodeEach(items));
      HeadOfArray(|items|, body + t);
      assert Encode(v) + t == [0x90 + |items|] + (body + t);
      assert (Encode(v) + t)[1..] == body + t;
      assert [] + items == items;
      ItemsComeBackOnlyIf(items, t, []);
    case Map(entries) =>
      var header, body := MapHeader(|entries|), Concat(EncodeEntries(entries));
      HeadOfMap(|entries|, body + t);
      assert Encode(v) + t == header + (body + t);
      assert (Encode(v) + t)[|header|..] == body + t;
      EntriesBound(body + t, |entries| % 0x1_0000, []);
      assert entries[0..] == entries && entries[..0] == [];
      EntriesComeBackOnlyIf(entries, 0, t);
    case _ =>
  }

  lemma {:induction false} ItemsComeBackOnlyIf(items: seq<Value>, t: seq<Byte>, acc: seq<Value>)
    requires forall i :: 0 <= i < |items| ==> ArraysFit(items[i]) && KeysDoNotRise(items[i])
    requires var r := DecodeItems(Concat(EncodeEach(items)) + t, |items|, acc); r.Some? && r.value.v == acc + items
    ensures forall i :: 0 <= i < |items| ==> Encodable(items[i])
    decreases items
  {
    hide Decode, Encode, Encodable, ArraysFit, KeysDoNotRise;
    if items != [] {
      var bs := Concat(EncodeEach(items)) + t;
      var first, rest := Encode(items[0]), Concat(EncodeEach(items[1..]));
      assert EncodeEach(items)[1..] == EncodeEach(items[1..]);
      assert bs == first + (rest + t);
      var d := Decode(bs).value;
      ItemsKeep(bs[d.used..], |items| - 1, acc + [d.v]);
      assert (acc + items)[..|acc| + 1][|acc|] == items[0];
      assert (acc + [d.v])[|acc|] == d.v;
      ComesBackOnlyIf(items[0], rest + t);
      DecodeOfEncode(items[0], rest + t);
      assert bs[|first|..] == rest + t;
      assert acc + [items[0]] + items[1..] == acc + items;
      ItemsComeBackOnlyIf(items[1..], t, acc + [items[0]]);
    }
  }

  /** A cut key is smaller than the key. */
  lemma {:induction false} CutIsLess(s: seq<Byte>, n: nat)
    requires n < |s|
    ensures Less(s[..n], s)
  {
    if n > 0 {
      CutIsLess(s[1..], n - 1);
      assert s[..n][1..] == s[1..][..n - 1];
    }
  }

  /** The first key decoded is the first one encoded: a smaller one would not fit between its neighbours. */
  lemma FirstKeyIsWhole(m: Sorted<Value>, i: nat, k: Str, v: Value)
    requires i < |m| && Entry(k, v) in m && k == Lossy(Kept(m[i].key)) && DoesNotRise(m[i].key)
    requires forall e :: e in m[..i] ==> e.key != k
    ensures k == m[i].key && |k| <= 0xFF && v == m[i].val
  {
    hide Less, Valid, Lossy;
    forall h | 0 <= h < i ensures m[h].key != k { assert m[h] in m[..i]; }
    var j :| 0 <= j < |m| && m[j] == Entry(k, v);
    LongIsLost(m[i].key);
    LessIsStrict(k, m[i].key);
    LessIsStrict(k, k);
  }

  /** The first of the remaining entries is read as it was written, if the whole map comes back. */
  lemma FirstEntryIsRead(m: Sorted<Value>, i: nat, bs: seq<Byte>, tail: seq<Byte>)
    returns (d: Decoded<Value>, r: Decoded<Sorted<Value>>)
    requires i < |m| && DoesNotRise(m[i].key) && bs == EncodeStr(m[i].key) + tail
    requires var r := DecodeEntries(bs, |m| - i, m[..i]); r.Some? && r.value.v == m
    ensures |m[i].key| <= 0xFF && d.v == m[i].val && r.v == m && d.used <= |tail|
    ensures Decode(tail) == Some(d)
    ensures DecodeEntries(tail[d.used..], |m| - i - 1, m[..i + 1]) == Some(r)
  {
    hide ReadHead, Decode, Insert, EncodeStr, Less, Valid, DecodeEntries, Kept, Lossy, DoesNotRise;
    var e, acc, n := m[i], m[..i], |EncodeStr(m[i].key)|;
    var k;
    k, d, r := EntriesUnfold(bs, |m| - i, acc);
    DecodeOfStr(e.key, tail);
    InsertNew(acc, k.v.s, d.v);
    EntriesBound(bs[k.used + d.used..], |m| - i - 1, Insert(acc, k.v.s, d.v));
    FirstKeyIsWhole(m, i, k.v.s, d.v);
    assert bs[n..] == tail && bs[n + d.used..] == tail[d.used..];
    InsertLast(acc, e.key, e.val);
    assert acc + [Entry(e.key, e.val)] == m[..i + 1];
  }

  lemma {:induction false} EntriesComeBackOnlyIf(m: Sorted<Value>, i: nat, t: seq<Byte>)
    requires i <= |m|
    requires forall j :: 0 <= j < |m| ==>
      ArraysFit(m[j].val) && KeysDoNotRise(m[j].val) && DoesNotRise(m[j].key)
    requires var r := DecodeEntries(Concat(EncodeEntries(m[i..])) + t, |m| - i, m[..i]); r.Some? && r.value.v == m
    ensures forall j :: i <= j < |m| ==> |m[j].key| <= 0xFF && Encodable(m[j].val)
    decreases m[i..]
  {
    hide ReadHead, Decode, Encode, Encodable, ArraysFit, KeysDoNotRise, Insert, EncodeStr, Less, Valid;
    hide DecodeEntries, Kept, Lossy, DoesNotRise;
    if i < |m| {
      var e := m[i];
      var kb, vb, rest := EncodeStr(e.key), Encode(e.val), Concat(EncodeEntries(m[i + 1..]));
      assert m[i..][1..] == m[i + 1..];
      assert EncodeEntries(m[i..])[1..] == EncodeEntries(m[i + 1..]);
      var tail := vb + (rest + t);
      assert Concat(EncodeEntries(m[i..])) + t == kb + tail;
      var d, r := FirstEntryIsRead(m, i, kb + tail, tail);
      ComesBackOnlyIf(e.val, rest + t);
      DecodeOfEncode(e.val, rest + t);
      assert tail[|vb|..] == rest + t;
      EntriesComeBackOnlyIf(m, i + 1, t);
    }
  }

  /** A value comes back from its encoding exactly when it is encodable, and then with its exact length. */
  lemma ComesBackIff(v: Value, t: seq<Byte>)
    requires ArraysFit(v) && KeysDoNotRise(v)
    ensures ComesBack(v, t) <==> Encodable(v)
    ensures ComesBack(v, t) ==> Decode(Encode(v) + t).value.used == |Encode(v)|
  {
    hide Decode, Encode, ArraysFit, Encodable, KeysDoNotRise;
    if Encodable(v) {
      DecodeOfEncode(v, t);
    } else if ComesBack(v, t) {
      ComesBackOnlyIf(v, t);
    }
  }
}
