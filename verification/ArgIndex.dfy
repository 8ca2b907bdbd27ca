/** Reading one element of an encoded argument array without decoding the others. */
module ArgIndex {
  import opened Bytes
  import opened Utf8
  import opened Values
  import opened Decoder

  // ------------------------------------------------------------------
  // Skipping
  // ------------------------------------------------------------------

  function Left(data: seq<Byte>, pos: nat): nat {
    if pos < |data| then |data| - pos else 0
  }

  /** The byte at i, 0 past the end. */
  function Get(data: seq<Byte>, i: nat): Byte {
    if i < |data| then data[i] else 0
  }

  /** Where the element at pos ends; the end is not checked against the data. */
  function Skip(data: seq<Byte>, pos: nat): (r: Option<nat>)
    ensures r.Some? ==> pos < |data| && pos < r.value
    decreases Left(data, pos), 0
  {
    if pos >= |data| then None
    else
      var b := data[pos];
      if b <= 0x7F || b >= 0xE0 then Some(pos + 1)
      else if b <= 0x8F then SkipMany(data, pos + 1, 2 * (b - 0x80))
      else if b <= 0x9F then SkipMany(data, pos + 1, b - 0x90)
      else if b <= 0xBF then Some(pos + 1 + (b - 0xA0))
      else if b in {0xC0, 0xC2, 0xC3} then Some(pos + 1)
      else if b in {0xCA, 0xCE, 0xD2} then Some(pos + 5)
      else if b in {0xCB, 0xCF, 0xD3} then Some(pos + 9)
      else if b in {0xCC, 0xD0} then Some(pos + 2)
      else if b in {0xCD, 0xD1} then Some(pos + 3)
      else if b == 0xD9 then Some(pos + 2 + Get(data, pos + 1))
      else None
  }

  function SkipMany(data: seq<Byte>, pos: nat, n: nat): (r: Option<nat>)
    ensures r.Some? ==> pos <= r.value
    decreases Left(data, pos), 1, n
  {
    if n == 0 then Some(pos)
    else match Skip(data, pos)
      case None => None
      case Some(p) => SkipMany(data, p, n - 1)
  }

  /** Skipping overshoots by at most 256: positions fit 31 bits as soon as the data leaves that margin. */
  lemma {:induction false} SkipBound(data: seq<Byte>, pos: nat)
    requires Skip(data, pos).Some?
    ensures Skip(data, pos).value <= |data| + 0x100
    decreases Left(data, pos), 0
  {
    var b := data[pos];
    if 0x80 <= b <= 0x8F {
      SkipManyBound(data, pos + 1, 2 * (b - 0x80));
    } else if 0x90 <= b <= 0x9F {
      SkipManyBound(data, pos + 1, b - 0x90);
    }
  }

  lemma {:induction false} SkipManyBound(data: seq<Byte>, pos: nat, n: nat)
    requires pos <= |data| + 0x100 && SkipMany(data, pos, n).Some?
    ensures SkipMany(data, pos, n).value <= |data| + 0x100
    decreases Left(data, pos), 1, n
  {
    if n > 0 {
      SkipBound(data, pos);
      SkipManyBound(data, Skip(data, pos).value, n - 1);
    }
  }

  // ------------------------------------------------------------------
  // Skipping agrees with decoding
  // ------------------------------------------------------------------

  /** Every tag the decoder meets in the value at the front of bs is one that skipping knows. */
  ghost predicate TagsKnown(bs: seq<Byte>)
    decreases |bs|, 0
  {
    bs != [] &&
    match Classify(bs[0])
    case Blob(_) => false
    case Text(w, _) => w <= 1
    case Items(w, n) => w == 0 && AllKnown(bs[1..], n)
    case Entries(w, n) => w == 0 && AllKnown(bs[1..], 2 * n)
    case Unknown => false
    case _ => true
  }

  /** The same for the next n values. */
  ghost predicate AllKnown(bs: seq<Byte>, n: nat)
    decreases |bs|, 1, n
  {
    n == 0 || (Decode(bs).Some? && TagsKnown(bs) && AllKnown(bs[Decode(bs).value.used..], n - 1))
  }

  /**
    On decodable data skipping succeeds exactly when it knows all the tags,
    and then ends where decoding ends.
   */
  lemma {:induction false} SkipAgrees(data: seq<Byte>, pos: nat)
    requires pos < |data| && Decode(data[pos..]).Some?
    ensures Skip(data, pos) ==
            if TagsKnown(data[pos..]) then Some(pos + Decode(data[pos..]).value.used) else None
    decreases |data| - pos, 0
  {
    hide Classify, Decode, Skip, SkipMany, AllKnown, DecodeItems, DecodeEntries, Field;
    var bs := data[pos..];
    SkipByTag(data, pos);
    assert data[pos + 1..] == bs[1..] && bs[0] == data[pos];
    HeadDecides(bs);
    CollectionDecides(bs);
    EmptyField(bs);
    match Classify(bs[0])
    case Items(w, n) =>
      if w == 0 { SkipItemsAgrees(data, pos + 1, n, []); }
    case Entries(w, n) =>
      if w == 0 { SkipEntriesAgrees(data, pos + 1, n, []); }
    case Text(w, _) =>
      if w == 1 { ByteField(bs); }
    case _ =>
  }

  /** How far skipping goes, by the tag; it knows one that the decoder does not. */
  lemma SkipByTag(data: seq<Byte>, pos: nat)
    requires pos < |data|
    ensures Skip(data, pos) ==
            match Classify(data[pos])
            case Immediate(_) => Some(pos + 1)
            case Int(w, _) => Some(pos + 1 + w)
            case Single => Some(pos + 5)
            case Double => Some(pos + 9)
            case Text(w, n) =>
              if w == 0 then Some(pos + 1 + n) else if w == 1 then Some(pos + 2 + Get(data, pos + 1)) else None
            case Items(w, n) => if w == 0 then SkipMany(data, pos + 1, n) else None
            case Entries(w, n) => if w == 0 then SkipMany(data, pos + 1, 2 * n) else None
            case Blob(_) => None
            case Unknown => if data[pos] == 0xCF then Some(pos + 9) else None
    ensures var k := Classify(data[pos]); k.Text? && k.width == 1 ==> k.short == 0
  {
    hide SkipMany;
  }

  /** How many bytes a decoded value takes, by its tag. */
  lemma HeadDecides(bs: seq<Byte>)
    requires bs != [] && Decode(bs).Some?
    ensures var k, used := Classify(bs[0]), Decode(bs).value.used;
            && !k.Unknown?
            && (k.Immediate? ==> used == 1)
            && (k.Int? ==> used == 1 + k.width)
            && (k.Single? ==> used == 5)
            && (k.Double? ==> used == 9)
            && (k.Text? ==> 1 + k.width <= |bs| && used == 1 + k.width + k.short + Field(bs, k.width))
  {
    hide Classify, Field, Lossy, Promote, IntOf, Pow256, DecodeItems, DecodeEntries;
  }

  lemma CollectionDecides(bs: seq<Byte>)
    requires bs != [] && Decode(bs).Some?
    ensures var k, used := Classify(bs[0]), Decode(bs).value.used;
            && (k.Items? || k.Entries? ==> 1 + k.width <= |bs|)
            && (k.Items? ==>
                  var r := DecodeItems(bs[1 + k.width..], k.short + Field(bs, k.width), []);
                  r.Some? && used == 1 + k.width + r.value.used)
            && (k.Entries? ==>
                  var r := DecodeEntries(bs[1 + k.width..], k.short + Field(bs, k.width), []);
                  r.Some? && used == 1 + k.width + r.value.used)
  {
    hide Classify, Field, Lossy, Promote, IntOf, Pow256, DecodeItems, DecodeEntries;
  }

  lemma ByteField(bs: seq<Byte>)
    ensures |bs| >= 2 ==> Field(bs, 1) == bs[1]
  {
    if |bs| >= 2 {
      assert bs[1..2] == [bs[1]];
      assert Unsigned([bs[1]][..0]) == 0;
    }
  }

  lemma NothingToSkip(data: seq<Byte>, pos: nat)
    requires pos <= |data|
    ensures SkipMany(data, pos, 0) == Some(pos) && AllKnown(data[pos..], 0)
  {}

  lemma {:induction false} SkipItemsAgrees(data: seq<Byte>, pos: nat, n: nat, acc: seq<Value>)
    requires pos <= |data| && DecodeItems(data[pos..], n, acc).Some?
    ensures SkipMany(data, pos, n) ==
            if AllKnown(data[pos..], n) then Some(pos + DecodeItems(data[pos..], n, acc).value.used) else None
    decreases |data| - pos, 1, n
  {
    hide Decode, TagsKnown, Skip, SkipMany, AllKnown;
    if n == 0 {
      NothingToSkip(data, pos);
    } else {
      var d := Decode(data[pos..]).value;
      RunStep(data, pos, n - 1);
      assert data[pos..][d.used..] == data[pos + d.used..];
      SkipItemsAgrees(data, pos + d.used, n - 1, acc + [d.v]);
    }
  }

  /** One element of a run: how skipping and the tag check go on after it. */
  lemma RunStep(data: seq<Byte>, pos: nat, n: nat)
    requires pos < |data| && Decode(data[pos..]).Some?
    ensures var next := pos + Decode(data[pos..]).value.used;
            && next <= |data|
            && SkipMany(data, pos, n + 1) == (if TagsKnown(data[pos..]) then SkipMany(data, next, n) else None)
            && (AllKnown(data[pos..], n + 1) <==> TagsKnown(data[pos..]) && AllKnown(data[next..], n))
    decreases |data| - pos, 1, 0
  {
    hide Decode, TagsKnown, Skip;
    SkipAgrees(data, pos);
    var d := Decode(data[pos..]).value;
    assert data[pos..][d.used..] == data[pos + d.used..];
  }

  lemma {:induction false} SkipEntriesAgrees(data: seq<Byte>, pos: nat, n: nat, acc: SortedMap.Sorted<Value>)
    requires pos <= |data| && DecodeEntries(data[pos..], n, acc).Some?
    ensures SkipMany(data, pos, 2 * n) ==
            if AllKnown(data[pos..], 2 * n) then Some(pos + DecodeEntries(data[pos..], n, acc).value.used) else None
    decreases |data| - pos, 1, n
  {
    hide Decode, TagsKnown, Skip, SkipMany, AllKnown, DecodeEntries, SortedMap.Insert, SortedMap.Less;
    if n == 0 {
      NothingToSkip(data, pos);
      NoEntries(data[pos..], acc);
    } else {
      var k, d, rest := EntriesUnfold(data[pos..], n, acc);
      RunStep(data, pos, 2 * n - 1);
      assert data[pos..][k.used..] == data[pos + k.used..];
      RunStep(data, pos + k.used, 2 * n - 2);
      assert data[pos..][k.used + d.used..] == data[pos + k.used + d.used..];
      SkipEntriesAgrees(data, pos + k.used + d.used, n - 1, SortedMap.Insert(acc, k.v.s, d.v));
    }
  }

  // ------------------------------------------------------------------
  // Argument offsets
  // ------------------------------------------------------------------

  /** Offset of argument k; data that is not a fixarray counts as its own single argument. */
  function Offset(data: seq<Byte>, k: nat): Option<nat> {
    if data == [] then None
    else if 0x90 <= data[0] <= 0x9F then
      (if k >= data[0] - 0x90 then None else SkipMany(data, 1, k))
    else if k == 0 then Some(0) else None
  }

  /** Where the decoder starts reading the k-th of the values at the front of bs. */
  function ItemStart(bs: seq<Byte>, k: nat): Option<nat>
    decreases k
  {
    if k == 0 then Some(0)
    else match Decode(bs)
      case None => None
      case Some(d) =>
        match ItemStart(bs[d.used..], k - 1)
        case None => None
        case Some(o) => Some(d.used + o)
  }

  lemma {:induction false} ItemAt(bs: seq<Byte>, n: nat, acc: seq<Value>, k: nat)
    requires k < n && DecodeItems(bs, n, acc).Some?
    ensures ItemStart(bs, k).Some? && ItemStart(bs, k).value < |bs|
    ensures Decode(bs[ItemStart(bs, k).value..]).Some?
    ensures Decode(bs[ItemStart(bs, k).value..]).value.v == DecodeItems(bs, n, acc).value.v[|acc| + k]
    ensures forall i :: 0 <= i < |acc| ==> DecodeItems(bs, n, acc).value.v[i] == acc[i]
    decreases n
  {
    hide Decode;
    var d := Decode(bs).value;
    if k == 0 {
      assert bs[0..] == bs;
      ItemsKeep(bs[d.used..], n - 1, acc + [d.v]);
    } else {
      ItemAt(bs[d.used..], n - 1, acc + [d.v], k - 1);
      var o := ItemStart(bs[d.used..], k - 1).value;
      assert bs[d.used..][o..] == bs[d.used + o..];
    }
  }

  lemma {:induction false} SkipToItem(data: seq<Byte>, pos: nat, n: nat, acc: seq<Value>, k: nat)
    requires pos <= |data| && k <= n && DecodeItems(data[pos..], n, acc).Some?
    ensures ItemStart(data[pos..], k).Some?
    ensures SkipMany(data, pos, k) ==
            if AllKnown(data[pos..], k) then Some(pos + ItemStart(data[pos..], k).value) else None
    decreases k
  {
    hide Decode, TagsKnown, Skip;
    if k > 0 {
      var d := Decode(data[pos..]).value;
      SkipAgrees(data, pos);
      assert data[pos..][d.used..] == data[pos + d.used..];
      SkipToItem(data, pos + d.used, n - 1, acc + [d.v], k - 1);
    }
  }

  /** The data decodes, as an array written with a fixarray tag. */
  ghost predicate DecodesTo(data: seq<Byte>, vs: seq<Value>) {
    data != [] && 0x90 <= data[0] <= 0x9F && Decode(data).Some? && Decode(data).value.v == Array(vs)
  }

  /** Where the decoder starts reading element k of a fixarray. */
  ghost function ArgStart(data: seq<Byte>, k: nat): nat
    requires data != []
  {
    match ItemStart(data[1..], k) case None => 0 case Some(o) => 1 + o
  }

  lemma ArgItemAt(data: seq<Byte>, vs: seq<Value>, k: nat)
    requires DecodesTo(data, vs) && k < |vs|
    ensures ItemStart(data[1..], k).Some?
    ensures var o := ArgStart(data, k);
            o < |data| && Decode(data[o..]).Some? && Decode(data[o..]).value.v == vs[k]
  {
    hide Decode, DecodeItems, ItemStart;
    ArgItems(data, vs);
    ItemAt(data[1..], |vs|, [], k);
    var o := ItemStart(data[1..], k).value;
    assert data[1..][o..] == data[1 + o..];
  }

  lemma ArgItems(data: seq<Byte>, vs: seq<Value>)
    requires DecodesTo(data, vs)
    ensures |vs| == data[0] - 0x90
    ensures DecodeItems(data[1..], |vs|, []).Some? && DecodeItems(data[1..], |vs|, []).value.v == vs
  {
    hide DecodeItems, DecodeEntries, Unsigned, Lossy, Promote, IntOf, Pow256;
    EmptyField(data);
    assert Classify(data[0]) == Items(0, data[0] - 0x90);
  }

  /**
    The offset of argument k is where the full decoder read it, provided every
    argument before k uses known tags; otherwise the argument counts as missing.
   */
  lemma OffsetRefinesDecode(data: seq<Byte>, vs: seq<Value>, k: nat)
    requires DecodesTo(data, vs)
    ensures k < |vs| ==>
      var o := ArgStart(data, k);
      && o < |data| && Decode(data[o..]).Some? && Decode(data[o..]).value.v == vs[k]
      && Offset(data, k) == if AllKnown(data[1..], k) then Some(o) else None
    ensures k >= |vs| ==> Offset(data, k) == None
  {
    hide DecodeItems, Decode, SkipMany, AllKnown, TagsKnown, ItemStart;
    ArgItems(data, vs);
    if k < |vs| {
      ArgItemAt(data, vs, k);
      SkipToItem(data, 1, |vs|, [], k);
    }
  }

  // ------------------------------------------------------------------
  // Typed access
  // ------------------------------------------------------------------

  function Int64(data: seq<Byte>, pos: nat): I64 {
    if pos >= |data| then 0
    else
      var b := data[pos];
      if b <= 0x7F then b
      else if b >= 0xE0 then ToI8(b)
      else if b == 0xCC then Get(data, pos + 1)
      else if b == 0xCD then Get(data, pos + 1) * 0x100 + Get(data, pos + 2)
      else if b == 0xCE then Four(data, pos)
      else if b == 0xD0 then ToI8(Get(data, pos + 1))
      else if b == 0xD1 then ToI16(Get(data, pos + 1) * 0x100 + Get(data, pos + 2))
      else if b == 0xD2 then ToI32(Four(data, pos))
      else if b == 0xD3 then (if |data| < pos + 9 then 0 else ToI64(Unsigned(data[pos + 1..pos + 9])))
      else 0
  }

  /** The big-endian number in the four bytes after pos, missing bytes read as 0. */
  function Four(data: seq<Byte>, pos: nat): (u: nat)
    ensures u < 0x1_0000_0000
  {
    Get(data, pos + 1) * 0x100_0000 + Get(data, pos + 2) * 0x1_0000 + Get(data, pos + 3) * 0x100 + Get(data, pos + 4)
  }

  /** The 32-bit reader: it does not know uint 32 and int 64. */
  function Int32(data: seq<Byte>, pos: nat): I32 {
    if pos >= |data| then 0
    else
      var b := data[pos];
      if b <= 0x7F then b
      else if b >= 0xE0 then ToI8(b)
      else if b == 0xCC then Get(data, pos + 1)
      else if b == 0xCD then Get(data, pos + 1) * 0x100 + Get(data, pos + 2)
      else if b == 0xD0 then ToI8(Get(data, pos + 1))
      else if b == 0xD1 then ToI16(Get(data, pos + 1) * 0x100 + Get(data, pos + 2))
      else if b == 0xD2 then ToI32(Four(data, pos))
      else 0
  }

  function Int64Arg(data: seq<Byte>, k: nat): I64 {
    match Offset(data, k) case None => 0 case Some(o) => Int64(data, o)
  }

  function Int32Arg(data: seq<Byte>, k: nat): I32 {
    match Offset(data, k) case None => 0 case Some(o) => Int32(data, o)
  }

  /** None is the panic of indexing past the end. */
  function BoolArg(data: seq<Byte>, k: nat): Option<bool> {
    match Offset(data, k)
    case None => Some(false)
    case Some(o) => if o < |data| then Some(data[o] == 0xC3) else None
  }

  /** Raw bytes of the text at pos, if it is a fixstr or a str 8 that fits. */
  function RawText(data: seq<Byte>, pos: nat): Option<seq<Byte>> {
    if pos >= |data| then None
    else if 0xA0 <= data[pos] <= 0xBF then Span(data, pos + 1, data[pos] - 0xA0)
    else if data[pos] == 0xD9 && pos + 1 < |data| then Span(data, pos + 2, data[pos + 1])
    else None
  }

  function Span(data: seq<Byte>, start: nat, len: nat): Option<seq<Byte>> {
    if start + len > |data| then None else Some(data[start..start + len])
  }

  function StrArg(data: seq<Byte>, k: nat): Str {
    match Offset(data, k)
    case None => []
    case Some(o) =>
      match RawText(data, o)
      case None => []
      case Some(raw) => if Valid(raw) then raw else []
  }

  // ------------------------------------------------------------------
  // Typed access returns the decoded element
  // ------------------------------------------------------------------

  lemma UnsignedShort(bs: seq<Byte>)
    ensures |bs| == 1 ==> Unsigned(bs) == bs[0]
    ensures |bs| == 2 ==> Unsigned(bs) == (bs[0] as int) * 0x100 + bs[1]
    ensures |bs| == 4 ==>
      Unsigned(bs) == (bs[0] as int) * 0x100_0000 + (bs[1] as int) * 0x1_0000 + (bs[2] as int) * 0x100 + bs[3]
  {
    if |bs| in {1, 2, 4} {
      assert Unsigned(bs[..0]) == 0;
      assert Unsigned(bs[..1]) == bs[0] by { assert bs[..1][..0] == []; }
      if |bs| == 1 {
        assert bs[..1] == bs;
      } else {
        assert bs[..2][..1] == bs[..1];
        assert Unsigned(bs[..2]) == (bs[0] as int) * 0x100 + bs[1];
        if |bs| == 2 {
          assert bs[..2] == bs;
        } else {
          assert bs[..3][..2] == bs[..2];
          assert Unsigned(bs[..3]) == (bs[0] as int) * 0x1_0000 + (bs[1] as int) * 0x100 + bs[2];
        }
      }
    }
  }

  lemma FieldsAt(data: seq<Byte>, pos: nat)
    requires pos < |data|
    ensures pos + 2 <= |data| ==> Field(data[pos..], 1) == Get(data, pos + 1)
    ensures pos + 3 <= |data| ==> Field(data[pos..], 2) == Get(data, pos + 1) * 0x100 + Get(data, pos + 2)
    ensures pos + 5 <= |data| ==> Field(data[pos..], 4) == Four(data, pos)
    ensures pos + 9 <= |data| ==> Field(data[pos..], 8) == Unsigned(data[pos + 1..pos + 9])
  {
    hide Unsigned, Pow256;
    var bs := data[pos..];
    if pos + 2 <= |data| { UnsignedShort(bs[1..2]); }
    if pos + 3 <= |data| { UnsignedShort(bs[1..3]); }
    if pos + 5 <= |data| { UnsignedShort(bs[1..5]); }
    if pos + 9 <= |data| { assert bs[1..9] == data[pos + 1..pos + 9]; }
  }

  lemma IntTagAt(data: seq<Byte>, pos: nat, w: nat, signed: bool)
    requires pos < |data| && Decode(data[pos..]).Some? && Classify(data[pos]) == Int(w, signed)
    ensures pos + 1 + w <= |data|
    ensures Decode(data[pos..]).value.v == Integer(IntOf(Field(data[pos..], w), w, signed))
  {
    hide Classify, Field, Lossy, Promote, Pow256, IntOf, DecodeItems, DecodeEntries;
    assert data[pos..][0] == data[pos];
  }

  lemma OtherTagAt(data: seq<Byte>, pos: nat)
    requires pos < |data| && Decode(data[pos..]).Some? && !Classify(data[pos]).Int?
    ensures Classify(data[pos]).Immediate? ==> Decode(data[pos..]).value.v == Classify(data[pos]).v
    ensures !Classify(data[pos]).Immediate? ==> !Decode(data[pos..]).value.v.Integer?
  {
    hide Classify, Field, Lossy, Promote, Pow256, IntOf, DecodeItems, DecodeEntries;
    assert data[pos..][0] == data[pos];
  }

  lemma SmallToI64(u: nat)
    requires u < 0x1_0000_0000
    ensures ToI64(u) == u
  {}

  lemma IntsAt(data: seq<Byte>, pos: nat)
    requires pos < |data| && Decode(data[pos..]).Some?
    ensures var v := Decode(data[pos..]).value.v;
            && Int64(data, pos) == (if v.Integer? then v.i else 0)
            && Int32(data, pos) == (if v.Integer? && data[pos] !in {0xCE, 0xD3} then v.i else 0)
  {
    hide Decode, Field, Unsigned, Four, Pow256, ToI8, ToI16, ToI32, ToI64;
    match Classify(data[pos])
    case Int(w, signed) =>
      IntTagAt(data, pos, w, signed);
      FieldsAt(data, pos);
      if !signed { SmallToI64(Field(data[pos..], w)); }
    case _ =>
      OtherTagAt(data, pos);
  }

  /** The 64-bit reader returns the integer the full decoder finds, and 0 for anything else. */
  lemma Int64ArgIsElement(data: seq<Byte>, vs: seq<Value>, k: nat)
    requires DecodesTo(data, vs) && k < |vs|
    ensures Int64Arg(data, k) == if AllKnown(data[1..], k) && vs[k].Integer? then vs[k].i else 0
  {
    hide Int64, Decode, AllKnown;
    OffsetRefinesDecode(data, vs, k);
    IntsAt(data, ArgStart(data, k));
  }

  /** The 32-bit reader does the same, except on uint 32 and int 64, which it reads as 0. */
  lemma Int32ArgIsElement(data: seq<Byte>, vs: seq<Value>, k: nat)
    requires DecodesTo(data, vs) && k < |vs|
    ensures Int32Arg(data, k) ==
            if AllKnown(data[1..], k) && vs[k].Integer? && Get(data, ArgStart(data, k)) !in {0xCE, 0xD3}
            then vs[k].i else 0
  {
    hide Int32, Decode, AllKnown;
    OffsetRefinesDecode(data, vs, k);
    IntsAt(data, ArgStart(data, k));
  }

  lemma TrueTag(data: seq<Byte>, pos: nat)
    requires pos < |data| && Decode(data[pos..]).Some?
    ensures data[pos] == 0xC3 <==> Decode(data[pos..]).value.v == Bool(true)
  {
    hide Field, Unsigned, Lossy, Promote, Pow256, IntOf, DecodeItems, DecodeEntries;
    assert data[pos..][0] == data[pos];
  }

  /** On decodable data the bool reader neither panics nor lies. */
  lemma BoolArgIsElement(data: seq<Byte>, vs: seq<Value>, k: nat)
    requires DecodesTo(data, vs) && k < |vs|
    ensures BoolArg(data, k) == Some(AllKnown(data[1..], k) && vs[k] == Bool(true))
  {
    hide Decode, AllKnown;
    OffsetRefinesDecode(data, vs, k);
    TrueTag(data, ArgStart(data, k));
  }

  /** Skipping n elements is skipping the last one after the others. */
  lemma {:induction false} SkipLast(data: seq<Byte>, pos: nat, n: nat)
    requires n > 0
    ensures SkipMany(data, pos, n) ==
            match SkipMany(data, pos, n - 1) case None => None case Some(o) => Skip(data, o)
    decreases n
  {
    hide Skip;
    if n == 1 {
      assert SkipMany(data, pos, 0) == Some(pos);
      assert forall p: nat :: SkipMany(data, p, 0) == Some(p);
    } else if Skip(data, pos).Some? {
      SkipLast(data, Skip(data, pos).value, n - 1);
    }
  }

  /**
    The data is a fixarray that announces argument k but ends before it: nothing follows the tag,
    or argument k - 1 starts inside the data and skipping it leads to the end or past it.
   */
  predicate EndsBefore(data: seq<Byte>, k: nat) {
    data != [] && 0x90 <= data[0] <= 0x9F && k < data[0] - 0x90 &&
    if k == 0 then |data| == 1
    else match SkipMany(data, 1, k - 1)
      case None => false
      case Some(o) => o < |data| && Skip(data, o).Some? && Skip(data, o).value >= |data|
  }

  /** The bool reader indexes past the end exactly on such data; `[0x91]` is the shortest. */
  lemma BoolArgPanicsIff(data: seq<Byte>, k: nat)
    ensures BoolArg(data, k) == None <==> EndsBefore(data, k)
    ensures BoolArg([0x91], 0) == None
  {
    assert forall ds, p: nat :: SkipMany(ds, p, 0) == Some(p);
    hide Skip, SkipMany;
    assert EndsBefore([0x91], 0);
    if k > 0 {
      SkipLast(data, 1, k);
    }
  }

  lemma {:induction false} NoneAfterEnd(data: seq<Byte>, pos: nat, i: nat, j: nat)
    requires i < j && SkipMany(data, pos, i).Some? && SkipMany(data, pos, i).value >= |data|
    ensures SkipMany(data, pos, j) == None
    decreases j
  {
    SkipLast(data, pos, j);
    if i < j - 1 {
      NoneAfterEnd(data, pos, i, j - 1);
    }
  }

  /** At most one argument index panics for given data. */
  lemma OneIndexPanics(data: seq<Byte>, i: nat, j: nat)
    requires BoolArg(data, i) == None && BoolArg(data, j) == None
    ensures i == j
  {
    hide Skip, SkipMany;
    if i < j {
      NoneAfterEnd(data, 1, i, j);
    } else if j < i {
      NoneAfterEnd(data, 1, j, i);
    }
  }

  lemma TextAt(bs: seq<Byte>, w: nat, short: nat)
    requires bs != [] && Decode(bs).Some? && Classify(bs[0]) == Text(w, short)
    ensures 1 + w <= |bs|
    ensures var end := 1 + w + short + Field(bs, w);
            end <= |bs| && Decode(bs).value.v == String(Lossy(bs[1 + w..end]))
  {
    hide Classify, Field, Lossy, Promote, Pow256, IntOf, DecodeItems, DecodeEntries;
  }

  lemma NotText(bs: seq<Byte>)
    requires bs != [] && Decode(bs).Some?
    requires !Classify(bs[0]).Text? && (Classify(bs[0]).Immediate? ==> !Classify(bs[0]).v.String?)
    ensures !Decode(bs).value.v.String?
  {
    hide Classify, Field, Lossy, Promote, Pow256, IntOf, DecodeItems, DecodeEntries;
  }

  lemma RawTextAt(data: seq<Byte>, pos: nat)
    requires pos < |data| && Decode(data[pos..]).Some?
    ensures var v := Decode(data[pos..]).value.v;
            && (RawText(data, pos).Some? <==> v.String? && data[pos] != 0xDA)
            && (RawText(data, pos).Some? ==> v.s == Lossy(RawText(data, pos).value))
  {
    hide Decode, Field, Lossy;
    var bs := data[pos..];
    assert bs[0] == data[pos];
    EmptyField(bs);
    ByteField(bs);
    match Classify(bs[0])
    case Text(w, short) =>
      TextAt(bs, w, short);
      var end := 1 + w + short + Field(bs, w);
      assert bs[1 + w..end] == data[pos + 1 + w..pos + end];
    case _ => NotText(bs);
  }

  /** The text reader returns the decoded text if its bytes are valid UTF-8 in a fixstr or str 8, else "". */
  lemma StrArgIsElement(data: seq<Byte>, vs: seq<Value>, k: nat)
    requires DecodesTo(data, vs) && k < |vs|
    ensures var raw := RawText(data, ArgStart(data, k));
            && (raw.Some? <==> vs[k].String? && Get(data, ArgStart(data, k)) != 0xDA)
            && (raw.Some? ==> vs[k].s == Lossy(raw.value))
            && StrArg(data, k) == (if AllKnown(data[1..], k) && raw.Some? && Valid(raw.value) then vs[k].s else [])
  {
    hide Decode, AllKnown, RawText, Lossy;
    var o := ArgStart(data, k);
    OffsetRefinesDecode(data, vs, k);
    RawTextAt(data, o);
    if RawText(data, o).Some? {
      LossyIsIdentityIffValid(RawText(data, o).value);
    }
  }

  // ------------------------------------------------------------------
  // Data that is no list
  // ------------------------------------------------------------------

  /** Data that is one value and no fixarray is its own argument 0, and has no other. */
  lemma SingleArg(data: seq<Byte>, k: nat)
    requires data != [] && !(0x90 <= data[0] <= 0x9F) && Decode(data).Some?
    ensures var v := Decode(data).value.v;
            && Int64Arg(data, k) == (if k == 0 && v.Integer? then v.i else 0)
            && Int32Arg(data, k) == (if k == 0 && v.Integer? && data[0] !in {0xCE, 0xD3} then v.i else 0)
            && BoolArg(data, k) == Some(k == 0 && v == Bool(true))
            && (k > 0 || !v.String? || data[0] == 0xDA ==> StrArg(data, k) == [])
            && (k == 0 && v.String? && data[0] != 0xDA ==>
                  RawText(data, 0).Some? && v.s == Lossy(RawText(data, 0).value) &&
                  StrArg(data, 0) == if Valid(RawText(data, 0).value) then v.s else [])
  {
    hide Decode, Lossy, RawText, Int64, Int32, Valid;
    assert data[0..] == data;
    IntsAt(data, 0);
    TrueTag(data, 0);
    RawTextAt(data, 0);
    if RawText(data, 0).Some? {
      LossyIsIdentityIffValid(RawText(data, 0).value);
    }
  }
}
