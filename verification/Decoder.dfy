/** Decoding MessagePack into values. */
module Decoder {
  import opened Bytes
  import opened Utf8
  import opened SortedMap
  import opened Values

  /** What a tag announces; `width` is the number of length bytes after it, `short` a length in the tag. */
  datatype Kind =
    | Immediate(v: Value)
    | Int(width: nat, signed: bool)
    | Single
    | Double
    | Text(width: nat, short: nat)
    | Blob(width: nat)
    | Items(width: nat, short: nat)
    | Entries(width: nat, short: nat)
    | Unknown

  function Classify(tag: Byte): Kind {
    if tag <= 0x7F then Immediate(Integer(tag))
    else if tag <= 0x8F then Entries(0, tag - 0x80)
    else if tag <= 0x9F then Items(0, tag - 0x90)
    else if tag <= 0xBF then Text(0, tag - 0xA0)
    else if tag >= 0xE0 then Immediate(Integer(ToI8(tag)))
    else match tag
      case 0xC0 => Immediate(Nil)
      case 0xC2 => Immediate(Bool(false))
      case 0xC3 => Immediate(Bool(true))
      case 0xC4 => Blob(1)
      case 0xC5 => Blob(2)
      case 0xCA => Single
      case 0xCB => Double
      case 0xCC => Int(1, false)
      case 0xCD => Int(2, false)
      case 0xCE => Int(4, false)
      case 0xD0 => Int(1, true)
      case 0xD1 => Int(2, true)
      case 0xD2 => Int(4, true)
      case 0xD3 => Int(8, true)
      case 0xD9 => Text(1, 0)
      case 0xDA => Text(2, 0)
      case 0xDC => Items(2, 0)
      case 0xDE => Entries(2, 0)
      case _ => Unknown
  }

  /** The number in the w bytes after the tag. */
  function Field(bs: seq<Byte>, w: nat): (u: nat)
    requires 1 + w <= |bs|
    ensures u < Pow256(w)
  {
    Unsigned(bs[1..1 + w])
  }

  lemma EmptyField(bs: seq<Byte>)
    requires bs != []
    ensures Field(bs, 0) == 0
  {
    assert bs[1..1] == [];
  }

  /** The integer a w-byte field stands for. */
  function IntOf(u: nat, w: nat, signed: bool): I64 {
    if !signed then ToI64(u)
    else if w == 1 then ToI8(u) else if w == 2 then ToI16(u) else if w == 4 then ToI32(u) else ToI64(u)
  }

  /** What the front of a byte string says: a whole value, or a collection to be read on. */
  datatype Head =
    | Leaf(v: Value, used: nat)
    | ArrayOf(count: nat, used: nat)
    | MapOf(count: nat, used: nat)
    | Reject

  function ReadHead(bs: seq<Byte>): (h: Head)
    requires bs != []
    ensures !h.Reject? ==> 1 <= h.used <= |bs|
  {
    Payload(Classify(bs[0]), bs)
  }

  /** What a tag of kind k at the front of bs says. */
  function Payload(k: Kind, bs: seq<Byte>): (h: Head)
    requires bs != []
    ensures !h.Reject? ==> 1 <= h.used <= |bs|
  {
    Pow256Values();
    match k
    case Immediate(v) => Leaf(v, 1)
    case Int(w, signed) => if 1 + w > |bs| then Reject else Leaf(Integer(IntOf(Field(bs, w), w, signed)), 1 + w)
    case Single => if 5 > |bs| then Reject else Leaf(Float(Promote(Field(bs, 4))), 5)
    case Double => if 9 > |bs| then Reject else Leaf(Float(Field(bs, 8)), 9)
    case Text(w, short) =>
      if 1 + w > |bs| || 1 + w + short + Field(bs, w) > |bs| then Reject
      else
        var end := 1 + w + short + Field(bs, w);
        Leaf(String(Lossy(bs[1 + w..end])), end)
    case Blob(w) =>
      if 1 + w > |bs| || 1 + w + Field(bs, w) > |bs| then Reject
      else
        var end := 1 + w + Field(bs, w);
        Leaf(Binary(bs[1 + w..end]), end)
    case Items(w, short) => if 1 + w > |bs| then Reject else ArrayOf(short + Field(bs, w), 1 + w)
    case Entries(w, short) => if 1 + w > |bs| then Reject else MapOf(short + Field(bs, w), 1 + w)
    case Unknown => Reject
  }

  /** float32 bits to float64 bits: exact on numbers and infinities; every NaN is made canonical. */
  function Promote(bits: nat): U64
    requires bits < 0x1_0000_0000
  {
    var sign, exponent, fraction := bits / 0x8000_0000, bits / 0x80_0000 % 0x100, bits % 0x80_0000;
    var magnitude: nat :=
      if exponent == 0xFF then (if fraction == 0 then 0x7FF0_0000_0000_0000 else 0x7FF8_0000_0000_0000)
      else if exponent > 0 then (exponent + 896) * 0x10_0000_0000_0000 + fraction * 0x2000_0000
      else if fraction == 0 then 0
      else Normalize(fraction, 897);
    sign * 0x8000_0000_0000_0000 + magnitude
  }

  /** A subnormal fraction shifted up until its leading bit is implicit. */
  function Normalize(fraction: nat, exponent: nat): (r: nat)
    requires 0 < fraction < 0x100_0000 && 0 < exponent <= 897
    ensures r < 0x7FF0_0000_0000_0000
    decreases exponent
  {
    if fraction >= 0x80_0000 || exponent == 1 then
      exponent * 0x10_0000_0000_0000 + fraction % 0x80_0000 * 0x2000_0000
    else Normalize(fraction * 2, exponent - 1)
  }

  /** Something decoded from the front of a byte string, and how many bytes it took. */
  datatype Decoded<T> = Decoded(v: T, used: nat)

  /** A result that comes n bytes later. */
  function Shift<T>(n: nat, r: Option<Decoded<T>>): Option<Decoded<T>> {
    match r case None => None case Some(d) => Some(Decoded(d.v, n + d.used))
  }

  function Decode(bs: seq<Byte>): (r: Option<Decoded<Value>>)
    ensures r.Some? ==> 0 < r.value.used <= |bs|
    decreases |bs|, 0
  {
    if bs == [] then None
    else match ReadHead(bs)
      case Reject => None
      case Leaf(v, used) => Some(Decoded(v, used))
      case ArrayOf(count, used) =>
        (match DecodeItems(bs[used..], count, [])
         case None => None
         case Some(d) => Some(Decoded(Array(d.v), used + d.used)))
      case MapOf(count, used) =>
        (match DecodeEntries(bs[used..], count, [])
         case None => None
         case Some(d) => Some(Decoded(Map(d.v), used + d.used)))
  }

  /** Decoding at a position, the end given as a position too. */
  function DecodedAt(data: seq<Byte>, pos: nat): Option<Decoded<Value>> {
    if pos >= |data| then None else Shift(pos, Decode(data[pos..]))
  }

  /** `count` values, appended to `acc`. */
  function DecodeItems(bs: seq<Byte>, count: nat, acc: seq<Value>): (r: Option<Decoded<seq<Value>>>)
    ensures r.Some? ==> r.value.used <= |bs| && |r.value.v| == |acc| + count
    decreases |bs|, 1, count
  {
    if count == 0 then Some(Decoded(acc, 0))
    else match Decode(bs)
      case None => None
      case Some(d) =>
        match DecodeItems(bs[d.used..], count - 1, acc + [d.v])
        case None => None
        case Some(r) => Some(Decoded(r.v, d.used + r.used))
  }

  /** `count` text keys with their values, inserted into `acc`. */
  function DecodeEntries(bs: seq<Byte>, count: nat, acc: Sorted<Value>): (r: Option<Decoded<Sorted<Value>>>)
    ensures r.Some? ==> r.value.used <= |bs|
    decreases |bs|, 1, count
  {
    if count == 0 then Some(Decoded(acc, 0))
    else match Decode(bs)
      case None => None
      case Some(k) =>
        if !k.v.String? then None
        else match Decode(bs[k.used..])
          case None => None
          case Some(d) =>
            match DecodeEntries(bs[k.used + d.used..], count - 1, Insert(acc, k.v.s, d.v))
            case None => None
            case Some(r) => Some(Decoded(r.v, k.used + d.used + r.used))
  }

  /** Decoded values already gathered stay in front. */
  lemma {:induction false} ItemsKeep(bs: seq<Byte>, n: nat, acc: seq<Value>)
    requires DecodeItems(bs, n, acc).Some?
    ensures acc <= DecodeItems(bs, n, acc).value.v
    decreases n
  {
    hide Decode;
    if n > 0 {
      var d := Decode(bs).value;
      ItemsKeep(bs[d.used..], n - 1, acc + [d.v]);
    }
  }

  // ------------------------------------------------------------------
  // Decoding looks at nothing but the bytes it consumes
  // ------------------------------------------------------------------

  /** `a` and `b` start with the same n bytes. */
  ghost predicate SamePrefix(a: seq<Byte>, b: seq<Byte>, n: nat) {
    n <= |a| && n <= |b| && a[..n] == b[..n]
  }

  lemma PrefixSlice(a: seq<Byte>, b: seq<Byte>, n: nat, i: nat, j: nat)
    requires SamePrefix(a, b, n) && i <= j <= n
    ensures j <= |a| && j <= |b| && a[i..j] == b[i..j]
    ensures SamePrefix(a[i..], b[i..], j - i)
  {
    SliceOfPrefix(a, n, i, j);
    SliceOfPrefix(b, n, i, j);
    assert a[i..][..j - i] == a[i..j] && b[i..][..j - i] == b[i..j];
  }

  lemma SliceOfPrefix<T>(a: seq<T>, n: nat, i: nat, j: nat)
    requires i <= j <= n <= |a|
    ensures a[i..j] == a[..n][i..j]
  {}

  lemma LongPayloadIsLocal(k: Kind, a: seq<Byte>, b: seq<Byte>, w: nat)
    requires (k.Text? || k.Blob?) && k.width == w
    requires a != [] && !Payload(k, a).Reject?
    requires SamePrefix(a, b, Payload(k, a).used)
    ensures b != [] && Payload(k, b) == Payload(k, a)
  {
    hide Lossy, Unsigned, Promote, IntOf, Pow256, SamePrefix;
    var n := Payload(k, a).used;
    PrefixSlice(a, b, n, 0, n);
    PrefixSlice(a, b, n, 1, 1 + w);
    PrefixSlice(a, b, n, 1 + w, n);
  }

  lemma PayloadIsLocal(k: Kind, a: seq<Byte>, b: seq<Byte>)
    requires a != [] && !Payload(k, a).Reject?
    requires SamePrefix(a, b, Payload(k, a).used)
    ensures Payload(k, b) == Payload(k, a)
  {
    hide Lossy, Unsigned, Promote, IntOf, Pow256, SamePrefix;
    var n := Payload(k, a).used;
    PrefixSlice(a, b, n, 0, n);
    match k
    case Int(w, _) => PrefixSlice(a, b, n, 1, 1 + w);
    case Single => PrefixSlice(a, b, n, 1, 5);
    case Double => PrefixSlice(a, b, n, 1, 9);
    case Text(w, _) => LongPayloadIsLocal(k, a, b, w);
    case Blob(w) => LongPayloadIsLocal(k, a, b, w);
    case Items(w, _) => PrefixSlice(a, b, n, 1, 1 + w);
    case Entries(w, _) => PrefixSlice(a, b, n, 1, 1 + w);
    case _ =>
  }

  lemma HeadIsLocal(a: seq<Byte>, b: seq<Byte>)
    requires a != [] && !ReadHead(a).Reject?
    requires SamePrefix(a, b, ReadHead(a).used)
    ensures ReadHead(b) == ReadHead(a)
  {
    hide Payload, Classify;
    PrefixSlice(a, b, ReadHead(a).used, 0, 1);
    assert a[..1][0] == b[..1][0];
    PayloadIsLocal(Classify(a[0]), a, b);
  }

  /** A successful decode gives the same result whatever follows the bytes it used. */
  lemma {:induction false} DecodeIsLocal(a: seq<Byte>, b: seq<Byte>)
    requires Decode(a).Some?
    requires SamePrefix(a, b, Decode(a).value.used)
    ensures Decode(b) == Decode(a)
    decreases |a|, 0
  {
    hide ReadHead, DecodeItems, DecodeEntries;
    var n := Decode(a).value.used;
    var h := ReadHead(a);
    PrefixSlice(a, b, n, 0, h.used);
    HeadIsLocal(a, b);
    PrefixSlice(a, b, n, h.used, n);
    match h
    case Leaf(_, _) =>
    case ArrayOf(count, used) => DecodeItemsIsLocal(a[used..], b[used..], count, []);
    case MapOf(count, used) => DecodeEntriesIsLocal(a[used..], b[used..], count, []);
  }

  lemma {:induction false} DecodeItemsIsLocal(a: seq<Byte>, b: seq<Byte>, count: nat, acc: seq<Value>)
    requires DecodeItems(a, count, acc).Some?
    requires SamePrefix(a, b, DecodeItems(a, count, acc).value.used)
    ensures DecodeItems(b, count, acc) == DecodeItems(a, count, acc)
    decreases |a|, 1, count
  {
    hide Decode, ReadHead;
    if count > 0 {
      var n := DecodeItems(a, count, acc).value.used;
      var d := Decode(a).value;
      PrefixSlice(a, b, n, 0, d.used);
      DecodeIsLocal(a, b);
      PrefixSlice(a, b, n, d.used, n);
      DecodeItemsIsLocal(a[d.used..], b[d.used..], count - 1, acc + [d.v]);
    }
  }

  lemma NoEntries(bs: seq<Byte>, acc: Sorted<Value>)
    ensures DecodeEntries(bs, 0, acc) == Some(Decoded(acc, 0))
  {}

  /** A run of entries, by its first entry. */
  lemma EntriesNext(bs: seq<Byte>, count: nat, acc: Sorted<Value>, k: Decoded<Value>, d: Decoded<Value>)
    requires 0 < k.used <= |bs| && 0 < d.used <= |bs| - k.used && k.v.String? && count > 0
    requires Decode(bs) == Some(k)
    requires Decode(bs[k.used..]) == Some(d)
    ensures DecodeEntries(bs, count, acc) ==
            Shift(k.used + d.used, DecodeEntries(bs[k.used + d.used..], count - 1, Insert(acc, k.v.s, d.v)))
  {
    hide Decode, ReadHead, Insert, Less, Valid;
  }

  /** A run of entries whose first entry cannot be read. */
  lemma EntriesStuck(bs: seq<Byte>, count: nat, acc: Sorted<Value>)
    requires count > 0
    requires match Decode(bs)
             case None => true
             case Some(k) => !k.v.String? || (k.used <= |bs| && Decode(bs[k.used..]).None?)
    ensures DecodeEntries(bs, count, acc) == None
  {
    hide Decode, ReadHead, Insert, Less, Valid;
  }

  /** The first entry of a run, and the rest. */
  lemma EntriesUnfold(bs: seq<Byte>, count: nat, acc: Sorted<Value>)
    returns (k: Decoded<Value>, d: Decoded<Value>, rest: Decoded<Sorted<Value>>)
    requires count > 0 && DecodeEntries(bs, count, acc).Some?
    ensures 0 < k.used <= |bs| && 0 < d.used <= |bs| - k.used && k.v.String?
    ensures Decode(bs) == Some(k)
    ensures Decode(bs[k.used..]) == Some(d)
    ensures DecodeEntries(bs[k.used + d.used..], count - 1, Insert(acc, k.v.s, d.v)) == Some(rest)
    ensures DecodeEntries(bs, count, acc) == Some(Decoded(rest.v, k.used + d.used + rest.used))
  {
    hide Decode, ReadHead, Insert, Less, Valid;
    k := Decode(bs).value;
    d := Decode(bs[k.used..]).value;
    rest := DecodeEntries(bs[k.used + d.used..], count - 1, Insert(acc, k.v.s, d.v)).value;
  }

  lemma {:induction false} DecodeEntriesIsLocal(a: seq<Byte>, b: seq<Byte>, count: nat, acc: Sorted<Value>)
    requires DecodeEntries(a, count, acc).Some?
    requires SamePrefix(a, b, DecodeEntries(a, count, acc).value.used)
    ensures DecodeEntries(b, count, acc) == DecodeEntries(a, count, acc)
    decreases |a|, 1, count
  {
    hide Decode, ReadHead, Insert, DecodeEntries, Less, Valid;
    if count == 0 {
      NoEntries(a, acc);
      NoEntries(b, acc);
    } else {
      var k, d, rest := EntriesUnfold(a, count, acc);
      var m := k.used + d.used;
      var n := m + rest.used;
      PrefixSlice(a, b, n, 0, k.used);
      DecodeIsLocal(a, b);
      PrefixSlice(a, b, n, k.used, m);
      DecodeIsLocal(a[k.used..], b[k.used..]);
      PrefixSlice(a, b, n, m, n);
      DecodeEntriesIsLocal(a[m..], b[m..], count - 1, Insert(acc, k.v.s, d.v));
      EntriesNext(b, count, acc, k, d);
    }
  }

  /** No strict truncation of a decodable byte string decodes. */
  lemma TruncationFails(bs: seq<Byte>, m: nat)
    requires Decode(bs).Some? && m < Decode(bs).value.used
    ensures Decode(bs[..m]) == None
  {
    if Decode(bs[..m]).Some? {
      var n := Decode(bs[..m]).value.used;
      assert bs[..m][..n] == bs[..n];
      DecodeIsLocal(bs[..m], bs);
    }
  }

  // ------------------------------------------------------------------
  // A decoded value is no larger than the bytes it came from
  // ------------------------------------------------------------------

  /** Number of nodes, map keys included. */
  function Nodes(v: Value): (n: nat)
    ensures n >= 1
  {
    match v
    case Array(items) => 1 + NodesOf(items)
    case Map(entries) => 1 + NodesIn(entries)
    case _ => 1
  }

  function NodesOf(items: seq<Value>): nat {
    if items == [] then 0 else Nodes(items[0]) + NodesOf(items[1..])
  }

  function NodesIn(entries: seq<Entry<Value>>): nat {
    if entries == [] then 0 else 1 + Nodes(entries[0].val) + NodesIn(entries[1..])
  }

  lemma {:induction false} NodesOfAppend(items: seq<Value>, v: Value)
    ensures NodesOf(items + [v]) == NodesOf(items) + Nodes(v)
  {
    if items == [] {
      assert (items + [v])[1..] == [];
    } else {
      assert (items + [v])[1..] == items[1..] + [v];
      NodesOfAppend(items[1..], v);
    }
  }

  lemma {:induction false} NodesInInsert(m: Sorted<Value>, k: Str, v: Value)
    ensures NodesIn(Insert(m, k, v)) <= NodesIn(m) + 1 + Nodes(v)
    decreases |m|
  {
    if m != [] && m[0].key != k && !Less(k, m[0].key) {
      NodesInInsert(m[1..], k, v);
      assert Insert(m, k, v)[1..] == Insert(m[1..], k, v);
    } else if m != [] && m[0].key == k {
      assert Insert(m, k, v)[1..] == m[1..];
    } else {
      assert Insert(m, k, v)[1..] == m;
    }
  }

  lemma {:induction false} DecodedIsSmall(bs: seq<Byte>)
    requires Decode(bs).Some?
    ensures Nodes(Decode(bs).value.v) <= Decode(bs).value.used
    decreases |bs|, 0
  {
    hide DecodeItems, DecodeEntries;
    match ReadHead(bs)
    case Leaf(_, _) =>
    case ArrayOf(count, used) => ItemsAreSmall(bs[used..], count, []);
    case MapOf(count, used) => EntriesAreSmall(bs[used..], count, []);
  }

  lemma {:induction false} ItemsAreSmall(bs: seq<Byte>, count: nat, acc: seq<Value>)
    requires DecodeItems(bs, count, acc).Some?
    ensures NodesOf(DecodeItems(bs, count, acc).value.v) <= NodesOf(acc) + DecodeItems(bs, count, acc).value.used
    decreases |bs|, 1, count
  {
    hide Decode, ReadHead;
    if count > 0 {
      var d := Decode(bs).value;
      DecodedIsSmall(bs);
      NodesOfAppend(acc, d.v);
      ItemsAreSmall(bs[d.used..], count - 1, acc + [d.v]);
    }
  }

  lemma {:induction false} EntriesAreSmall(bs: seq<Byte>, count: nat, acc: Sorted<Value>)
    requires DecodeEntries(bs, count, acc).Some?
    ensures NodesIn(DecodeEntries(bs, count, acc).value.v) <= NodesIn(acc) + DecodeEntries(bs, count, acc).value.used
    decreases |bs|, 1, count
  {
    hide Decode, ReadHead, Insert;
    if count > 0 {
      var k, d, rest := EntriesUnfold(bs, count, acc);
      hide DecodeEntries;
      DecodedIsSmall(bs[k.used..]);
      NodesInInsert(acc, k.v.s, d.v);
      EntriesAreSmall(bs[k.used + d.used..], count - 1, Insert(acc, k.v.s, d.v));
    }
  }
}
