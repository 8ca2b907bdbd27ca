/** Typed data to values and back. */
module Serde {
  import opened Bytes
  import opened Utf8
  import opened SortedMap
  import opened Values
  import opened Encoder
  import opened Decoder
  import opened RoundTrip

  // ------------------------------------------------------------------
  // Types and data
  // ------------------------------------------------------------------

  datatype IntKind = I8Kind | I16Kind | I32Kind | I64Kind | U8Kind | U16Kind | U32Kind | U64Kind

  datatype Schema =
    | BoolT
    | IntT(kind: IntKind)
    | StrT
    | UnitT
    | OptionT(inner: Schema)
    | SeqT(inner: Schema)
    | TupleT(items: seq<Schema>)
    | StructT(fields: seq<Field>)
    | MapT(inner: Schema)
    | EnumT(variants: seq<Variant>)

  datatype Field = Field(name: Str, schema: Schema)

  datatype Variant = UnitVariant(name: Str) | NewtypeVariant(name: Str, schema: Schema)

  datatype Data =
    | BoolD(b: bool)
    | IntD(n: int)
    | StrD(s: Str)
    | UnitD
    | NoneD
    | SomeD(d: Data)
    | SeqD(items: seq<Data>)
    | TupleD(parts: seq<Data>)
    | StructD(fields: seq<Data>)
    | MapD(entries: Sorted<Data>)
    | EnumD(index: nat, payload: Option<Data>)

  /** The cast `as k` from a 64-bit integer. */
  function Cast(x: int, k: IntKind): int {
    match k
    case I8Kind => ToI8(x)
    case I16Kind => ToI16(x)
    case I32Kind => ToI32(x)
    case I64Kind => ToI64(x)
    case U8Kind => x % 0x100
    case U16Kind => x % 0x1_0000
    case U32Kind => x % 0x1_0000_0000
    case U64Kind => x % 0x1_0000_0000_0000_0000
  }

  predicate InRange(x: int, k: IntKind) {
    match k
    case I8Kind => -0x80 <= x < 0x80
    case I16Kind => -0x8000 <= x < 0x8000
    case I32Kind => -0x8000_0000 <= x < 0x8000_0000
    case I64Kind => -0x8000_0000_0000_0000 <= x < 0x8000_0000_0000_0000
    case U8Kind => 0 <= x < 0x100
    case U16Kind => 0 <= x < 0x1_0000
    case U32Kind => 0 <= x < 0x1_0000_0000
    case U64Kind => 0 <= x < 0x1_0000_0000_0000_0000
  }

  predicate HasType(s: Schema, d: Data)
    decreases s
  {
    match s
    case BoolT => d.BoolD?
    case IntT(k) => d.IntD? && InRange(d.n, k)
    case StrT => d.StrD?
    case UnitT => d.UnitD?
    case OptionT(inner) => d.NoneD? || (d.SomeD? && HasType(inner, d.d))
    case SeqT(inner) => d.SeqD? && forall i :: 0 <= i < |d.items| ==> HasType(inner, d.items[i])
    case TupleT(ts) => d.TupleD? && |d.parts| == |ts| && forall i :: 0 <= i < |ts| ==> HasType(ts[i], d.parts[i])
    case StructT(fs) =>
      d.StructD? && |d.fields| == |fs| && forall i :: 0 <= i < |fs| ==> HasType(fs[i].schema, d.fields[i])
    case MapT(inner) => d.MapD? && forall i :: 0 <= i < |d.entries| ==> HasType(inner, d.entries[i].val)
    case EnumT(vs) =>
      d.EnumD? && d.index < |vs| &&
      (match vs[d.index]
       case UnitVariant(_) => d.payload.None?
       case NewtypeVariant(_, t) => d.payload.Some? && HasType(t, d.payload.value))
  }

  /** Field names are distinct within a struct, variant names within an enum. */
  predicate WellFormed(s: Schema) {
    match s
    case OptionT(inner) => WellFormed(inner)
    case SeqT(inner) => WellFormed(inner)
    case MapT(inner) => WellFormed(inner)
    case TupleT(ts) => forall i :: 0 <= i < |ts| ==> WellFormed(ts[i])
    case StructT(fs) => DistinctFields(fs) && forall i :: 0 <= i < |fs| ==> WellFormed(fs[i].schema)
    case EnumT(vs) =>
      DistinctVariants(vs) && forall i :: 0 <= i < |vs| ==> vs[i].NewtypeVariant? ==> WellFormed(vs[i].schema)
    case _ => true
  }

  predicate DistinctFields(fs: seq<Field>) {
    forall i, j :: 0 <= i < j < |fs| ==> fs[i].name != fs[j].name
  }

  predicate DistinctVariants(vs: seq<Variant>) {
    forall i, j :: 0 <= i < j < |vs| ==> vs[i].name != vs[j].name
  }

  // ------------------------------------------------------------------
  // Serializing
  // ------------------------------------------------------------------

  function ToValue(s: Schema, d: Data): Value
    requires HasType(s, d)
    decreases s, 0
  {
    match s
    case BoolT => Bool(d.b)
    case IntT(k) => Integer(ToI64(d.n))
    case StrT => String(d.s)
    case UnitT => Nil
    case OptionT(inner) => if d.NoneD? then Nil else ToValue(inner, d.d)
    case SeqT(inner) => Array(SeqValues(inner, d.items))
    case TupleT(ts) => Array(TupleValues(ts, d.parts))
    case StructT(fs) => Map(FieldValues(fs, d.fields, []))
    case MapT(inner) => Map(MapValues(inner, d.entries, []))
    case EnumT(vs) =>
      (match vs[d.index]
       case UnitVariant(name) => String(name)
       case NewtypeVariant(name, t) => Map([Entry(name, ToValue(t, d.payload.value))]))
  }

  function SeqValues(s: Schema, ds: seq<Data>): (vs: seq<Value>)
    requires forall i :: 0 <= i < |ds| ==> HasType(s, ds[i])
    ensures |vs| == |ds|
    ensures forall i :: 0 <= i < |ds| ==> vs[i] == ToValue(s, ds[i])
    decreases s, 1, |ds|
  {
    if ds == [] then [] else [ToValue(s, ds[0])] + SeqValues(s, ds[1..])
  }

  function TupleValues(ts: seq<Schema>, ds: seq<Data>): (vs: seq<Value>)
    requires |ts| == |ds| && forall i :: 0 <= i < |ts| ==> HasType(ts[i], ds[i])
    ensures |vs| == |ds|
    ensures forall i :: 0 <= i < |ds| ==> vs[i] == ToValue(ts[i], ds[i])
    decreases ts, 1
  {
    if ts == [] then [] else [ToValue(ts[0], ds[0])] + TupleValues(ts[1..], ds[1..])
  }

  /** Struct fields inserted one after the other. */
  function FieldValues(fs: seq<Field>, ds: seq<Data>, acc: Sorted<Value>): Sorted<Value>
    requires |fs| == |ds| && forall i :: 0 <= i < |fs| ==> HasType(fs[i].schema, ds[i])
    decreases fs, 1
  {
    if fs == [] then acc
    else FieldValues(fs[1..], ds[1..], Insert(acc, fs[0].name, ToValue(fs[0].schema, ds[0])))
  }

  /** Map entries inserted one after the other. */
  function MapValues(s: Schema, entries: seq<Entry<Data>>, acc: Sorted<Value>): Sorted<Value>
    requires forall i :: 0 <= i < |entries| ==> HasType(s, entries[i].val)
    decreases s, 1, |entries|
  {
    if entries == [] then acc
    else MapValues(s, entries[1..], Insert(acc, entries[0].key, ToValue(s, entries[0].val)))
  }

  // ------------------------------------------------------------------
  // Deserializing; None is an error
  // ------------------------------------------------------------------

  function FromValue(s: Schema, v: Value): Option<Data>
    decreases s, 0
  {
    match s
    case BoolT => if v.Bool? then Some(BoolD(v.b)) else None
    case IntT(k) => if v.Integer? then Some(IntD(Cast(v.i, k))) else None
    case StrT =>
      if v.String? then Some(StrD(v.s))
      else if v.Binary? && Valid(v.data) then Some(StrD(v.data))
      else None
    case UnitT => Some(UnitD)
    case OptionT(inner) =>
      if v.Nil? then Some(NoneD)
      else (match FromValue(inner, v) case None => None case Some(d) => Some(SomeD(d)))
    case SeqT(inner) =>
      if !v.Array? then None
      else (match SeqData(inner, v.items) case None => None case Some(ds) => Some(SeqD(ds)))
    case TupleT(ts) =>
      if !v.Array? then None
      else (match TupleData(ts, v.items) case None => None case Some(ds) => Some(TupleD(ds)))
    case StructT(fs) =>
      if !v.Map? then None
      else (match FieldData(fs, v.entries) case None => None case Some(ds) => Some(StructD(ds)))
    case MapT(inner) =>
      if !v.Map? then None
      else (match MapData(inner, v.entries, []) case None => None case Some(m) => Some(MapD(m)))
    case EnumT(vs) =>
      if v.String? then EnumData(vs, v.s, None)
      else if v.Map? && v.entries != [] then EnumData(vs, v.entries[0].key, Some(v.entries[0].val))
      else None
  }

  function SeqData(s: Schema, items: seq<Value>): Option<seq<Data>>
    decreases s, 1, |items|
  {
    if items == [] then Some([])
    else match FromValue(s, items[0])
      case None => None
      case Some(d) =>
        match SeqData(s, items[1..]) case None => None case Some(ds) => Some([d] + ds)
  }

  /** A tuple takes as many items as it needs and ignores the rest. */
  function TupleData(ts: seq<Schema>, items: seq<Value>): Option<seq<Data>>
    decreases ts, 1
  {
    if ts == [] then Some([])
    else if items == [] then None
    else match FromValue(ts[0], items[0])
      case None => None
      case Some(d) =>
        match TupleData(ts[1..], items[1..]) case None => None case Some(ds) => Some([d] + ds)
  }

  /** A missing field is an error unless it is optional. */
  function OneField(f: Field, m: Sorted<Value>): Option<Data>
    decreases f, 1
  {
    match Lookup(m, f.name)
    case Some(v) => FromValue(f.schema, v)
    case None => if f.schema.OptionT? then Some(NoneD) else None
  }

  /** Unknown keys are ignored. */
  function FieldData(fs: seq<Field>, m: Sorted<Value>): Option<seq<Data>>
    decreases fs, 1
  {
    if fs == [] then Some([])
    else
      match OneField(fs[0], m)
      case None => None
      case Some(d) =>
        match FieldData(fs[1..], m) case None => None case Some(ds) => Some([d] + ds)
  }

  function MapData(s: Schema, entries: seq<Entry<Value>>, acc: Sorted<Data>): Option<Sorted<Data>>
    decreases s, 1, |entries|
  {
    if entries == [] then Some(acc)
    else match FromValue(s, entries[0].val)
      case None => None
      case Some(d) => MapData(s, entries[1..], Insert(acc, entries[0].key, d))
  }

  /** A unit variant accepts data and ignores it; a newtype variant needs it. */
  function EnumData(vs: seq<Variant>, name: Str, payload: Option<Value>): Option<Data>
    decreases vs, 1
  {
    match Index(vs, name)
    case None => None
    case Some(i) =>
      match vs[i]
      case UnitVariant(_) => Some(EnumD(i, None))
      case NewtypeVariant(_, t) =>
        if payload.None? then None
        else match FromValue(t, payload.value) case None => None case Some(d) => Some(EnumD(i, Some(d)))
  }

  function Index(vs: seq<Variant>, name: Str): (r: Option<nat>)
    ensures r.Some? ==> r.value < |vs| && vs[r.value].name == name
    ensures r.None? ==> forall i :: 0 <= i < |vs| ==> vs[i].name != name
  {
    if vs == [] then None
    else if vs[0].name == name then Some(0)
    else match Index(vs[1..], name) case None => None case Some(i) => Some(i + 1)
  }

  // ------------------------------------------------------------------
  // Round trip
  // ------------------------------------------------------------------

  /** Unit, `None`, and `Some` of such data: what is written as nil. */
  predicate WritesNil(s: Schema, d: Data)
    requires HasType(s, d)
    decreases s
  {
    s.UnitT? || (s.OptionT? && (d.NoneD? || WritesNil(s.inner, d.d)))
  }

  lemma {:induction false} NilIffWritesNil(s: Schema, d: Data)
    requires HasType(s, d)
    ensures ToValue(s, d) == Nil <==> WritesNil(s, d)
    decreases s
  {
    if s.OptionT? && d.SomeD? {
      NilIffWritesNil(s.inner, d.d);
    }
  }

  /** No `Some` inside the data is written as nil, which reads back as `None`. */
  predicate Faithful(s: Schema, d: Data)
    requires HasType(s, d)
    decreases s
  {
    match s
    case OptionT(inner) => d.NoneD? || (!WritesNil(inner, d.d) && Faithful(inner, d.d))
    case SeqT(inner) => forall i :: 0 <= i < |d.items| ==> Faithful(inner, d.items[i])
    case TupleT(ts) => forall i :: 0 <= i < |ts| ==> Faithful(ts[i], d.parts[i])
    case StructT(fs) => forall i :: 0 <= i < |fs| ==> Faithful(fs[i].schema, d.fields[i])
    case MapT(inner) => forall i :: 0 <= i < |d.entries| ==> Faithful(inner, d.entries[i].val)
    case EnumT(vs) =>
      (match vs[d.index] case UnitVariant(_) => true case NewtypeVariant(_, t) => Faithful(t, d.payload.value))
    case _ => true
  }

  lemma CastBack(n: int, k: IntKind)
    requires InRange(n, k)
    ensures Cast(ToI64(n), k) == n
  {
    if k.U64Kind? {
      WrapsTwice(n);
    } else {
      NoWrap(n);
      hide ToI64;
    }
  }

  lemma WrapsTwice(n: nat)
    requires n < 0x1_0000_0000_0000_0000
    ensures ToI64(n) % 0x1_0000_0000_0000_0000 == n
  {}

  lemma NoWrap(n: I64)
    ensures ToI64(n) == n
  {}

  /** Typed data comes back from its value exactly when it is faithful. */
  lemma {:induction false} ValueRoundTrip(s: Schema, d: Data)
    requires WellFormed(s) && HasType(s, d)
    ensures FromValue(s, ToValue(s, d)) == Some(d) <==> Faithful(s, d)
    decreases s, 0
  {
    hide Valid, Less, FieldValues, MapValues, SeqData, TupleData, FieldData, MapData, ToI64, Cast, Index;
    match s
    case IntT(k) => CastBack(d.n, k);
    case OptionT(inner) =>
      if d.SomeD? {
        NilIffWritesNil(inner, d.d);
        ValueRoundTrip(inner, d.d);
      }
    case SeqT(inner) => SeqRoundTrip(inner, d.items);
    case TupleT(ts) => TupleRoundTrip(ts, d.parts);
    case StructT(fs) =>
      forall i | 0 <= i < |fs|
        ensures Lookup(FieldValues(fs, d.fields, []), fs[i].name) == Some(ToValue(fs[i].schema, d.fields[i]))
      {
        FieldLookup(fs, d.fields, [], i);
      }
      FieldRoundTrip(fs, d.fields, FieldValues(fs, d.fields, []));
    case MapT(inner) => MapRoundTrip(inner, d.entries);
    case EnumT(vs) =>
      IndexOfVariant(vs, d.index);
      if vs[d.index].NewtypeVariant? { ValueRoundTrip(vs[d.index].schema, d.payload.value); }
    case _ =>
  }

  lemma IndexOfVariant(vs: seq<Variant>, i: nat)
    requires DistinctVariants(vs) && i < |vs|
    ensures Index(vs, vs[i].name) == Some(i)
  {}

  lemma {:induction false} SeqRoundTrip(s: Schema, ds: seq<Data>)
    requires WellFormed(s) && forall i :: 0 <= i < |ds| ==> HasType(s, ds[i])
    ensures SeqData(s, SeqValues(s, ds)) == Some(ds) <==> forall i :: 0 <= i < |ds| ==> Faithful(s, ds[i])
    decreases s, 1, |ds|
  {
    hide FromValue, ToValue, Faithful, HasType, WellFormed;
    if ds != [] {
      var vs := SeqValues(s, ds);
      ValueRoundTrip(s, ds[0]);
      SeqRoundTrip(s, ds[1..]);
      assert vs[1..] == SeqValues(s, ds[1..]);
      assert ds == [ds[0]] + ds[1..];
      assert forall i :: 1 <= i < |ds| ==> ds[i] == ds[1..][i - 1];
    }
  }

  lemma {:induction false} TupleRoundTrip(ts: seq<Schema>, ds: seq<Data>)
    requires |ts| == |ds| && forall i :: 0 <= i < |ts| ==> WellFormed(ts[i]) && HasType(ts[i], ds[i])
    ensures TupleData(ts, TupleValues(ts, ds)) == Some(ds) <==> forall i :: 0 <= i < |ts| ==> Faithful(ts[i], ds[i])
    decreases ts, 1
  {
    hide FromValue, ToValue, Faithful, HasType, WellFormed;
    if ts != [] {
      ValueRoundTrip(ts[0], ds[0]);
      TupleRoundTrip(ts[1..], ds[1..]);
      TupleStep(ts, ds);
      hide TupleData, TupleValues;
      assert forall i :: 1 <= i < |ds| ==> ds[i] == ds[1..][i - 1] && ts[i] == ts[1..][i - 1];
      assert (forall i :: 0 <= i < |ts| ==> Faithful(ts[i], ds[i])) <==>
             (Faithful(ts[0], ds[0]) && forall i :: 0 <= i < |ts| - 1 ==> Faithful(ts[1..][i], ds[1..][i]));
    }
  }

  lemma HeadAndTail<T>(x: T, xs: seq<T>, ys: seq<T>)
    requires ys != []
    ensures [x] + xs == ys <==> x == ys[0] && xs == ys[1..]
  {
    assert ([x] + xs)[0] == x && ([x] + xs)[1..] == xs;
  }

  lemma TupleDataStep(ts: seq<Schema>, vs: seq<Value>)
    requires ts != [] && vs != []
    ensures TupleData(ts, vs) ==
            match FromValue(ts[0], vs[0])
            case None => None
            case Some(d) =>
              match TupleData(ts[1..], vs[1..]) case None => None case Some(ds) => Some([d] + ds)
  {
    hide FromValue;
  }

  lemma TupleStep(ts: seq<Schema>, ds: seq<Data>)
    requires |ts| == |ds| > 0 && forall i :: 0 <= i < |ts| ==> HasType(ts[i], ds[i])
    ensures TupleData(ts, TupleValues(ts, ds)) == Some(ds) <==>
            FromValue(ts[0], ToValue(ts[0], ds[0])) == Some(ds[0]) &&
            TupleData(ts[1..], TupleValues(ts[1..], ds[1..])) == Some(ds[1..])
  {
    hide FromValue, ToValue, HasType;
    var vs := TupleValues(ts, ds);
    assert vs[0] == ToValue(ts[0], ds[0]) && vs[1..] == TupleValues(ts[1..], ds[1..]);
    hide TupleValues, TupleData;
    TupleDataStep(ts, vs);
    if FromValue(ts[0], vs[0]).Some? && TupleData(ts[1..], vs[1..]).Some? {
      HeadAndTail(FromValue(ts[0], vs[0]).value, TupleData(ts[1..], vs[1..]).value, ds);
    }
  }

  /** Other keys keep what they had. */
  lemma {:induction false} OtherLookup(fs: seq<Field>, ds: seq<Data>, acc: Sorted<Value>, q: Str)
    requires |fs| == |ds| && forall i :: 0 <= i < |fs| ==> HasType(fs[i].schema, ds[i])
    requires forall i :: 0 <= i < |fs| ==> fs[i].name != q
    ensures Lookup(FieldValues(fs, ds, acc), q) == Lookup(acc, q)
    decreases |fs|
  {
    hide ToValue, HasType, Insert, Lookup, Less, Valid;
    if fs != [] {
      var v := ToValue(fs[0].schema, ds[0]);
      OtherLookup(fs[1..], ds[1..], Insert(acc, fs[0].name, v), q);
      InsertLookup(acc, fs[0].name, v, q);
    }
  }

  lemma {:induction false} FieldLookup(fs: seq<Field>, ds: seq<Data>, acc: Sorted<Value>, i: nat)
    requires |fs| == |ds| && forall i :: 0 <= i < |fs| ==> HasType(fs[i].schema, ds[i])
    requires DistinctFields(fs) && i < |fs|
    ensures Lookup(FieldValues(fs, ds, acc), fs[i].name) == Some(ToValue(fs[i].schema, ds[i]))
    decreases i
  {
    hide ToValue, HasType, Insert, Lookup, Less, Valid;
    var v := ToValue(fs[0].schema, ds[0]);
    var acc' := Insert(acc, fs[0].name, v);
    if i == 0 {
      OtherLookup(fs[1..], ds[1..], acc', fs[0].name);
      InsertLookup(acc, fs[0].name, v, fs[0].name);
    } else {
      FieldLookup(fs[1..], ds[1..], acc', i - 1);
    }
  }

  lemma {:induction false} FieldRoundTrip(fs: seq<Field>, ds: seq<Data>, m: Sorted<Value>)
    requires |fs| == |ds| && forall i :: 0 <= i < |fs| ==> WellFormed(fs[i].schema) && HasType(fs[i].schema, ds[i])
    requires forall i :: 0 <= i < |fs| ==> Lookup(m, fs[i].name) == Some(ToValue(fs[i].schema, ds[i]))
    ensures FieldData(fs, m) == Some(ds) <==> forall i :: 0 <= i < |fs| ==> Faithful(fs[i].schema, ds[i])
    decreases fs, 1
  {
    hide FromValue, ToValue, Faithful, HasType, WellFormed, Lookup, Valid, Less;
    if fs != [] {
      ValueRoundTrip(fs[0].schema, ds[0]);
      FieldRoundTrip(fs[1..], ds[1..], m);
      assert ds == [ds[0]] + ds[1..];
      assert forall i :: 1 <= i < |ds| ==> ds[i] == ds[1..][i - 1] && fs[i] == fs[1..][i - 1];
    }
  }

  lemma {:induction false} FieldsAre(fs: seq<Field>, m: Sorted<Value>, ds: seq<Data>)
    requires |ds| == |fs| && forall i :: 0 <= i < |fs| ==> OneField(fs[i], m) == Some(ds[i])
    ensures FieldData(fs, m) == Some(ds)
    decreases |fs|
  {
    hide OneField;
    if fs != [] {
      FieldsAre(fs[1..], m, ds[1..]);
      assert ds == [ds[0]] + ds[1..];
    }
  }

  lemma {:induction false} FieldFails(fs: seq<Field>, m: Sorted<Value>, i: nat)
    requires i < |fs| && OneField(fs[i], m) == None
    ensures FieldData(fs, m) == None
    decreases i
  {
    hide OneField;
    if i > 0 {
      FieldFails(fs[1..], m, i - 1);
    }
  }

  lemma {:induction false} MapValuesShape(s: Schema, m: Sorted<Data>, i: nat, acc: Sorted<Value>)
    requires i == |acc| <= |m| && forall j :: 0 <= j < |m| ==> HasType(s, m[j].val)
    requires forall j :: 0 <= j < i ==> acc[j] == Entry(m[j].key, ToValue(s, m[j].val))
    ensures var r := MapValues(s, m[i..], acc);
            |r| == |m| && forall j :: 0 <= j < |m| ==> r[j] == Entry(m[j].key, ToValue(s, m[j].val))
    decreases |m| - i
  {
    hide ToValue, HasType, Insert, Less, Valid;
    if i < |m| {
      var v := ToValue(s, m[i].val);
      assert m[i..][1..] == m[i + 1..];
      InsertLast(acc, m[i].key, v);
      MapValuesShape(s, m, i + 1, Insert(acc, m[i].key, v));
    }
  }

  lemma {:induction false} MapDataShape(s: Schema, vs: Sorted<Value>, i: nat, acc: Sorted<Data>)
    requires i == |acc| <= |vs| && forall j :: 0 <= j < i ==> acc[j].key == vs[j].key
    ensures match MapData(s, vs[i..], acc)
            case None => exists j :: i <= j < |vs| && FromValue(s, vs[j].val).None?
            case Some(r) =>
              && |r| == |vs| && r[..i] == acc
              && forall j :: i <= j < |vs| ==> r[j].key == vs[j].key && FromValue(s, vs[j].val) == Some(r[j].val)
    decreases |vs| - i
  {
    hide FromValue, Insert, Less, Valid, MapData;
    MapDataStep(s, vs[i..], acc);
    if i < |vs| && FromValue(s, vs[i].val).Some? {
      var d := FromValue(s, vs[i].val).value;
      var acc' := Insert(acc, vs[i].key, d);
      assert vs[i..][1..] == vs[i + 1..];
      InsertLast(acc, vs[i].key, d);
      MapDataShape(s, vs, i + 1, acc');
      var rest := MapData(s, vs[i + 1..], acc');
      if rest.Some? {
        assert rest.value[..i] == rest.value[..i + 1][..i] == acc;
        assert rest.value[i] == rest.value[..i + 1][i];
      }
    }
  }

  lemma MapDataStep(s: Schema, entries: seq<Entry<Value>>, acc: Sorted<Data>)
    ensures MapData(s, entries, acc) ==
            if entries == [] then Some(acc)
            else match FromValue(s, entries[0].val)
              case None => None
              case Some(d) => MapData(s, entries[1..], Insert(acc, entries[0].key, d))
  {
    hide FromValue, Insert, Less, Valid;
  }

  lemma {:induction false} MapRoundTrip(s: Schema, m: Sorted<Data>)
    requires WellFormed(s) && forall j :: 0 <= j < |m| ==> HasType(s, m[j].val)
    ensures MapData(s, MapValues(s, m, []), []) == Some(m) <==> forall j :: 0 <= j < |m| ==> Faithful(s, m[j].val)
    decreases s, 1
  {
    hide FromValue, ToValue, Faithful, HasType, WellFormed, Valid, Less, MapData, MapValues;
    var vs := MapValues(s, m, []);
    assert m[0..] == m && vs[0..] == vs;
    MapValuesShape(s, m, 0, []);
    MapDataShape(s, vs, 0, []);
    forall j | 0 <= j < |m|
      ensures FromValue(s, vs[j].val) == Some(m[j].val) <==> Faithful(s, m[j].val)
    {
      ValueRoundTrip(s, m[j].val);
    }
    var r := MapData(s, vs, []);
    if r.Some? && forall j :: 0 <= j < |m| ==> Faithful(s, m[j].val) {
      forall j | 0 <= j < |m| ensures r.value[j] == m[j] {
        assert Faithful(s, m[j].val);
        assert r.value[j].key == vs[j].key == m[j].key;
        assert FromValue(s, vs[j].val) == Some(r.value[j].val);
      }
      assert r.value == m;
    }
  }

  // ------------------------------------------------------------------
  // Through bytes
  // ------------------------------------------------------------------

  /** Undecodable or empty input counts as nil. */
  function FromBytes(s: Schema, bytes: seq<Byte>): Option<Data> {
    match Decode(bytes) case None => FromValue(s, Nil) case Some(r) => FromValue(s, r.v)
  }

  /** On the encodable domain the same holds through bytes, whatever bytes follow. */
  lemma BytesRoundTrip(s: Schema, d: Data, t: seq<Byte>)
    requires WellFormed(s) && HasType(s, d)
    requires Encodable(ToValue(s, d)) && ArraysFit(ToValue(s, d))
    ensures FromBytes(s, Encode(ToValue(s, d)) + t) == Some(d) <==> Faithful(s, d)
  {
    hide FromValue, ToValue, Decode, Encode, Faithful, HasType, WellFormed;
    DecodeOfEncode(ToValue(s, d), t);
    ValueRoundTrip(s, d);
  }

  /** Types that never serialize to nil. */
  predicate NeverNil(s: Schema) {
    !s.UnitT? && !s.OptionT?
  }

  /** Some data has the type; an enum may have no variant that can be built. */
  predicate Inhabited(s: Schema) {
    match s
    case TupleT(ts) => forall i :: 0 <= i < |ts| ==> Inhabited(ts[i])
    case StructT(fs) => forall i :: 0 <= i < |fs| ==> Inhabited(fs[i].schema)
    case EnumT(vs) => exists i :: 0 <= i < |vs| && (vs[i].NewtypeVariant? ==> Inhabited(vs[i].schema))
    case _ => true
  }

  lemma {:induction false} TypedIsInhabited(s: Schema, d: Data)
    requires HasType(s, d)
    ensures Inhabited(s)
    decreases s
  {
    match s
    case TupleT(ts) =>
      forall i | 0 <= i < |ts| ensures Inhabited(ts[i]) { TypedIsInhabited(ts[i], d.parts[i]); }
    case StructT(fs) =>
      forall i | 0 <= i < |fs| ensures Inhabited(fs[i].schema) { TypedIsInhabited(fs[i].schema, d.fields[i]); }
    case EnumT(vs) =>
      if vs[d.index].NewtypeVariant? { TypedIsInhabited(vs[d.index].schema, d.payload.value); }
    case _ =>
  }

  /** Some data of an inhabited type. */
  ghost function Sample(s: Schema): (d: Data)
    requires Inhabited(s)
    ensures HasType(s, d)
  {
    match s
    case BoolT => BoolD(false)
    case IntT(k) => IntD(0)
    case StrT => StrD([])
    case UnitT => UnitD
    case OptionT(_) => NoneD
    case SeqT(_) => SeqD([])
    case TupleT(ts) => TupleD(seq(|ts|, i requires 0 <= i < |ts| => Sample(ts[i])))
    case StructT(fs) => StructD(seq(|fs|, i requires 0 <= i < |fs| => Sample(fs[i].schema)))
    case MapT(_) => MapD([])
    case EnumT(vs) =>
      var i :| 0 <= i < |vs| && (vs[i].NewtypeVariant? ==> Inhabited(vs[i].schema));
      EnumD(i, if vs[i].NewtypeVariant? then Some(Sample(vs[i].schema)) else None)
  }

  /** In every position data can reach, the inner type of an option never serializes to nil. */
  predicate OptionsSafe(s: Schema) {
    match s
    case OptionT(inner) => NeverNil(inner) && OptionsSafe(inner)
    case SeqT(inner) => OptionsSafe(inner)
    case MapT(inner) => OptionsSafe(inner)
    case TupleT(ts) => Inhabited(s) ==> forall i :: 0 <= i < |ts| ==> OptionsSafe(ts[i])
    case StructT(fs) => Inhabited(s) ==> forall i :: 0 <= i < |fs| ==> OptionsSafe(fs[i].schema)
    case EnumT(vs) => forall i :: 0 <= i < |vs| ==> vs[i].NewtypeVariant? ==> OptionsSafe(vs[i].schema)
    case _ => true
  }

  /** All data of such types is faithful. */
  lemma {:induction false} SafeIsFaithful(s: Schema, d: Data)
    requires OptionsSafe(s) && HasType(s, d)
    ensures Faithful(s, d)
    decreases s
  {
    TypedIsInhabited(s, d);
    match s
    case OptionT(inner) => if d.SomeD? { SafeIsFaithful(inner, d.d); }
    case SeqT(inner) =>
      forall i | 0 <= i < |d.items| ensures Faithful(inner, d.items[i]) { SafeIsFaithful(inner, d.items[i]); }
    case TupleT(ts) =>
      forall i | 0 <= i < |ts| ensures Faithful(ts[i], d.parts[i]) { SafeIsFaithful(ts[i], d.parts[i]); }
    case StructT(fs) =>
      forall i | 0 <= i < |fs| ensures Faithful(fs[i].schema, d.fields[i]) {
        SafeIsFaithful(fs[i].schema, d.fields[i]);
      }
    case MapT(inner) =>
      forall i | 0 <= i < |d.entries| ensures Faithful(inner, d.entries[i].val) {
        SafeIsFaithful(inner, d.entries[i].val);
      }
    case EnumT(vs) =>
      if vs[d.index].NewtypeVariant? { SafeIsFaithful(vs[d.index].schema, d.payload.value); }
    case _ =>
  }

  lemma TupleLoses(ts: seq<Schema>, i: nat, lost: Data) returns (d: Data)
    requires Inhabited(TupleT(ts)) && i < |ts| && HasType(ts[i], lost) && !Faithful(ts[i], lost)
    ensures HasType(TupleT(ts), d) && !Faithful(TupleT(ts), d)
  {
    d := TupleD(Sample(TupleT(ts)).parts[i := lost]);
    assert !Faithful(ts[i], d.parts[i]);
  }

  lemma StructLoses(fs: seq<Field>, i: nat, lost: Data) returns (d: Data)
    requires Inhabited(StructT(fs)) && i < |fs| && HasType(fs[i].schema, lost) && !Faithful(fs[i].schema, lost)
    ensures HasType(StructT(fs), d) && !Faithful(StructT(fs), d)
  {
    d := StructD(Sample(StructT(fs)).fields[i := lost]);
    assert !Faithful(fs[i].schema, d.fields[i]);
  }

  /** Every other type has data that is lost. */
  lemma {:induction false} UnsafeLoses(s: Schema) returns (d: Data)
    requires !OptionsSafe(s)
    ensures HasType(s, d) && !Faithful(s, d)
    decreases s
  {
    match s
    case OptionT(inner) =>
      if inner.UnitT? {
        d := SomeD(UnitD);
      } else if inner.OptionT? {
        d := SomeD(NoneD);
      } else {
        d := UnsafeLoses(inner);
        d := SomeD(d);
      }
    case SeqT(inner) =>
      d := UnsafeLoses(inner);
      assert !Faithful(inner, [d][0]);
      d := SeqD([d]);
    case MapT(inner) =>
      d := UnsafeLoses(inner);
      assert !Faithful(inner, [Entry([], d)][0].val);
      d := MapD([Entry([], d)]);
    case TupleT(ts) =>
      var i :| 0 <= i < |ts| && !OptionsSafe(ts[i]);
      d := UnsafeLoses(ts[i]);
      d := TupleLoses(ts, i, d);
    case StructT(fs) =>
      var i :| 0 <= i < |fs| && !OptionsSafe(fs[i].schema);
      d := UnsafeLoses(fs[i].schema);
      d := StructLoses(fs, i, d);
    case EnumT(vs) =>
      var i :| 0 <= i < |vs| && vs[i].NewtypeVariant? && !OptionsSafe(vs[i].schema);
      d := UnsafeLoses(vs[i].schema);
      d := EnumD(i, Some(d));
  }

  /** All data of a type comes back from its value exactly when the type's options are safe. */
  lemma TypeRoundTripIff(s: Schema)
    requires WellFormed(s)
    ensures (forall d :: HasType(s, d) ==> FromValue(s, ToValue(s, d)) == Some(d)) <==> OptionsSafe(s)
  {
    hide HasType, FromValue, ToValue, Faithful, OptionsSafe, WellFormed;
    if OptionsSafe(s) {
      forall d | HasType(s, d) ensures FromValue(s, ToValue(s, d)) == Some(d) {
        SafeIsFaithful(s, d);
        ValueRoundTrip(s, d);
      }
    } else {
      var d := UnsafeLoses(s);
      ValueRoundTrip(s, d);
    }
  }

  /** `Some(None)` reads back as `None`. */
  lemma NestedOptionIsLost()
    ensures FromValue(OptionT(OptionT(BoolT)), ToValue(OptionT(OptionT(BoolT)), SomeD(NoneD))) == Some(NoneD)
  {}
}
