/** What data is written as, and what is read from values that are not written. */
module SerdeMeaning {
  import opened Bytes
  import opened Utf8
  import opened SortedMap
  import opened Values
  import opened Encoder
  import opened Decoder
  import opened RoundTrip
  import opened Serde

  // ------------------------------------------------------------------
  // Writing
  // ------------------------------------------------------------------

  /**
    The value stands for the data: numbers modulo 2^64, text as text, options as nothing or what they
    hold, sequences and tuples position by position, structs by field name, maps key by key, and a
    variant as its name, which is the key of its payload if it has one.
   */
  ghost predicate Writes(s: Schema, d: Data, v: Value)
    requires HasType(s, d)
    decreases s
  {
    match s
    case BoolT => v == Bool(d.b)
    case IntT(_) => v.Integer? && (v.i - d.n) % 0x1_0000_0000_0000_0000 == 0
    case StrT => v == String(d.s)
    case UnitT => v == Nil
    case OptionT(inner) => if d.NoneD? then v == Nil else Writes(inner, d.d, v)
    case SeqT(inner) =>
      v.Array? && |v.items| == |d.items| && forall i :: 0 <= i < |d.items| ==> Writes(inner, d.items[i], v.items[i])
    case TupleT(ts) =>
      v.Array? && |v.items| == |ts| && forall i :: 0 <= i < |ts| ==> Writes(ts[i], d.parts[i], v.items[i])
    case StructT(fs) =>
      && v.Map?
      && (forall e :: e in v.entries ==> exists i :: 0 <= i < |fs| && fs[i].name == e.key)
      && forall i :: 0 <= i < |fs| ==>
           var written := Lookup(v.entries, fs[i].name);
           written.Some? && Writes(fs[i].schema, d.fields[i], written.value)
    case MapT(inner) =>
      v.Map? && |v.entries| == |d.entries| && forall i :: 0 <= i < |d.entries| ==>
        v.entries[i].key == d.entries[i].key && Writes(inner, d.entries[i].val, v.entries[i].val)
    case EnumT(vs) =>
      (match vs[d.index]
       case UnitVariant(name) => v == String(name)
       case NewtypeVariant(name, t) =>
         v.Map? && |v.entries| == 1 && v.entries[0].key == name && Writes(t, d.payload.value, v.entries[0].val))
  }

  lemma IntIsWritten(n: int, k: IntKind, i: I64)
    requires InRange(n, k)
    ensures (i - n) % 0x1_0000_0000_0000_0000 == 0 <==> i == ToI64(n)
  {}

  /** Data is written as the one value that stands for it. */
  lemma {:induction false} WritesIff(s: Schema, d: Data, v: Value)
    requires WellFormed(s) && HasType(s, d)
    ensures Writes(s, d, v) <==> v == ToValue(s, d)
    decreases s, 0
  {
    hide Valid, Less, FieldValues, MapValues, ToI64, Lookup;
    match s
    case IntT(k) => if v.Integer? { IntIsWritten(d.n, k, v.i); }
    case OptionT(inner) => if d.SomeD? { WritesIff(inner, d.d, v); }
    case SeqT(inner) => if v.Array? { SeqIsWritten(inner, d.items, v.items); }
    case TupleT(ts) => if v.Array? { TupleIsWritten(ts, d.parts, v.items); }
    case StructT(fs) => if v.Map? { StructIsWritten(fs, d.fields, v.entries); }
    case MapT(inner) => if v.Map? { MapIsWritten(inner, d.entries, v.entries); }
    case EnumT(vs) =>
      if vs[d.index].NewtypeVariant? && v.Map? && |v.entries| == 1 {
        WritesIff(vs[d.index].schema, d.payload.value, v.entries[0].val);
        assert v.entries == [v.entries[0]];
      }
    case _ =>
  }

  lemma {:induction false} SeqIsWritten(s: Schema, ds: seq<Data>, vs: seq<Value>)
    requires WellFormed(s) && forall i :: 0 <= i < |ds| ==> HasType(s, ds[i])
    ensures |vs| == |ds| && (forall i :: 0 <= i < |ds| ==> Writes(s, ds[i], vs[i])) <==> vs == SeqValues(s, ds)
    decreases s, 1
  {
    hide Writes, ToValue, HasType, WellFormed;
    if |vs| == |ds| {
      forall i | 0 <= i < |ds| ensures Writes(s, ds[i], vs[i]) <==> vs[i] == SeqValues(s, ds)[i] {
        WritesIff(s, ds[i], vs[i]);
      }
    }
  }

  lemma {:induction false} TupleIsWritten(ts: seq<Schema>, ds: seq<Data>, vs: seq<Value>)
    requires |ts| == |ds| && forall i :: 0 <= i < |ts| ==> WellFormed(ts[i]) && HasType(ts[i], ds[i])
    ensures |vs| == |ts| && (forall i :: 0 <= i < |ts| ==> Writes(ts[i], ds[i], vs[i])) <==> vs == TupleValues(ts, ds)
    decreases ts, 1
  {
    hide Writes, ToValue, HasType, WellFormed;
    if |vs| == |ts| {
      forall i | 0 <= i < |ts| ensures Writes(ts[i], ds[i], vs[i]) <==> vs[i] == TupleValues(ts, ds)[i] {
        WritesIff(ts[i], ds[i], vs[i]);
      }
    }
  }

  /** The map has these fields, and no other keys. */
  ghost predicate FieldsWritten(fs: seq<Field>, ds: seq<Data>, m: Sorted<Value>)
    requires |fs| == |ds| && forall i :: 0 <= i < |fs| ==> HasType(fs[i].schema, ds[i])
    decreases fs, 1
  {
    && (forall e :: e in m ==> exists i :: 0 <= i < |fs| && fs[i].name == e.key)
    && forall i :: 0 <= i < |fs| ==>
         var written := Lookup(m, fs[i].name);
         written.Some? && Writes(fs[i].schema, ds[i], written.value)
  }

  lemma {:induction false} StructIsWritten(fs: seq<Field>, ds: seq<Data>, m: Sorted<Value>)
    requires DistinctFields(fs) && |fs| == |ds|
    requires forall i :: 0 <= i < |fs| ==> WellFormed(fs[i].schema) && HasType(fs[i].schema, ds[i])
    ensures FieldsWritten(fs, ds, m) <==> m == FieldValues(fs, ds, [])
    decreases fs, 1
  {
    hide Writes, ToValue, HasType, WellFormed, Valid, Less, Lookup, FieldValues;
    var w := FieldValues(fs, ds, []);
    forall i | 0 <= i < |fs| ensures Lookup(w, fs[i].name) == Some(ToValue(fs[i].schema, ds[i])) {
      FieldLookup(fs, ds, [], i);
    }
    forall i, v | 0 <= i < |fs| ensures Writes(fs[i].schema, ds[i], v) <==> v == ToValue(fs[i].schema, ds[i]) {
      WritesIff(fs[i].schema, ds[i], v);
    }
    OnlyFields(fs, ds);
    if FieldsWritten(fs, ds, m) {
      forall q ensures Lookup(m, q) == Lookup(w, q) {
        LookupMember(m, q);
        LookupMember(w, q);
      }
      SameLookups(m, w);
    }
  }

  lemma OnlyFields(fs: seq<Field>, ds: seq<Data>)
    requires |fs| == |ds| && forall i :: 0 <= i < |fs| ==> HasType(fs[i].schema, ds[i])
    ensures forall e :: e in FieldValues(fs, ds, []) ==> exists i :: 0 <= i < |fs| && fs[i].name == e.key
  {
    hide HasType, FieldValues, Less, Valid;
    var w := FieldValues(fs, ds, []);
    forall e | e in w ensures exists i :: 0 <= i < |fs| && fs[i].name == e.key {
      if forall i :: 0 <= i < |fs| ==> fs[i].name != e.key {
        OtherLookup(fs, ds, [], e.key);
        LookupMember(w, e.key);
      }
    }
  }

  lemma {:induction false} MapIsWritten(s: Schema, ds: Sorted<Data>, m: Sorted<Value>)
    requires WellFormed(s) && forall i :: 0 <= i < |ds| ==> HasType(s, ds[i].val)
    ensures |m| == |ds| && (forall i :: 0 <= i < |ds| ==> m[i].key == ds[i].key && Writes(s, ds[i].val, m[i].val))
       <==> m == MapValues(s, ds, [])
    decreases s, 1
  {
    hide Writes, ToValue, HasType, WellFormed, Valid, Less, MapValues;
    assert ds[0..] == ds;
    MapValuesShape(s, ds, 0, []);
    var w := MapValues(s, ds, []);
    if |m| == |ds| {
      forall i | 0 <= i < |ds| ensures Writes(s, ds[i].val, m[i].val) <==> m[i].val == w[i].val {
        WritesIff(s, ds[i].val, m[i].val);
      }
    }
  }

  /** No binary data inside. */
  predicate NoBinary(v: Value) {
    match v
    case Binary(_) => false
    case Array(items) => forall i :: 0 <= i < |items| ==> NoBinary(items[i])
    case Map(entries) => forall i :: 0 <= i < |entries| ==> NoBinary(entries[i].val)
    case _ => true
  }

  lemma {:induction false} NothingIsBinary(s: Schema, d: Data, v: Value)
    requires HasType(s, d) && Writes(s, d, v)
    ensures NoBinary(v)
    decreases s
  {
    hide Lookup, Less, Valid;
    match s
    case OptionT(inner) => if d.SomeD? { NothingIsBinary(inner, d.d, v); }
    case SeqT(inner) =>
      forall i | 0 <= i < |v.items| ensures NoBinary(v.items[i]) { NothingIsBinary(inner, d.items[i], v.items[i]); }
    case TupleT(ts) =>
      forall i | 0 <= i < |v.items| ensures NoBinary(v.items[i]) { NothingIsBinary(ts[i], d.parts[i], v.items[i]); }
    case StructT(fs) =>
      forall j | 0 <= j < |v.entries| ensures NoBinary(v.entries[j].val) {
        var e := v.entries[j];
        assert e in v.entries;
        var i :| 0 <= i < |fs| && fs[i].name == e.key;
        LookupAt(v.entries, j);
        NothingIsBinary(fs[i].schema, d.fields[i], e.val);
      }
    case MapT(inner) =>
      forall i | 0 <= i < |v.entries| ensures NoBinary(v.entries[i].val) {
        NothingIsBinary(inner, d.entries[i].val, v.entries[i].val);
      }
    case EnumT(vs) =>
      if vs[d.index].NewtypeVariant? {
        NothingIsBinary(vs[d.index].schema, d.payload.value, v.entries[0].val);
      }
    case _ =>
  }

  // ------------------------------------------------------------------
  // Reading
  // ------------------------------------------------------------------

  /** How many numbers a kind of integer has. */
  function Modulus(k: IntKind): nat {
    match k
    case I8Kind => 0x100
    case I16Kind => 0x1_0000
    case I32Kind => 0x1_0000_0000
    case I64Kind => 0x1_0000_0000_0000_0000
    case U8Kind => 0x100
    case U16Kind => 0x1_0000
    case U32Kind => 0x1_0000_0000
    case U64Kind => 0x1_0000_0000_0000_0000
  }

  /**
    The value is read as the data: integers wrap around into their range, text may come as binary data,
    unit takes anything, nil is `None`, a tuple takes the items it needs, a struct finds its fields by
    name whatever else there is and lets optional ones be missing, and a variant is named by a text or
    by the first key of a map.
   */
  ghost predicate Reads(s: Schema, v: Value, d: Data)
    decreases s, 0
  {
    match s
    case BoolT => v.Bool? && d == BoolD(v.b)
    case IntT(k) => v.Integer? && d.IntD? && InRange(d.n, k) && (d.n - v.i) % Modulus(k) == 0
    case StrT => d.StrD? && (v == String(d.s) || v == Binary(d.s))
    case UnitT => d == UnitD
    case OptionT(inner) => if v == Nil then d == NoneD else d.SomeD? && Reads(inner, v, d.d)
    case SeqT(inner) =>
      v.Array? && d.SeqD? && |d.items| == |v.items| &&
      forall i :: 0 <= i < |d.items| ==> Reads(inner, v.items[i], d.items[i])
    case TupleT(ts) =>
      v.Array? && d.TupleD? && |d.parts| == |ts| <= |v.items| &&
      forall i :: 0 <= i < |ts| ==> Reads(ts[i], v.items[i], d.parts[i])
    case StructT(fs) =>
      v.Map? && d.StructD? && |d.fields| == |fs| &&
      forall i :: 0 <= i < |fs| ==> ReadsField(fs[i], v.entries, d.fields[i])
    case MapT(inner) =>
      v.Map? && d.MapD? && |d.entries| == |v.entries| && forall i :: 0 <= i < |d.entries| ==>
        d.entries[i].key == v.entries[i].key && Reads(inner, v.entries[i].val, d.entries[i].val)
    case EnumT(vs) =>
      d.EnumD? && d.index < |vs| &&
      (v.String? || (v.Map? && v.entries != [])) &&
      vs[d.index].name == (if v.String? then v.s else v.entries[0].key) &&
      (match vs[d.index]
       case UnitVariant(_) => d.payload == None
       case NewtypeVariant(_, t) => v.Map? && d.payload.Some? && Reads(t, v.entries[0].val, d.payload.value))
  }

  ghost predicate ReadsField(f: Field, m: Sorted<Value>, d: Data)
    decreases f, 1
  {
    match Lookup(m, f.name)
    case Some(v) => Reads(f.schema, v, d)
    case None => f.schema.OptionT? && d == NoneD
  }

  lemma CastIs(i: I64, k: IntKind, n: int)
    ensures Cast(i, k) == n <==> InRange(n, k) && (n - i) % Modulus(k) == 0
  {
    match k
    case I8Kind => Wraps8(i, n);
    case I16Kind => Wraps16(i, n);
    case I32Kind => Wraps32(i, n);
    case I64Kind => Wraps64(i, n);
    case U8Kind => Wraps8(i, n);
    case U16Kind => Wraps16(i, n);
    case U32Kind => Wraps32(i, n);
    case U64Kind => Wraps64(i, n);
  }

  lemma Wraps8(i: int, n: int)
    ensures ToI8(i) == n <==> -0x80 <= n < 0x80 && (n - i) % 0x100 == 0
    ensures i % 0x100 == n <==> 0 <= n < 0x100 && (n - i) % 0x100 == 0
  {}

  lemma Wraps16(i: int, n: int)
    ensures ToI16(i) == n <==> -0x8000 <= n < 0x8000 && (n - i) % 0x1_0000 == 0
    ensures i % 0x1_0000 == n <==> 0 <= n < 0x1_0000 && (n - i) % 0x1_0000 == 0
  {}

  lemma Wraps32(i: int, n: int)
    ensures ToI32(i) == n <==> -0x8000_0000 <= n < 0x8000_0000 && (n - i) % 0x1_0000_0000 == 0
    ensures i % 0x1_0000_0000 == n <==> 0 <= n < 0x1_0000_0000 && (n - i) % 0x1_0000_0000 == 0
  {}

  lemma Wraps64(i: int, n: int)
    ensures ToI64(i) == n <==>
            -0x8000_0000_0000_0000 <= n < 0x8000_0000_0000_0000 && (n - i) % 0x1_0000_0000_0000_0000 == 0
    ensures i % 0x1_0000_0000_0000_0000 == n <==>
            0 <= n < 0x1_0000_0000_0000_0000 && (n - i) % 0x1_0000_0000_0000_0000 == 0
  {}

  /** A value is read as data exactly when it reads as that data; otherwise it is an error. */
  lemma {:induction false} ReadsIff(s: Schema, v: Value, d: Data)
    requires WellFormed(s)
    ensures FromValue(s, v) == Some(d) <==> Reads(s, v, d)
    decreases s, 1
  {
    hide FromValue, Reads;
    if s.SeqT? || s.TupleT? || s.StructT? || s.MapT? {
      CompoundReads(s, v, d);
    } else {
      SimpleReads(s, v, d);
    }
  }

  lemma SimpleReads(s: Schema, v: Value, d: Data)
    requires WellFormed(s) && !(s.SeqT? || s.TupleT? || s.StructT? || s.MapT?)
    ensures FromValue(s, v) == Some(d) <==> Reads(s, v, d)
    decreases s, 0
  {
    hide Less, EnumData, Index, Cast, Valid;
    match s
    case IntT(k) => if v.Integer? && d.IntD? { CastIs(v.i, k, d.n); }
    case OptionT(inner) => if d.SomeD? { ReadsIff(inner, v, d.d); }
    case EnumT(vs) => EnumReads(vs, v, d);
    case _ =>
  }

  lemma CompoundReads(s: Schema, v: Value, d: Data)
    requires WellFormed(s) && (s.SeqT? || s.TupleT? || s.StructT? || s.MapT?)
    ensures FromValue(s, v) == Some(d) <==> Reads(s, v, d)
    decreases s, 0
  {
    hide Valid, Less, SeqData, TupleData, FieldData, MapData;
    match s
    case SeqT(inner) => if v.Array? && d.SeqD? { SeqReads(inner, v.items, d.items); }
    case TupleT(ts) => if v.Array? && d.TupleD? { TupleReads(ts, v.items, d.parts); }
    case StructT(fs) => if v.Map? && d.StructD? { StructReads(fs, v.entries, d.fields); }
    case MapT(inner) => if v.Map? && d.MapD? { MapReads(inner, v.entries, d.entries); }
  }

  lemma {:induction false} SeqDataIs(s: Schema, vs: seq<Value>, ds: seq<Data>)
    ensures SeqData(s, vs) == Some(ds) <==>
            |ds| == |vs| && forall i :: 0 <= i < |ds| ==> FromValue(s, vs[i]) == Some(ds[i])
    decreases |vs|
  {
    hide FromValue;
    if vs != [] && ds != [] {
      SeqDataIs(s, vs[1..], ds[1..]);
      SeqDataStep(s, vs);
      hide SeqData;
      if SeqData(s, vs[1..]).Some? && FromValue(s, vs[0]).Some? {
        HeadAndTail(FromValue(s, vs[0]).value, SeqData(s, vs[1..]).value, ds);
      }
      assert forall i :: 1 <= i < |ds| && |ds| == |vs| ==> ds[i] == ds[1..][i - 1] && vs[i] == vs[1..][i - 1];
    }
  }

  lemma SeqDataStep(s: Schema, vs: seq<Value>)
    requires vs != []
    ensures SeqData(s, vs) ==
            match FromValue(s, vs[0])
            case None => None
            case Some(d) => match SeqData(s, vs[1..]) case None => None case Some(ds) => Some([d] + ds)
  {
    hide FromValue;
  }

  lemma {:induction false} SeqReads(s: Schema, vs: seq<Value>, ds: seq<Data>)
    requires WellFormed(s)
    ensures SeqData(s, vs) == Some(ds) <==> |ds| == |vs| && forall i :: 0 <= i < |ds| ==> Reads(s, vs[i], ds[i])
    decreases s, 2
  {
    hide FromValue, Reads, WellFormed, SeqData;
    SeqDataIs(s, vs, ds);
    if |ds| == |vs| {
      forall i | 0 <= i < |ds| ensures FromValue(s, vs[i]) == Some(ds[i]) <==> Reads(s, vs[i], ds[i]) {
        ReadsIff(s, vs[i], ds[i]);
      }
    }
  }

  lemma {:induction false} TupleDataIs(ts: seq<Schema>, vs: seq<Value>, ds: seq<Data>)
    ensures TupleData(ts, vs) == Some(ds) <==>
            |ds| == |ts| <= |vs| && forall i :: 0 <= i < |ts| ==> FromValue(ts[i], vs[i]) == Some(ds[i])
    decreases |ts|
  {
    hide FromValue;
    if ts != [] && vs != [] && ds != [] {
      TupleDataIs(ts[1..], vs[1..], ds[1..]);
      TupleDataStep(ts, vs);
      hide TupleData;
      if TupleData(ts[1..], vs[1..]).Some? && FromValue(ts[0], vs[0]).Some? {
        HeadAndTail(FromValue(ts[0], vs[0]).value, TupleData(ts[1..], vs[1..]).value, ds);
      }
      assert forall i :: 1 <= i < |ts| && |ds| == |ts| <= |vs| ==>
        ds[i] == ds[1..][i - 1] && vs[i] == vs[1..][i - 1] && ts[i] == ts[1..][i - 1];
    }
  }

  lemma {:induction false} TupleReads(ts: seq<Schema>, vs: seq<Value>, ds: seq<Data>)
    requires forall i :: 0 <= i < |ts| ==> WellFormed(ts[i])
    ensures TupleData(ts, vs) == Some(ds) <==>
            |ds| == |ts| <= |vs| && forall i :: 0 <= i < |ts| ==> Reads(ts[i], vs[i], ds[i])
    decreases ts, 2
  {
    hide FromValue, Reads, WellFormed, TupleData;
    TupleDataIs(ts, vs, ds);
    if |ds| == |ts| <= |vs| {
      forall i | 0 <= i < |ts| ensures FromValue(ts[i], vs[i]) == Some(ds[i]) <==> Reads(ts[i], vs[i], ds[i]) {
        ReadsIff(ts[i], vs[i], ds[i]);
      }
    }
  }

  lemma {:induction false} FieldDataSize(fs: seq<Field>, m: Sorted<Value>)
    ensures FieldData(fs, m).Some? ==>
      var ds := FieldData(fs, m).value;
      |ds| == |fs| && forall i :: 0 <= i < |fs| ==> OneField(fs[i], m) == Some(ds[i])
    decreases |fs|
  {
    hide OneField;
    if fs != [] {
      FieldDataSize(fs[1..], m);
    }
  }

  lemma {:induction false} StructReads(fs: seq<Field>, m: Sorted<Value>, ds: seq<Data>)
    requires forall i :: 0 <= i < |fs| ==> WellFormed(fs[i].schema)
    ensures FieldData(fs, m) == Some(ds) <==>
            |ds| == |fs| && forall i :: 0 <= i < |fs| ==> ReadsField(fs[i], m, ds[i])
    decreases fs, 2
  {
    hide OneField, ReadsField, WellFormed, FieldData;
    FieldDataSize(fs, m);
    if |ds| == |fs| {
      forall i | 0 <= i < |fs| ensures OneField(fs[i], m) == Some(ds[i]) <==> ReadsField(fs[i], m, ds[i]) {
        FieldReads(fs[i], m, ds[i]);
      }
      if forall i :: 0 <= i < |fs| ==> OneField(fs[i], m) == Some(ds[i]) {
        FieldsAre(fs, m, ds);
      }
      if FieldData(fs, m) == Some(ds) {
        assert forall i :: 0 <= i < |fs| ==> ReadsField(fs[i], m, ds[i]);
      }
    }
  }

  lemma FieldReads(f: Field, m: Sorted<Value>, d: Data)
    requires WellFormed(f.schema)
    ensures OneField(f, m) == Some(d) <==> ReadsField(f, m, d)
    decreases f, 1
  {
    hide FromValue, Reads, WellFormed, Lookup;
    if Lookup(m, f.name).Some? {
      ReadsIff(f.schema, Lookup(m, f.name).value, d);
    }
  }

  lemma {:induction false} MapReads(s: Schema, m: Sorted<Value>, ds: Sorted<Data>)
    requires WellFormed(s)
    ensures MapData(s, m, []) == Some(ds) <==>
            |ds| == |m| && forall i :: 0 <= i < |ds| ==> ds[i].key == m[i].key && Reads(s, m[i].val, ds[i].val)
    decreases s, 2
  {
    hide FromValue, Reads, WellFormed, MapData, Less, Valid;
    assert m[0..] == m;
    MapDataShape(s, m, 0, []);
    if |ds| == |m| {
      forall i | 0 <= i < |ds| ensures FromValue(s, m[i].val) == Some(ds[i].val) <==> Reads(s, m[i].val, ds[i].val) {
        ReadsIff(s, m[i].val, ds[i].val);
      }
      var r := MapData(s, m, []);
      if r.Some? && forall i :: 0 <= i < |ds| ==> ds[i].key == m[i].key && Reads(s, m[i].val, ds[i].val) {
        assert forall i :: 0 <= i < |ds| ==> r.value[i] == ds[i];
        assert r.value == ds;
      }
      if r.None? {
        var j :| 0 <= j < |m| && FromValue(s, m[j].val).None?;
        assert !Reads(s, m[j].val, ds[j].val);
      }
    }
  }

  lemma EnumReads(vs: seq<Variant>, v: Value, d: Data)
    requires WellFormed(EnumT(vs))
    ensures FromValue(EnumT(vs), v) == Some(d) <==> Reads(EnumT(vs), v, d)
    decreases EnumT(vs), 0, 0
  {
    hide Less, Valid, Index, WellFormed;
    if (v.String? || (v.Map? && v.entries != [])) && d.EnumD? && d.index < |vs| {
      assert DistinctVariants(vs) by { WellFormedEnum(vs); }
      var name := if v.String? then v.s else v.entries[0].key;
      IndexIs(vs, name, d.index);
      if vs[d.index].NewtypeVariant? && v.Map? && d.payload.Some? {
        WellFormedEnum(vs);
        ReadsIff(vs[d.index].schema, v.entries[0].val, d.payload.value);
      }
    }
  }

  lemma WellFormedEnum(vs: seq<Variant>)
    requires WellFormed(EnumT(vs))
    ensures DistinctVariants(vs)
    ensures forall i :: 0 <= i < |vs| && vs[i].NewtypeVariant? ==> WellFormed(vs[i].schema)
  {}

  lemma IndexIs(vs: seq<Variant>, name: Str, i: nat)
    requires DistinctVariants(vs) && i < |vs|
    ensures Index(vs, name) == Some(i) <==> vs[i].name == name
  {
    if vs[i].name == name {
      IndexOfVariant(vs, i);
    }
  }

  // ------------------------------------------------------------------
  // Bytes
  // ------------------------------------------------------------------

  /** Nothing decodable reads as unit and as `None`, and as nothing else: like the encoding of nil. */
  lemma UndecodableIsNil(s: Schema, bs: seq<Byte>)
    requires Decode(bs) == None
    ensures FromBytes(s, bs) == if s.UnitT? then Some(UnitD) else if s.OptionT? then Some(NoneD) else None
    ensures FromBytes(s, bs) == FromBytes(s, [0xC0])
    ensures Decode([]) == None
  {
    SimpleHeads([]);
    assert [0xC0] + [] == [0xC0];
    DecodeLeaf([0xC0]);
  }

  /** Anything decodable reads as its value does, whatever follows it. */
  lemma DecodableReads(s: Schema, bs: seq<Byte>, d: Data)
    requires WellFormed(s) && Decode(bs).Some?
    ensures FromBytes(s, bs) == Some(d) <==> Reads(s, Decode(bs).value.v, d)
  {
    hide FromValue, Reads, Decode, WellFormed;
    ReadsIff(s, Decode(bs).value.v, d);
  }
}
