/** Typed data read back by the loops over the deserializer objects. */
module SerdeReading {
  import opened Bytes
  import opened Utf8
  import opened SortedMap
  import opened Values
  import opened Serde
  import opened SerdeObjects

  /** What is read goes in front of what is still to be read. */
  function Before(ds: seq<Data>, rest: Option<seq<Data>>): Option<seq<Data>> {
    match rest case None => None case Some(es) => Some(ds + es)
  }

  /** Typed data from a value. */
  method Deserialize(s: Schema, v: Value) returns (r: Option<Data>)
    requires WellFormed(s)
    ensures r == FromValue(s, v)
    decreases s, 1
  {
    hide SeqData, TupleData, FieldData, MapData, EnumData, Cast, Less, Valid;
    match s
    case OptionT(inner) =>
      if v.Nil? {
        return Some(NoneD);
      }
      var x := Deserialize(inner, v);
      r := match x case None => None case Some(d) => Some(SomeD(d));
    case SeqT(inner) =>
      if !v.Array? {
        return None;
      }
      var ds := DeserializeSeq(inner, v.items);
      r := match ds case None => None case Some(ds) => Some(SeqD(ds));
    case TupleT(ts) =>
      if !v.Array? {
        return None;
      }
      var ds := DeserializeTuple(ts, v.items);
      r := match ds case None => None case Some(ds) => Some(TupleD(ds));
    case StructT(fs) =>
      if !v.Map? {
        return None;
      }
      var ds := DeserializeStruct(fs, v.entries);
      r := match ds case None => None case Some(ds) => Some(StructD(ds));
    case MapT(inner) =>
      if !v.Map? {
        return None;
      }
      var m := DeserializeMap(inner, v.entries);
      r := match m case None => None case Some(m) => Some(MapD(m));
    case EnumT(vs) =>
      if v.String? {
        r := DeserializeEnum(vs, v.s, None);
      } else if v.Map? {
        var input := new MapDeserializer(v.entries);
        var key := input.NextKey();
        if key.None? {
          return None;
        }
        r := DeserializeEnum(vs, key.value, input.value);
      } else {
        r := None;
      }
    case _ => r := FromValue(s, v);
  }

  method DeserializeSeq(s: Schema, items: seq<Value>) returns (r: Option<seq<Data>>)
    requires WellFormed(s)
    ensures r == SeqData(s, items)
    decreases s, 2
  {
    hide FromValue, WellFormed;
    var input := new SeqDeserializer(items);
    var ds: seq<Data> := [];
    NothingBefore(SeqData(s, items));
    while true
      invariant SeqData(s, items) == Before(ds, SeqData(s, input.iter))
      decreases |input.iter|
    {
      var item := input.NextElement();
      if item.None? {
        break;
      }
      var x := Deserialize(s, item.value);
      if x.None? {
        return None;
      }
      MoreBefore(ds, x.value, SeqData(s, input.iter));
      ds := ds + [x.value];
    }
    assert ds + [] == ds;
    r := Some(ds);
  }

  lemma NothingBefore(rest: Option<seq<Data>>)
    ensures Before([], rest) == rest
  {
    if rest.Some? {
      assert [] + rest.value == rest.value;
    }
  }

  lemma MoreBefore(ds: seq<Data>, d: Data, rest: Option<seq<Data>>)
    ensures Before(ds + [d], rest) == Before(ds, Before([d], rest))
  {
    if rest.Some? {
      assert ds + [d] + rest.value == ds + ([d] + rest.value);
    }
  }

  /** As many items as the tuple has parts are taken. */
  method DeserializeTuple(ts: seq<Schema>, items: seq<Value>) returns (r: Option<seq<Data>>)
    requires forall i :: 0 <= i < |ts| ==> WellFormed(ts[i])
    ensures r == TupleData(ts, items)
    decreases ts, 2
  {
    hide FromValue, WellFormed;
    var input := new SeqDeserializer(items);
    var ds: seq<Data> := [];
    assert ts[0..] == ts;
    NothingBefore(TupleData(ts, items));
    for i := 0 to |ts|
      invariant TupleData(ts, items) == Before(ds, TupleData(ts[i..], input.iter))
    {
      assert ts[i..][1..] == ts[i + 1..];
      var item := input.NextElement();
      if item.None? {
        return None;
      }
      var x := Deserialize(ts[i], item.value);
      if x.None? {
        return None;
      }
      MoreBefore(ds, x.value, TupleData(ts[i + 1..], input.iter));
      ds := ds + [x.value];
    }
    assert ds + [] == ds;
    r := Some(ds);
  }

  method DeserializeMap(s: Schema, entries: Sorted<Value>) returns (r: Option<Sorted<Data>>)
    requires WellFormed(s)
    ensures r == MapData(s, entries, [])
    decreases s, 2
  {
    hide FromValue, WellFormed, Insert, Less, Valid;
    var input := new MapDeserializer(entries);
    var m: Sorted<Data> := [];
    while true
      invariant MapData(s, entries, []) == MapData(s, input.iter, m)
      decreases |input.iter|
    {
      var key := input.NextKey();
      if key.None? {
        break;
      }
      var val := input.NextValue();
      var x := Deserialize(s, val.value);
      if x.None? {
        return None;
      }
      m := Insert(m, key.value, x.value);
    }
    r := Some(m);
  }

  /** The variant is found by its name; a newtype variant then needs its payload. */
  method DeserializeEnum(vs: seq<Variant>, name: Str, payload: Option<Value>) returns (r: Option<Data>)
    requires forall i :: 0 <= i < |vs| ==> vs[i].NewtypeVariant? ==> WellFormed(vs[i].schema)
    ensures r == EnumData(vs, name, payload)
    decreases vs, 2
  {
    hide FromValue, WellFormed;
    var i := Index(vs, name);
    if i.None? {
      return None;
    }
    match vs[i.value]
    case UnitVariant(_) => r := Some(EnumD(i.value, None));
    case NewtypeVariant(_, t) =>
      if payload.None? {
        return None;
      }
      var x := Deserialize(t, payload.value);
      r := match x case None => None case Some(d) => Some(EnumD(i.value, Some(d)));
  }

  // ------------------------------------------------------------------
  // Structs
  // ------------------------------------------------------------------

  /** The field of that name. */
  method FieldNamed(fs: seq<Field>, name: Str) returns (i: nat)
    ensures i <= |fs| && (i < |fs| ==> fs[i].name == name)
    ensures forall h :: 0 <= h < i ==> fs[h].name != name
  {
    i := 0;
    while i < |fs| && fs[i].name != name
      invariant i <= |fs| && forall h :: 0 <= h < i ==> fs[h].name != name
    {
      i := i + 1;
    }
  }

  /** The slot holds its field, if one of the first j entries is for it. */
  ghost predicate SlotIs(slot: Option<Data>, f: Field, m: Sorted<Value>, j: nat)
    requires j <= |m|
  {
    if slot.Some? then Lookup(m, f.name).Some? && FromValue(f.schema, Lookup(m, f.name).value) == slot
    else forall h :: 0 <= h < j ==> m[h].key != f.name
  }

  /** Entries go to the slots of their fields, others are ignored; then the empty slots are looked at. */
  method DeserializeStruct(fs: seq<Field>, entries: Sorted<Value>) returns (r: Option<seq<Data>>)
    requires DistinctFields(fs) && forall i :: 0 <= i < |fs| ==> WellFormed(fs[i].schema)
    ensures r == FieldData(fs, entries)
    decreases fs, 2
  {
    hide FromValue, WellFormed, Less, Valid, FieldData, Lookup;
    var input := new MapDeserializer(entries);
    var slots: seq<Option<Data>> := seq(|fs|, _ => None);
    ghost var j := 0;
    while true
      invariant j <= |entries| && input.iter == entries[j..] && |slots| == |fs|
      invariant forall i :: 0 <= i < |fs| ==> SlotIs(slots[i], fs[i], entries, j)
      decreases |input.iter|
    {
      var key := input.NextKey();
      if key.None? {
        break;
      }
      assert entries[j..][0] == entries[j] && entries[j..][1..] == entries[j + 1..];
      var val := input.NextValue();
      LookupAt(entries, j);
      var i := FieldNamed(fs, key.value);
      if i < |fs| {
        var x := Deserialize(fs[i].schema, val.value);
        if x.None? {
          FieldFails(fs, entries, i);
          return None;
        }
        slots := slots[i := x];
      }
      j := j + 1;
    }
    r := FillIn(fs, entries, slots);
  }

  method FillIn(fs: seq<Field>, ghost entries: Sorted<Value>, slots: seq<Option<Data>>) returns (r: Option<seq<Data>>)
    requires |slots| == |fs| && forall i :: 0 <= i < |fs| ==> SlotIs(slots[i], fs[i], entries, |entries|)
    ensures r == FieldData(fs, entries)
  {
    hide FromValue, FieldData, Less, Valid;
    var ds: seq<Data> := [];
    for i := 0 to |fs|
      invariant |ds| == i && forall h :: 0 <= h < i ==> OneField(fs[h], entries) == Some(ds[h])
    {
      assert SlotIs(slots[i], fs[i], entries, |entries|);
      if slots[i].None? {
        LookupMissing(entries, fs[i].name);
        if !fs[i].schema.OptionT? {
          FieldFails(fs, entries, i);
          return None;
        }
        ds := ds + [NoneD];
      } else {
        ds := ds + [slots[i].value];
      }
    }
    FieldsAre(fs, entries, ds);
    r := Some(ds);
  }
}
