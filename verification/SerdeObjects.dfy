/** The serializer and deserializer objects, and the loops that drive them. */
module SerdeObjects {
  import opened Bytes
  import opened Utf8
  import opened SortedMap
  import opened Values
  import opened Serde

  // ------------------------------------------------------------------
  // Objects
  // ------------------------------------------------------------------

  class SeqSerializer {
    var items: seq<Value>

    constructor ()
      ensures items == []
    {
      items := [];
    }

    method SerializeElement(v: Value)
      modifies this
      ensures items == old(items) + [v]
    {
      items := items + [v];
    }
  }

  class MapSerializer {
    var map': Sorted<Value>
    var key: Option<Str>

    constructor ()
      ensures map' == [] && key == None
    {
      map' := [];
      key := None;
    }

    /** Only text can be a key; anything else is an error and leaves the pending key. */
    method SerializeKey(v: Value) returns (ok: bool)
      modifies this`key
      ensures ok == v.String?
      ensures key == if v.String? then Some(v.s) else old(key)
    {
      ok := v.String?;
      if ok {
        key := Some(v.s);
      }
    }

    /** Takes the pending key; without one it is an error. */
    method SerializeValue(v: Value) returns (ok: bool)
      modifies this
      ensures ok == old(key).Some?
      ensures key == None
      ensures map' == if ok then Insert(old(map'), old(key).value, v) else old(map')
    {
      ok := key.Some?;
      if ok {
        map' := Insert(map', key.value, v);
      }
      key := None;
    }

    method SerializeField(name: Str, v: Value)
      modifies this`map'
      ensures map' == Insert(old(map'), name, v)
    {
      map' := Insert(map', name, v);
    }
  }

  class SeqDeserializer {
    var iter: seq<Value>

    constructor (items: seq<Value>)
      ensures iter == items
    {
      iter := items;
    }

    method NextElement() returns (v: Option<Value>)
      modifies this
      ensures v == (if old(iter) == [] then None else Some(old(iter)[0]))
      ensures iter == if old(iter) == [] then [] else old(iter)[1..]
    {
      if iter == [] {
        return None;
      }
      v := Some(iter[0]);
      iter := iter[1..];
    }
  }

  class MapDeserializer {
    var iter: seq<Entry<Value>>
    var value: Option<Value>

    constructor (entries: seq<Entry<Value>>)
      ensures iter == entries && value == None
    {
      iter := entries;
      value := None;
    }

    method NextKey() returns (k: Option<Str>)
      modifies this
      ensures k == (if old(iter) == [] then None else Some(old(iter)[0].key))
      ensures iter == if old(iter) == [] then [] else old(iter)[1..]
      ensures value == if old(iter) == [] then old(value) else Some(old(iter)[0].val)
    {
      if iter == [] {
        return None;
      }
      k := Some(iter[0].key);
      value := Some(iter[0].val);
      iter := iter[1..];
    }

    /** Without a preceding key it is an error. */
    method NextValue() returns (v: Option<Value>)
      modifies this`value
      ensures v == old(value) && value == None
    {
      v := value;
      value := None;
    }
  }

  // ------------------------------------------------------------------
  // Values through serde: both directions are the identity
  // ------------------------------------------------------------------

  method SerializeGeneric(val: Value) returns (r: Value)
    ensures r == val
    decreases val
  {
    match val
    case Array(arr) =>
      var out := new SeqSerializer();
      for i := 0 to |arr|
        invariant out.items == arr[..i]
      {
        var item := SerializeGeneric(arr[i]);
        out.SerializeElement(item);
      }
      r := Array(out.items);
    case Map(entries) =>
      var m := SerializeEntries(entries);
      r := Map(m);
    case _ => r := val;
  }

  method SerializeEntries(entries: Sorted<Value>) returns (m: Sorted<Value>)
    ensures m == entries
    decreases entries
  {
    hide Less, Valid, Insert;
    var out := new MapSerializer();
    for i := 0 to |entries|
      invariant out.map' == entries[..i]
    {
      var e := entries[i];
      var ok := out.SerializeKey(String(e.key));
      var v := SerializeGeneric(e.val);
      InsertLast(entries[..i], e.key, e.val);
      ok := out.SerializeValue(v);
      assert entries[..i] + [Entry(e.key, e.val)] == entries[..i + 1];
    }
    m := out.map';
  }

  method DeserializeGeneric(val: Value) returns (r: Value)
    ensures r == val
    decreases val
  {
    match val
    case Array(arr) =>
      var input := new SeqDeserializer(arr);
      var v: seq<Value> := [];
      while true
        invariant v + input.iter == arr
        decreases |input.iter|
      {
        var item := input.NextElement();
        if item.None? {
          break;
        }
        assert arr[|v|] == item.value;
        var x := DeserializeGeneric(item.value);
        v := v + [x];
      }
      r := Array(v);
    case Map(entries) =>
      var m := DeserializeEntries(entries);
      r := Map(m);
    case _ => r := val;
  }

  method DeserializeEntries(entries: Sorted<Value>) returns (m: Sorted<Value>)
    ensures m == entries
    decreases entries
  {
    hide Less, Valid, Insert;
    var input := new MapDeserializer(entries);
    m := [];
    ghost var i := 0;
    while true
      invariant i <= |entries| && m == entries[..i] && input.iter == entries[i..]
      decreases |input.iter|
    {
      var k := input.NextKey();
      if k.None? {
        break;
      }
      var v := input.NextValue();
      assert entries[i..][0] == entries[i] && entries[i..][1..] == entries[i + 1..];
      var x := DeserializeGeneric(v.value);
      InsertNext(entries, i);
      m := Insert(m, k.value, x);
      i := i + 1;
    }
  }

  lemma InsertNext(entries: Sorted<Value>, i: nat)
    requires i < |entries|
    ensures Insert(entries[..i], entries[i].key, entries[i].val) == entries[..i + 1]
  {
    hide Less, Valid, Insert;
    InsertLast(entries[..i], entries[i].key, entries[i].val);
  }

  // ------------------------------------------------------------------
  // Typed data through the serializer objects
  // ------------------------------------------------------------------

  method Serialize(s: Schema, d: Data) returns (v: Value)
    requires HasType(s, d)
    ensures v == ToValue(s, d)
    decreases s, 0
  {
    match s
    case BoolT => v := Bool(d.b);
    case IntT(_) => v := Integer(ToI64(d.n));
    case StrT => v := String(d.s);
    case UnitT => v := Nil;
    case OptionT(inner) =>
      if d.NoneD? {
        v := Nil;
      } else {
        v := Serialize(inner, d.d);
      }
    case SeqT(inner) =>
      var vs := SerializeSeq(inner, d.items);
      v := Array(vs);
    case TupleT(ts) =>
      var vs := SerializeTuple(ts, d.parts);
      v := Array(vs);
    case StructT(fs) =>
      var m := SerializeStruct(fs, d.fields);
      v := Map(m);
    case MapT(inner) =>
      var m := SerializeMap(inner, d.entries);
      v := Map(m);
    case EnumT(vs) =>
      match vs[d.index] {
        case UnitVariant(name) => v := String(name);
        case NewtypeVariant(name, t) =>
          var x := Serialize(t, d.payload.value);
          v := Map([Entry(name, x)]);
      }
  }

  method SerializeSeq(s: Schema, ds: seq<Data>) returns (vs: seq<Value>)
    requires forall i :: 0 <= i < |ds| ==> HasType(s, ds[i])
    ensures vs == SeqValues(s, ds)
    decreases s, 1
  {
    hide ToValue, HasType, SeqValues;
    var out := new SeqSerializer();
    for i := 0 to |ds|
      invariant out.items == SeqValues(s, ds)[..i]
    {
      var item := Serialize(s, ds[i]);
      out.SerializeElement(item);
    }
    vs := out.items;
  }

  method SerializeTuple(ts: seq<Schema>, ds: seq<Data>) returns (vs: seq<Value>)
    requires |ts| == |ds| && forall i :: 0 <= i < |ts| ==> HasType(ts[i], ds[i])
    ensures vs == TupleValues(ts, ds)
    decreases ts, 1
  {
    hide ToValue, HasType, TupleValues;
    var out := new SeqSerializer();
    for i := 0 to |ts|
      invariant out.items == TupleValues(ts, ds)[..i]
    {
      var item := Serialize(ts[i], ds[i]);
      out.SerializeElement(item);
    }
    vs := out.items;
  }

  method SerializeStruct(fs: seq<Field>, ds: seq<Data>) returns (m: Sorted<Value>)
    requires |fs| == |ds| && forall i :: 0 <= i < |fs| ==> HasType(fs[i].schema, ds[i])
    ensures m == FieldValues(fs, ds, [])
    decreases fs, 1
  {
    hide ToValue, HasType, Insert, Less, Valid;
    var out := new MapSerializer();
    assert fs[0..] == fs && ds[0..] == ds;
    for i := 0 to |fs|
      invariant FieldValues(fs[i..], ds[i..], out.map') == FieldValues(fs, ds, [])
    {
      var x := Serialize(fs[i].schema, ds[i]);
      out.SerializeField(fs[i].name, x);
      assert fs[i..][1..] == fs[i + 1..] && ds[i..][1..] == ds[i + 1..];
    }
    m := out.map';
  }

  method SerializeMap(s: Schema, entries: Sorted<Data>) returns (m: Sorted<Value>)
    requires forall i :: 0 <= i < |entries| ==> HasType(s, entries[i].val)
    ensures m == MapValues(s, entries, [])
    decreases s, 1
  {
    hide ToValue, HasType, Insert, Less, Valid;
    var out := new MapSerializer();
    assert entries[0..] == entries;
    for i := 0 to |entries|
      invariant MapValues(s, entries[i..], out.map') == MapValues(s, entries, [])
    {
      var ok := out.SerializeKey(String(entries[i].key));
      var x := Serialize(s, entries[i].val);
      ok := out.SerializeValue(x);
      assert entries[i..][1..] == entries[i + 1..];
    }
    m := out.map';
  }
}
