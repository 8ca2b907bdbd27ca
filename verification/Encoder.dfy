/** Encoding values as MessagePack. */
module Encoder {
  import opened Bytes
  import opened SortedMap
  import opened Values

  /** Integers, in the narrowest of the five classes the encoder uses. */
  function EncodeInt(v: I64): (bs: seq<Byte>)
    ensures 1 <= |bs| <= 9
  {
    if -32 <= v <= 0x7F then [v % 0x100]
    else if 0 <= v <= 0xFF then [0xCC, v]
    else if 0 <= v <= 0xFFFF then [0xCD] + BigEndian(v, 2)
    else if -0x8000_0000 <= v < 0x8000_0000 then [0xD2] + BigEndian(v, 4)
    else [0xD3] + BigEndian(v, 8)
  }

  /** Text; the length is cut to a byte, so 256 bytes and more are not representable. */
  function EncodeStr(s: seq<Byte>): seq<Byte> {
    if |s| <= 31 then [0xA0 + |s|] + s else [0xD9, |s| % 0x100] + s
  }

  /** Binary data; the length is cut to two bytes. */
  function EncodeBytes(data: seq<Byte>): seq<Byte> {
    if |data| <= 0xFF then [0xC4, |data|] + data else [0xC5] + BigEndian(|data|, 2) + data
  }

  function Concat(parts: seq<seq<Byte>>): seq<Byte> {
    if parts == [] then [] else parts[0] + Concat(parts[1..])
  }

  /** A fixarray of encoded elements; more than 15 of them is a panic. */
  function EncodeArray(parts: seq<seq<Byte>>): seq<Byte>
    requires |parts| <= 15
  {
    [0x90 + |parts|] + Concat(parts)
  }

  function MapHeader(count: nat): seq<Byte> {
    if count <= 15 then [0x80 + count] else [0xDE] + BigEndian(count, 2)
  }

  /** No array has more than 15 elements, so encoding does not panic. */
  predicate ArraysFit(v: Value) {
    match v
    case Array(items) => |items| <= 15 && forall i :: 0 <= i < |items| ==> ArraysFit(items[i])
    case Map(entries) => forall i :: 0 <= i < |entries| ==> ArraysFit(entries[i].val)
    case _ => true
  }

  function Encode(v: Value): seq<Byte>
    requires ArraysFit(v)
  {
    match v
    case Nil => [0xC0]
    case Bool(b) => [if b then 0xC3 else 0xC2]
    case Integer(i) => EncodeInt(i)
    case Float(bits) => [0xCB] + BigEndian(bits, 8)
    case String(s) => EncodeStr(s)
    case Binary(data) => EncodeBytes(data)
    case Array(items) => EncodeArray(EncodeEach(items))
    case Map(entries) => MapHeader(|entries|) + Concat(EncodeEntries(entries))
  }

  function EncodeEach(items: seq<Value>): (parts: seq<seq<Byte>>)
    requires forall i :: 0 <= i < |items| ==> ArraysFit(items[i])
    ensures |parts| == |items|
  {
    if items == [] then [] else [Encode(items[0])] + EncodeEach(items[1..])
  }

  function EncodeEntries(entries: seq<Entry<Value>>): (parts: seq<seq<Byte>>)
    requires forall i :: 0 <= i < |entries| ==> ArraysFit(entries[i].val)
    ensures |parts| == |entries|
  {
    if entries == [] then []
    else [EncodeStr(entries[0].key) + Encode(entries[0].val)] + EncodeEntries(entries[1..])
  }

  /** What fits the length fields: the values encoding is meant for. */
  predicate Encodable(v: Value) {
    match v
    case String(s) => |s| <= 0xFF
    case Binary(data) => |data| <= 0xFFFF
    case Array(items) => |items| <= 15 && forall i :: 0 <= i < |items| ==> Encodable(items[i])
    case Map(entries) =>
      |entries| <= 0xFFFF &&
      forall i :: 0 <= i < |entries| ==> |entries[i].key| <= 0xFF && Encodable(entries[i].val)
    case _ => true
  }

  lemma {:induction false} EncodableFits(v: Value)
    requires Encodable(v)
    ensures ArraysFit(v)
  {
    match v
    case Array(items) =>
      forall i | 0 <= i < |items| ensures ArraysFit(items[i]) { EncodableFits(items[i]); }
    case Map(entries) =>
      forall i | 0 <= i < |entries| ensures ArraysFit(entries[i].val) { EncodableFits(entries[i].val); }
    case _ =>
  }
}
