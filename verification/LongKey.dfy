/**
  A map that is not encodable and still comes back: its first key is longer than 255 bytes and rises
  when its length is cut. The key reads as the second key, its own bytes go on with the second entry,
  and the first entry is put together from the rest of the key and from what follows.
 */
module LongKey {
  import opened Bytes
  import opened Utf8
  import opened SortedMap
  import opened Values
  import opened Encoder
  import opened Decoder
  import opened RoundTrip
  import opened Boundary

  function Copies(x: Byte, n: nat): (bs: seq<Byte>)
    ensures |bs| == n
  {
    seq(n, _ => x)
  }

  function Times(p: seq<Byte>, n: nat): (bs: seq<Byte>)
    ensures |bs| == |p| * n
  {
    if n == 0 then [] else p + Times(p, n - 1)
  }

  // The key repeats FRONT + JOINT + BACK and ends with FRONT.
  const START: seq<Byte> := [0x61, 0x61, 0x61, 0x61, 0x61]
  const FRONT: seq<Byte> := START + [0xE1, 0x82, 0xA0] + [0xD9, 0x80]
  const SECOND: seq<Byte> := START + REPLACEMENT
  const JOINT: seq<Byte> := Six([0x01], REPLACEMENT, SECOND, REPLACEMENT, REPLACEMENT, [0x01])
  const BACK: seq<Byte> := Copies(0x62, 108) + [0xC2, 0xA0] + [0x01] + [0xDA, 0xB5] + [0x00]
  const PERIOD: seq<Byte> := FRONT + JOINT + BACK
  const BODY: seq<Byte> := Times(PERIOD, 323) + FRONT
  const FIRST: seq<Byte> := PERIOD + BODY

  // ------------------------------------------------------------------
  // Text
  // ------------------------------------------------------------------

  lemma ValidJoin(a: seq<Byte>, b: seq<Byte>)
    requires Valid(a) && Valid(b)
    ensures Valid(a + b)
  {
    hide Valid, Lossy;
    LossyAppend(a, b);
    LossyIsIdentityIffValid(b);
    LossyIsIdentityIffValid(a + b);
  }

  lemma {:induction false} AsciiIsValid(bs: seq<Byte>)
    requires forall i :: 0 <= i < |bs| ==> bs[i] < 0x80
    ensures Valid(bs)
  {
    if bs != [] {
      AsciiIsValid(bs[1..]);
    }
  }

  lemma {:induction false} TimesIsValid(p: seq<Byte>, n: nat)
    requires Valid(p)
    ensures Valid(Times(p, n))
  {
    hide Valid;
    if n == 0 {
      AsciiIsValid([]);
    } else {
      TimesIsValid(p, n - 1);
      ValidJoin(p, Times(p, n - 1));
    }
  }

  lemma CharacterIsValid(bs: seq<Byte>)
    requires bs != [] && First(bs) == Chunk(|bs|, true)
    ensures Valid(bs)
  {
    assert bs[|bs|..] == [];
  }

  lemma CharactersAreValid()
    ensures Valid([0x00]) && Valid([0x01]) && Valid(START) && Valid(Copies(0x62, 108)) && Valid(REPLACEMENT)
    ensures Valid([0xE1, 0x82, 0xA0]) && Valid([0xD9, 0x80]) && Valid([0xC2, 0xA0]) && Valid([0xDA, 0xB5])
  {
    hide Valid;
    AsciiIsValid([0x00]);
    AsciiIsValid([0x01]);
    AsciiIsValid(START);
    AsciiIsValid(Copies(0x62, 108));
    CharacterIsValid(REPLACEMENT);
    CharacterIsValid([0xE1, 0x82, 0xA0]);
    CharacterIsValid([0xD9, 0x80]);
    CharacterIsValid([0xC2, 0xA0]);
    CharacterIsValid([0xDA, 0xB5]);
  }

  lemma FrontIsValid()
    ensures Valid(FRONT) && Valid(SECOND)
  {
    CharactersAreValid();
    hide Valid, REPLACEMENT, START;
    ValidJoin(START, REPLACEMENT);
    ValidJoin(START, [0xE1, 0x82, 0xA0]);
    ValidJoin(START + [0xE1, 0x82, 0xA0], [0xD9, 0x80]);
  }

  lemma BackIsValid()
    ensures Valid(BACK)
  {
    CharactersAreValid();
    hide Valid, Copies;
    ValidJoin(Copies(0x62, 108), [0xC2, 0xA0]);
    ValidJoin(Copies(0x62, 108) + [0xC2, 0xA0], [0x01]);
    ValidJoin(Copies(0x62, 108) + [0xC2, 0xA0] + [0x01], [0xDA, 0xB5]);
    ValidJoin(Copies(0x62, 108) + [0xC2, 0xA0] + [0x01] + [0xDA, 0xB5], [0x00]);
  }

  lemma KeysAreValid()
    ensures Valid(PERIOD) && Valid(BODY) && Valid(FIRST) && Valid(BACK + FRONT)
  {
    FrontIsValid();
    BackIsValid();
    JointIsRead([]);
    assert Lossy([]) == [];
    hide Valid, FRONT, JOINT, BACK, Lossy, BETWEEN;
    assert JOINT + Lossy([]) == JOINT;
    ValidJoin(FRONT, JOINT);
    ValidJoin(FRONT + JOINT, BACK);
    TimesIsValid(PERIOD, 323);
    ValidJoin(Times(PERIOD, 323), FRONT);
    ValidJoin(PERIOD, BODY);
    ValidJoin(BACK, FRONT);
  }

  lemma LossyOfLone(b: Byte, rest: seq<Byte>)
    requires Tail(b)
    ensures Lossy([b] + rest) == REPLACEMENT + Lossy(rest)
  {
    assert ([b] + rest)[1..] == rest;
    assert First([b] + rest) == Chunk(1, false);
  }

  // ------------------------------------------------------------------
  // The first key, put together again
  // ------------------------------------------------------------------

  /** What is between the rest of the first key and what follows the encoding. */
  const BETWEEN: seq<Byte> := Six([0x01], [0xA8], SECOND, [0x81], [0xA0], [0x01])

  lemma MixedIsRead(one: seq<Byte>, s: seq<Byte>, t: seq<Byte>)
    requires Valid(one) && Valid(s)
    ensures Lossy(Six(one, [0xA8], s, [0x81], [0xA0], one) + t) ==
            Six(one, REPLACEMENT, s, REPLACEMENT, REPLACEMENT, one) + Lossy(t)
  {
    hide Valid, Lossy, REPLACEMENT;
    SixMore(one, [0xA8], s, [0x81], [0xA0], one, t);
    SixMore(one, REPLACEMENT, s, REPLACEMENT, REPLACEMENT, one, Lossy(t));
    LossyAppend(one, [0xA8] + (s + ([0x81] + ([0xA0] + (one + t)))));
    LossyOfLone(0xA8, s + ([0x81] + ([0xA0] + (one + t))));
    LossyAppend(s, [0x81] + ([0xA0] + (one + t)));
    LossyOfLone(0x81, [0xA0] + (one + t));
    LossyOfLone(0xA0, one + t);
    LossyAppend(one, t);
  }

  function Six<T>(a: seq<T>, b: seq<T>, c: seq<T>, d: seq<T>, e: seq<T>, f: seq<T>): seq<T> {
    a + (b + (c + (d + (e + f))))
  }

  lemma SixMore<T>(a: seq<T>, b: seq<T>, c: seq<T>, d: seq<T>, e: seq<T>, f: seq<T>, t: seq<T>)
    ensures Six(a, b, c, d, e, f) + t == a + (b + (c + (d + (e + (f + t)))))
  {
    Assoc(a, b + (c + (d + (e + f))), t);
    Assoc(b, c + (d + (e + f)), t);
    Assoc(c, d + (e + f), t);
    Assoc(d, e + f, t);
    Assoc(e, f, t);
  }

  lemma Assoc<T>(a: seq<T>, b: seq<T>, c: seq<T>)
    ensures a + b + c == a + (b + c)
  {}

  lemma JointIsRead(t: seq<Byte>)
    ensures Lossy(BETWEEN + t) == JOINT + Lossy(t)
  {
    CharactersAreValid();
    FrontIsValid();
    hide Valid, Lossy, REPLACEMENT, SECOND, Six;
    MixedIsRead([0x01], SECOND, t);
  }

  lemma {:induction false} TimesTurn(p: seq<Byte>, n: nat)
    ensures Times(p, n) + p == p + Times(p, n)
  {
    if n > 0 {
      TimesTurn(p, n - 1);
      assert Times(p, n) + p == p + (Times(p, n - 1) + p);
    }
  }

  lemma FirstIsRead()
    ensures Lossy(BODY + (BETWEEN + (BACK + FRONT))) == FIRST
  {
    KeysAreValid();
    LossyAppend(BODY, BETWEEN + (BACK + FRONT));
    JointIsRead(BACK + FRONT);
    LossyIsIdentityIffValid(BACK + FRONT);
    hide Lossy, Valid, FRONT, JOINT, BACK, BETWEEN;
    var many := Times(PERIOD, 323);
    TimesTurn(PERIOD, 323);
    Rotate(many, FRONT, JOINT, BACK);
  }

  lemma Rotate(m: seq<Byte>, f: seq<Byte>, j: seq<Byte>, b: seq<Byte>)
    requires m + (f + j + b) == (f + j + b) + m
    ensures (m + f) + (j + (b + f)) == (f + j + b) + (m + f)
  {
    assert (m + f) + (j + (b + f)) == m + (f + j + b) + f;
    assert (f + j + b) + (m + f) == (f + j + b) + m + f;
  }

  // ------------------------------------------------------------------
  // The map
  // ------------------------------------------------------------------

  function One(): Value { Integer(1) }

  function Inside(): Sorted<Value> { [Entry([], One())] }

  function Inner(): Value { Map(Inside()) }

  /** What the discarded first entry of the inner map holds. */
  const JUNK: seq<Byte> := JOINT + Copies(0x62, 108) + [0xC2]

  lemma Lengths()
    ensures |FRONT| == 10 && |SECOND| == 8 && |JOINT| == 19 && |BACK| == 114 && |PERIOD| == 143
    ensures |BETWEEN| == 13 && |JUNK| == 128 && |BODY| == 46199 && |FIRST| == 46342
  {}

  lemma LessAfter(p: seq<Byte>, a: seq<Byte>, b: seq<Byte>)
    requires Less(a, b)
    ensures Less(p + a, p + b)
    decreases p
  {
    if p == [] {
      assert p + a == a && p + b == b;
    } else {
      assert (p + a)[1..] == p[1..] + a && (p + b)[1..] == p[1..] + b;
      LessAfter(p[1..], a, b);
    }
  }

  /** The first key up to the cut, then the inner map with a discarded entry, then the header of a str 16. */
  lemma FirstSplits(t: seq<Byte>)
    ensures FIRST + t == (START + [0xE1]) + InnerBytes([0xDA, 0xB5, 0x00] + (BODY + t))
  {
    assert FRONT == START + [0xE1] + [0x82] + [0xA0] + [0xD9, 0x80];
    assert BACK == Copies(0x62, 108) + [0xC2] + [0xA0] + [0x01] + [0xDA, 0xB5, 0x00];
    hide START, FRONT, JOINT, BACK, BODY, Copies;
    var a, b := START + [0xE1], Copies(0x62, 108) + [0xC2];
    var u := BODY + t;
    assert FIRST + t == FRONT + (JOINT + (BACK + u)) by {
      Assoc(FRONT, JOINT, BACK);
      Assoc(FRONT, JOINT + BACK, BODY);
      Assoc(FRONT, JOINT + BACK + BODY, t);
      Assoc(JOINT, BACK, BODY);
      Assoc(JOINT, BACK + BODY, t);
      Assoc(BACK, BODY, t);
    }
    assert BACK + u == b + ([0xA0] + ([0x01] + ([0xDA, 0xB5, 0x00] + u))) by {
      Assoc(b + [0xA0] + [0x01], [0xDA, 0xB5, 0x00], u);
      Assoc(b + [0xA0], [0x01], [0xDA, 0xB5, 0x00] + u);
      Assoc(b, [0xA0], [0x01] + ([0xDA, 0xB5, 0x00] + u));
    }
    var v := [0xA0] + ([0x01] + ([0xDA, 0xB5, 0x00] + u));
    Assoc(JOINT, b, v);
    Assoc(JOINT, Copies(0x62, 108), [0xC2]);
    var w := JUNK + v;
    Assoc(a + [0x82] + [0xA0], [0xD9, 0x80], w);
    Assoc(a + [0x82], [0xA0], [0xD9, 0x80] + w);
    Assoc(a, [0x82], [0xA0] + ([0xD9, 0x80] + w));
  }

  /** A fixmap with two entries for the same key. */
  function InnerBytes(t: seq<Byte>): seq<Byte> {
    [0x82] + ([0xA0] + ([0xD9, 0x80] + (JUNK + ([0xA0] + ([0x01] + t)))))
  }

  lemma EmptyTextIsRead(t: seq<Byte>)
    ensures Decode([0xA0] + t) == Some(Decoded(String([]), 1))
  {
    DecodeOfStr([], t);
    assert EncodeStr([]) == [0xA0];
  }

  lemma OneIsRead(t: seq<Byte>)
    ensures Decode([0x01] + t) == Some(Decoded(One(), 1))
  {
    hide ReadHead;
    HeadOfInt(1, t);
    DecodeLeaf([0x01] + t);
  }

  lemma JunkIsRead(t: seq<Byte>)
    ensures Decode([0xD9, 0x80] + (JUNK + t)) == Some(Decoded(String(Lossy(JUNK)), 130))
  {
    Lengths();
    hide ReadHead, Lossy, JUNK;
    HeadOfLongStr(0x80, JUNK, t);
    Assoc([0xD9, 0x80], JUNK, t);
    assert JUNK[..0x80] == JUNK;
    DecodeLeaf([0xD9, 0x80] + (JUNK + t));
  }

  lemma EntryIsRead(kb: seq<Byte>, vb: seq<Byte>, rest: seq<Byte>, count: nat, acc: Sorted<Value>, k: Str, v: Value)
    requires kb != [] && vb != [] && count > 0
    requires Decode(kb + (vb + rest)) == Some(Decoded(String(k), |kb|))
    requires Decode(vb + rest) == Some(Decoded(v, |vb|))
    ensures DecodeEntries(kb + (vb + rest), count, acc) ==
            Shift(|kb| + |vb|, DecodeEntries(rest, count - 1, Insert(acc, k, v)))
  {
    hide Decode, DecodeEntries, Insert, Valid, Less;
    var bs := kb + (vb + rest);
    assert bs[|kb|..] == vb + rest;
    assert bs[|kb| + |vb|..] == rest;
    EntriesNext(bs, count, acc, Decoded(String(k), |kb|), Decoded(v, |vb|));
  }

  lemma LastEntryIsRead(t: seq<Byte>, acc: Sorted<Value>)
    requires Valid([])
    ensures DecodeEntries([0xA0] + ([0x01] + t), 1, acc) == Some(Decoded(Insert(acc, [], One()), 2))
  {
    EmptyTextIsRead([0x01] + t);
    OneIsRead(t);
    hide Decode, DecodeEntries, Insert, Valid, Less, One;
    NoEntries(t, Insert(acc, [], One()));
    EntryIsRead([0xA0], [0x01], t, 1, acc, [], One());
  }

  lemma InnerEntriesAreRead(t: seq<Byte>)
    requires Valid([])
    ensures DecodeEntries([0xA0] + ([0xD9, 0x80] + (JUNK + ([0xA0] + ([0x01] + t)))), 2, [])
         == Some(Decoded(Inside(), 133))
  {
    Lengths();
    var c, junk, header := [0xA0] + ([0x01] + t), String(Lossy(JUNK)), [0xD9, 0x80];
    assert Insert(Insert([], [], junk), [], One()) == Inside();
    EmptyTextIsRead(header + (JUNK + c));
    JunkIsRead(c);
    LastEntryIsRead(t, Insert([], [], junk));
    hide Decode, DecodeEntries, Insert, Valid, Less, One, Inside, JUNK, Lossy;
    Assoc(header, JUNK, c);
    EntryIsRead([0xA0], header + JUNK, c, 2, [], [], junk);
  }

  lemma InnerIsRead(t: seq<Byte>)
    ensures Decode(InnerBytes(t)) == Some(Decoded(Inner(), 134))
  {
    InnerEntriesAreRead(t);
    var a := [0xA0] + ([0xD9, 0x80] + (JUNK + ([0xA0] + ([0x01] + t))));
    hide JUNK, Valid, Decode, DecodeEntries, One, Inside, Less;
    DecodeTwo(a, Decoded(Inside(), 133));
  }

  /** A fixmap of two entries. */
  lemma DecodeTwo(rest: seq<Byte>, d: Decoded<Sorted<Value>>)
    requires DecodeEntries(rest, 2, []) == Some(d)
    ensures Decode([0x82] + rest) == Some(Decoded(Map(d.v), 1 + d.used))
  {
    hide ReadHead, DecodeEntries;
    TwoFollow(rest);
    assert ([0x82] + rest)[1..] == rest;
  }

  lemma TwoFollow(t: seq<Byte>)
    ensures ReadHead([0x82] + t) == MapOf(2, 1)
  {
    hide ReadHead;
    HeadOfMap(2, t);
  }

  lemma FirstIsLess()
    ensures Less(FIRST, SECOND)
  {
    FirstSplits([]);
    hide START, FIRST, BODY, InnerBytes;
    assert BODY + [] == BODY && FIRST + [] == FIRST;
    var x := InnerBytes([0xDA, 0xB5, 0x00] + BODY);
    Assoc(START, [0xE1], x);
    assert FIRST == START + ([0xE1] + x);
    LessAfter(START, [0xE1] + x, REPLACEMENT);
  }

  function Entries(): (m: Sorted<Value>)
    ensures |m| == 2 && m[0].key == FIRST && m[0].val == One() && m[1].key == SECOND && m[1].val == Inner()
  {
    KeysAreValid();
    FrontIsValid();
    FirstIsLess();
    [Entry(FIRST, One()), Entry(SECOND, Inner())]
  }

  lemma EncodedInner()
    ensures ArraysFit(Inner()) && Encode(Inner()) == [0x81] + ([0xA0] + [0x01])
  {
    assert EncodeStr([]) == [0xA0] && Encode(One()) == [0x01];
    assert EncodeEntries(Inside()) == [[0xA0] + [0x01]];
    assert Concat([[0xA0] + [0x01]]) == [0xA0] + [0x01];
  }

  lemma EncodedEntries()
    ensures ArraysFit(Map(Entries()))
    ensures Encode(Map(Entries())) == [0x82] + ([0xD9, 0x06] + FIRST + BETWEEN)
  {
    var m := Entries();
    Lengths();
    EncodedInner();
    assert EncodeStr(FIRST) == [0xD9, 0x06] + FIRST;
    assert EncodeStr(SECOND) == [0xA8] + SECOND;
    assert Encode(One()) == [0x01];
    hide FIRST, SECOND, EncodeStr, Encode, Inner, One;
    var a, b := [0xD9, 0x06] + FIRST + [0x01], [0xA8] + SECOND + ([0x81] + ([0xA0] + [0x01]));
    assert EncodeEntries(m) == [a, b] by {
      assert m[1..][1..] == [];
      assert EncodeEntries(m[1..]) == [b];
    }
    ConcatTwo(a, b);
    Assoc([0xD9, 0x06] + FIRST, [0x01], b);
    Assoc([0xA8], SECOND, [0x81] + ([0xA0] + [0x01]));
    assert Encode(Map(m)) == [0x82] + (a + b) by { EncodedMap(m); }
  }

  lemma ConcatTwo(a: seq<Byte>, b: seq<Byte>)
    ensures Concat([a, b]) == a + b
  {
    assert Concat([b]) == b;
  }

  lemma EncodedMap(m: Sorted<Value>)
    requires ArraysFit(Map(m)) && |m| <= 15
    ensures Encode(Map(m)) == [0x80 + |m|] + Concat(EncodeEntries(m))
  {}

  lemma FirstStarts()
    ensures |FIRST| == 46342 && FIRST[..6] == START + [0xE1] && FIRST[6..] == InnerBytes([0xDA, 0xB5, 0x00] + BODY)
  {
    Lengths();
    FirstSplits([]);
    assert |START| == 5;
    hide START, FIRST, BODY, InnerBytes;
    assert BODY + [] == BODY && FIRST + [] == FIRST;
  }

  lemma CutIsRead(s: seq<Byte>)
    requires Valid(s)
    ensures Lossy(s + [0xE1]) == s + REPLACEMENT
  {
    assert First([0xE1]) == Chunk(1, false);
    hide REPLACEMENT, Lossy, Valid, First;
    LossyAppend(s, [0xE1]);
    LossyOfBroken([0xE1]);
  }

  lemma KeptIs(s: seq<Byte>)
    requires |s| > 31
    ensures Kept(s) == s[..|s| % 0x100]
  {}

  lemma FirstIsCut()
    ensures Kept(FIRST) == START + [0xE1] && Lossy(Kept(FIRST)) == SECOND
  {
    hide START, FIRST, REPLACEMENT, Lossy, Valid, First, Kept, InnerBytes;
    FirstStarts();
    CharactersAreValid();
    KeptIs(FIRST);
    CutIsRead(START);
  }

  /** What follows the encoding: the end of the first key as it should be read, and its value. */
  function After(): seq<Byte> {
    BACK + FRONT + [0x01]
  }

  /** The first key, in the form that is read last. */
  lemma FirstIsReadAgain()
    ensures Valid(FIRST)
    ensures Decode([0xDA, 0xB5, 0x00] + (BODY + (BETWEEN + After()))) == Some(Decoded(String(FIRST), 46339))
    ensures ([0xDA, 0xB5, 0x00] + (BODY + (BETWEEN + After())))[46339..] == [0x01]
  {
    KeysAreValid();
    Lengths();
    FirstIsRead();
    hide FIRST, FRONT, BACK, BODY, BETWEEN, Valid, Lossy, Decode;
    var raw := BODY + (BETWEEN + (BACK + FRONT));
    assert |raw| == 46336;
    assert BigEndian(46336, 2) == [0xB5, 0x00] by { assert BigEndian(0xB5, 1) == [0xB5] by { OneByte(0xB5); } }
    DecodeOfStr16(raw, [0x01]);
    assert BODY + (BETWEEN + After()) == raw + [0x01] by {
      Assoc(BETWEEN, BACK + FRONT, [0x01]);
      Assoc(BODY, BETWEEN + (BACK + FRONT), [0x01]);
    }
    Assoc([0xDA, 0xB5, 0x00], raw, [0x01]);
    assert [0xDA] + [0xB5, 0x00] == [0xDA, 0xB5, 0x00];
    assert |[0xDA, 0xB5, 0x00] + raw| == 46339;
  }

  lemma TwoEntries()
    ensures Valid(FIRST) && Valid(SECOND)
    ensures Insert(Insert([], SECOND, Inner()), FIRST, One()) == Entries()
  {
    FirstIsLess();
    KeysAreValid();
    FrontIsValid();
    LessIsStrict(FIRST, SECOND);
    hide FIRST, SECOND, Less, Valid;
    assert Insert([], SECOND, Inner()) == [Entry(SECOND, Inner())];
  }

  /** The bytes after the header: the first key cut, the inner map, the first key again, and its value. */
  lemma EntriesAreRead()
    ensures DecodeEntries([0xD9, 0x06] + FIRST + BETWEEN + After(), 2, [])
         == Some(Decoded(Entries(), 46482))
  {
    var again := [0xDA, 0xB5, 0x00] + (BODY + (BETWEEN + After()));
    var bs := [0xD9, 0x06] + FIRST + BETWEEN + After();
    KeyIsReadCut();
    FirstSplits(BETWEEN + After());
    InnerIsRead(again);
    FirstIsReadAgain();
    FrontIsValid();
    OneIsRead([]);
    TwoEntries();
    assert [0x01] + [] == [0x01];
    assert |START| == 5;
    hide FIRST, SECOND, BODY, BETWEEN, After, START, Lossy, Valid, Decode, Insert, Less, Inner, One;
    hide DecodeEntries, Entries;
    Split8(bs, again);
    hide InnerBytes;
    NoEntries([], Entries());
    EntriesNext(again, 1, Insert([], SECOND, Inner()), Decoded(String(FIRST), 46339), Decoded(One(), 1));
    EntriesNext(bs, 2, [], Decoded(String(SECOND), 8), Decoded(Inner(), 134));
  }

  lemma KeyIsReadCut()
    ensures Valid(SECOND)
    ensures Decode([0xD9, 0x06] + FIRST + BETWEEN + After()) == Some(Decoded(String(SECOND), 8))
  {
    KeysAreValid();
    FirstIsCut();
    FirstStarts();
    assert EncodeStr(FIRST) == [0xD9, 0x06] + FIRST && |START| == 5;
    hide FIRST, SECOND, START, BETWEEN, After, Lossy, Valid, Decode, EncodeStr, Kept;
    DecodeOfStr(FIRST, BETWEEN + After());
    Assoc([0xD9, 0x06] + FIRST, BETWEEN, After());
  }

  /** Where the inner map starts, and the key after it. */
  lemma Split8(bs: seq<Byte>, again: seq<Byte>)
    requires |START| == 5 && bs == [0xD9, 0x06] + FIRST + BETWEEN + After()
    requires FIRST + (BETWEEN + After()) == (START + [0xE1]) + InnerBytes(again)
    ensures bs[8..] == InnerBytes(again) && bs[142..] == again && |bs| == 142 + |again|
  {
    Lengths();
    hide FIRST, BETWEEN, START, After, JUNK;
    Assoc([0xD9, 0x06] + FIRST, BETWEEN, After());
    Assoc([0xD9, 0x06], FIRST, BETWEEN + After());
    Assoc([0xD9, 0x06], START + [0xE1], InnerBytes(again));
    var head := [0xD9, 0x06] + (START + [0xE1]);
    assert |head| == 8 && bs == head + InnerBytes(again);
    InnerTail(again);
    assert bs[8..] == InnerBytes(again);
    assert bs[142..] == InnerBytes(again)[134..];
  }

  lemma InnerTail(t: seq<Byte>)
    ensures |InnerBytes(t)| == 134 + |t| && InnerBytes(t)[134..] == t
  {
    Lengths();
    hide JUNK;
    var a := [0x82] + [0xA0] + [0xD9, 0x80];
    assert InnerBytes(t) == a + JUNK + [0xA0] + [0x01] + t;
  }

  lemma FirstRises()
    ensures Valid(FIRST)
    ensures !DoesNotRise(FIRST) && |FIRST| > 0xFF
  {
    KeysAreValid();
    Lengths();
    hide FIRST, SECOND, Less, Lossy, Kept, Valid;
    FirstIsCut();
    FirstIsLess();
  }

  lemma TwoComeBack(m: Sorted<Value>, body: seq<Byte>, t: seq<Byte>, used: nat)
    requires ArraysFit(Map(m)) && Encode(Map(m)) == [0x82] + body
    requires DecodeEntries(body + t, 2, []) == Some(Decoded(m, used))
    ensures ComesBack(Map(m), t)
  {
    hide Decode, Encode, DecodeEntries, ArraysFit;
    Assoc([0x82], body, t);
    DecodeTwo(body + t, Decoded(m, used));
  }

  /** The map comes back, although its first key has 46342 bytes. */
  lemma LongKeyComesBack() returns (v: Value, t: seq<Byte>)
    ensures ArraysFit(v) && !Encodable(v) && !KeysDoNotRise(v)
    ensures ComesBack(v, t)
  {
    v, t := Map(Entries()), After();
    FirstRises();
    EncodedEntries();
    EntriesAreRead();
    hide FIRST, SECOND, BETWEEN, After, Encode, DecodeEntries, DoesNotRise, Entries, ComesBack, Valid, ArraysFit;
    var m := Entries();
    TwoComeBack(m, [0xD9, 0x06] + FIRST + BETWEEN, t, 46482);
    assert !DoesNotRise(m[0].key) && |m[0].key| > 0xFF;
  }
}
