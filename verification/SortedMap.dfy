/** Ordered maps with text keys, kept as their entries in ascending key order. */
module SortedMap {
  import opened Bytes
  import opened Utf8

  /** Bytewise lexicographic order. */
  predicate Less(a: seq<Byte>, b: seq<Byte>) {
    b != [] && (a == [] || a[0] < b[0] || (a[0] == b[0] && Less(a[1..], b[1..])))
  }

  lemma {:induction false} LessIsStrict(a: seq<Byte>, b: seq<Byte>)
    ensures a == b ==> !Less(a, b)
    ensures Less(a, b) ==> !Less(b, a)
    ensures Less(a, b) || a == b || Less(b, a)
  {
    if a != [] && b != [] {
      LessIsStrict(a[1..], b[1..]);
      assert a == [a[0]] + a[1..] && b == [b[0]] + b[1..];
    }
  }

  lemma {:induction false} LessIsTransitive(a: seq<Byte>, b: seq<Byte>, c: seq<Byte>)
    requires Less(a, b) && Less(b, c)
    ensures Less(a, c)
  {
    if a != [] && a[0] == b[0] == c[0] {
      LessIsTransitive(a[1..], b[1..], c[1..]);
    }
  }

  datatype Entry<V> = Entry(key: Str, val: V)

  predicate Ascending<V>(m: seq<Entry<V>>) {
    forall i, j :: 0 <= i < j < |m| ==> Less(m[i].key, m[j].key)
  }

  type Sorted<V> = m: seq<Entry<V>> | Ascending(m) witness []

  function Lookup<V>(m: seq<Entry<V>>, k: seq<Byte>): Option<V> {
    if m == [] then None
    else if m[0].key == k then Some(m[0].val)
    else Lookup(m[1..], k)
  }

  /** Insertion; an existing entry is replaced. */
  function Insert<V>(m: Sorted<V>, k: Str, v: V): (r: Sorted<V>)
    ensures forall e :: e in r ==> e.key == k || e in m
    ensures |m| <= |r| <= |m| + 1
    decreases |m|
  {
    if m == [] then [Entry(k, v)]
    else if m[0].key == k then [Entry(k, v)] + m[1..]
    else if Less(k, m[0].key) then
      BelowAll(m, k);
      [Entry(k, v)] + m
    else
      LessIsStrict(m[0].key, k);
      [m[0]] + Insert(m[1..], k, v)
  }

  lemma BelowAll<V>(m: Sorted<V>, k: Str)
    requires m != [] && Less(k, m[0].key)
    ensures forall i :: 0 <= i < |m| ==> Less(k, m[i].key)
  {
    forall i | 0 < i < |m| ensures Less(k, m[i].key) {
      LessIsTransitive(k, m[0].key, m[i].key);
    }
  }

  /** Insertion updates the map at one key. */
  lemma {:induction false} InsertLookup<V>(m: Sorted<V>, k: Str, v: V, q: seq<Byte>)
    ensures Lookup(Insert(m, k, v), q) == if q == k then Some(v) else Lookup(m, q)
    decreases |m|
  {
    if m != [] && m[0].key != k && !Less(k, m[0].key) {
      InsertLookup(m[1..], k, v, q);
      assert Insert(m, k, v)[1..] == Insert(m[1..], k, v);
    } else if m != [] && m[0].key == k {
      assert Insert(m, k, v)[1..] == m[1..];
    } else {
      assert Insert(m, k, v)[1..] == m;
    }
  }

  /** A key above all others goes to the end. */
  lemma {:induction false} InsertLast<V>(m: Sorted<V>, k: Str, v: V)
    requires forall i :: 0 <= i < |m| ==> Less(m[i].key, k)
    ensures Insert(m, k, v) == m + [Entry(k, v)]
    decreases |m|
  {
    if m != [] {
      LessIsStrict(m[0].key, k);
      InsertLast(m[1..], k, v);
      assert m == [m[0]] + m[1..];
    }
  }

  /** The order is by the first place where two texts differ; a text comes after its own beginnings. */
  lemma {:induction false} LessIff(a: seq<Byte>, b: seq<Byte>)
    ensures Less(a, b) <==>
            exists n :: 0 <= n <= |a| && n < |b| && a[..n] == b[..n] && (n == |a| || a[n] < b[n])
  {
    if Less(a, b) {
      var n := FirstDifference(a, b);
    }
    forall n | 0 <= n <= |a| && n < |b| && a[..n] == b[..n] && (n == |a| || a[n] < b[n]) ensures Less(a, b) {
      LessByDifference(a, b, n);
    }
  }

  lemma {:induction false} FirstDifference(a: seq<Byte>, b: seq<Byte>) returns (n: nat)
    requires Less(a, b)
    ensures n <= |a| && n < |b| && a[..n] == b[..n] && (n == |a| || a[n] < b[n])
  {
    if a == [] || a[0] < b[0] {
      n := 0;
    } else {
      n := FirstDifference(a[1..], b[1..]);
      n := n + 1;
      assert a[..n] == [a[0]] + a[1..][..n - 1] && b[..n] == [b[0]] + b[1..][..n - 1];
    }
  }

  lemma {:induction false} LessByDifference(a: seq<Byte>, b: seq<Byte>, n: nat)
    requires n <= |a| && n < |b| && a[..n] == b[..n] && (n == |a| || a[n] < b[n])
    ensures Less(a, b)
    decreases n
  {
    if n > 0 {
      assert a[0] == a[..n][0] == b[..n][0] == b[0];
      assert a[1..][..n - 1] == a[..n][1..] && b[1..][..n - 1] == b[..n][1..];
      LessByDifference(a[1..], b[1..], n - 1);
    }
  }

  lemma {:induction false} LookupMember<V>(m: Sorted<V>, q: seq<Byte>)
    ensures Lookup(m, q).Some? ==> exists e :: e in m && e.key == q && e.val == Lookup(m, q).value
    ensures Lookup(m, q).None? ==> forall e :: e in m ==> e.key != q
    decreases |m|
  {
    if m != [] {
      LookupMember(m[1..], q);
      assert m == [m[0]] + m[1..];
    }
  }

  /** A map is given by what is found under each key. */
  lemma {:induction false} SameLookups<V>(a: Sorted<V>, b: Sorted<V>)
    requires forall q :: Lookup(a, q) == Lookup(b, q)
    ensures a == b
    decreases |a|
  {
    assert a != [] ==> Lookup(b, a[0].key) == Lookup(a, a[0].key);
    assert b != [] ==> Lookup(a, b[0].key) == Lookup(b, b[0].key);
    if a != [] && b != [] {
      SameHead(a, b);
      forall q ensures Lookup(a[1..], q) == Lookup(b[1..], q) {
        assert Lookup(a, q) == Lookup(b, q);
        if q == a[0].key {
          HeadOnce(a);
          HeadOnce(b);
        }
      }
      SameLookups(a[1..], b[1..]);
      assert a == [a[0]] + a[1..] && b == [b[0]] + b[1..];
    }
  }

  lemma HeadOnce<V>(m: Sorted<V>)
    requires m != []
    ensures Lookup(m[1..], m[0].key) == None
  {
    LookupMember(m[1..], m[0].key);
    forall e | e in m[1..] ensures e.key != m[0].key {
      var i :| 0 <= i < |m| - 1 && m[1..][i] == e;
      assert Less(m[0].key, m[i + 1].key);
      LessIsStrict(m[0].key, e.key);
    }
  }

  lemma SameHead<V>(a: Sorted<V>, b: Sorted<V>)
    requires a != [] && b != [] && forall q :: Lookup(a, q) == Lookup(b, q)
    ensures a[0] == b[0]
  {
    assert Lookup(a, a[0].key) == Lookup(b, a[0].key) && Lookup(a, b[0].key) == Lookup(b, b[0].key);
    LessIsStrict(a[0].key, b[0].key);
    LessIsStrict(b[0].key, a[0].key);
    if a[0].key != b[0].key {
      if Less(a[0].key, b[0].key) {
        NotBelowHead(b, a[0].key);
      } else {
        NotBelowHead(a, b[0].key);
      }
    }
  }

  lemma NotBelowHead<V>(m: Sorted<V>, q: Str)
    requires m != [] && Less(q, m[0].key)
    ensures Lookup(m, q) == None
  {
    LookupMember(m, q);
    BelowAll(m, q);
    forall e | e in m ensures e.key != q {
      LessIsStrict(q, e.key);
    }
  }

  lemma {:induction false} LookupAt<V>(m: Sorted<V>, j: nat)
    requires j < |m|
    ensures Lookup(m, m[j].key) == Some(m[j].val)
    decreases j
  {
    if j > 0 {
      LessIsStrict(m[0].key, m[j].key);
      LookupAt(m[1..], j - 1);
    }
  }

  lemma {:induction false} LookupMissing<V>(m: Sorted<V>, q: Str)
    requires forall j :: 0 <= j < |m| ==> m[j].key != q
    ensures Lookup(m, q) == None
    decreases |m|
  {
    if m != [] {
      LookupMissing(m[1..], q);
    }
  }
}
