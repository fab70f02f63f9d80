/** Shared vocabulary: values that may be absent, and finite maps compared and traversed key by key. */
module Options {
  /** Go's nil and its (value, ok) pairs. */
  datatype Option<+T> = None | Some(value: T)
}

module Maps {
  lemma NoKeys<K, V>(m: map<K, V>)
    requires forall k :: k !in m
    ensures m == map[]
  {
  }

  lemma NoElements<T>(s: set<T>)
    requires forall x :: x !in s
    ensures s == {}
  {
  }

  lemma Any<T>(s: set<T>) returns (x: T)
    requires s != {}
    ensures x in s && |s - {x}| == |s| - 1
  {
    x :| x in s;
  }

  lemma SameSet<T>(a: set<T>, b: set<T>)
    requires forall x :: x in a <==> x in b
    ensures a == b
  {
  }

  lemma SameMap<K, V>(a: map<K, V>, b: map<K, V>)
    requires forall k :: k in a <==> k in b
    requires forall k :: k in a ==> a[k] == b[k]
    ensures a == b
  {
  }

  lemma AtMostAsMany<K, V>(a: map<K, V>, b: map<K, V>)
    requires a.Keys <= b.Keys
    ensures |a| <= |b|
  {
    assert b.Keys == a.Keys + (b.Keys - a.Keys);
    assert |a.Keys| == |a| && |b.Keys| == |b|;
  }

  lemma AddedSize<K, V>(m: map<K, V>, k: K, v: V)
    ensures |m[k := v]| <= |m| + 1
  {
    assert m[k := v].Keys == m.Keys + {k};
  }

  /** Go iterates a map in no particular order: any remaining key may come next. */
  method NextKey<K(==)>(rest: set<K>) returns (k: K)
    requires rest != {}
    ensures k in rest
  {
    k :| k in rest;
  }
}

module Addresses {
  /** 20-byte addresses, as numbers. */
  const ADDRESS_LIMIT: int := 0x1_0000_0000_0000_0000_0000_0000_0000_0000_0000_0000

  type Address = a: int | 0 <= a < ADDRESS_LIMIT
}
