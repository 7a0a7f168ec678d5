// Wire-ordered association lists. Header buckets, payload maps and record tags are all
// read the same way: a repeated key is refused, and a lookup takes the first match.
module AssocLists {
  import opened Common

  predicate DistinctKeys<K(==), V>(s: seq<(K, V)>) {
    forall i, j :: 0 <= i < j < |s| ==> s[i].0 != s[j].0
  }

  predicate HasKey<K(==), V>(s: seq<(K, V)>, key: K) {
    exists i :: 0 <= i < |s| && s[i].0 == key
  }

  function Get<K(==), V>(s: seq<(K, V)>, key: K): Option<V> {
    if s == [] then None
    else if s[0].0 == key then Some(s[0].1)
    else Get(s[1..], key)
  }

  lemma {:induction false} GetFinds<K, V>(s: seq<(K, V)>, key: K)
    ensures Get(s, key).Some? <==> HasKey(s, key)
    ensures Get(s, key).Some? ==> (key, Get(s, key).value) in s
  {
    if s != [] {
      GetFinds(s[1..], key);
      assert s == [s[0]] + s[1..];
    }
  }

  // With distinct keys, a lookup answers exactly the entry that is there.
  lemma GetIsMembership<K, V>(s: seq<(K, V)>, key: K, value: V)
    requires DistinctKeys(s)
    ensures Get(s, key) == Some(value) <==> (key, value) in s
  {
    GetFinds(s, key);
    if (key, value) in s {
      var i :| 0 <= i < |s| && s[i] == (key, value);
      assert s[i].0 == key;
      var j :| 0 <= j < |s| && s[j] == (key, Get(s, key).value);
    }
  }

  lemma {:induction false} GetAppend<K, V>(s: seq<(K, V)>, t: seq<(K, V)>, key: K)
    ensures Get(s + t, key) == if Get(s, key).Some? then Get(s, key) else Get(t, key)
  {
    if s == [] {
      assert s + t == t;
    } else {
      assert (s + t)[1..] == s[1..] + t;
      GetAppend(s[1..], t, key);
    }
  }

  // ---- Reordering ----

  lemma TwoPlacesAreAPair<T>(s: seq<T>, i: nat, j: nat)
    requires i < j < |s|
    ensures multiset{s[i], s[j]} <= multiset(s)
  {
    assert s == s[..i] + [s[i]] + s[i + 1..j] + [s[j]] + s[j + 1..];
  }

  lemma PairHasTwoPlaces<T>(s: seq<T>, x: T, y: T)
    requires multiset{x, y} <= multiset(s)
    ensures exists i, j :: 0 <= i < |s| && 0 <= j < |s| && i != j && s[i] == x && s[j] == y
  {
    assert multiset(s)[x] > 0;
    var i :| 0 <= i < |s| && s[i] == x;
    var rest := s[..i] + s[i + 1..];
    assert s == s[..i] + [x] + s[i + 1..];
    assert multiset(s) == multiset(rest) + multiset{x};
    assert multiset(rest)[y] > 0;
    var k :| 0 <= k < |rest| && rest[k] == y;
    var j := if k < i then k else k + 1;
    assert s[j] == y;
  }

  lemma ReorderKeepsDistinct<K, V>(s: seq<(K, V)>, t: seq<(K, V)>)
    requires multiset(s) == multiset(t) && DistinctKeys(s)
    ensures DistinctKeys(t)
  {
    forall i, j | 0 <= i < j < |t|
      ensures t[i].0 != t[j].0
    {
      TwoPlacesAreAPair(t, i, j);
      PairHasTwoPlaces(s, t[i], t[j]);
    }
  }

  lemma ReorderKeepsGet<K, V>(s: seq<(K, V)>, t: seq<(K, V)>, key: K)
    requires multiset(s) == multiset(t) && DistinctKeys(s)
    ensures Get(t, key) == Get(s, key)
  {
    ReorderKeepsDistinct(s, t);
    ReorderKeepsMembers(s, t);
    GetFinds(s, key);
    GetFinds(t, key);
    if Get(s, key).Some? {
      GetIsMembership(t, key, Get(s, key).value);
    } else if Get(t, key).Some? {
      GetIsMembership(s, key, Get(t, key).value);
    }
  }

  lemma ReorderKeepsMembers<T>(s: seq<T>, t: seq<T>)
    requires multiset(s) == multiset(t)
    ensures forall x :: x in s <==> x in t
  {
    forall x
      ensures x in s <==> x in t
    {
      assert x in s <==> x in multiset(s);
      assert x in t <==> x in multiset(t);
    }
  }
}
