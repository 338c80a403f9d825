/**
 * A Python `dict` as the record engine uses it: its entries in insertion order.
 * Assigning to a key that is present replaces the value in place; assigning to
 * a new key appends it. `sorted(d.items(), key=lambda kv: kv[0])` orders the
 * entries by key.
 */
module Dict {
  import opened Wrappers
  import opened Text

  predicate DistinctKeys<K(==,!new), V>(e: seq<(K, V)>)
  {
    forall i, j :: 0 <= i < j < |e| ==> e[i].0 != e[j].0
  }

  lemma PrefixSnoc<T>(s: seq<T>, n: nat)
    requires 0 < n <= |s|
    ensures s[..n] == s[..n - 1] + [s[n - 1]]
  {
  }

  lemma PrefixJoin<T>(s: seq<T>, n: nat)
    requires n <= |s|
    ensures s[..n] + s[n..] == s
  {
  }

  /** The position of the first entry with key `k`. */
  function IndexOf<K(==,!new), V>(e: seq<(K, V)>, k: K): (r: Option<nat>)
    ensures r.Some? ==> r.value < |e| && e[r.value].0 == k && forall j :: 0 <= j < r.value ==> e[j].0 != k
    ensures r.None? ==> forall j :: 0 <= j < |e| ==> e[j].0 != k
  {
    if e == [] then None
    else if e[0].0 == k then Some(0)
    else match IndexOf(e[1..], k)
      case None => None
      case Some(i) => Some(i + 1)
  }

  /** `k in d` */
  predicate HasKey<K(==,!new), V>(e: seq<(K, V)>, k: K)
  {
    IndexOf(e, k).Some?
  }

  /** `d.get(k)` */
  function Get<K(==,!new), V>(e: seq<(K, V)>, k: K): Option<V>
  {
    match IndexOf(e, k)
    case None => None
    case Some(i) => Some(e[i].1)
  }

  lemma {:induction false} IndexOfAppend<K(!new), V>(e: seq<(K, V)>, x: (K, V), k: K)
    requires x.0 != k
    ensures IndexOf(e + [x], k) == IndexOf(e, k)
  {
    if e != [] {
      assert (e + [x])[1..] == e[1..] + [x];
      IndexOfAppend(e[1..], x, k);
    }
  }

  lemma {:induction false} IndexOfSameKeys<K(!new), V>(a: seq<(K, V)>, b: seq<(K, V)>, k: K)
    requires |a| == |b| && forall j :: 0 <= j < |a| ==> a[j].0 == b[j].0
    ensures IndexOf(a, k) == IndexOf(b, k)
  {
    if a != [] {
      IndexOfSameKeys(a[1..], b[1..], k);
    }
  }

  /** `d[k] = v` */
  function Put<K(==,!new), V>(e: seq<(K, V)>, k: K, v: V): (r: seq<(K, V)>)
    ensures |r| == if HasKey(e, k) then |e| else |e| + 1
    ensures HasKey(e, k) || r == e + [(k, v)]
    ensures HasKey(r, k) && Get(r, k) == Some(v)
  {
    match IndexOf(e, k)
    case None =>
      var r := e + [(k, v)];
      assert r[|e|].0 == k;
      assert IndexOf(r, k) == Some(|e|);
      r
    case Some(i) =>
      var r := e[i := (k, v)];
      IndexOfSameKeys(r, e, k);
      r
  }

  /** `d[k] = v` keeps every key where it was, and adds none that is already there. */
  lemma PutKeys<K(!new), V>(e: seq<(K, V)>, k: K, v: V)
    ensures forall i :: 0 <= i < |e| ==> Put(e, k, v)[i].0 == e[i].0
    ensures DistinctKeys(e) ==> DistinctKeys(Put(e, k, v))
  {
    var r := Put(e, k, v);
    match IndexOf(e, k)
    case None =>
      assert r == e + [(k, v)];
      if DistinctKeys(e) {
        SnocDistinct(e, (k, v));
      }
    case Some(i) =>
  }

  /** Appending an entry under a new key keeps the keys distinct. */
  lemma SnocDistinct<K(!new), V>(e: seq<(K, V)>, x: (K, V))
    requires DistinctKeys(e) && !HasKey(e, x.0)
    ensures DistinctKeys(e + [x])
  {
    var r := e + [x];
    forall i, j | 0 <= i < j < |r| ensures r[i].0 != r[j].0 {
      if j < |e| { assert r[i] == e[i] && r[j] == e[j]; }
      else { assert r[i] == e[i]; }
    }
  }

  /** After `d[k] = v`, `k` maps to `v` and every other key is looked up as before. */
  lemma PutLookup<K(!new), V>(e: seq<(K, V)>, k: K, v: V)
    ensures forall k' :: HasKey(Put(e, k, v), k') <==> k' == k || HasKey(e, k')
    ensures forall k' :: Get(Put(e, k, v), k') == if k' == k then Some(v) else Get(e, k')
  {
    var r := Put(e, k, v);
    match IndexOf(e, k)
    case None =>
      forall k' | k' != k ensures IndexOf(r, k') == IndexOf(e, k') {
        IndexOfAppend(e, (k, v), k');
      }
    case Some(i) =>
      forall k' ensures IndexOf(r, k') == IndexOf(e, k') {
        IndexOfSameKeys(r, e, k');
      }
  }

  /** The dict left by performing the assignments `d[k] = v` of `writes` in order, starting from `{}`. */
  function PutAll<K(==,!new), V>(writes: seq<(K, V)>): (r: seq<(K, V)>)
    ensures |r| <= |writes|
  {
    if writes == [] then [] else
      var n := |writes| - 1;
      Put(PutAll(writes[..n]), writes[n].0, writes[n].1)
  }

  /** A dict holds each key once. */
  lemma {:induction false} PutAllDistinct<K(!new), V>(writes: seq<(K, V)>)
    ensures DistinctKeys(PutAll(writes))
  {
    if writes != [] {
      var n := |writes| - 1;
      PutAllDistinct(writes[..n]);
      PutKeys(PutAll(writes[..n]), writes[n].0, writes[n].1);
    }
  }

  lemma PutAllSnoc<K(!new), V>(writes: seq<(K, V)>, k: K, v: V)
    ensures PutAll(writes + [(k, v)]) == Put(PutAll(writes), k, v)
  {
    assert (writes + [(k, v)])[..|writes|] == writes;
  }

  /** One more write: the dict gets the assignment, and it counts as a repeat when the key was there. */
  lemma PutAllStep<K(!new), V>(writes: seq<(K, V)>, k: K, v: V)
    ensures PutAll(writes + [(k, v)]) == Put(PutAll(writes), k, v)
    ensures Repeats(writes + [(k, v)]) == Repeats(writes) + if HasKey(PutAll(writes), k) then 1 else 0
  {
    PutAllSnoc(writes, k, v);
    PutAllHasKey(writes, k);
    assert (writes + [(k, v)])[..|writes|] == writes;
  }

  /** The value of the last write to `k`, found by scanning the writes backwards. */
  function LastValue<K(==,!new), V>(writes: seq<(K, V)>, k: K): Option<V>
  {
    if writes == [] then None
    else if writes[|writes| - 1].0 == k then Some(writes[|writes| - 1].1)
    else LastValue(writes[..|writes| - 1], k)
  }

  lemma LastValueSnoc<K(!new), V>(writes: seq<(K, V)>, x: (K, V), k: K)
    ensures LastValue(writes + [x], k) == if x.0 == k then Some(x.1) else LastValue(writes, k)
  {
    assert (writes + [x])[..|writes|] == writes;
  }

  lemma {:induction false} LastValueNone<K(!new), V>(writes: seq<(K, V)>, k: K)
    requires !HasKey(writes, k)
    ensures LastValue(writes, k).None?
  {
    if writes != [] {
      var n := |writes| - 1;
      assert forall j :: 0 <= j < n ==> writes[..n][j] == writes[j];
      LastValueNone(writes[..n], k);
    }
  }

  /** How many writes land on a key that an earlier write already created. */
  function Repeats<K(==,!new), V>(writes: seq<(K, V)>): nat
  {
    if writes == [] then 0 else
      var n := |writes| - 1;
      Repeats(writes[..n]) + (if HasKey(writes[..n], writes[n].0) then 1 else 0)
  }

  /** A key is in the final dict exactly when some write used it. */
  lemma {:induction false} PutAllHasKey<K(!new), V>(writes: seq<(K, V)>, k: K)
    ensures HasKey(PutAll(writes), k) <==> HasKey(writes, k)
  {
    if writes != [] {
      var n := |writes| - 1;
      PutAllHasKey(writes[..n], k);
      PutLookup(PutAll(writes[..n]), writes[n].0, writes[n].1);
      assert writes == writes[..n] + [writes[n]];
      HasKeySnoc(writes[..n], writes[n], k);
    }
  }

  lemma HasKeySnoc<K(!new), V>(e: seq<(K, V)>, x: (K, V), k: K)
    ensures HasKey(e + [x], k) <==> x.0 == k || HasKey(e, k)
  {
    if x.0 == k {
      assert (e + [x])[|e|].0 == k;
    } else {
      IndexOfAppend(e, x, k);
    }
  }

  /** Later writes win: the final value of a key is the value of its last write. */
  lemma {:induction false} PutAllGet<K(!new), V>(writes: seq<(K, V)>, k: K)
    ensures Get(PutAll(writes), k) == LastValue(writes, k)
  {
    if writes != [] {
      var n := |writes| - 1;
      PutAllGet(writes[..n], k);
      PutLookup(PutAll(writes[..n]), writes[n].0, writes[n].1);
    }
  }

  /** Every write either adds a key or lands on an existing one. */
  lemma {:induction false} PutAllSize<K(!new), V>(writes: seq<(K, V)>)
    ensures |PutAll(writes)| + Repeats(writes) == |writes|
  {
    if writes != [] {
      var n := |writes| - 1;
      PutAllSize(writes[..n]);
      PutAllHasKey(writes[..n], writes[n].0);
    }
  }

  /** Writing distinct keys in order rebuilds the same dict. */
  lemma {:induction false} PutAllOfDistinct<K(!new), V>(writes: seq<(K, V)>)
    requires DistinctKeys(writes)
    ensures PutAll(writes) == writes
  {
    if writes != [] {
      var n := |writes| - 1;
      PutAllOfDistinct(writes[..n]);
      assert writes[..n] + [writes[n]] == writes;
    }
  }

  lemma GetOfDistinct<K(!new), V>(e: seq<(K, V)>, k: K, v: V)
    requires DistinctKeys(e)
    ensures Get(e, k) == Some(v) <==> (k, v) in e
  {
    if (k, v) in e {
      var i :| 0 <= i < |e| && e[i] == (k, v);
      assert IndexOf(e, k) == Some(i);
    }
  }

  // -------------------------------------------------------------- sorting

  predicate SortedByKey<V>(e: seq<(string, V)>)
  {
    forall i, j :: 0 <= i < j < |e| ==> LexLe(e[i].0, e[j].0)
  }

  function InsertByKey<V>(x: (string, V), e: seq<(string, V)>): (r: seq<(string, V)>)
    requires SortedByKey(e)
    ensures |r| == |e| + 1 && multiset(r) == multiset(e) + multiset{x}
    ensures SortedByKey(r)
  {
    if e == [] then [x]
    else if LexLe(x.0, e[0].0) then
      InsertFront(x, e);
      [x] + e
    else
      var t := InsertByKey(x, e[1..]);
      InsertBehind(x, e, t);
      [e[0]] + t
  }

  /** An entry whose key is at most every key of a sorted list can go in front of it. */
  lemma SortedCons<V>(a: (string, V), t: seq<(string, V)>)
    requires SortedByKey(t) && forall j :: 0 <= j < |t| ==> LexLe(a.0, t[j].0)
    ensures SortedByKey([a] + t)
  {
    var r := [a] + t;
    forall i, j | 0 <= i < j < |r| ensures LexLe(r[i].0, r[j].0) {
      assert r[j] == t[j - 1];
      if i > 0 { assert r[i] == t[i - 1]; }
    }
  }

  lemma InsertFront<V>(x: (string, V), e: seq<(string, V)>)
    requires SortedByKey(e) && e != [] && LexLe(x.0, e[0].0)
    ensures SortedByKey([x] + e)
  {
    forall j | 0 <= j < |e| ensures LexLe(x.0, e[j].0) {
      if j > 0 { LexLeTransitive(x.0, e[0].0, e[j].0); }
    }
    SortedCons(x, e);
  }

  lemma InsertBehind<V>(x: (string, V), e: seq<(string, V)>, t: seq<(string, V)>)
    requires SortedByKey(e) && e != [] && !LexLe(x.0, e[0].0)
    requires SortedByKey(t) && multiset(t) == multiset(e[1..]) + multiset{x}
    ensures SortedByKey([e[0]] + t) && multiset([e[0]] + t) == multiset(e) + multiset{x}
  {
    assert e == [e[0]] + e[1..];
    forall j | 0 <= j < |t| ensures LexLe(e[0].0, t[j].0) {
      assert t[j] in multiset(t);
      if t[j] == x {
        LexLeTotal(x.0, e[0].0);
      } else {
        assert t[j] in e[1..];
        var m :| 0 <= m < |e[1..]| && e[1..][m] == t[j];
        assert e[m + 1] == t[j];
      }
    }
    SortedCons(e[0], t);
  }

  /** `sorted(d.items(), key=lambda kv: kv[0])` */
  function SortByKey<V>(e: seq<(string, V)>): (r: seq<(string, V)>)
    ensures SortedByKey(r) && multiset(r) == multiset(e) && |r| == |e|
  {
    if e == [] then [] else
      var n := |e| - 1;
      assert e == e[..n] + [e[n]];
      InsertByKey(e[n], SortByKey(e[..n]))
  }

  /** A permutation of entries with distinct keys still has distinct keys. */
  lemma PermutationKeepsDistinct<V>(e: seq<(string, V)>, r: seq<(string, V)>)
    requires DistinctKeys(e) && multiset(r) == multiset(e)
    ensures DistinctKeys(r)
  {
    forall i, j | 0 <= i < j < |r| ensures r[i].0 != r[j].0 {
      assert r[i] in multiset(e) && r[j] in multiset(e);
      var a :| 0 <= a < |e| && e[a] == r[i];
      var b :| 0 <= b < |e| && e[b] == r[j];
      if r[i] == r[j] {
        TwiceCounted(r, i, j);
        OnceCounted(e, a);
      }
    }
  }

  lemma TwiceCounted<T>(s: seq<T>, i: nat, j: nat)
    requires i < j < |s| && s[i] == s[j]
    ensures multiset(s)[s[i]] >= 2
  {
    assert s == s[..j] + [s[j]] + s[j + 1..];
    assert s[i] in s[..j];
  }

  lemma OnceCounted<K(!new), V>(e: seq<(K, V)>, a: nat)
    requires DistinctKeys(e) && a < |e|
    ensures multiset(e)[e[a]] == 1
  {
    assert e == e[..a] + [e[a]] + e[a + 1..];
    assert forall m :: 0 <= m < a ==> e[..a][m].0 != e[a].0;
    var tail := e[a + 1..];
    assert forall m :: 0 <= m < |tail| ==> tail[m].0 != e[a].0 by {
      forall m | 0 <= m < |tail| ensures tail[m].0 != e[a].0 { assert tail[m] == e[a + 1 + m]; }
    }
  }

  /** Sorting a dict's entries keeps its contents and leaves the keys strictly ascending. */
  lemma SortByKeyOfDict<V>(e: seq<(string, V)>)
    requires DistinctKeys(e)
    ensures |SortByKey(e)| == |e| && DistinctKeys(SortByKey(e)) && SortedByKey(SortByKey(e))
    ensures forall k :: Get(SortByKey(e), k) == Get(e, k)
  {
    var r := SortByKey(e);
    PermutationKeepsDistinct(e, r);
    forall k ensures Get(r, k) == Get(e, k) {
      match Get(e, k)
      case None =>
        if Get(r, k).Some? {
          var v := Get(r, k).value;
          GetOfDistinct(r, k, v);
          assert (k, v) in multiset(e);
          GetOfDistinct(e, k, v);
        }
      case Some(v) =>
        GetOfDistinct(e, k, v);
        assert (k, v) in multiset(r);
        GetOfDistinct(r, k, v);
    }
  }
}
