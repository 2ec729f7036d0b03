/** A JavaScript object with string keys, as the ordered list of its own
    entries (`Object.entries`). Keys keep their insertion order, and writing
    an existing key (`{...o, [k]: v}`) changes its value in place. */
module Dict {
  import opened Wrappers

  type Entries<V> = seq<(string, V)>

  function Keys<V>(m: Entries<V>): (ks: seq<string>)
    ensures |ks| == |m|
    ensures forall i :: 0 <= i < |m| ==> ks[i] == m[i].0
  {
    if |m| == 0 then [] else [m[0].0] + Keys(m[1..])
  }

  predicate HasKey<V>(m: Entries<V>, k: string) {
    exists i :: 0 <= i < |m| && m[i].0 == k
  }

  /** Every key occurs once, as in any JavaScript object. */
  predicate DistinctKeys<V>(m: Entries<V>) {
    forall i, j :: 0 <= i < j < |m| ==> m[i].0 != m[j].0
  }

  /** `o[k]`, with `None` for a missing key. */
  function Get<V>(m: Entries<V>, k: string): (r: Option<V>)
    ensures r.None? <==> !HasKey(m, k)
    ensures r.Some? ==> exists i :: 0 <= i < |m| && m[i] == (k, r.value)
  {
    if |m| == 0 then None
    else if m[0].0 == k then Some(m[0].1)
    else
      var r := Get(m[1..], k);
      assert HasKey(m, k) <==> HasKey(m[1..], k) by {
        if HasKey(m, k) {
          var i :| 0 <= i < |m| && m[i].0 == k;
          assert m[1..][i - 1].0 == k;
        }
        if HasKey(m[1..], k) {
          var i :| 0 <= i < |m[1..]| && m[1..][i].0 == k;
          assert m[i + 1].0 == k;
        }
      }
      assert r.Some? ==> exists i :: 0 <= i < |m| && m[i] == (k, r.value) by {
        if r.Some? {
          var i :| 0 <= i < |m[1..]| && m[1..][i] == (k, r.value);
          assert m[i + 1] == (k, r.value);
        }
      }
      r
  }

  /** The entry at position `i` of an object with distinct keys is what `Get` finds. */
  lemma {:induction false} GetAt<V>(m: Entries<V>, i: nat)
    requires DistinctKeys(m)
    requires i < |m|
    ensures Get(m, m[i].0) == Some(m[i].1)
  {
    if i > 0 {
      assert m[0].0 != m[i].0;
      assert m[1..][i - 1] == m[i];
      GetAt(m[1..], i - 1);
    }
  }

  lemma HasKeyCons<V>(e: (string, V), m: Entries<V>, k: string)
    ensures HasKey([e] + m, k) <==> e.0 == k || HasKey(m, k)
  {
    if e.0 == k {
      assert ([e] + m)[0].0 == k;
    }
    if HasKey([e] + m, k) && e.0 != k {
      var i :| 0 <= i < |[e] + m| && ([e] + m)[i].0 == k;
      assert m[i - 1].0 == k;
    }
    if HasKey(m, k) {
      var i :| 0 <= i < |m| && m[i].0 == k;
      assert ([e] + m)[i + 1].0 == k;
    }
  }

  lemma GetCons<V>(e: (string, V), m: Entries<V>, k: string)
    ensures Get([e] + m, k) == if e.0 == k then Some(e.1) else Get(m, k)
  {
    assert ([e] + m)[1..] == m;
  }

  lemma DistinctCons<V>(e: (string, V), m: Entries<V>)
    ensures DistinctKeys([e] + m) <==> DistinctKeys(m) && !HasKey(m, e.0)
  {
    var c := [e] + m;
    assert forall i :: 0 <= i < |m| ==> c[i + 1] == m[i];
    if DistinctKeys(c) {
      assert DistinctKeys(m) by {
        forall i, j | 0 <= i < j < |m|
          ensures m[i].0 != m[j].0
        {
          assert c[i + 1].0 != c[j + 1].0;
        }
      }
      assert !HasKey(m, e.0) by {
        forall i | 0 <= i < |m|
          ensures m[i].0 != e.0
        {
          assert c[0].0 != c[i + 1].0;
        }
      }
    }
    if DistinctKeys(m) && !HasKey(m, e.0) {
      forall i, j | 0 <= i < j < |c|
        ensures c[i].0 != c[j].0
      {
        if i == 0 {
          assert c[j].0 == m[j - 1].0;
        } else {
          assert c[i].0 == m[i - 1].0 && c[j].0 == m[j - 1].0;
        }
      }
    }
  }

  /** `{...m, [k]: v}`. */
  function Put<V>(m: Entries<V>, k: string, v: V): (r: Entries<V>)
    ensures Get(r, k) == Some(v)
    ensures forall k' :: k' != k ==> Get(r, k') == Get(m, k')
  {
    if |m| == 0 then [(k, v)]
    else if m[0].0 == k then
      var r := [(k, v)] + m[1..];
      assert m == [m[0]] + m[1..];
      GetCons((k, v), m[1..], k);
      assert forall k' :: k' != k ==> Get(r, k') == Get(m, k') by {
        forall k' | k' != k
          ensures Get(r, k') == Get(m, k')
        {
          GetCons((k, v), m[1..], k');
          GetCons(m[0], m[1..], k');
        }
      }
      r
    else
      var rest := Put(m[1..], k, v);
      var r := [m[0]] + rest;
      assert m == [m[0]] + m[1..];
      GetCons(m[0], rest, k);
      assert forall k' :: k' != k ==> Get(r, k') == Get(m, k') by {
        forall k' | k' != k
          ensures Get(r, k') == Get(m, k')
        {
          GetCons(m[0], rest, k');
          GetCons(m[0], m[1..], k');
        }
      }
      r
  }

  /** Writing a key keeps the key order: an existing key stays where it is,
      a new one goes last. */
  lemma {:induction false} PutKeys<V>(m: Entries<V>, k: string, v: V)
    ensures HasKey(m, k) ==> Keys(Put(m, k, v)) == Keys(m)
    ensures !HasKey(m, k) ==> Keys(Put(m, k, v)) == Keys(m) + [k]
  {
    if |m| > 0 {
      assert m == [m[0]] + m[1..];
      HasKeyCons(m[0], m[1..], k);
      if m[0].0 != k {
        PutKeys(m[1..], k, v);
        assert Keys(Put(m, k, v)) == [m[0].0] + Keys(Put(m[1..], k, v));
      }
    }
  }

  lemma PutDistinct<V>(m: Entries<V>, k: string, v: V)
    requires DistinctKeys(m)
    ensures DistinctKeys(Put(m, k, v))
  {
    var r := Put(m, k, v);
    PutKeys(m, k, v);
    forall i, j | 0 <= i < j < |r|
      ensures r[i].0 != r[j].0
    {
      assert Keys(r)[i] == r[i].0 && Keys(r)[j] == r[j].0;
      if HasKey(m, k) {
        assert Keys(m)[i] == m[i].0 && Keys(m)[j] == m[j].0;
      } else if j < |m| {
        assert (Keys(m) + [k])[i] == m[i].0 && (Keys(m) + [k])[j] == m[j].0;
      } else {
        assert (Keys(m) + [k])[i] == m[i].0;
      }
    }
  }

  /** `{...m, ...n}`: the entries of `n` written onto `m` in order. */
  function PutAll<V>(m: Entries<V>, n: Entries<V>): (r: Entries<V>)
    ensures DistinctKeys(n) ==>
      forall k :: Get(r, k) == (if HasKey(n, k) then Get(n, k) else Get(m, k))
    ensures DistinctKeys(m) ==> DistinctKeys(r)
    decreases |n|
  {
    if |n| == 0 then m
    else
      var e := n[0];
      var r := PutAll(Put(m, e.0, e.1), n[1..]);
      assert DistinctKeys(m) ==> DistinctKeys(r) by {
        if DistinctKeys(m) { PutDistinct(m, e.0, e.1); }
      }
      assert n == [e] + n[1..];
      DistinctCons(e, n[1..]);
      assert DistinctKeys(n) ==>
        forall k :: Get(r, k) == (if HasKey(n, k) then Get(n, k) else Get(m, k)) by {
        if DistinctKeys(n) {
          forall k
            ensures Get(r, k) == (if HasKey(n, k) then Get(n, k) else Get(m, k))
          {
            HasKeyCons(e, n[1..], k);
            GetCons(e, n[1..], k);
          }
        }
      }
      r
  }

  /** `deepEqual(a, b)` on two objects whose values are compared with `==`:
      as many keys in each, and every key of `a` holds the same value in `b`. */
  function DeepEqual<V(==)>(a: Entries<V>, b: Entries<V>): (r: bool)
    ensures |a| != |b| ==> !r
    ensures a == b && DistinctKeys(a) ==> r
    ensures r ==> forall k :: Get(a, k).Some? ==> Get(b, k) == Get(a, k)
  {
    GetAtAll(a);
    |a| == |b| && forall i :: 0 <= i < |a| ==> Get(b, a[i].0) == Some(a[i].1)
  }

  /** With distinct keys, every entry is what `Get` finds for its key. */
  lemma GetAtAll<V>(a: Entries<V>)
    ensures DistinctKeys(a) ==> forall i :: 0 <= i < |a| ==> Get(a, a[i].0) == Some(a[i].1)
  {
    if DistinctKeys(a) {
      forall i | 0 <= i < |a|
        ensures Get(a, a[i].0) == Some(a[i].1)
      {
        GetAt(a, i);
      }
    }
  }

  lemma DeepEqualReflexive<V>(a: Entries<V>)
    requires DistinctKeys(a)
    ensures DeepEqual(a, a)
  {
    forall i | 0 <= i < |a|
      ensures Get(a, a[i].0) == Some(a[i].1)
    {
      GetAt(a, i);
    }
  }

  /** The values of `m` in entry order. */
  function Values<V>(m: Entries<V>): (vs: seq<V>)
    ensures |vs| == |m|
    ensures forall i :: 0 <= i < |m| ==> vs[i] == m[i].1
  {
    if |m| == 0 then [] else [m[0].1] + Values(m[1..])
  }
}
