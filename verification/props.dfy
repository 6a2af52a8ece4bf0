/**
 * Own enumerable properties of a JavaScript object, of one key kind (string
 * keys or symbol keys), as an association list in property order.
 *
 * Reading a property returns the first pair with that key; writing an
 * existing property replaces its value in place and writing a new one
 * appends it, which is how JavaScript keeps insertion order. `Assign` is the
 * left-to-right copy that object spread performs.
 */
module Props {
  import opened Results

  function Keys<K, V>(p: seq<(K, V)>): (ks: seq<K>)
    ensures |ks| == |p|
    ensures forall i :: 0 <= i < |p| ==> ks[i] == p[i].0
  {
    if |p| == 0 then [] else [p[0].0] + Keys(p[1..])
  }

  /** No key occurs twice. */
  ghost predicate NoDup<K>(ks: seq<K>) {
    forall i, j :: 0 <= i < j < |ks| ==> ks[i] != ks[j]
  }

  /** A property list a real object can have: every key at most once. */
  ghost predicate Wf<K, V>(p: seq<(K, V)>) {
    NoDup(Keys(p))
  }

  /** Property read: the value of the first pair with key `k`, if any. */
  function Get<K(==), V>(p: seq<(K, V)>, k: K): (r: Option<V>)
    ensures r.Some? <==> k in Keys(p)
  {
    if |p| == 0 then None
    else if p[0].0 == k then Some(p[0].1)
    else Get(p[1..], k)
  }

  /** Property write `p[k] = v`: replaces in place, or appends a new key. */
  function Set<K(==,!new), V>(p: seq<(K, V)>, k: K, v: V): (r: seq<(K, V)>)
    ensures Get(r, k) == Some(v)
    ensures forall k' :: k' != k ==> Get(r, k') == Get(p, k')
    ensures k in Keys(p) ==> Keys(r) == Keys(p)
    ensures k !in Keys(p) ==> r == p + [(k, v)]
  {
    if |p| == 0 then [(k, v)]
    else if p[0].0 == k then
      ConsSplit(p);
      KeysConcat([p[0]], p[1..]);
      KeysConcat([(k, v)], p[1..]);
      [(k, v)] + p[1..]
    else
      var tail := Set(p[1..], k, v);
      ConsSplit(p);
      KeysConcat([p[0]], p[1..]);
      KeysConcat([p[0]], tail);
      ConsAppend(p, (k, v));
      [p[0]] + tail
  }

  /** Writing a property keeps the keys distinct and the first key in place. */
  lemma SetWf<K(!new), V>(p: seq<(K, V)>, k: K, v: V)
    ensures Wf(p) ==> Wf(Set(p, k, v))
    ensures |p| > 0 ==> |Set(p, k, v)| > 0 && Set(p, k, v)[0].0 == p[0].0
  {
    if k !in Keys(p) {
      KeysConcat(p, [(k, v)]);
      assert Keys([(k, v)]) == [k];
      NoDupConcat(Keys(p), [k]);
    }
    if |p| > 0 && p[0].0 != k {
      var tail := Set(p[1..], k, v);
      assert Set(p, k, v) == [p[0]] + tail;
    }
  }

  /** Copies every property of `source`, in order, onto `target`. */
  function Assign<K(==,!new), V>(target: seq<(K, V)>, source: seq<(K, V)>): (r: seq<(K, V)>)
    decreases |source|
  {
    if |source| == 0 then target
    else Assign(Set(target, source[0].0, source[0].1), source[1..])
  }

  /** After `Assign`, a key of the source reads as in the source, any other as in the target. */
  lemma {:induction false} AssignGet<K(!new), V>(target: seq<(K, V)>, source: seq<(K, V)>, k: K)
    requires Wf(source)
    ensures Get(Assign(target, source), k) == (if k in Keys(source) then Get(source, k) else Get(target, k))
    decreases |source|
  {
    if |source| > 0 {
      assert Keys(source) == [source[0].0] + Keys(source[1..]);
      AssignGet(Set(target, source[0].0, source[0].1), source[1..], k);
    }
  }

  /** `Assign` keeps the keys of the target distinct and its first key in place. */
  lemma {:induction false} AssignWf<K(!new), V>(target: seq<(K, V)>, source: seq<(K, V)>)
    ensures Wf(target) ==> Wf(Assign(target, source))
    ensures |target| > 0 ==> |Assign(target, source)| > 0 && Assign(target, source)[0].0 == target[0].0
    decreases |source|
  {
    if |source| > 0 {
      SetWf(target, source[0].0, source[0].1);
      AssignWf(Set(target, source[0].0, source[0].1), source[1..]);
    }
  }

  /** Copying properties no key of which is already present appends them in order. */
  lemma {:induction false} AssignDisjoint<K(!new), V>(target: seq<(K, V)>, source: seq<(K, V)>)
    requires Wf(target + source)
    ensures Assign(target, source) == target + source
    decreases |source|
  {
    if |source| > 0 {
      HeadNotInTarget(target, source);
      ShiftHead(target, source);
      AssignDisjoint(target + [source[0]], source[1..]);
    }
  }

  lemma HeadNotInTarget<K, V>(target: seq<(K, V)>, source: seq<(K, V)>)
    requires Wf(target + source) && |source| > 0
    ensures source[0].0 !in Keys(target)
  {
    var ks := Keys(target + source);
    assert ks[|target|] == source[0].0;
    forall i | 0 <= i < |target|
      ensures Keys(target)[i] != source[0].0
    {
      assert ks[i] == Keys(target)[i];
    }
  }

  /** Assigning onto a one-property object whose key leads the source yields the source. */
  lemma AssignLeadingKey<K(!new), V>(k: K, x: V, source: seq<(K, V)>)
    requires Wf(source) && |source| > 0 && source[0].0 == k
    ensures Assign([(k, x)], source) == source
  {
    AssignOverwriteHead(k, x, source);
    ConsSplit(source);
    AssignDisjoint([source[0]], source[1..]);
  }

  lemma AssignOverwriteHead<K(!new), V>(k: K, x: V, source: seq<(K, V)>)
    requires |source| > 0 && source[0].0 == k
    ensures Assign([(k, x)], source) == Assign([source[0]], source[1..])
  {
    assert Set([(k, x)], k, source[0].1) == [source[0]];
  }

  lemma ShiftHead<T>(a: seq<T>, b: seq<T>)
    requires |b| > 0
    ensures (a + [b[0]]) + b[1..] == a + b
  {
  }

  lemma ConsAppend<T>(s: seq<T>, x: T)
    requires |s| > 0
    ensures [s[0]] + (s[1..] + [x]) == s + [x]
  {
  }

  lemma ConsSplit<T>(s: seq<T>)
    requires |s| > 0
    ensures [s[0]] + s[1..] == s
  {
  }

  /** Reading a concatenation finds the first list's properties first. */
  lemma {:induction false} GetConcat<K, V>(a: seq<(K, V)>, b: seq<(K, V)>, k: K)
    ensures Get(a + b, k) == if k in Keys(a) then Get(a, k) else Get(b, k)
    decreases |a|
  {
    if |a| == 0 {
      assert a + b == b;
    } else {
      assert (a + b)[0] == a[0];
      assert (a + b)[1..] == a[1..] + b;
      assert Keys(a) == [a[0].0] + Keys(a[1..]);
      GetConcat(a[1..], b, k);
    }
  }

  lemma NoDupConcat<K>(a: seq<K>, b: seq<K>)
    ensures NoDup(a + b) <==> NoDup(a) && NoDup(b) && forall x :: x in a ==> x !in b
  {
    var c := a + b;
    if NoDup(c) {
      forall i, j | 0 <= i < j < |a| ensures a[i] != a[j] {
        assert c[i] == a[i] && c[j] == a[j];
      }
      forall i, j | 0 <= i < j < |b| ensures b[i] != b[j] {
        assert c[|a| + i] == b[i] && c[|a| + j] == b[j];
      }
      forall x | x in a ensures x !in b {
        var i :| 0 <= i < |a| && a[i] == x;
        forall j | 0 <= j < |b| ensures b[j] != x {
          assert c[i] == a[i] && c[|a| + j] == b[j];
        }
      }
    }
    if NoDup(a) && NoDup(b) && forall x :: x in a ==> x !in b {
      forall i, j | 0 <= i < j < |c| ensures c[i] != c[j] {
        if j < |a| {
          assert c[i] == a[i] && c[j] == a[j];
        } else if i >= |a| {
          assert c[i] == b[i - |a|] && c[j] == b[j - |a|];
        } else {
          assert c[i] == a[i] && c[j] == b[j - |a|];
          assert c[i] in a;
        }
      }
    }
  }

  /** Dropping the first property keeps the keys distinct, and its key does not recur. */
  lemma WfTail<K, V>(p: seq<(K, V)>)
    requires Wf(p) && |p| > 0
    ensures Wf(p[1..]) && p[0].0 !in Keys(p[1..])
  {
    var ks := Keys(p);
    assert Keys(p[1..]) == ks[1..];
    forall i | 0 <= i < |ks| - 1 ensures ks[1..][i] != p[0].0 {
      assert ks[1..][i] == ks[i + 1] && ks[0] == p[0].0;
    }
  }

  /** The keys after a write: unchanged for an existing key, the new key appended otherwise. */
  lemma SetKeys<K(!new), V>(p: seq<(K, V)>, k: K, v: V)
    ensures Keys(Set(p, k, v)) == if k in Keys(p) then Keys(p) else Keys(p) + [k]
  {
    if k !in Keys(p) {
      KeysConcat(p, [(k, v)]);
    }
  }

  lemma NoDupCons<K>(x: K, ks: seq<K>)
    requires NoDup(ks) && x !in ks
    ensures NoDup([x] + ks)
  {
    NoDupConcat([x], ks);
  }

  lemma EmptyWithoutMembers<K>(s: seq<K>)
    ensures s == [] <==> forall x :: x !in s
  {
    if |s| > 0 {
      assert s[0] in s;
    }
  }

  lemma KeysConcat<K, V>(a: seq<(K, V)>, b: seq<(K, V)>)
    ensures Keys(a + b) == Keys(a) + Keys(b)
  {
  }

  /** In a list with distinct keys, every pair is found by its key. */
  lemma GetIndex<K, V>(p: seq<(K, V)>, i: nat)
    requires Wf(p) && i < |p|
    ensures Get(p, p[i].0) == Some(p[i].1)
  {
    if i > 0 {
      assert Keys(p[1..]) == Keys(p)[1..];
      GetIndex(p[1..], i - 1);
    }
  }
}
