/**
 * The default export of src/combineSelectors.ts:
 * `_.mergeWith(maps[0], ...maps.slice(1), customizer)` whose customizer
 * throws `duplicate selector key: <k>` when the destination already holds `k`.
 *
 * lodash merges the sources left to right and each source key by key: it
 * calls the customizer with the destination's current value, and, as the
 * customizer returns `undefined`, then assigns the source value. The
 * destination is `maps[0]` itself, so on a throw it keeps the keys merged
 * before the clash.
 */
module SelectorCombiner {
  import opened Results
  import opened Props
  import opened Stores

  /** The throw: the colliding key and the destination map as the throw leaves it. */
  datatype MergeAbort<S> = DuplicateKey(key: string, destination: SelectorMap<S>)

  function Message<S>(e: MergeAbort<S>): string {
    "duplicate selector key: " + e.key
  }

  /**
   * Merges one source into the destination, key by key: the customizer
   * throws when the destination already has the key. For a destination with
   * distinct keys this meets the reference definition `Expected` on the
   * destination's properties followed by the source's.
   */
  function MergeSource<S>(dest: SelectorMap<S>, source: SelectorMap<S>): (r: Result<SelectorMap<S>, MergeAbort<S>>)
    requires Wf(dest)
    ensures r == Expected(dest + source)
    decreases |source|
  {
    if |source| == 0 then
      assert dest + source == dest;
      Success(dest)
    else
      var (k, selector) := source[0];
      if Get(dest, k).Some? then
        ClashAtHead(dest, source);
        Failure(DuplicateKey(k, dest))
      else
        SetWf(dest, k, selector);
        ShiftHead(dest, source);
        MergeSource(Set(dest, k, selector), source[1..])
  }

  /**
   * Merges the sources into the destination, left to right, stopping at the
   * first throw; this meets `Expected` on the destination's properties
   * followed by all the sources' properties in order.
   */
  function MergeSources<S>(dest: SelectorMap<S>, sources: seq<SelectorMap<S>>): (r: Result<SelectorMap<S>, MergeAbort<S>>)
    requires Wf(dest)
    ensures r == Expected(dest + Flatten(sources))
    decreases |sources|
  {
    if |sources| == 0 then
      assert dest + Flatten(sources) == dest;
      Success(dest)
    else
      FlattenCons(dest, sources);
      match MergeSource(dest, sources[0])
      case Failure(e) =>
        ExpectedExtends(dest + sources[0], Flatten(sources[1..]));
        Failure(e)
      case Success(d) =>
        ExpectedSuccess(dest + sources[0]);
        MergeSources(d, sources[1..])
  }

  /** Every map is a real object: its keys are distinct. */
  ghost predicate AllWf<S>(maps: seq<SelectorMap<S>>) {
    forall i :: 0 <= i < |maps| ==> Wf(maps[i])
  }

  /** All maps' properties, in scan order. */
  function Flatten<S>(maps: seq<SelectorMap<S>>): SelectorMap<S> {
    if |maps| == 0 then [] else maps[0] + Flatten(maps[1..])
  }

  /** Position `j` holds the first key that repeats an earlier one. */
  ghost predicate IsFirstRepeat<K>(ks: seq<K>, j: int) {
    0 <= j < |ks| && ks[j] in ks[..j] && NoDup(ks[..j])
  }

  /** The first position, at or after `i`, whose key repeats an earlier one. */
  function FirstRepeatFrom<K(==)>(ks: seq<K>, i: nat): (r: Option<nat>)
    requires i <= |ks| && NoDup(ks[..i])
    ensures r.None? <==> NoDup(ks)
    ensures r.Some? ==> IsFirstRepeat(ks, r.value) && i <= r.value
    decreases |ks| - i
  {
    if i == |ks| then
      assert ks[..i] == ks;
      None
    else if ks[i] in ks[..i] then
      Some(i)
    else
      assert ks[..i + 1] == ks[..i] + [ks[i]];
      FirstRepeatFrom(ks, i + 1)
  }

  function FirstRepeat<K(==)>(ks: seq<K>): (r: Option<nat>)
    ensures r.None? <==> NoDup(ks)
    ensures r.Some? ==> IsFirstRepeat(ks, r.value)
  {
    FirstRepeatFrom(ks, 0)
  }

  /**
   * The reference definition: the merge of all properties succeeds with all
   * of them exactly when no key repeats, and otherwise aborts on the first
   * repeated key with the properties before it.
   */
  function Expected<S>(flat: SelectorMap<S>): Result<SelectorMap<S>, MergeAbort<S>> {
    match FirstRepeat(Keys(flat))
    case None => Success(flat)
    case Some(j) => Failure(DuplicateKey(flat[j].0, flat[..j]))
  }

  /**
   * `combineSelectors(maps)`. With no maps, `_.mergeWith` receives
   * `undefined` as its destination and returns a fresh empty object.
   */
  function CombineSelectors<S>(maps: seq<SelectorMap<S>>): (r: Result<SelectorMap<S>, MergeAbort<S>>)
    requires AllWf(maps)
    ensures r == Expected(Flatten(maps))
  {
    if |maps| == 0 then
      Success([])
    else
      assert Flatten(maps) == maps[0] + Flatten(maps[1..]);
      MergeSources(maps[0], maps[1..])
  }

  /** Keys of distinct maps never collide. */
  ghost predicate PairwiseDisjoint<S>(maps: seq<SelectorMap<S>>) {
    forall i, j, k :: 0 <= i < j < |maps| && k in Keys(maps[i]) ==> k !in Keys(maps[j])
  }

  /** Combining succeeds exactly when no two maps share a key. */
  lemma CombineSucceedsIffDisjoint<S>(maps: seq<SelectorMap<S>>)
    requires AllWf(maps)
    ensures CombineSelectors(maps).Success? <==> PairwiseDisjoint(maps)
  {
    FlattenWfIff(maps);
  }

  /**
   * On success the result is the first map extended, in order, by the later
   * maps' properties: its keys are the union of all keys, and each key holds
   * the selector of the one map that defines it.
   */
  lemma CombinedSelectorsAreTheOriginals<S>(maps: seq<SelectorMap<S>>)
    requires AllWf(maps) && CombineSelectors(maps).Success?
    ensures var r := CombineSelectors(maps).value;
      && (|maps| > 0 ==> r[..|maps[0]|] == maps[0])
      && (forall k :: k in Keys(r) <==> exists i :: 0 <= i < |maps| && k in Keys(maps[i]))
      && (forall i, k :: 0 <= i < |maps| && k in Keys(maps[i]) ==> Get(r, k) == Get(maps[i], k))
  {
    var r := CombineSelectors(maps).value;
    if |maps| > 0 {
      assert Flatten(maps) == maps[0] + Flatten(maps[1..]);
    }
    forall k
      ensures k in Keys(r) <==> exists i :: 0 <= i < |maps| && k in Keys(maps[i])
    {
      InFlatten(maps, k);
    }
    forall i, k | 0 <= i < |maps| && k in Keys(maps[i])
      ensures Get(r, k) == Get(maps[i], k)
    {
      GetFlatten(maps, i, k);
    }
  }

  /**
   * On failure the error names the first key, scanning the maps left to
   * right and each map's keys in order, that an earlier key already took;
   * that key lies in a later map, and the destination holds exactly the
   * properties before it.
   */
  lemma FailureNamesFirstCollision<S>(maps: seq<SelectorMap<S>>)
    requires AllWf(maps)
    ensures CombineSelectors(maps).Failure? ==>
      var e := CombineSelectors(maps).error;
      var flat := Flatten(maps);
      && |maps| > 0
      && exists j :: IsFirstRepeat(Keys(flat), j) && |maps[0]| <= j && e == DuplicateKey(flat[j].0, flat[..j])
  {
    if CombineSelectors(maps).Failure? {
      var flat := Flatten(maps);
      var ks := Keys(flat);
      PrefixKeys(maps);
      FirstRepeatSkip(ks, 0, |maps[0]|);
      var j := FirstRepeat(ks).value;
      assert IsFirstRepeat(ks, j) && |maps[0]| <= j;
    }
  }


  lemma PrefixKeys<S>(maps: seq<SelectorMap<S>>)
    requires |maps| > 0 && Wf(maps[0])
    ensures |maps[0]| <= |Flatten(maps)| && NoDup(Keys(Flatten(maps))[..|maps[0]|])
  {
    KeysConcat(maps[0], Flatten(maps[1..]));
    assert Keys(Flatten(maps))[..|maps[0]|] == Keys(maps[0]);
  }

  /** A single map is returned as it is. */
  lemma SingleMapUnchanged<S>(m: SelectorMap<S>)
    requires Wf(m)
    ensures CombineSelectors([m]) == Success(m)
  {
  }

  /** The combining scenario: `{ selector1, selector2 }` with `{ selector3 }`. */
  lemma DisjointScenario<S>(s1: S, s2: S, s3: S)
    ensures var maps := [[("selector1", s1), ("selector2", s2)], [("selector3", s3)]];
      AllWf(maps) && CombineSelectors(maps) == Success([("selector1", s1), ("selector2", s2), ("selector3", s3)])
  {
    var maps := [[("selector1", s1), ("selector2", s2)], [("selector3", s3)]];
    var flat := [("selector1", s1), ("selector2", s2), ("selector3", s3)];
    assert Keys(maps[0]) == ["selector1", "selector2"];
    assert Keys(maps[1]) == ["selector3"];
    assert AllWf(maps);
    FlattenPair(maps[0], maps[1]);
    assert Flatten(maps) == flat;
    assert Keys(flat) == ["selector1", "selector2", "selector3"];
    assert NoDup(Keys(flat));
  }

  /** The overlapping scenario: the second map repeats `selector1`. */
  lemma OverlapScenario<S>(s1: S, s2: S, s3: S)
    ensures var maps := [[("selector1", s1), ("selector2", s2)], [("selector1", s3)]];
      && AllWf(maps)
      && CombineSelectors(maps) == Failure(DuplicateKey("selector1", maps[0]))
      && Message(CombineSelectors(maps).error) == "duplicate selector key: selector1"
  {
    var maps := [[("selector1", s1), ("selector2", s2)], [("selector1", s3)]];
    var flat := [("selector1", s1), ("selector2", s2), ("selector1", s3)];
    assert Keys(maps[0]) == ["selector1", "selector2"];
    assert Keys(maps[1]) == ["selector1"];
    assert AllWf(maps);
    FlattenPair(maps[0], maps[1]);
    assert Flatten(maps) == flat;
    var ks := Keys(flat);
    assert ks == ["selector1", "selector2", "selector1"];
    assert ks[..2] == ["selector1", "selector2"] && ks[2] in ks[..2];
    FirstRepeatUnique(ks, 2);
    assert flat[..2] == maps[0];
  }

  /** A key repeated between two later maps is rejected too, after the first of them merged. */
  lemma LaterMapsOverlapScenario<S>(s1: S, s2: S, s3: S)
    ensures var maps := [[("a", s1)], [("b", s2)], [("b", s3)]];
      AllWf(maps) && CombineSelectors(maps) == Failure(DuplicateKey("b", [("a", s1), ("b", s2)]))
  {
    var maps := [[("a", s1)], [("b", s2)], [("b", s3)]];
    var flat := [("a", s1), ("b", s2), ("b", s3)];
    assert Keys(maps[0]) == ["a"];
    assert Keys(maps[1]) == ["b"] && Keys(maps[2]) == ["b"];
    assert AllWf(maps);
    FlattenTriple(maps[0], maps[1], maps[2]);
    assert Flatten(maps) == flat;
    var ks := Keys(flat);
    assert ks == ["a", "b", "b"];
    assert ks[..2] == ["a", "b"] && ks[2] in ks[..2];
    FirstRepeatUnique(ks, 2);
    assert flat[..2] == [("a", s1), ("b", s2)];
  }

  lemma FlattenPair<S>(a: SelectorMap<S>, b: SelectorMap<S>)
    ensures Flatten([a, b]) == a + b
  {
    assert [a, b][1..] == [b];
    assert Flatten([b]) == b + Flatten([]);
  }

  lemma FlattenTriple<S>(a: SelectorMap<S>, b: SelectorMap<S>, c: SelectorMap<S>)
    ensures Flatten([a, b, c]) == a + b + c
  {
    assert [a, b, c][1..] == [b, c];
    FlattenPair(b, c);
  }

  // ----- Proofs that the key-by-key merge meets the reference definition -----

  /** Only one position can be the first repeat. */
  lemma FirstRepeatUnique<K>(ks: seq<K>, j: nat)
    requires IsFirstRepeat(ks, j)
    ensures FirstRepeat(ks) == Some(j)
  {
    FirstRepeatFromFinds(ks, 0, j);
  }

  lemma {:induction false} FirstRepeatFromFinds<K>(ks: seq<K>, i: nat, j: nat)
    requires i <= j && IsFirstRepeat(ks, j) && NoDup(ks[..i])
    ensures FirstRepeatFrom(ks, i) == Some(j)
    decreases j - i
  {
    if i < j {
      forall m | 0 <= m < i
        ensures ks[m] != ks[i]
      {
        assert ks[..j][m] == ks[m] && ks[..j][i] == ks[i];
      }
      assert ks[..i + 1] == ks[..j][..i + 1];
      FirstRepeatFromFinds(ks, i + 1, j);
    }
  }

  /** Appending properties cannot move an abort that already happened. */
  lemma ExpectedExtends<S>(a: SelectorMap<S>, b: SelectorMap<S>)
    requires Expected(a).Failure?
    ensures Expected(a + b) == Expected(a)
  {
    var j := FirstRepeat(Keys(a)).value;
    KeysConcat(a, b);
    assert Keys(a + b)[..j] == Keys(a)[..j];
    assert Keys(a + b)[j] == Keys(a)[j];
    FirstRepeatUnique(Keys(a + b), j);
    assert (a + b)[..j] == a[..j];
  }

  /** A source whose first key the destination holds aborts right there. */
  lemma ClashAtHead<S>(dest: SelectorMap<S>, source: SelectorMap<S>)
    requires Wf(dest) && |source| > 0 && source[0].0 in Keys(dest)
    ensures Expected(dest + source) == Failure(DuplicateKey(source[0].0, dest))
  {
    KeysConcat(dest, source);
    var ks := Keys(dest + source);
    assert ks[..|dest|] == Keys(dest);
    assert ks[|dest|] == source[0].0;
    FirstRepeatUnique(ks, |dest|);
    assert (dest + source)[..|dest|] == dest;
  }

  lemma FlattenCons<S>(dest: SelectorMap<S>, sources: seq<SelectorMap<S>>)
    requires |sources| > 0
    ensures dest + Flatten(sources) == (dest + sources[0]) + Flatten(sources[1..])
  {
  }

  /** A successful merge returns all properties, whose keys are then distinct. */
  lemma ExpectedSuccess<S>(flat: SelectorMap<S>)
    requires Expected(flat).Success?
    ensures Expected(flat) == Success(flat) && Wf(flat)
  {
  }

  /** Scanning past a duplicate-free prefix does not change the first repeat. */
  lemma {:induction false} FirstRepeatSkip<K>(ks: seq<K>, i: nat, n: nat)
    requires i <= n <= |ks| && NoDup(ks[..n])
    ensures FirstRepeatFrom(ks, i) == FirstRepeatFrom(ks, n)
    decreases n - i
  {
    if i < n {
      forall m | 0 <= m < i
        ensures ks[m] != ks[i]
      {
        assert ks[..n][m] == ks[m] && ks[..n][i] == ks[i];
      }
      assert ks[..i + 1] == ks[..n][..i + 1];
      assert ks[..i] == ks[..n][..i];
      FirstRepeatSkip(ks, i + 1, n);
    }
  }

  lemma {:induction false} InFlatten<S>(maps: seq<SelectorMap<S>>, k: string)
    ensures k in Keys(Flatten(maps)) <==> exists i :: 0 <= i < |maps| && k in Keys(maps[i])
    decreases |maps|
  {
    if |maps| > 0 {
      KeysConcat(maps[0], Flatten(maps[1..]));
      InFlatten(maps[1..], k);
      if k in Keys(Flatten(maps[1..])) {
        var i :| 0 <= i < |maps[1..]| && k in Keys(maps[1..][i]);
        assert maps[1..][i] == maps[i + 1];
      }
      forall i | 1 <= i < |maps| && k in Keys(maps[i])
        ensures k in Keys(Flatten(maps[1..]))
      {
        assert maps[1..][i - 1] == maps[i];
      }
    }
  }

  /** In a duplicate-free concatenation, a key of map `i` reads as in map `i`. */
  lemma {:induction false} GetFlatten<S>(maps: seq<SelectorMap<S>>, i: nat, k: string)
    requires Wf(Flatten(maps)) && i < |maps| && k in Keys(maps[i])
    ensures Get(Flatten(maps), k) == Get(maps[i], k)
    decreases |maps|
  {
    var rest := maps[1..];
    assert Flatten(maps) == maps[0] + Flatten(rest);
    GetConcat(maps[0], Flatten(rest), k);
    if i > 0 {
      assert rest[i - 1] == maps[i];
      FlattenSplitWf(maps);
      InFlatten(rest, k);
      GetFlatten(rest, i - 1, k);
    }
  }

  /** The keys of the first map and of the rest are apart when all keys are distinct. */
  lemma FlattenSplitWf<S>(maps: seq<SelectorMap<S>>)
    requires |maps| > 0 && Wf(Flatten(maps))
    ensures Wf(Flatten(maps[1..]))
    ensures forall k :: k in Keys(Flatten(maps[1..])) ==> k !in Keys(maps[0])
  {
    KeysConcat(maps[0], Flatten(maps[1..]));
    NoDupConcat(Keys(maps[0]), Keys(Flatten(maps[1..])));
  }

  /** All maps' keys together are distinct exactly when no two maps share a key. */
  lemma {:induction false} FlattenWfIff<S>(maps: seq<SelectorMap<S>>)
    requires AllWf(maps)
    ensures Wf(Flatten(maps)) <==> PairwiseDisjoint(maps)
    decreases |maps|
  {
    if |maps| > 0 {
      var rest := maps[1..];
      assert AllWf(rest);
      FlattenWfIff(rest);
      KeysConcat(maps[0], Flatten(rest));
      NoDupConcat(Keys(maps[0]), Keys(Flatten(rest)));
      forall k
        ensures k in Keys(Flatten(rest)) <==> exists j :: 1 <= j < |maps| && k in Keys(maps[j])
      {
        InFlatten(rest, k);
        if k in Keys(Flatten(rest)) {
          var j :| 0 <= j < |rest| && k in Keys(rest[j]);
          assert rest[j] == maps[j + 1];
        }
        forall j | 1 <= j < |maps| && k in Keys(maps[j])
          ensures exists j' :: 0 <= j' < |rest| && k in Keys(rest[j'])
        {
          assert rest[j - 1] == maps[j];
        }
      }
      if PairwiseDisjoint(maps) {
        forall i, j, k | 0 <= i < j < |rest| && k in Keys(rest[i])
          ensures k !in Keys(rest[j])
        {
          assert rest[i] == maps[i + 1] && rest[j] == maps[j + 1];
        }
      }
      if Wf(Flatten(maps)) {
        forall i, j, k | 0 <= i < j < |maps| && k in Keys(maps[i])
          ensures k !in Keys(maps[j])
        {
          if i > 0 {
            assert rest[i - 1] == maps[i] && rest[j - 1] == maps[j];
          }
        }
      }
    }
  }
}
