/**
 * The pure parts of `getStateAndSelectors(store)` (src/getStateAndSelectors.ts):
 * the mirror seeded from the current snapshot, one computed entry per
 * selector key, and the subscriber that patches the mirror on every
 * emitted snapshot.
 *
 * Vue's `reactive` and `computed` are left out: the mirror is the plain
 * property list behind the proxy and a computed entry records which
 * selector it evaluates. The `Store` class in this version has no
 * observable cell, so the current snapshot and each emission are
 * parameters.
 */
module ReactiveProjection {
  import opened Results
  import opened Props
  import opened Objects
  import opened Stores

  /** A state object's own string-keyed properties. */
  type Fields = seq<(string, Value)>

  /** The mirror after one emission, and the keys written to it, in write order. */
  datatype PatchResult = PatchResult(mirror: Fields, written: seq<string>)

  /** At key `k`: written exactly when the snapshot's value differs from the mirror's, and then holding it. */
  ghost predicate PatchedAt(mirror: Fields, snapshot: Fields, r: PatchResult, k: string) {
    && (k in r.written <==> k in Keys(snapshot) && Read(snapshot, k) != Read(mirror, k))
    && (k in r.written ==> Get(r.mirror, k) == Some(Read(snapshot, k)))
    && (k !in r.written ==> Get(r.mirror, k) == Get(mirror, k))
  }

  /** The keys of `written` that `before` lacks, in write order. */
  function Added(written: seq<string>, before: seq<string>): seq<string> {
    if |written| == 0 then []
    else (if written[0] in before then [] else [written[0]]) + Added(written[1..], before)
  }

  /** The snapshot's keys, in the snapshot's order, whose value differs from the mirror's. */
  function Changed(mirror: Fields, snapshot: Fields): seq<string> {
    if |snapshot| == 0 then []
    else
      (if snapshot[0].1 != Read(mirror, snapshot[0].0) then [snapshot[0].0] else [])
      + Changed(mirror, snapshot[1..])
  }

  /**
   * `r` is what an emission of `snapshot` makes of `mirror`: every key as
   * `PatchedAt` says, the keys written once each and in the snapshot's
   * order, the existing keys kept in order and followed by the new ones in
   * write order, and nothing changed when nothing is written.
   */
  ghost predicate Patched(mirror: Fields, snapshot: Fields, r: PatchResult) {
    && (forall k :: PatchedAt(mirror, snapshot, r, k))
    && NoDup(r.written)
    && r.written == Changed(mirror, snapshot)
    && Keys(r.mirror) == Keys(mirror) + Added(r.written, Keys(mirror))
    && (r.written == [] ==> r.mirror == mirror)
  }

  /**
   * The subscriber's `next(newState)`: for each key of the snapshot, in
   * order, the mirror's property is written when `newState[key] !==
   * currentState[key]`, where a missing property reads as `undefined`.
   */
  function Patch(mirror: Fields, snapshot: Fields): (r: PatchResult)
    requires Wf(snapshot)
    ensures Patched(mirror, snapshot, r)
    decreases |snapshot|
  {
    if |snapshot| == 0 then PatchResult(mirror, [])
    else
      var (k, v) := snapshot[0];
      var changed := v != Read(mirror, k);
      var next := if changed then Set(mirror, k, v) else mirror;
      PatchTail(mirror, snapshot, next);
      var rest := Patch(next, snapshot[1..]);
      var r := PatchResult(rest.mirror, if changed then [k] + rest.written else rest.written);
      PatchStep(mirror, snapshot, next, rest, r);
      r
  }

  /** After an emission the mirror reads, at every key of the snapshot, what the snapshot holds. */
  lemma PatchSynchronises(mirror: Fields, snapshot: Fields, k: string)
    requires Wf(snapshot) && k in Keys(snapshot)
    ensures Read(Patch(mirror, snapshot).mirror, k) == Read(snapshot, k)
  {
    assert PatchedAt(mirror, snapshot, Patch(mirror, snapshot), k);
  }

  /** A key the snapshot lacks keeps its property, or its absence: nothing is deleted. */
  lemma PatchKeepsOtherKeys(mirror: Fields, snapshot: Fields, k: string)
    requires Wf(snapshot) && k !in Keys(snapshot)
    ensures Get(Patch(mirror, snapshot).mirror, k) == Get(mirror, k)
  {
    assert PatchedAt(mirror, snapshot, Patch(mirror, snapshot), k);
  }

  /**
   * The mirror's keys after an emission: the old ones, plus each snapshot key
   * whose value is not `undefined`. A snapshot key holding `undefined` that
   * the mirror lacks already reads as equal and is not added.
   */
  lemma PatchKeySet(mirror: Fields, snapshot: Fields, k: string)
    requires Wf(snapshot)
    ensures k in Keys(Patch(mirror, snapshot).mirror) <==>
      k in Keys(mirror) || (k in Keys(snapshot) && Read(snapshot, k) != Undefined)
  {
    assert PatchedAt(mirror, snapshot, Patch(mirror, snapshot), k);
  }

  /** Without `undefined` values in the snapshot, the keys after an emission are the union. */
  lemma PatchKeysUnion(mirror: Fields, snapshot: Fields, k: string)
    requires Wf(snapshot)
    requires forall i :: 0 <= i < |snapshot| ==> snapshot[i].1 != Undefined
    ensures k in Keys(Patch(mirror, snapshot).mirror) <==> k in Keys(mirror) || k in Keys(snapshot)
  {
    PatchKeySet(mirror, snapshot, k);
    if k in Keys(snapshot) {
      var i :| 0 <= i < |snapshot| && snapshot[i].0 == k;
      GetIndex(snapshot, i);
    }
  }

  /** An empty mirror and the snapshot `{ a: undefined }`: no property `a` appears. */
  lemma UndefinedKeyNotAdded()
    ensures Patch([], [("a", Undefined)]) == PatchResult([], [])
  {
    assert Wf([("a", Undefined)]);
  }

  /** An empty mirror receiving `{ a: 1, b: 2 }` gains `a` then `b`, in the snapshot's order. */
  lemma NewKeysInSnapshotOrder()
    ensures Patch([], [("a", Num(1)), ("b", Num(2))]) == PatchResult([("a", Num(1)), ("b", Num(2))], ["a", "b"])
  {
    var snapshot := [("a", Num(1)), ("b", Num(2))];
    assert Keys(snapshot) == ["a", "b"];
    TwoKeyPatch(snapshot, Patch([], snapshot));
  }

  lemma TwoKeyPatch(snapshot: Fields, r: PatchResult)
    requires snapshot == [("a", Num(1)), ("b", Num(2))]
    requires Patched([], snapshot, r)
    ensures r == PatchResult(snapshot, ["a", "b"])
  {
    TwoKeyReads(snapshot);
    assert r.written == ["a", "b"];
    assert Added(["a", "b"], []) == ["a", "b"];
    TwoKeyMirror(r.mirror, Read(snapshot, "a"), Read(snapshot, "b")) by {
      assert PatchedAt([], snapshot, r, "a") && PatchedAt([], snapshot, r, "b");
    }
  }

  lemma TwoKeyReads(snapshot: Fields)
    requires snapshot == [("a", Num(1)), ("b", Num(2))]
    ensures Read(snapshot, "a") == Num(1) && Read(snapshot, "b") == Num(2)
    ensures Changed([], snapshot) == ["a", "b"]
  {
    var tail := snapshot[1..];
    assert tail == [("b", Num(2))];
    assert "a" != "b" by { assert "a"[0] != "b"[0]; }
    assert Get(snapshot, "a") == Some(Num(1));
    assert Get(tail, "b") == Some(Num(2));
    assert Get(snapshot, "b") == Get(tail, "b");
    assert Read([], "a") == Undefined && Read([], "b") == Undefined;
    assert Changed([], tail[1..]) == [];
    assert Changed([], tail) == ["b"];
  }

  lemma TwoKeyMirror(m: Fields, x: Value, y: Value)
    requires Keys(m) == ["a", "b"] && Get(m, "a") == Some(x) && Get(m, "b") == Some(y)
    ensures m == [("a", x), ("b", y)]
  {
    assert m[1..][0].1 == Get(m[1..], "b").value;
  }

  /** Emitting the same snapshot twice writes nothing the second time. */
  lemma PatchIdempotent(mirror: Fields, snapshot: Fields)
    requires Wf(snapshot)
    ensures var once := Patch(mirror, snapshot).mirror;
      Patch(once, snapshot) == PatchResult(once, [])
  {
    var once := Patch(mirror, snapshot).mirror;
    var twice := Patch(once, snapshot);
    forall k ensures k !in twice.written {
      assert PatchedAt(once, snapshot, twice, k);
      if k in Keys(snapshot) {
        PatchSynchronises(mirror, snapshot, k);
      }
    }
    EmptyWithoutMembers(twice.written);
    assert Patched(once, snapshot, twice);
  }

  /** A mirror seeded from a snapshot is already in step with it. */
  lemma SeededMirrorInSync(snapshot: Fields)
    requires Wf(snapshot)
    ensures Patch(snapshot, snapshot) == PatchResult(snapshot, [])
  {
    var r := Patch(snapshot, snapshot);
    forall k ensures k !in r.written {
      assert PatchedAt(snapshot, snapshot, r, k);
    }
    EmptyWithoutMembers(r.written);
    assert Patched(snapshot, snapshot, r);
  }

  /** Writes to a mirror with distinct keys keep its keys distinct. */
  lemma {:induction false} PatchWf(mirror: Fields, snapshot: Fields)
    requires Wf(mirror) && Wf(snapshot)
    ensures Wf(Patch(mirror, snapshot).mirror)
    decreases |snapshot|
  {
    if |snapshot| > 0 {
      var (k, v) := snapshot[0];
      var next := if v != Read(mirror, k) then Set(mirror, k, v) else mirror;
      SetWf(mirror, k, v);
      WfTail(snapshot);
      PatchWf(next, snapshot[1..]);
    }
  }

  // ----- Selector entries and the projection -----

  /** `computed(() => selectors[key](reactiveState))`: the selector the entry evaluates. */
  datatype Computed<S> = Computed(selector: S)

  /** One computed entry per selector, in the selectors' order. */
  function Lift<S>(selectors: SelectorMap<S>): seq<(string, Computed<S>)> {
    seq(|selectors|, i requires 0 <= i < |selectors| => (selectors[i].0, Computed(selectors[i].1)))
  }

  /**
   * `reactiveSelectors`: starts as `{}` and, when the store has selectors,
   * receives `reactiveSelectors[key] = computed(...)` for each key in order.
   */
  function ComputedSelectors<S>(selectors: Option<SelectorMap<S>>): (r: seq<(string, Computed<S>)>)
    requires selectors.Some? ==> Wf(selectors.value)
    ensures selectors.None? ==> r == []
    ensures selectors.Some? ==> Keys(r) == Keys(selectors.value)
    ensures selectors.Some? ==> forall i :: 0 <= i < |r| ==> r[i].1 == Computed(selectors.value[i].1)
  {
    match selectors
    case None => []
    case Some(m) =>
      assert Keys(Lift(m)) == Keys(m);
      assert [] + Lift(m) == Lift(m);
      AssignDisjoint([], Lift(m));
      Assign([], Lift(m))
  }

  /** What `getStateAndSelectors` returns: the mirror and the computed selector entries. */
  datatype Projection<S> = Projection(state: Fields, selectors: seq<(string, Computed<S>)>)

  /** The computed entry expected at key `k`: one for each key the store has a selector for. */
  function ComputedAt<S>(selectors: Option<SelectorMap<S>>, k: string): Option<Computed<S>> {
    match selectors
    case None => None
    case Some(m) => if Get(m, k).Some? then Some(Computed(Get(m, k).value)) else None
  }

  /**
   * `getStateAndSelectors(store)`, with `current` the store's current
   * snapshot: the state starts as that snapshot, and each selector key, and
   * no other, has a computed entry evaluating the selector of that key.
   */
  function GetStateAndSelectors<S>(store: Store<S>, current: Fields): (r: Projection<S>)
    requires store.GetSelectors().Some? ==> Wf(store.GetSelectors().value)
    ensures r.state == current
    ensures forall k :: Get(r.selectors, k) == ComputedAt(store.GetSelectors(), k)
  {
    ComputedByKey(store.GetSelectors());
    Projection(current, ComputedSelectors(store.GetSelectors()))
  }

  /**
   * The subscriber run on an emitted snapshot: afterwards every key of the
   * snapshot reads as in the snapshot, every other key is as it was, and the
   * selector entries are untouched.
   */
  function Emit<S>(p: Projection<S>, snapshot: Fields): (r: Projection<S>)
    requires Wf(snapshot)
    ensures r.selectors == p.selectors
    ensures forall k :: k in Keys(snapshot) ==> Read(r.state, k) == Read(snapshot, k)
    ensures forall k :: k !in Keys(snapshot) ==> Get(r.state, k) == Get(p.state, k)
  {
    PatchReads(p.state, snapshot);
    p.(state := Patch(p.state, snapshot).mirror)
  }

  lemma PatchReads(mirror: Fields, snapshot: Fields)
    requires Wf(snapshot)
    ensures forall k :: k in Keys(snapshot) ==> Read(Patch(mirror, snapshot).mirror, k) == Read(snapshot, k)
    ensures forall k :: k !in Keys(snapshot) ==> Get(Patch(mirror, snapshot).mirror, k) == Get(mirror, k)
  {
    forall k | k in Keys(snapshot) ensures Read(Patch(mirror, snapshot).mirror, k) == Read(snapshot, k) {
      PatchSynchronises(mirror, snapshot, k);
    }
    forall k | k !in Keys(snapshot) ensures Get(Patch(mirror, snapshot).mirror, k) == Get(mirror, k) {
      PatchKeepsOtherKeys(mirror, snapshot, k);
    }
  }

  lemma ComputedByKey<S>(selectors: Option<SelectorMap<S>>)
    requires selectors.Some? ==> Wf(selectors.value)
    ensures forall k :: Get(ComputedSelectors(selectors), k) == ComputedAt(selectors, k)
  {
    if selectors.Some? {
      GetComputed(selectors.value, ComputedSelectors(selectors));
    }
  }

  /** Entries with the selectors' keys, each holding its selector computed, are read by key alike. */
  lemma {:induction false} GetComputed<S>(m: SelectorMap<S>, c: seq<(string, Computed<S>)>)
    requires Keys(c) == Keys(m)
    requires forall i :: 0 <= i < |c| ==> c[i].1 == Computed(m[i].1)
    ensures forall k :: Get(c, k) == ComputedAt(Some(m), k)
    decreases |m|
  {
    if |m| > 0 {
      assert Keys(c[1..]) == Keys(c)[1..] == Keys(m)[1..] == Keys(m[1..]);
      GetComputed(m[1..], c[1..]);
    }
  }

  /** A fresh projection that receives the snapshot it was seeded from stays as it is. */
  lemma ProjectionStartsInSync<S>(store: Store<S>, current: Fields)
    requires Wf(current)
    requires store.GetSelectors().Some? ==> Wf(store.GetSelectors().value)
    ensures Emit(GetStateAndSelectors(store, current), current) == GetStateAndSelectors(store, current)
  {
    SeededMirrorInSync(current);
  }

  /** The contract of `Patch` for a snapshot, from the contract of its recursive call. */
  lemma PatchStep(mirror: Fields, snapshot: Fields, next: Fields, rest: PatchResult, r: PatchResult)
    requires Wf(snapshot) && |snapshot| > 0
    requires var (k, v) := snapshot[0];
      && next == (if v != Read(mirror, k) then Set(mirror, k, v) else mirror)
      && r == PatchResult(rest.mirror, if v != Read(mirror, k) then [k] + rest.written else rest.written)
    requires Patched(next, snapshot[1..], rest)
    ensures Patched(mirror, snapshot, r)
  {
    var (k0, v0) := snapshot[0];
    PatchTail(mirror, snapshot, next);
    forall k ensures PatchedAt(mirror, snapshot, r, k) {
      PatchStepAt(mirror, snapshot, next, rest, r, k);
    }
    forall k | k in rest.written ensures k in Keys(snapshot[1..]) {
      assert PatchedAt(next, snapshot[1..], rest, k);
    }
    if v0 != Read(mirror, k0) {
      NoDupCons(k0, rest.written);
    }
    PatchKeyOrder(mirror, snapshot, next, rest, r);
    PatchWriteOrder(mirror, snapshot, next, rest, r);
  }

  /** The write order of `Patch` for a snapshot, from that of its recursive call. */
  lemma PatchWriteOrder(mirror: Fields, snapshot: Fields, next: Fields, rest: PatchResult, r: PatchResult)
    requires Wf(snapshot) && |snapshot| > 0
    requires var (k, v) := snapshot[0];
      && next == (if v != Read(mirror, k) then Set(mirror, k, v) else mirror)
      && r == PatchResult(rest.mirror, if v != Read(mirror, k) then [k] + rest.written else rest.written)
    requires rest.written == Changed(next, snapshot[1..])
    ensures r.written == Changed(mirror, snapshot)
  {
    SnapshotTail(snapshot);
    ChangedFrame(next, mirror, snapshot[1..]);
  }

  /** Mirrors that read alike at every key of the snapshot differ from it at the same keys. */
  lemma {:induction false} ChangedFrame(a: Fields, b: Fields, snapshot: Fields)
    requires forall k :: k in Keys(snapshot) ==> Read(a, k) == Read(b, k)
    ensures Changed(a, snapshot) == Changed(b, snapshot)
    decreases |snapshot|
  {
    if |snapshot| > 0 {
      assert Keys(snapshot) == [snapshot[0].0] + Keys(snapshot[1..]);
      ChangedFrame(a, b, snapshot[1..]);
    }
  }

  /** The key order of `Patch` for a snapshot, from that of its recursive call. */
  lemma PatchKeyOrder(mirror: Fields, snapshot: Fields, next: Fields, rest: PatchResult, r: PatchResult)
    requires Wf(snapshot) && |snapshot| > 0
    requires var (k, v) := snapshot[0];
      && next == (if v != Read(mirror, k) then Set(mirror, k, v) else mirror)
      && r == PatchResult(rest.mirror, if v != Read(mirror, k) then [k] + rest.written else rest.written)
    requires forall k :: k in rest.written ==> k in Keys(snapshot[1..])
    requires Keys(rest.mirror) == Keys(next) + Added(rest.written, Keys(next))
    ensures Keys(r.mirror) == Keys(mirror) + Added(r.written, Keys(mirror))
  {
    var (k0, v0) := snapshot[0];
    if v0 != Read(mirror, k0) {
      SnapshotTail(snapshot);
      SetKeys(mirror, k0, v0);
      AddedCons(Keys(mirror), k0, rest.written, Keys(next));
    }
  }

  /** Writing `k` first, then `written`, adds `k` (if new) ahead of the new keys of `written`. */
  lemma AddedCons(before: seq<string>, k: string, written: seq<string>, after: seq<string>)
    requires k !in written
    requires after == if k in before then before else before + [k]
    ensures after + Added(written, after) == before + Added([k] + written, before)
  {
    assert ([k] + written)[1..] == written;
    if k !in before {
      AddedSkip(written, before, k);
    }
  }

  /** A key that is never written does not change which written keys are new. */
  lemma {:induction false} AddedSkip(written: seq<string>, before: seq<string>, k: string)
    requires k !in written
    ensures Added(written, before + [k]) == Added(written, before)
    decreases |written|
  {
    if |written| > 0 {
      AddedSkip(written[1..], before, k);
    }
  }

  /** `PatchStep` for one key. */
  lemma PatchStepAt(mirror: Fields, snapshot: Fields, next: Fields, rest: PatchResult, r: PatchResult, k: string)
    requires Wf(snapshot) && |snapshot| > 0
    requires var (k, v) := snapshot[0];
      && next == (if v != Read(mirror, k) then Set(mirror, k, v) else mirror)
      && r == PatchResult(rest.mirror, if v != Read(mirror, k) then [k] + rest.written else rest.written)
    requires PatchedAt(next, snapshot[1..], rest, k)
    requires PatchedAt(next, snapshot[1..], rest, snapshot[0].0)
    ensures PatchedAt(mirror, snapshot, r, k)
  {
    PatchTail(mirror, snapshot, next);
    if k != snapshot[0].0 {
      assert Read(next, k) == Read(mirror, k);
    }
  }

  /** Facts the recursive case of `Patch` needs about the first snapshot key. */
  lemma PatchTail(mirror: Fields, snapshot: Fields, next: Fields)
    requires Wf(snapshot) && |snapshot| > 0
    requires next == if snapshot[0].1 != Read(mirror, snapshot[0].0) then Set(mirror, snapshot[0].0, snapshot[0].1) else mirror
    ensures Wf(snapshot[1..])
    ensures snapshot[0].0 !in Keys(snapshot[1..])
    ensures forall k :: k in Keys(snapshot) <==> k == snapshot[0].0 || k in Keys(snapshot[1..])
    ensures Read(snapshot, snapshot[0].0) == snapshot[0].1
    ensures forall k :: k != snapshot[0].0 ==> Read(snapshot[1..], k) == Read(snapshot, k)
    ensures Keys(mirror) <= Keys(next)
  {
    SnapshotTail(snapshot);
    ReadCons(snapshot);
    SetKeys(mirror, snapshot[0].0, snapshot[0].1);
  }

  lemma SnapshotTail(snapshot: Fields)
    requires Wf(snapshot) && |snapshot| > 0
    ensures Wf(snapshot[1..])
    ensures snapshot[0].0 !in Keys(snapshot[1..])
    ensures forall k :: k in Keys(snapshot) <==> k == snapshot[0].0 || k in Keys(snapshot[1..])
  {
    WfTail(snapshot);
    assert Keys(snapshot) == [snapshot[0].0] + Keys(snapshot[1..]);
  }

  lemma ReadCons(snapshot: Fields)
    requires |snapshot| > 0
    ensures Read(snapshot, snapshot[0].0) == snapshot[0].1
    ensures forall k :: k != snapshot[0].0 ==> Read(snapshot[1..], k) == Read(snapshot, k)
  {
  }
}
