/**
 * `createSubState(subState)` (src/createSubState.ts): builds a new object
 * literal whose first property is the private marker symbol set to `true`,
 * then spreads the input's own enumerable properties into it.
 */
module SubStates {
  import opened Results
  import opened Props
  import opened Objects

  /** The value the marker is set to before the input is spread. */
  const MarkerValue: Value := Bool(true)

  /** An object that carries the marker with value `true`. */
  predicate CarriesMarker(o: Obj) {
    Get(o.symbols, SubStateMarker) == Some(MarkerValue)
  }

  /** The object literal `{ [marker]: true, ...o }`. */
  function Tag(o: Obj): (r: Obj)
    requires ObjWf(o)
    ensures ObjWf(r)
    ensures r.fields == o.fields
    ensures SubStateMarker in Keys(r.symbols)
    ensures r.symbols[0].0 == SubStateMarker
    ensures SubStateMarker !in Keys(o.symbols) ==> CarriesMarker(r)
    ensures SubStateMarker in Keys(o.symbols) ==> Get(r.symbols, SubStateMarker) == Get(o.symbols, SubStateMarker)
    ensures forall s :: s != SubStateMarker ==> Get(r.symbols, s) == Get(o.symbols, s)
  {
    var seed := [(SubStateMarker, MarkerValue)];
    assert Wf(seed);
    AssignDisjoint([], o.fields);
    assert [] + o.fields == o.fields;
    AssignWf(seed, o.symbols);
    forall s ensures Get(Assign(seed, o.symbols), s) == (if s in Keys(o.symbols) then Get(o.symbols, s) else Get(seed, s)) {
      AssignGet(seed, o.symbols, s);
    }
    Obj(Assign([], o.fields), Assign(seed, o.symbols))
  }

  /**
   * `createSubState(subState)`: allocates the tagged copy as a fresh object
   * and returns a reference to it; no object already in the heap changes.
   */
  function CreateSubState(heap: Heap, subState: Value): (r: (Heap, Value))
    requires IsObject(heap, subState) && ObjWf(heap[subState.addr])
    ensures !IsObject(heap, r.1) && IsObject(r.0, r.1)
    ensures |r.0| == |heap| + 1 && r.0[..|heap|] == heap
    ensures r.0[r.1.addr] == Tag(heap[subState.addr])
  {
    (heap + [Tag(heap[subState.addr])], Ref(|heap|))
  }

  /**
   * The marker reads `true` on every tagged object unless the input already
   * held the private marker with another value, which code outside this
   * module cannot arrange without reflecting on a tagged object.
   */
  lemma TaggedMarkerIsTrue(o: Obj)
    requires ObjWf(o)
    requires SubStateMarker in Keys(o.symbols) ==> CarriesMarker(o)
    ensures CarriesMarker(Tag(o))
  {
  }

  /** Tagging an already tagged object changes nothing. */
  lemma TagIdempotent(o: Obj)
    requires ObjWf(o)
    ensures Tag(Tag(o)) == Tag(o)
  {
    var t := Tag(o).symbols;
    AssignLeadingKey(SubStateMarker, MarkerValue, t);
  }
}
