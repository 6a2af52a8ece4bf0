/**
 * `createStore(initialState, selectors)` (src/createStore.ts): every
 * top-level value of the initial state must carry at least one own symbol
 * key; the store is then built from the arguments unchanged.
 */
module StoreFactory {
  import opened Results
  import opened Props
  import opened Objects
  import opened SubStates
  import opened Stores

  const NotSubStateMessage: string :=
    "createStore: One of given subStates is not subState. You must call createSubState(subState)"

  datatype StoreError =
    /** The `Error` thrown with `NotSubStateMessage`. */
    | ConstructionError(message: string)
    /** The host's `TypeError` from `Object.getOwnPropertySymbols(undefined | null)`. */
    | HostTypeError

  /** Every top-level value refers to an allocated object. */
  ghost predicate EntriesAllocated(heap: Heap, entries: seq<(string, Value)>) {
    forall i :: 0 <= i < |entries| ==> Allocated(heap, entries[i].1)
  }

  /**
   * `Object.getOwnPropertySymbols(v)`: `None` where it throws. A primitive is
   * boxed first and a box has no own symbols.
   */
  function OwnSymbolKeys(heap: Heap, v: Value): (r: Option<seq<Sym>>)
    requires Allocated(heap, v)
    ensures r.None? <==> v == Undefined || v == Null
    ensures r.Some? ==> (|r.value| > 0 <==> HasOwnSymbol(heap, v))
  {
    match v
    case Undefined => None
    case Null => None
    case Ref(a) => Some(Keys(heap[a].symbols))
    case _ => Some([])
  }

  /** The value passes the check: an object with some own symbol key. */
  predicate HasOwnSymbol(heap: Heap, v: Value)
    requires Allocated(heap, v)
  {
    v.Ref? && |heap[v.addr].symbols| > 0
  }

  /** What the check throws for a value that does not pass it. */
  function RejectionOf(v: Value): StoreError {
    if v == Undefined || v == Null then HostTypeError else ConstructionError(NotSubStateMessage)
  }

  /** Entry `i` is the first whose value fails the check. */
  ghost predicate FirstRejected(heap: Heap, entries: seq<(string, Value)>, i: int)
    requires EntriesAllocated(heap, entries)
  {
    && 0 <= i < |entries|
    && !HasOwnSymbol(heap, entries[i].1)
    && forall j :: 0 <= j < i ==> HasOwnSymbol(heap, entries[j].1)
  }

  /**
   * The `forEach` over `Object.entries(initialState)`: `None` when every value
   * passes, otherwise the error of the first value that does not.
   */
  function CheckSubStates(heap: Heap, entries: seq<(string, Value)>): (r: Option<StoreError>)
    requires EntriesAllocated(heap, entries)
    ensures r.None? <==> forall i :: 0 <= i < |entries| ==> HasOwnSymbol(heap, entries[i].1)
    ensures r.Some? ==> exists i :: FirstRejected(heap, entries, i) && r.value == RejectionOf(entries[i].1)
  {
    if |entries| == 0 then None
    else
      match OwnSymbolKeys(heap, entries[0].1)
      case None => Some(HostTypeError)
      // A symbol is always truthy, so `symbols[0]` fails the test only when absent.
      case Some(symbols) =>
        if |symbols| == 0 then Some(ConstructionError(NotSubStateMessage))
        else
          var r := CheckSubStates(heap, entries[1..]);
          assert r.Some? ==> exists i :: FirstRejected(heap, entries, i) && r.value == RejectionOf(entries[i].1) by {
            if r.Some? {
              var i :| FirstRejected(heap, entries[1..], i) && r.value == RejectionOf(entries[1..][i].1);
              assert FirstRejected(heap, entries, i + 1);
            }
          }
          r
  }

  /** `createStore(initialState, selectors)`. */
  function CreateStore<S>(heap: Heap, initialState: Value, selectors: SelectorMap<S>): (r: Result<Store<S>, StoreError>)
    requires IsObject(heap, initialState)
    requires EntriesAllocated(heap, heap[initialState.addr].fields)
    ensures var entries := heap[initialState.addr].fields;
      r.Success? <==> forall i :: 0 <= i < |entries| ==> HasOwnSymbol(heap, entries[i].1)
    ensures r.Success? ==> r.value.GetState() == initialState && r.value.GetSelectors() == Some(selectors)
    ensures var entries := heap[initialState.addr].fields;
      r.Failure? ==> exists i :: FirstRejected(heap, entries, i) && r.error == RejectionOf(entries[i].1)
  {
    match CheckSubStates(heap, heap[initialState.addr].fields)
    case Some(e) => Failure(e)
    case None => Success(NewStore(initialState, Some(selectors)))
  }

  /** `v` refers to an object that `createSubState` produced from some object. */
  ghost predicate IsTaggedSubState(heap: Heap, v: Value) {
    IsObject(heap, v) && exists o :: ObjWf(o) && heap[v.addr] == Tag(o)
  }

  /** A state whose every value came out of `createSubState` is accepted. */
  lemma TaggedStateAccepted<S>(heap: Heap, initialState: Value, selectors: SelectorMap<S>)
    requires IsObject(heap, initialState)
    requires var entries := heap[initialState.addr].fields;
      forall i :: 0 <= i < |entries| ==> IsTaggedSubState(heap, entries[i].1)
    ensures CreateStore(heap, initialState, selectors) == Success(NewStore(initialState, Some(selectors)))
  {
    var entries := heap[initialState.addr].fields;
    forall i | 0 <= i < |entries|
      ensures HasOwnSymbol(heap, entries[i].1)
    {
      assert IsTaggedSubState(heap, entries[i].1);
      var o :| ObjWf(o) && heap[entries[i].1.addr] == Tag(o);
      assert SubStateMarker in Keys(Tag(o).symbols);
    }
  }

  /** The check asks only for some own symbol: an unrelated symbol passes too. */
  lemma ForeignSymbolAccepted<S>(selectors: SelectorMap<S>)
    ensures var heap := [Obj([("value", Num(0))], [(OtherSymbol(7), Bool(false))]), Obj([("s", Ref(0))], [])];
      CreateStore(heap, Ref(1), selectors).Success?
  {
    var heap := [Obj([("value", Num(0))], [(OtherSymbol(7), Bool(false))]), Obj([("s", Ref(0))], [])];
    assert HasOwnSymbol(heap, heap[1].fields[0].1);
  }

  /** A state with no top-level values is accepted. */
  lemma EmptyStateAccepted<S>(heap: Heap, initialState: Value, selectors: SelectorMap<S>)
    requires IsObject(heap, initialState) && heap[initialState.addr].fields == []
    ensures CreateStore(heap, initialState, selectors) == Success(NewStore(initialState, Some(selectors)))
  {
  }

  /**
   * When no top-level value is `undefined` or `null`, one failing value
   * anywhere is enough, and the error is the same whichever value it is.
   */
  lemma RejectionIndependentOfPosition<S>(heap: Heap, initialState: Value, selectors: SelectorMap<S>, k: nat)
    requires IsObject(heap, initialState)
    requires var entries := heap[initialState.addr].fields;
      && EntriesAllocated(heap, entries)
      && (forall i :: 0 <= i < |entries| ==> entries[i].1 != Undefined && entries[i].1 != Null)
      && k < |entries| && !HasOwnSymbol(heap, entries[k].1)
    ensures CreateStore(heap, initialState, selectors) == Failure(ConstructionError(NotSubStateMessage))
  {
  }

  /** The accepting scenario: `createStore({ subState1: createSubState({ value: 0 }) }, selectors)`. */
  lemma TaggedScenarioAccepted<S>(selectors: SelectorMap<S>)
    ensures var literal := Obj([("value", Num(0))], []);
      var (heap1, subState1) := CreateSubState([literal], Ref(0));
      var heap2 := heap1 + [Obj([("subState1", subState1)], [])];
      var r := CreateStore(heap2, Ref(2), selectors);
      && r == Success(NewStore(Ref(2), Some(selectors)))
      && heap2[heap2[2].fields[0].1.addr].fields == [("value", Num(0))]
      && CarriesMarker(heap2[heap2[2].fields[0].1.addr])
  {
    var literal := Obj([("value", Num(0))], []);
    assert ObjWf(literal);
    var (heap1, subState1) := CreateSubState([literal], Ref(0));
    var heap2 := heap1 + [Obj([("subState1", subState1)], [])];
    assert HasOwnSymbol(heap2, heap2[2].fields[0].1);
  }

  /** The rejecting scenario: `createStore({ subState1: { value: 0 } }, {})`. */
  lemma UntaggedScenarioRejected<S>()
    ensures var heap := [Obj([("value", Num(0))], []), Obj([("subState1", Ref(0))], [])];
      CreateStore<S>(heap, Ref(1), []) == Failure(ConstructionError(NotSubStateMessage))
  {
    var heap := [Obj([("value", Num(0))], []), Obj([("subState1", Ref(0))], [])];
    assert !HasOwnSymbol(heap, heap[1].fields[0].1);
  }
}
