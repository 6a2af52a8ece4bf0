/**
 * JavaScript values as far as this library observes them: primitives,
 * `undefined`, `null`, and references to objects in a heap. Equality of two
 * `Value`s is JavaScript's strict equality `===` (objects compare by
 * reference).
 */
module Objects {
  import opened Results
  import opened Props

  /**
   * Symbol identities. `SubStateMarker` is the symbol created once, and kept
   * private, by the sub-state module; every other symbol is `OtherSymbol`.
   */
  datatype Sym = SubStateMarker | OtherSymbol(id: nat)

  datatype Value =
    | Undefined
    | Null
    | Bool(b: bool)
    | Num(n: int)
    | Str(s: string)
    | Ref(addr: nat)

  /** A plain object: its own enumerable string-keyed and symbol-keyed properties. */
  datatype Obj = Obj(fields: seq<(string, Value)>, symbols: seq<(Sym, Value)>)

  /** The objects allocated so far; an object's address is its index. */
  type Heap = seq<Obj>

  ghost predicate ObjWf(o: Obj) {
    Wf(o.fields) && Wf(o.symbols)
  }

  predicate IsObject(heap: Heap, v: Value) {
    v.Ref? && v.addr < |heap|
  }

  /** A reference, if `v` is one, points at an allocated object. */
  predicate Allocated(heap: Heap, v: Value) {
    v.Ref? ==> v.addr < |heap|
  }

  /** Property read `o[k]` on string-keyed properties: a missing key reads as `undefined`. */
  function Read(fields: seq<(string, Value)>, k: string): (v: Value)
    ensures k !in Keys(fields) ==> v == Undefined
  {
    match Get(fields, k)
    case Some(x) => x
    case None => Undefined
  }
}
