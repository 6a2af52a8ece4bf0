/**
 * The `Store` class (src/Store.ts): an immutable holder of the state object
 * and of the optional selector map it was constructed with.
 */
module Stores {
  import opened Results
  import opened Objects

  /** A selector map: selector names to selector functions, in property order. */
  type SelectorMap<S> = seq<(string, S)>

  /**
   * Both fields are read-only and the class has no mutator, so a datatype
   * value is a faithful model. `selectors` is `None` when the constructor's
   * optional argument was omitted.
   */
  datatype Store<S> = Store(state: Value, selectors: Option<SelectorMap<S>>) {

    function GetState(): Value {
      state
    }

    function GetSelectors(): Option<SelectorMap<S>> {
      selectors
    }
  }

  /** `new Store(initialState, selectors)`: no validation, any state is accepted. */
  function NewStore<S>(initialState: Value, selectors: Option<SelectorMap<S>>): Store<S> {
    Store(initialState, selectors)
  }

  /** The getters return exactly what the constructor was given, absent selectors included. */
  lemma GettersReturnConstructorArguments<S>(initialState: Value, selectors: Option<SelectorMap<S>>)
    ensures NewStore(initialState, selectors).GetState() == initialState
    ensures NewStore(initialState, selectors).GetSelectors() == selectors
  {
  }
}
