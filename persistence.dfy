/**
 * The search term that survives reloads: read once from storage when the
 * component is created, written back after every change but not on the
 * first run of the effect. Browser storage is a map from keys to strings.
 */
module Persistence {

  /** `localStorage.getItem(key) || initialState`: a missing or empty stored string falls back to the default. */
  function LoadOr(storage: map<string, string>, key: string, initialState: string): (r: string)
    // a stored non-empty string wins; anything else gives the default
    ensures key in storage && storage[key] != "" ==> r == storage[key]
    ensures key !in storage || storage[key] == "" ==> r == initialState
    // so with a non-empty default the loaded value is never empty
    ensures initialState != "" ==> r != ""
  {
    if key in storage && storage[key] != "" then storage[key] else initialState
  }

  /** What was last written under the key is what the next load finds, unless it was empty. */
  lemma ReloadAfterWrite(storage: map<string, string>, key: string, value: string, initialState: string)
    ensures LoadOr(storage[key := value], key, initialState) == if value == "" then initialState else value
  {
  }

  /** Writes under other keys do not change what this key loads. */
  lemma LoadIgnoresOtherKeys(storage: map<string, string>, key: string, other: string, v: string, initialState: string)
    requires other != key
    ensures LoadOr(storage[other := v], key, initialState) == LoadOr(storage, key, initialState)
  {
  }

  /** `useSemiPersistentState(key, initialState)`: the value, the `isMounted` flag and the storage it writes. */
  class SemiPersistentState {
    const key: string
    var value: string
    var isMounted: bool
    var storage: map<string, string>

    /** The first render: one read from storage, nothing written, not yet mounted. */
    constructor (key: string, initialState: string, storage: map<string, string>)
      ensures this.key == key
      ensures value == LoadOr(storage, key, initialState)
      ensures !isMounted
      ensures this.storage == storage
    {
      this.key := key;
      this.value := LoadOr(storage, key, initialState);
      this.isMounted := false;
      this.storage := storage;
    }

    /** `setValue`: changes the value only; storage is written by the next run of the effect. */
    method SetValue(v: string)
      modifies this
      ensures value == v
      ensures isMounted == old(isMounted) && storage == old(storage)
    {
      value := v;
    }

    /**
     * One run of the effect: the first run only marks the component mounted;
     * every later run writes the current value under the key. No other key is
     * touched either way.
     */
    method Effect()
      modifies this
      ensures isMounted && value == old(value)
      ensures !old(isMounted) ==> storage == old(storage)
      ensures old(isMounted) ==> storage == old(storage)[key := value]
      ensures forall k :: k != key ==> (k in storage <==> k in old(storage))
      ensures forall k :: k != key && k in storage ==> storage[k] == old(storage)[k]
    {
      if !isMounted {
        isMounted := !isMounted;
      } else {
        storage := storage[key := value];
      }
    }
  }

  /**
   * Mount, run the effect, change the value, run the effect again: storage is
   * untouched after the first run and holds the new value after the second.
   * Both runs are explicit here; React skips the second when `v` equals the
   * loaded value, and then nothing is written.
   */
  method MountThenChange(key: string, initialState: string, storage: map<string, string>, v: string)
    returns (afterMount: map<string, string>, afterChange: map<string, string>)
    ensures afterMount == storage
    ensures afterChange == storage[key := v]
    ensures LoadOr(afterChange, key, initialState) == if v == "" then initialState else v
  {
    var state := new SemiPersistentState(key, initialState, storage);
    state.Effect();
    afterMount := state.storage;
    state.SetValue(v);
    state.Effect();
    afterChange := state.storage;
    ReloadAfterWrite(storage, key, v, initialState);
  }
}
