/** `useLocalStorage` in src/FormData.tsx: one value kept under one key of
    the browser's local storage, read once when the hook starts and written
    on every update. The text encoding (`JSON.stringify` / `JSON.parse`) is
    taken as an identity round trip, so an entry holds either a value or
    text that does not decode. */
module Persistence {

  /** A stored item: a decodable value, or text `JSON.parse` rejects (and the
      empty string, which `useLocalStorage` treats as no item). */
  datatype Entry<T> = Json(value: T) | Unreadable

  /** The local store. `available` is false when there is no `window` or the
      storage throws; reads then fall back and writes are dropped. */
  datatype Store<T> = Store(available: bool, entries: map<string, Entry<T>>)

  /** The hook's initial state: the stored value, or `initial` when storage
      is unavailable, the key is absent, or the item does not decode. */
  function Load<T>(store: Store<T>, key: string, initial: T): (r: T)
    ensures store.available && key in store.entries && store.entries[key].Json? ==>
      r == store.entries[key].value
    ensures r != initial ==> store.available && key in store.entries && store.entries[key] == Json(r)
  {
    if store.available && key in store.entries && store.entries[key].Json?
    then store.entries[key].value
    else initial
  }

  /** `setValue`: the item under `key` is overwritten; an unavailable store is
      left as it was (the failure is only logged). */
  function Save<T>(store: Store<T>, key: string, value: T): (r: Store<T>)
    ensures r.available == store.available
    ensures store.available ==> key in r.entries && r.entries[key] == Json(value)
    ensures !store.available ==> r == store
    ensures forall k :: k != key ==> (k in r.entries <==> k in store.entries)
    ensures forall k :: k != key && k in store.entries ==> r.entries[k] == store.entries[k]
  {
    if store.available then Store(true, store.entries[key := Json(value)]) else store
  }

  /** `localStorage.removeItem(key)`: the item is gone and nothing else changes. */
  function Remove<T>(store: Store<T>, key: string): (r: Store<T>)
    ensures key !in r.entries
    ensures r.available == store.available
    ensures forall k :: k != key ==> (k in r.entries <==> k in store.entries)
    ensures forall k :: k != key && k in store.entries ==> r.entries[k] == store.entries[k]
  {
    Store(store.available, store.entries - {key})
  }

  /** An absent or undecodable item loads as the initial value. */
  lemma LoadFallsBack<T>(store: Store<T>, key: string, initial: T)
    requires !store.available || key !in store.entries || store.entries[key] == Unreadable
    ensures Load(store, key, initial) == initial
  {
  }

  /** A value saved to an available store loads back unchanged. */
  lemma SaveThenLoad<T>(store: Store<T>, key: string, value: T, initial: T)
    requires store.available
    ensures Load(Save(store, key, value), key, initial) == value
  {
  }

  /** Saving under one key does not change what another key loads. */
  lemma SaveKeepsOtherKeys<T>(store: Store<T>, key: string, other: string, value: T, initial: T)
    requires other != key
    ensures Load(Save(store, key, value), other, initial) == Load(store, other, initial)
  {
  }

  /** After removal the key loads as the initial value, and removing again changes nothing. */
  lemma RemoveThenLoad<T>(store: Store<T>, key: string, initial: T)
    ensures Load(Remove(store, key), key, initial) == initial
    ensures Remove(Remove(store, key), key) == Remove(store, key)
  {
  }
}
