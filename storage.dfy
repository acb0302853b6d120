/** The `StorageLike` capability of the hook (`getItem`, `setItem`), modelled as a
    key-value map that returns what was last set under a key, the way the host's
    local storage does. */
module Storage {
  import opened Wrappers

  type Store = map<string, string>

  /** `getItem(key)`: the stored string, or `null` when nothing is stored under `key`. */
  function GetItem(store: Store, key: string): (r: Option<string>)
    ensures r.Some? <==> key in store
    ensures r.Some? ==> r.value == store[key]
  {
    if key in store then Some(store[key]) else None
  }

  /** `setItem(key, value)`: afterwards `key` reads back `value` and every other key
      reads back what it did before. */
  function SetItem(store: Store, key: string, value: string): (r: Store)
    ensures GetItem(r, key) == Some(value)
    ensures forall k :: k != key ==> GetItem(r, k) == GetItem(store, k)
  {
    store[key := value]
  }

  /** JavaScript truthiness of a `string | null`: `null` and `""` are falsy. */
  predicate Truthy(s: Option<string>)
  {
    s.Some? && s.value != ""
  }
}
