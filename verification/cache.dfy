/**
 * The namespaced view of the browser's key-value store used by
 * `cache_control` (source/ijwt.ts:69-86): every engine key is the entry
 * name behind the prefix `ijwt_`.  The store itself is a map from key to
 * string; a key that is absent is what `getItem` reports as `null`.
 */
module Cache {
  import opened Wrappers

  type Store = map<string, string>

  const Prefix: string := "ijwt_"

  /** The storage key of an entry: `ijwt_${name}`. */
  function Key(name: string): string
  {
    Prefix + name
  }

  /**
   * `get`: the stored string, or absent when the key is missing or holds
   * the empty string (`data ? data : undefined` treats "" as falsy).
   */
  function Get(store: Store, name: string): (r: Option<string>)
    ensures r.Some? ==> r.value != "" && Key(name) in store && store[Key(name)] == r.value
    ensures r.None? ==> Key(name) !in store || store[Key(name)] == ""
  {
    if Key(name) in store && store[Key(name)] != "" then Some(store[Key(name)]) else None
  }

  /** `set`: overwrite the entry's key with `data`. */
  function Set(store: Store, name: string, data: string): Store
  {
    store[Key(name) := data]
  }

  /** `delete`: remove the entry's key; a missing key is left as it is. */
  function Delete(store: Store, name: string): Store
  {
    store - {Key(name)}
  }

  /** `clear`: `localStorage.clear()` empties the whole store, not only the engine's keys. */
  function Clear(store: Store): Store
  {
    map[]
  }

  /** Distinct entry names never share a storage key. */
  lemma KeyInjective(a: string, b: string)
    ensures Key(a) == Key(b) ==> a == b
  {
    if Key(a) == Key(b) {
      assert a == Key(a)[|Prefix|..];
      assert b == Key(b)[|Prefix|..];
    }
  }

  /** A `get` after `set(name, data)` returns `data`, unless `data` is the empty string. */
  lemma GetAfterSet(store: Store, name: string, data: string)
    ensures Get(Set(store, name, data), name) == if data == "" then None else Some(data)
  {
  }

  /** Writing one entry leaves every other entry's `get` unchanged. */
  lemma GetAfterSetOther(store: Store, name: string, other: string, data: string)
    requires name != other
    ensures Get(Set(store, name, data), other) == Get(store, other)
  {
    KeyInjective(name, other);
  }

  /** A `get` after `delete(name)` is absent; other entries are untouched. */
  lemma GetAfterDelete(store: Store, name: string, other: string)
    ensures Get(Delete(store, name), name) == None
    ensures other != name ==> Get(Delete(store, name), other) == Get(store, other)
  {
    KeyInjective(name, other);
  }

  /** After `clear` nothing is stored at all, under any key, prefixed or not. */
  lemma ClearEmpties(store: Store, name: string, key: string)
    ensures key !in Clear(store)
    ensures Get(Clear(store), name) == None
  {
  }
}
