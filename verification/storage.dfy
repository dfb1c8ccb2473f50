/**
 * PlatformStorage: a key-value store in which every value is written and read
 * whole. The browser's local storage becomes a map from key to value; a store
 * that is disabled or unavailable is `Unavailable`, on which every save
 * leaves the store as it was and every load yields the caller's default (the
 * fail-soft behaviour of the two try/catch blocks, which also log a message).
 */
module Storage {
  import opened Wrappers

  datatype Backend<V> = Available(entries: map<string, V>) | Unavailable

  /** What the store holds under `key`, if anything. */
  function Get<V>(b: Backend<V>, key: string): Option<V> {
    if b.Available? && key in b.entries then Some(b.entries[key]) else None
  }

  /** saveData: overwrite the value under `key`; fails soft on an unavailable store. */
  function Save<V>(b: Backend<V>, key: string, value: V): (b': Backend<V>)
    ensures b'.Available? <==> b.Available?
    ensures b.Available? ==> Get(b', key) == Some(value)
    ensures forall k :: k != key ==> Get(b', k) == Get(b, k)
    ensures b.Unavailable? ==> b' == b
  {
    match b
    case Available(m) => Available(m[key := value])
    case Unavailable => Unavailable
  }

  /** loadData: the stored value, or `default` when the key is missing or the store unavailable. */
  function Load<V>(b: Backend<V>, key: string, default: V): (v: V)
    ensures Get(b, key).Some? ==> v == Get(b, key).value
    ensures Get(b, key).None? ==> v == default
  {
    Get(b, key).GetOr(default)
  }

  /** Two stores agree on every key except `key`. */
  ghost predicate UnchangedExcept<V>(b: Backend<V>, b': Backend<V>, key: string) {
    forall k :: k != key ==> Get(b', k) == Get(b, k)
  }

  /** Round trip: after a save on an available store, a load of that key returns what was saved. */
  lemma LoadAfterSave<V>(b: Backend<V>, key: string, value: V, default: V)
    requires b.Available?
    ensures Load(Save(b, key, value), key, default) == value
  {
  }

  /** A save does not disturb what a load of any other key returns. */
  lemma LoadOtherKeyAfterSave<V>(b: Backend<V>, key: string, value: V, other: string, default: V)
    requires other != key
    ensures Load(Save(b, key, value), other, default) == Load(b, other, default)
  {
  }

  /** A key that was never set, or a store that is unavailable, loads as the default. */
  lemma LoadMissing<V>(b: Backend<V>, key: string, default: V)
    requires b.Unavailable? || key !in b.entries
    ensures Load(b, key, default) == default
  {
  }
}
