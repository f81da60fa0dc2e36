/** The browser's key-value store as the scripts see it: either it throws on
    every access (disabled, quota, privacy mode) or it holds a map of entries. */
module Storage {
  import opened Values

  datatype Store<V> = Unavailable | Available(entries: map<string, V>)

  datatype StorageError = StorageUnavailable

  /** `getItem(key)`: the stored value, nothing, or an exception. */
  function Get<V>(s: Store<V>, key: string): Result<Option<V>, StorageError> {
    match s
    case Unavailable => Err(StorageUnavailable)
    case Available(m) => Ok(if key in m then Some(m[key]) else None)
  }

  /** `setItem(key, v)`: the updated store, or an exception. */
  function Put<V>(s: Store<V>, key: string, v: V): Result<Store<V>, StorageError> {
    match s
    case Unavailable => Err(StorageUnavailable)
    case Available(m) => Ok(Available(m[key := v]))
  }
}
