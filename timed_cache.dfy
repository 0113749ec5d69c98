/**
 * hutool `TimedCache<String, V>` as a plain map from key to value. Entry expiry and the
 * prune timer are not part of this model.
 */
module TimedCaches {
  import opened Wrappers

  class TimedCache<V> {
    var entries: map<string, V>

    constructor ()
      ensures entries == map[]
    {
      entries := map[];
    }

    /** `put(key, value)`: the entry for `key` is overwritten, the others are kept. */
    method Put(key: string, value: V)
      modifies this
      ensures entries == old(entries)[key := value]
    {
      entries := entries[key := value];
    }

    /** `get(key)`: the entry, or null. */
    function Get(key: string): Option<V>
      reads this
    {
      if key in entries then Some(entries[key]) else None
    }
  }
}
