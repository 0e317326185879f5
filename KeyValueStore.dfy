/**
 * The per-node key/value store: a map from integer keys to string values
 * with insert-if-absent, lookup and delete-if-present.
 */
module KeyValueStore {
  import opened JavaText

  /** The map after inserting key with value unless key is already present. */
  function Inserted(m: map<int, string>, key: int, value: string): (r: map<int, string>)
    ensures key in r && r[key] == (if key in m then m[key] else value)
    ensures forall k | k != key :: (k in r <==> k in m) && (k in m ==> r[k] == m[k])
  {
    if key in m then m else m[key := value]
  }

  /** The map without key. */
  function Deleted(m: map<int, string>, key: int): (r: map<int, string>)
    ensures key !in r
    ensures forall k | k != key :: (k in r <==> k in m) && (k in m ==> r[k] == m[k])
  {
    m - {key}
  }

  /** What lookup returns: the stored value, or None where Java returns null. */
  function Find(m: map<int, string>, key: int): (r: Option<string>)
    ensures r.Some? <==> key in m
    ensures r.Some? ==> r.value == m[key]
  {
    if key in m then Some(m[key]) else None
  }

  /** The store object shared by a node's server and console. */
  class Store {
    var entries: map<int, string>

    constructor ()
      ensures entries == map[]
    {
      entries := map[];
    }

    /** Stores the pair and returns 0 when key is absent; returns -1 and
        keeps the old value otherwise. */
    method Insert(key: int, value: string) returns (code: int)
      modifies this
      ensures code == (if key in old(entries) then -1 else 0)
      ensures entries == Inserted(old(entries), key, value)
    {
      if key !in entries {
        entries := entries[key := value];
        code := 0;
      } else {
        code := -1;
      }
    }

    /** The stored value, or None when key is absent. */
    method Lookup(key: int) returns (value: Option<string>)
      ensures value.Some? <==> key in entries
      ensures value.Some? ==> value.value == entries[key]
    {
      if key in entries {
        value := Some(entries[key]);
      } else {
        value := None;
      }
    }

    /** Removes key and returns 0 when it is present; returns -1 and
        changes nothing otherwise. */
    method Delete(key: int) returns (code: int)
      modifies this
      ensures code == (if key in old(entries) then 0 else -1)
      ensures entries == Deleted(old(entries), key)
    {
      if key in entries {
        entries := entries - {key};
        code := 0;
      } else {
        code := -1;
      }
    }
  }
}
