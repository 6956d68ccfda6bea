/** The memo table behind the annealer's cache: a map updated in place by a set-default operation. */
module Memo {

  class Table<K(==), V> {
    /** The key-to-value entries the table holds. */
    var entries: map<K, V>

    constructor ()
      ensures entries == map[]
    {
      entries := map[];
    }

    /** Whether a value is stored under `key`. */
    method Has(key: K) returns (present: bool)
      ensures present <==> key in entries
    {
      present := key in entries;
    }

    /** Returns the value stored under `key`; when there is none, calls `maker` once, stores its
        result under `key` and returns it. `made` reports whether `maker` was called. */
    method SetDefault(key: K, maker: () -> V) returns (value: V, made: bool)
      modifies this
      ensures made <==> key !in old(entries)
      ensures !made ==> value == old(entries)[key] && entries == old(entries)
      ensures made ==> value == maker() && entries == old(entries)[key := value]
    {
      if key in entries {
        return entries[key], false;
      }
      value := maker();
      entries := entries[key := value];
      made := true;
    }
  }

  /** A second set-default on the same key returns what the first one returned and does not call
      its maker, whatever that maker would produce. */
  method SetDefaultTwice<K(==), V>(table: Table<K, V>, key: K, first: () -> V, second: () -> V)
    returns (v1: V, v2: V, made2: bool)
    modifies table
    ensures v2 == v1 && !made2
    ensures key in table.entries && table.entries[key] == v1
    ensures table.entries.Keys == old(table.entries.Keys) + {key}
    ensures table.entries == old(table.entries)[key := v1]
  {
    var made1;
    v1, made1 := table.SetDefault(key, first);
    v2, made2 := table.SetDefault(key, second);
  }
}
