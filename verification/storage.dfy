/** The `shortcuts` entry of synced storage, which both pages read with
    `load` and write back with `save`. The browser's storage API itself is
    not part of this model: the store is an object holding the map. */
module Storage {
  import opened AliasMap

  class SyncStore {
    var shortcuts: seq<Shortcut>

    /** A stored JavaScript object has each key once. */
    ghost predicate Valid()
      reads this
    {
      DistinctAliases(shortcuts)
    }

    constructor (initial: seq<Shortcut>)
      requires DistinctAliases(initial)
      ensures Valid() && shortcuts == initial
    {
      shortcuts := initial;
    }

    /** `load()`: the stored map. */
    method Load() returns (m: seq<Shortcut>)
      ensures m == shortcuts
    {
      m := shortcuts;
    }

    /** `save(m)`: the stored map becomes `m`, itself a JavaScript object,
        so the store stays valid. */
    method Save(m: seq<Shortcut>)
      requires DistinctAliases(m)
      modifies this
      ensures Valid() && shortcuts == m
    {
      shortcuts := m;
    }
  }
}
