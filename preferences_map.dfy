/**
 * `PreferencesMap` (source/Settings/preferencesMap.hpp): a map from preference names to
 * values of one of five kinds.  A lookup names the kind it wants by the default it passes,
 * and gets the default back when the name is missing or holds a value of another kind.
 */
module Preferences {
  import opened Blocks

  /** The `Entry` variant; `float` is taken as `real` and `QVector3D` as a `Point`. */
  datatype Entry =
    | BoolEntry(b: bool)
    | IntEntry(i: int)
    | FloatEntry(f: real)
    | StringEntry(s: string)
    | VectorEntry(v: Point)

  /** Whether two entries hold the same alternative of the variant. */
  predicate SameAlternative(a: Entry, b: Entry)
  {
    match a
    case BoolEntry(_) => b.BoolEntry?
    case IntEntry(_) => b.IntEntry?
    case FloatEntry(_) => b.FloatEntry?
    case StringEntry(_) => b.StringEntry?
    case VectorEntry(_) => b.VectorEntry?
  }

  class PreferencesMap {
    var entries: map<string, Entry>

    constructor()
      ensures entries == map[]
    {
      entries := map[];
    }

    /**
     * `Emplace` inserts only under a name that is not there yet: an existing entry, whatever
     * its kind, is kept.  Afterwards a lookup of a fresh name with a default of the inserted
     * kind returns the inserted value.
     */
    method Emplace(name: string, data: Entry)
      modifies this
      ensures name in old(entries) ==> entries == old(entries)
      ensures name !in old(entries) ==> entries == old(entries)[name := data]
      ensures name !in old(entries) ==>
        forall defaultValue :: SameAlternative(data, defaultValue) ==> GetValueOrDefault(name, defaultValue) == data
    {
      if name !in entries {
        entries := entries[name := data];
      }
    }

    /**
     * Both `GetValueOrDefault` overloads: the result always has the default's kind; it is the
     * stored value when the name is present with that kind, and the default otherwise.
     */
    function GetValueOrDefault(query: string, defaultValue: Entry): (r: Entry)
      reads this
      ensures SameAlternative(r, defaultValue)
      ensures query in entries && SameAlternative(entries[query], defaultValue) ==> r == entries[query]
      ensures query !in entries || !SameAlternative(entries[query], defaultValue) ==> r == defaultValue
    {
      if query !in entries then defaultValue
      else if SameAlternative(entries[query], defaultValue) then entries[query]
      else defaultValue
    }
  }
}
