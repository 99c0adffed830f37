/** The two helpers that complete a keyword dictionary in place: `check_region_paths` and
    `fill_defaults`. A Python dict the caller keeps a reference to is a `Dict` object whose
    `entries` the methods update. */
module Dicts {
  import opened Outcomes

  /** A mutable dictionary. */
  class Dict<K(==), V> {
    var entries: map<K, V>

    constructor (entries: map<K, V>)
      ensures this.entries == entries
    {
      this.entries := entries;
    }
  }

  // ---------------------------------------------------------------- check_region_paths

  /** The region-path dictionary once every listed protein has an entry: entries already present
      keep their path, and each protein without one maps to `None`. */
  function Completed<P>(paths: map<string, Option<P>>, proteins: seq<string>): (done: map<string, Option<P>>)
    ensures done.Keys == paths.Keys + set p | p in proteins
    ensures forall p :: p in paths ==> done[p] == paths[p]
    ensures forall p :: p in done && p !in paths ==> done[p] == None
  {
    map p | p in paths.Keys + (set q | q in proteins) ::
      if p in paths then paths[p] else None
  }

  /** `check_region_paths`: adds a `None` entry for each listed protein the dictionary lacks and
      returns the same dictionary. */
  method CheckRegionPaths<P>(proteins: seq<string>, regionPaths: Dict<string, Option<P>>)
    returns (r: Dict<string, Option<P>>)
    modifies regionPaths
    ensures r == regionPaths
    ensures regionPaths.entries == Completed(old(regionPaths.entries), proteins)
  {
    ghost var original := regionPaths.entries;
    for i := 0 to |proteins|
      invariant regionPaths.entries == Completed(original, proteins[..i])
    {
      var protein := proteins[i];
      ghost var before, after := proteins[..i], proteins[..i + 1];
      assert after == before + [protein];
      assert (set q | q in after) == (set q | q in before) + {protein};
      if protein !in regionPaths.entries {
        regionPaths.entries := regionPaths.entries[protein := None];
      }
    }
    assert proteins[..|proteins|] == proteins;
    r := regionPaths;
  }

  /** Completing twice is completing once, and entries the caller gave are never overwritten. */
  lemma CompletedIdempotent<P>(paths: map<string, Option<P>>, proteins: seq<string>)
    ensures Completed(Completed(paths, proteins), proteins) == Completed(paths, proteins)
    ensures forall k :: 0 <= k < |proteins| ==> proteins[k] in Completed(paths, proteins)
  {
    var once := Completed(paths, proteins);
    assert Completed(once, proteins).Keys == once.Keys;
  }

  // ---------------------------------------------------------------- fill_defaults

  /** The keyword dictionary with each default the caller did not give filled in: the caller's
      entries win, and a key only the defaults have takes the default value. */
  function WithDefaults<K, V>(props: map<K, V>, defaults: map<K, V>): (filled: map<K, V>)
    ensures filled.Keys == props.Keys + defaults.Keys
    ensures forall k :: k in props ==> filled[k] == props[k]
    ensures forall k :: k in defaults && k !in props ==> filled[k] == defaults[k]
  {
    map k | k in props.Keys + defaults.Keys :: if k in props then props[k] else defaults[k]
  }

  /** Filling is idempotent, fills nothing when every default is given, and with no defaults
      leaves the caller's dictionary as it is. */
  lemma WithDefaultsLaws<K, V>(props: map<K, V>, defaults: map<K, V>)
    ensures WithDefaults(WithDefaults(props, defaults), defaults) == WithDefaults(props, defaults)
    ensures defaults.Keys <= props.Keys ==> WithDefaults(props, defaults) == props
    ensures WithDefaults(props, map[]) == props
  {
    var once := WithDefaults(props, defaults);
    assert WithDefaults(once, defaults).Keys == once.Keys;
    if defaults.Keys <= props.Keys {
      assert once.Keys == props.Keys;
    }
    assert WithDefaults(props, map[]).Keys == props.Keys;
  }

  /** `fill_defaults`: a missing (`None`) or empty keyword dictionary is answered with the
      defaults dictionary itself; otherwise each default the caller's dictionary lacks is added to
      it in place and that dictionary is returned. */
  method FillDefaults<K, V>(props: Dict?<K, V>, defaults: Dict<K, V>) returns (r: Dict<K, V>)
    modifies props
    ensures props == null || old(props.entries) == map[] ==>
      r == defaults && defaults.entries == old(defaults.entries)
    ensures props != null && old(props.entries) == map[] ==> props.entries == old(props.entries)
    ensures props != null && old(props.entries) != map[] ==>
      r == props && props.entries == WithDefaults(old(props.entries), old(defaults.entries))
  {
    if props == null || props.entries == map[] {
      return defaults;
    }
    ghost var original := props.entries;
    var fallback := defaults.entries;
    var remaining := fallback.Keys;
    while remaining != {}
      invariant remaining <= fallback.Keys
      invariant props.entries.Keys == original.Keys + (fallback.Keys - remaining)
      invariant forall k :: k in props.entries ==>
        props.entries[k] == if k in original then original[k] else fallback[k]
      decreases remaining
    {
      var prop :| prop in remaining;
      if prop !in props.entries {
        props.entries := props.entries[prop := fallback[prop]];
      }
      remaining := remaining - {prop};
    }
    r := props;
  }
}
