/** Lookups in maps whose keys are kept in string order. */
module SortedKeys {
  import opened Lex
  import opened Options

  /** The last stored string not after `key`, as a backwards range scan finds it. */
  method GreatestAtMost(keys: set<string>, key: string) returns (found: Option<string>)
    ensures found.None? ==> forall k :: k in keys ==> !AtMost(k, key)
    ensures found.Some? ==> found.value in keys && AtMost(found.value, key)
    ensures found.Some? ==> forall k :: k in keys && AtMost(k, key) ==> AtMost(k, found.value)
  {
    found := None;
    var rest := keys;
    while rest != {}
      invariant rest <= keys
      invariant found.None? ==> forall k :: k in keys - rest ==> !AtMost(k, key)
      invariant found.Some? ==> found.value in keys && AtMost(found.value, key)
      invariant found.Some? ==> forall k :: k in keys - rest && AtMost(k, key) ==> AtMost(k, found.value)
    {
      var candidate :| candidate in rest;
      rest := rest - {candidate};
      if AtMost(candidate, key) && (found.None? || AtMost(found.value, candidate)) {
        if found.Some? {
          forall k | k in keys - rest && AtMost(k, key)
            ensures AtMost(k, candidate)
          {
            if k != candidate {
              AtMostTransitive(k, found.value, candidate);
            }
          }
        }
        found := Some(candidate);
      } else if found.Some? {
        AtMostTotal(found.value, candidate);
      }
    }
  }

  method Least(keys: set<string>) returns (least: string)
    requires keys != {}
    ensures least in keys && forall k :: k in keys ==> AtMost(least, k)
  {
    least :| least in keys;
    var rest := keys - {least};
    while rest != {}
      invariant rest <= keys && least in keys
      invariant forall k :: k in keys - rest ==> AtMost(least, k)
    {
      var candidate :| candidate in rest;
      rest := rest - {candidate};
      AtMostTotal(least, candidate);
      if AtMost(candidate, least) {
        forall k | k in keys - rest
          ensures AtMost(candidate, k)
        {
          if k != candidate {
            AtMostTransitive(candidate, least, k);
          }
        }
        least := candidate;
      }
    }
  }

  ghost predicate Ascending(keys: seq<string>) {
    forall i, j :: 0 <= i < j < |keys| ==> Less(keys[i], keys[j])
  }

  /** A walk over the keys, as a sorted map yields them. */
  method Ordered(keys: set<string>) returns (ordered: seq<string>)
    ensures Ascending(ordered)
    ensures forall k :: k in ordered <==> k in keys
  {
    ordered := [];
    var rest := keys;
    while rest != {}
      invariant rest <= keys && Ascending(ordered)
      invariant forall k :: k in ordered <==> k in keys - rest
      invariant forall i, k :: 0 <= i < |ordered| && k in rest ==> Less(ordered[i], k)
      decreases |rest|
    {
      var key := Least(rest);
      ordered := ordered + [key];
      rest := rest - {key};
    }
  }
}
