/** The per-table index over subscribed key ranges, with its cached widest upper bound per lower bound. */
module RangeIndex {
  import opened Lex
  import opened Options
  import opened SortedKeys

  /** `None` leaves that side open; the upper bound itself is excluded. */
  datatype KeyRange = KeyRange(lower: Option<string>, upper: Option<string>) {
    predicate Contains(key: string) {
      (lower.Some? ==> AtMost(lower.value, key)) && Allows(upper, key)
    }
  }

  predicate Allows(upper: Option<string>, key: string) {
    upper.Some? ==> Less(key, upper.value)
  }

  /** `a` admits every key that `b` admits. */
  predicate Wider(a: Option<string>, b: Option<string>) {
    a.None? || (b.Some? && AtMost(b.value, a.value))
  }

  lemma WiderAllows(a: Option<string>, b: Option<string>, key: string)
    requires Wider(a, b) && Allows(b, key)
    ensures Allows(a, key)
  {
    if a.Some? && a.value != b.value {
      Transitive(key, b.value, a.value);
    }
  }

  lemma WiderTransitive(a: Option<string>, b: Option<string>, c: Option<string>)
    requires Wider(a, b) && Wider(b, c)
    ensures Wider(a, c)
  {
    if a.Some? {
      AtMostTransitive(c.value, b.value, a.value);
    }
  }

  ghost predicate Widest(best: Option<string>, uppers: set<Option<string>>) {
    best in uppers && forall u :: u in uppers ==> Wider(best, u)
  }

  /** What a cached best upper bound says about a set of upper bounds. */
  ghost predicate BestOf(best: Option<Option<string>>, uppers: set<Option<string>>) {
    if uppers == {} then best == None else best.Some? && Widest(best.value, uppers)
  }

  function WiderUpper(current: Option<Option<string>>, candidate: Option<Option<string>>): Option<Option<string>> {
    if current == Some(None) || candidate == Some(None) then Some(None)
    else if current == None then candidate
    else if candidate == None then current
    else Some(Some(if AtMost(current.value.value, candidate.value.value) then candidate.value.value
                   else current.value.value))
  }

  lemma WiderUpperOfUnion(a: Option<Option<string>>, b: Option<Option<string>>, x: set<Option<string>>,
                          y: set<Option<string>>)
    requires BestOf(a, x) && BestOf(b, y)
    ensures BestOf(WiderUpper(a, b), x + y)
  {
    if x != {} && y != {} {
      var best := WiderUpper(a, b).value;
      assert Wider(best, a.value) && Wider(best, b.value) by {
        if a.value.Some? && b.value.Some? {
          AtMostTotal(a.value.value, b.value.value);
        }
      }
      forall u | u in x + y
        ensures Wider(best, u)
      {
        if u in x {
          WiderTransitive(best, a.value, u);
        } else {
          WiderTransitive(best, b.value, u);
        }
      }
    }
  }

  predicate BestAllows(best: Option<Option<string>>, key: string) {
    best.Some? && Allows(best.value, key)
  }

  lemma BestAllowsIffSome(best: Option<Option<string>>, uppers: set<Option<string>>, key: string)
    requires BestOf(best, uppers)
    ensures BestAllows(best, key) <==> exists u :: u in uppers && Allows(u, key)
  {
    forall u | u in uppers && Allows(u, key)
      ensures BestAllows(best, key)
    {
      WiderAllows(best.value, u, key);
    }
  }

  /** The widest of a set of upper bounds. */
  method BestUpperForSet(uppers: set<Option<string>>) returns (best: Option<Option<string>>)
    ensures BestOf(best, uppers)
  {
    if uppers == {} {
      return None;
    }
    if None in uppers {
      return Some(None);
    }
    var widest :| widest in uppers;
    var rest := uppers - {widest};
    while rest != {}
      invariant rest <= uppers && widest in uppers
      invariant forall u :: u in uppers - rest ==> Wider(widest, u)
    {
      var candidate :| candidate in rest;
      rest := rest - {candidate};
      AtMostTotal(widest.value, candidate.value);
      if AtMost(widest.value, candidate.value) {
        forall u | u in uppers - rest
          ensures Wider(candidate, u)
        {
          if u != candidate {
            WiderTransitive(candidate, widest, u);
          }
        }
        widest := candidate;
      }
    }
    return Some(widest);
  }

  // ---------------------------------------------------------------- stored bounds and their cache

  type Uppers = map<string, set<Option<string>>>

  /** All upper bounds of the ranges that start at or before `lower`. */
  ghost function UppersUpTo(uppers: Uppers, lower: string): set<Option<string>> {
    set l, u | l in uppers && u in uppers[l] && AtMost(l, lower) :: u
  }

  ghost predicate CacheEntryOk(uppers: Uppers, cache: map<string, Option<string>>, lower: string) {
    lower in uppers ==> lower in cache && Widest(cache[lower], UppersUpTo(uppers, lower))
  }

  ghost predicate CacheOk(uppers: Uppers, cache: map<string, Option<string>>) {
    cache.Keys == uppers.Keys && forall l :: CacheEntryOk(uppers, cache, l)
  }

  ghost function StoredRanges(unbounded: set<Option<string>>, uppers: Uppers): set<KeyRange> {
    (set u | u in unbounded :: KeyRange(None, u)) +
    (set l, u | l in uppers && u in uppers[l] :: KeyRange(Some(l), u))
  }

  /** The cached lookup through the nearest lower bound sees every range that could hold the key. */
  lemma CachedLookupIsExact(uppers: Uppers, cache: map<string, Option<string>>, nearest: Option<string>, key: string)
    requires CacheOk(uppers, cache)
    requires nearest.None? ==> forall l :: l in uppers ==> !AtMost(l, key)
    requires nearest.Some? ==> nearest.value in uppers && AtMost(nearest.value, key) &&
                               forall l :: l in uppers && AtMost(l, key) ==> AtMost(l, nearest.value)
    ensures (nearest.Some? && nearest.value in cache && Allows(cache[nearest.value], key))
              <==> exists l, u :: l in uppers && u in uppers[l] && AtMost(l, key) && Allows(u, key)
  {
    if nearest.Some? {
      var lower := nearest.value;
      assert CacheEntryOk(uppers, cache, lower);
      var best := cache[lower];
      if Allows(best, key) {
        assert best in UppersUpTo(uppers, lower);
        var l :| l in uppers && best in uppers[l] && AtMost(l, lower);
        AtMostTransitive(l, lower, key);
        assert best in uppers[l];
      }
      forall l, u | l in uppers && u in uppers[l] && AtMost(l, key) && Allows(u, key)
        ensures Allows(best, key)
      {
        assert u in UppersUpTo(uppers, lower);
        WiderAllows(best, u, key);
      }
    }
  }

  class TableKeyRangeIndex {
    var unboundedLowerUppers: set<Option<string>>
    var uppersByLower: Uppers
    var unboundedLowerBestUpper: Option<Option<string>>
    var prefixBestUpperByLower: map<string, Option<string>>

    ghost function Ranges(): set<KeyRange>
      reads this
    {
      StoredRanges(unboundedLowerUppers, uppersByLower)
    }

    ghost predicate Valid()
      reads this
    {
      (forall l :: l in uppersByLower ==> uppersByLower[l] != {}) &&
      BestOf(unboundedLowerBestUpper, unboundedLowerUppers) &&
      CacheOk(uppersByLower, prefixBestUpperByLower)
    }

    constructor ()
      ensures Valid() && Ranges() == {}
    {
      unboundedLowerUppers, uppersByLower, unboundedLowerBestUpper, prefixBestUpperByLower := {}, map[], None, map[];
    }

    method Insert(range: KeyRange)
      requires Valid()
      modifies this
      ensures Valid() && Ranges() == old(Ranges()) + {range}
    {
      match range.lower {
        case Some(lower) =>
          var uppers := if lower in uppersByLower then uppersByLower[lower] else {};
          uppersByLower := uppersByLower[lower := uppers + {range.upper}];
          InsertUpper(old(unboundedLowerUppers), old(uppersByLower), lower, range.upper);
        case None =>
          unboundedLowerUppers := unboundedLowerUppers + {range.upper};
      }
      RebuildMatchCache();
    }

    method Remove(range: KeyRange)
      requires Valid()
      modifies this
      ensures Valid() && Ranges() == old(Ranges()) - {range}
    {
      match range.lower {
        case Some(lower) =>
          if lower !in uppersByLower {
            return;
          }
          var uppers := uppersByLower[lower] - {range.upper};
          uppersByLower := if uppers == {} then uppersByLower - {lower} else uppersByLower[lower := uppers];
          RemoveUpper(unboundedLowerUppers, old(uppersByLower), lower, range.upper);
        case None =>
          unboundedLowerUppers := unboundedLowerUppers - {range.upper};
      }
      RebuildMatchCache();
    }

    method Matches(key: string) returns (hit: bool)
      requires Valid()
      ensures hit <==> exists r :: r in Ranges() && r.Contains(key)
    {
      var nearest := GreatestAtMost(prefixBestUpperByLower.Keys, key);
      hit := BestAllows(unboundedLowerBestUpper, key) ||
             (nearest.Some? && Allows(prefixBestUpperByLower[nearest.value], key));
      BestAllowsIffSome(unboundedLowerBestUpper, unboundedLowerUppers, key);
      CachedLookupIsExact(uppersByLower, prefixBestUpperByLower, nearest, key);
      MatchSplits(unboundedLowerUppers, uppersByLower, key);
    }

    method IsEmpty() returns (empty: bool)
      requires Valid()
      ensures empty <==> Ranges() == {}
    {
      empty := unboundedLowerUppers == {} && uppersByLower == map[];
      if unboundedLowerUppers != {} {
        var u :| u in unboundedLowerUppers;
        assert KeyRange(None, u) in Ranges();
      } else if uppersByLower != map[] {
        var l :| l in uppersByLower;
        var u :| u in uppersByLower[l];
        assert KeyRange(Some(l), u) in Ranges();
      }
    }

    method RebuildMatchCache()
      requires forall l :: l in uppersByLower ==> uppersByLower[l] != {}
      modifies this`unboundedLowerBestUpper, this`prefixBestUpperByLower
      ensures Valid()
    {
      unboundedLowerBestUpper := BestUpperForSet(unboundedLowerUppers);
      prefixBestUpperByLower := PrefixBestUppers(uppersByLower);
    }
  }

  /** Walk the lower bounds in order, keeping the widest upper bound met so far. */
  method PrefixBestUppers(uppers: Uppers) returns (cache: map<string, Option<string>>)
    requires forall l :: l in uppers ==> uppers[l] != {}
    ensures CacheOk(uppers, cache)
  {
    cache := map[];
    var best: Option<Option<string>> := None;
    var rest := uppers.Keys;
    while rest != {}
      invariant rest <= uppers.Keys
      invariant BestOf(best, UppersIn(uppers, uppers.Keys - rest))
      invariant cache.Keys == uppers.Keys - rest
      invariant forall l, k :: l in uppers.Keys - rest && k in rest ==> Less(l, k)
      invariant forall l :: l in cache ==> Widest(cache[l], UppersUpTo(uppers, l))
    {
      var lower := Least(rest);
      var candidate := BestUpperForSet(uppers[lower]);
      ghost var done := uppers.Keys - rest;
      WiderUpperOfUnion(best, candidate, UppersIn(uppers, done), uppers[lower]);
      best := WiderUpper(best, candidate);
      UppersInOneMore(uppers, done, rest, lower);
      if best.Some? {
        cache := cache[lower := best.value];
      }
      rest := rest - {lower};
    }
  }

  ghost function UppersIn(uppers: Uppers, lowers: set<string>): set<Option<string>> {
    set l, u | l in uppers && u in uppers[l] && l in lowers :: u
  }

  lemma UppersInOneMore(uppers: Uppers, done: set<string>, rest: set<string>, lower: string)
    requires done == uppers.Keys - rest && rest <= uppers.Keys && lower in rest
    requires forall k :: k in rest ==> AtMost(lower, k)
    requires forall l, k :: l in done && k in rest ==> Less(l, k)
    ensures UppersIn(uppers, done) + uppers[lower] == UppersIn(uppers, done + {lower}) == UppersUpTo(uppers, lower)
    ensures uppers.Keys - (rest - {lower}) == done + {lower}
    ensures forall k :: k in rest && k != lower ==> Less(lower, k)
  {
    forall l | l in uppers
      ensures l in done + {lower} <==> AtMost(l, lower)
    {
      if l in rest && l != lower {
        Asymmetric(lower, l);
        AtMostTotal(l, lower);
      }
    }
    forall u | u in UppersIn(uppers, done + {lower})
      ensures u in UppersUpTo(uppers, lower) && u in UppersIn(uppers, done) + uppers[lower]
    {
      var l :| l in uppers && u in uppers[l] && l in done + {lower};
      assert AtMost(l, lower);
    }
    forall u | u in UppersUpTo(uppers, lower)
      ensures u in UppersIn(uppers, done + {lower})
    {
      var l :| l in uppers && u in uppers[l] && AtMost(l, lower);
      assert l in done + {lower};
    }
    forall u | u in UppersIn(uppers, done) + uppers[lower]
      ensures u in UppersIn(uppers, done + {lower})
    {
      if u in uppers[lower] {
        assert lower in done + {lower};
      } else {
        var l :| l in uppers && u in uppers[l] && l in done;
        assert l in done + {lower};
      }
    }
  }

  lemma InsertUpper(unbounded: set<Option<string>>, uppers: Uppers, lower: string, upper: Option<string>)
    ensures var after := uppers[lower := (if lower in uppers then uppers[lower] else {}) + {upper}];
            StoredRanges(unbounded, after) == StoredRanges(unbounded, uppers) + {KeyRange(Some(lower), upper)}
  {
  }

  lemma RemoveUpper(unbounded: set<Option<string>>, uppers: Uppers, lower: string, upper: Option<string>)
    requires lower in uppers
    ensures var left := uppers[lower] - {upper};
            var after := if left == {} then uppers - {lower} else uppers[lower := left];
            StoredRanges(unbounded, after) == StoredRanges(unbounded, uppers) - {KeyRange(Some(lower), upper)}
  {
  }

  lemma MatchSplits(unbounded: set<Option<string>>, uppers: Uppers, key: string)
    ensures (exists r :: r in StoredRanges(unbounded, uppers) && r.Contains(key))
        <==> (exists u :: u in unbounded && Allows(u, key)) ||
             (exists l, u :: l in uppers && u in uppers[l] && AtMost(l, key) && Allows(u, key))
  {
    if u :| u in unbounded && Allows(u, key) {
      assert KeyRange(None, u) in StoredRanges(unbounded, uppers) && KeyRange(None, u).Contains(key);
    }
    forall l, u | l in uppers && u in uppers[l] && AtMost(l, key) && Allows(u, key)
      ensures KeyRange(Some(l), u) in StoredRanges(unbounded, uppers) && KeyRange(Some(l), u).Contains(key)
    {
    }
  }
}
