/**
 Stable sorting by a comparison, as the library's `sort_by`, and what it guarantees once the comparison is an order.
 */
module Sorting {

  /** `x` goes behind the last element that may precede it. */
  function Insert<T>(le: (T, T) -> bool, x: T, s: seq<T>): (r: seq<T>)
    ensures |r| == |s| + 1
  {
    if s == [] then [x]
    else if le(s[|s| - 1], x) then s + [x]
    else Insert(le, x, s[..|s| - 1]) + [s[|s| - 1]]
  }

  function InsertAll<T>(le: (T, T) -> bool, s: seq<T>, more: seq<T>): (r: seq<T>)
    ensures |r| == |s| + |more|
  {
    if more == [] then s else Insert(le, more[|more| - 1], InsertAll(le, s, more[..|more| - 1]))
  }

  function Sort<T>(le: (T, T) -> bool, s: seq<T>): (r: seq<T>)
    ensures |r| == |s|
  {
    InsertAll(le, [], s)
  }

  ghost predicate SortedBy<T>(le: (T, T) -> bool, s: seq<T>) {
    forall i, j :: 0 <= i < j < |s| ==> le(s[i], s[j])
  }

  /** The comparison is a total preorder on the elements of `s`. */
  ghost predicate OrdersAll<T>(le: (T, T) -> bool, s: seq<T>) {
    (forall x, y :: x in s && y in s ==> le(x, y) || le(y, x)) &&
    (forall x, y, z :: x in s && y in s && z in s && le(x, y) && le(y, z) ==> le(x, z))
  }

  /** Distinct elements are never tied. */
  ghost predicate NoTies<T>(le: (T, T) -> bool, s: seq<T>) {
    forall x, y {:trigger le(x, y)} :: x in s && y in s && le(x, y) && le(y, x) ==> x == y
  }

  lemma {:induction false} InsertPermutes<T>(le: (T, T) -> bool, x: T, s: seq<T>)
    ensures multiset(Insert(le, x, s)) == multiset(s) + multiset{x}
  {
    if s != [] {
      assert s == s[..|s| - 1] + [s[|s| - 1]];
      InsertPermutes(le, x, s[..|s| - 1]);
    }
  }

  lemma {:induction false} InsertAllPermutes<T>(le: (T, T) -> bool, s: seq<T>, more: seq<T>)
    ensures multiset(InsertAll(le, s, more)) == multiset(s + more)
  {
    if more == [] {
      assert s + more == s;
    } else {
      var before := more[..|more| - 1];
      assert s + more == s + before + [more[|more| - 1]];
      InsertAllPermutes(le, s, before);
      InsertPermutes(le, more[|more| - 1], InsertAll(le, s, before));
    }
  }

  lemma SortPermutes<T>(le: (T, T) -> bool, s: seq<T>)
    ensures multiset(Sort(le, s)) == multiset(s)
  {
    InsertAllPermutes(le, [], s);
    assert [] + s == s;
  }

  lemma MemberOf<T>(a: seq<T>, b: seq<T>, x: T)
    requires multiset(a) == multiset(b) && x in a
    ensures x in b
  {
    assert x in multiset(a);
  }

  lemma MembersOf<T>(a: seq<T>, b: seq<T>)
    requires multiset(a) == multiset(b)
    ensures forall x :: x in a <==> x in b
  {
    forall x
      ensures x in a <==> x in b
    {
      if x in a { MemberOf(a, b, x); }
      if x in b { MemberOf(b, a, x); }
    }
  }

  lemma {:induction false} InsertSorts<T>(le: (T, T) -> bool, x: T, s: seq<T>)
    requires SortedBy(le, s) && OrdersAll(le, s + [x])
    ensures SortedBy(le, Insert(le, x, s))
  {
    if s != [] {
      var last, init := s[|s| - 1], s[..|s| - 1];
      assert x in s + [x] && last in s + [x];
      assert forall y :: y in s ==> y in s + [x];
      if le(last, x) {
        forall i | 0 <= i < |s|
          ensures le(s[i], x)
        {
          assert s[i] in s;
        }
      } else {
        assert forall y :: y in init + [x] ==> y in s + [x];
        InsertSorts(le, x, init);
        InsertPermutes(le, x, init);
        var r := Insert(le, x, init);
        forall i | 0 <= i < |r|
          ensures le(r[i], last)
        {
          assert r[i] in multiset(r);
          if r[i] != x {
            assert r[i] in init;
          }
        }
      }
    }
  }

  lemma {:induction false} InsertAllSorts<T>(le: (T, T) -> bool, s: seq<T>, more: seq<T>)
    requires SortedBy(le, s) && OrdersAll(le, s + more)
    ensures SortedBy(le, InsertAll(le, s, more))
  {
    if more != [] {
      var before, last := more[..|more| - 1], more[|more| - 1];
      assert s + more == s + before + [last];
      assert forall y :: y in s + before ==> y in s + more;
      InsertAllSorts(le, s, before);
      InsertAllPermutes(le, s, before);
      forall y | y in InsertAll(le, s, before) + [last]
        ensures y in s + more
      {
        if y != last {
          MemberOf(InsertAll(le, s, before), s + before, y);
        }
      }
      InsertSorts(le, last, InsertAll(le, s, before));
    }
  }

  lemma SortSorts<T>(le: (T, T) -> bool, s: seq<T>)
    requires OrdersAll(le, s)
    ensures SortedBy(le, Sort(le, s))
  {
    assert [] + s == s;
    InsertAllSorts(le, [], s);
  }

  lemma {:induction false} InsertAllAppend<T>(le: (T, T) -> bool, s: seq<T>, a: seq<T>, b: seq<T>)
    ensures InsertAll(le, s, a + b) == InsertAll(le, InsertAll(le, s, a), b)
  {
    if b == [] {
      assert a + b == a;
    } else {
      assert (a + b)[..|a + b| - 1] == a + b[..|b| - 1];
      InsertAllAppend(le, s, a, b[..|b| - 1]);
    }
  }

  /** Appending elements that are already in order is the same as inserting them. */
  lemma {:induction false} InsertAllInOrder<T>(le: (T, T) -> bool, s: seq<T>, more: seq<T>)
    requires SortedBy(le, s + more)
    ensures InsertAll(le, s, more) == s + more
  {
    if more == [] {
      assert s + more == s;
    } else {
      var before := more[..|more| - 1];
      var all := s + more;
      assert s + before == all[..|all| - 1] && all == s + before + [more[|more| - 1]];
      InsertAllInOrder(le, s, before);
      if s + before != [] {
        assert (s + before)[|s + before| - 1] == all[|all| - 2] && all[|all| - 1] == more[|more| - 1];
      }
    }
  }

  /** Two sorted arrangements of the same elements are equal when distinct elements are never tied. */
  lemma {:induction false} SortedIsUnique<T>(le: (T, T) -> bool, a: seq<T>, b: seq<T>)
    requires SortedBy(le, a) && SortedBy(le, b) && multiset(a) == multiset(b)
    requires NoTies(le, a)
    ensures a == b
    decreases |a|
  {
    if a == [] {
      EmptyTogether(a, b);
    } else {
      EmptyTogether(b, a);
      SameLast(le, a, b);
      DropLast(le, a);
      DropLast(le, b);
      SortedIsUnique(le, a[..|a| - 1], b[..|b| - 1]);
      PutLastBack(a, b);
    }
  }

  lemma EmptyTogether<T>(a: seq<T>, b: seq<T>)
    requires multiset(a) == multiset(b)
    ensures a == [] ==> b == []
  {
    assert |a| == |multiset(a)| && |b| == |multiset(b)|;
  }

  lemma PutLastBack<T>(a: seq<T>, b: seq<T>)
    requires a != [] && b != [] && a[|a| - 1] == b[|b| - 1] && a[..|a| - 1] == b[..|b| - 1]
    ensures a == b
  {
    assert a == a[..|a| - 1] + [a[|a| - 1]] && b == b[..|b| - 1] + [b[|b| - 1]];
  }

  lemma DropLast<T>(le: (T, T) -> bool, s: seq<T>)
    requires s != [] && SortedBy(le, s)
    ensures SortedBy(le, s[..|s| - 1])
    ensures NoTies(le, s) ==> NoTies(le, s[..|s| - 1])
    ensures multiset(s[..|s| - 1]) == multiset(s) - multiset{s[|s| - 1]}
  {
    var init := s[..|s| - 1];
    assert s == init + [s[|s| - 1]];
    assert forall x :: x in init ==> x in s;
  }

  lemma SameLast<T>(le: (T, T) -> bool, a: seq<T>, b: seq<T>)
    requires SortedBy(le, a) && SortedBy(le, b) && multiset(a) == multiset(b) && a != [] && b != []
    requires NoTies(le, a)
    ensures a[|a| - 1] == b[|b| - 1]
  {
    var x, y := a[|a| - 1], b[|b| - 1];
    MemberOf(a, b, x);
    MemberOf(b, a, y);
    var i :| 0 <= i < |a| && a[i] == y;
    var j :| 0 <= j < |b| && b[j] == x;
    if i < |a| - 1 && j < |b| - 1 {
      assert le(a[i], a[|a| - 1]) && le(b[j], b[|b| - 1]);
    }
  }

  // ---------------------------------------------------------------- sorting and mapping

  function Map<A, B>(f: A -> B, s: seq<A>): (r: seq<B>)
    ensures |r| == |s| && forall i :: 0 <= i < |s| ==> r[i] == f(s[i])
  {
    seq(|s|, i requires 0 <= i < |s| => f(s[i]))
  }

  function Filter<T>(p: T -> bool, s: seq<T>): seq<T> {
    if s == [] then []
    else
      var rest, last := Filter(p, s[..|s| - 1]), s[|s| - 1];
      if p(last) then rest + [last] else rest
  }

  function Take<T>(s: seq<T>, count: nat): seq<T> {
    if |s| <= count then s else s[..count]
  }

  /** Filtering keeps every occurrence of what passes and none of what does not. */
  lemma {:induction false} FilterCounts<T>(p: T -> bool, s: seq<T>, x: T)
    ensures multiset(Filter(p, s))[x] == if p(x) then multiset(s)[x] else 0
  {
    if s != [] {
      var n := |s| - 1;
      assert s == s[..n] + [s[n]];
      FilterCounts(p, s[..n], x);
    }
  }

  ghost function Positions<T>(p: T -> bool, s: seq<T>): set<nat> {
    set i: nat | i < |s| && p(s[i])
  }

  lemma {:induction false} FilterLength<T>(p: T -> bool, s: seq<T>)
    ensures |Filter(p, s)| == |Positions(p, s)|
  {
    if s == [] {
      assert Positions(p, s) == {};
    } else {
      var n := |s| - 1;
      FilterLength(p, s[..n]);
      var before := Positions(p, s[..n]);
      assert Positions(p, s) == if p(s[n]) then before + {n} else before;
    }
  }

  /** An element at two places counts twice. */
  lemma TwiceCountsTwo<T>(s: seq<T>, i: nat, j: nat)
    requires i < j < |s| && s[i] == s[j]
    ensures multiset(s)[s[i]] >= 2
  {
    assert s == s[..j] + [s[j]] + s[j + 1..];
    assert s[i] == s[..j][i] && s[i] in multiset(s[..j]);
  }

  lemma {:induction false} OnceCountsOne<T>(s: seq<T>, x: T)
    requires forall i, j :: 0 <= i < j < |s| ==> s[i] != s[j]
    ensures multiset(s)[x] <= 1
  {
    if s != [] {
      var n := |s| - 1;
      assert s == s[..n] + [s[n]];
      OnceCountsOne(s[..n], x);
      assert x == s[n] ==> x !in s[..n];
    }
  }

  lemma {:induction false} FilterOfMap<A, B>(f: A -> B, p: B -> bool, q: A -> bool, s: seq<A>)
    requires forall x :: x in s ==> (q(x) <==> p(f(x)))
    ensures Filter(p, Map(f, s)) == Map(f, Filter(q, s))
  {
    if s != [] {
      var n := |s| - 1;
      assert Map(f, s)[..n] == Map(f, s[..n]);
      assert s[n] in s && forall x :: x in s[..n] ==> x in s;
      FilterOfMap(f, p, q, s[..n]);
      MapOfAppend(f, Filter(q, s[..n]), s[n]);
    }
  }

  lemma MapOfAppend<A, B>(f: A -> B, s: seq<A>, x: A)
    ensures Map(f, s + [x]) == Map(f, s) + [f(x)]
  {
  }

  /** `before` compares by what `f` shows. */
  ghost predicate ComparesBy<A(!new), B>(f: A -> B, le: (B, B) -> bool, before: (A, A) -> bool) {
    forall a, b :: before(a, b) <==> le(f(a), f(b))
  }

  lemma {:induction false} InsertOfMap<A(!new), B>(f: A -> B, le: (B, B) -> bool, before: (A, A) -> bool, x: A,
                                                   s: seq<A>)
    requires ComparesBy(f, le, before)
    ensures Insert(le, f(x), Map(f, s)) == Map(f, Insert(before, x, s))
  {
    if s == [] {
      assert Map(f, [x]) == [f(x)];
    } else {
      var init, last := s[..|s| - 1], s[|s| - 1];
      var mapped := Map(f, s);
      assert mapped[..|s| - 1] == Map(f, init) && mapped[|s| - 1] == f(last);
      if before(last, x) {
        MapOfAppend(f, s, x);
      } else {
        InsertOfMap(f, le, before, x, init);
        MapOfAppend(f, Insert(before, x, init), last);
      }
    }
  }

  lemma {:induction false} InsertAllOfMap<A(!new), B>(f: A -> B, le: (B, B) -> bool, before: (A, A) -> bool, s: seq<A>)
    requires ComparesBy(f, le, before)
    ensures InsertAll(le, [], Map(f, s)) == Map(f, InsertAll(before, [], s))
  {
    if s != [] {
      var n := |s| - 1;
      assert Map(f, s)[..n] == Map(f, s[..n]);
      InsertAllOfMap(f, le, before, s[..n]);
      InsertOfMap(f, le, before, s[n], InsertAll(before, [], s[..n]));
    }
  }

  /** Sorting by what `f` shows commutes with `f`, whatever the comparison. */
  lemma SortOfMap<A(!new), B>(f: A -> B, le: (B, B) -> bool, before: (A, A) -> bool, s: seq<A>)
    requires ComparesBy(f, le, before)
    ensures Sort(le, Map(f, s)) == Map(f, Sort(before, s))
  {
    InsertAllOfMap(f, le, before, s);
  }
}
