/** Filtering, mapping and stable descending sorting of sequences, and how they commute.
    `SortDesc` is Python's `sort(key=…, reverse=True)` and SQL's `ORDER BY … DESC` with ties
    left in the order they came. */
module Sequences {

  function Filter<T(!new)>(keep: T -> bool, s: seq<T>): (r: seq<T>)
    ensures forall x :: x in r <==> x in s && keep(x)
  {
    if s == [] then [] else if keep(s[0]) then [s[0]] + Filter(keep, s[1..]) else Filter(keep, s[1..])
  }

  function Map<T(!new), U(!new)>(f: T -> U, s: seq<T>): (r: seq<U>)
    ensures |r| == |s| && forall i :: 0 <= i < |s| ==> r[i] == f(s[i])
  {
    seq(|s|, i requires 0 <= i < |s| => f(s[i]))
  }

  function InsertDesc<T(!new)>(key: T -> real, x: T, s: seq<T>): seq<T> {
    if s == [] || key(s[0]) <= key(x) then [x] + s else [s[0]] + InsertDesc(key, x, s[1..])
  }

  function SortDesc<T(!new)>(key: T -> real, s: seq<T>): seq<T> {
    if s == [] then [] else InsertDesc(key, s[0], SortDesc(key, s[1..]))
  }

  predicate Descending<T(!new)>(key: T -> real, s: seq<T>) {
    forall i, j :: 0 <= i < j < |s| ==> key(s[i]) >= key(s[j])
  }

  predicate Distinct<T(==,!new)>(s: seq<T>) {
    forall i, j :: 0 <= i < j < |s| ==> s[i] != s[j]
  }

  lemma FilterCons<T(!new)>(keep: T -> bool, x: T, s: seq<T>)
    ensures Filter(keep, [x] + s) == if keep(x) then [x] + Filter(keep, s) else Filter(keep, s)
  {
    assert ([x] + s)[1..] == s;
  }

  lemma {:induction false} FilterAppend<T(!new)>(keep: T -> bool, s: seq<T>, t: seq<T>)
    ensures Filter(keep, s + t) == Filter(keep, s) + Filter(keep, t)
  {
    if s == [] {
      assert s + t == t;
    } else {
      assert (s + t)[0] == s[0] && (s + t)[1..] == s[1..] + t;
      FilterAppend(keep, s[1..], t);
    }
  }

  lemma {:induction false} FilterSame<T(!new)>(p: T -> bool, q: T -> bool, s: seq<T>)
    requires forall x :: x in s ==> p(x) == q(x)
    ensures Filter(p, s) == Filter(q, s)
  {
    if s == [] {
    } else {
      FilterSame(p, q, s[1..]);
    }
  }

  lemma {:induction false} FilterTwice<T(!new)>(p: T -> bool, q: T -> bool, both: T -> bool, s: seq<T>)
    requires forall x :: x in s ==> both(x) == (p(x) && q(x))
    ensures Filter(p, Filter(q, s)) == Filter(both, s)
  {
    if s == [] {
    } else {
      FilterTwice(p, q, both, s[1..]);
      FilterAppend(p, if q(s[0]) then [s[0]] else [], Filter(q, s[1..]));
    }
  }

  lemma {:induction false} FilterAll<T(!new)>(keep: T -> bool, s: seq<T>)
    requires forall x :: x in s ==> keep(x)
    ensures Filter(keep, s) == s
  {
    if s == [] {
    } else {
      FilterAll(keep, s[1..]);
      assert s == [s[0]] + s[1..];
    }
  }

  lemma {:induction false} FilterDistinct<T(!new)>(keep: T -> bool, s: seq<T>)
    requires Distinct(s)
    ensures Distinct(Filter(keep, s))
  {
    if s == [] {
    } else {
      FilterDistinct(keep, s[1..]);
      assert forall j :: 0 <= j < |s[1..]| ==> s[1..][j] == s[j + 1];
    }
  }

  /** Dropping one element of a sequence without repetitions removes exactly its position. */
  lemma {:induction false} FilterDropsOne<T(!new)>(s: seq<T>, i: nat, keep: T -> bool)
    requires Distinct(s) && i < |s|
    requires forall x :: x in s ==> (keep(x) <==> x != s[i])
    ensures Filter(keep, s) == s[..i] + s[i + 1..]
  {
    var rest := s[1..];
    forall j, k | 0 <= j < k < |rest| ensures rest[j] != rest[k] {
      assert rest[j] == s[j + 1] && rest[k] == s[k + 1];
    }
    assert s[0] in s;
    if i == 0 {
      forall x | x in rest ensures keep(x) {
        var k :| 0 <= k < |rest| && rest[k] == x;
        assert s[k + 1] == x;
      }
      FilterAll(keep, rest);
    } else {
      assert s[i] == rest[i - 1] && s[0] != s[i];
      FilterDropsOne(rest, i - 1, keep);
      assert [s[0]] + (rest[..i - 1] + rest[i..]) == s[..i] + s[i + 1..];
    }
  }

  lemma MapSame<T(!new), U(!new)>(f: T -> U, g: T -> U, s: seq<T>)
    requires forall x :: x in s ==> f(x) == g(x)
    ensures Map(f, s) == Map(g, s)
  {
    forall i | 0 <= i < |s| ensures f(s[i]) == g(s[i]) {
      assert s[i] in s;
    }
  }

  lemma MapAppend<T(!new), U(!new)>(f: T -> U, s: seq<T>, t: seq<T>)
    ensures Map(f, s + t) == Map(f, s) + Map(f, t)
  {
  }

  lemma MapNext<T(!new), U(!new)>(f: T -> U, s: seq<T>, i: nat)
    requires i < |s|
    ensures Map(f, s[..i + 1]) == Map(f, s[..i]) + [f(s[i])]
  {
  }

  lemma MapDropsOne<T(!new), U(!new)>(f: T -> U, s: seq<T>, i: nat)
    requires i < |s|
    ensures Map(f, s[..i] + s[i + 1..]) == Map(f, s)[..i] + Map(f, s)[i + 1..]
  {
  }

  // ---- sorting ----

  lemma {:induction false} InsertAdds<T(!new)>(key: T -> real, x: T, s: seq<T>)
    ensures multiset(InsertDesc(key, x, s)) == multiset{x} + multiset(s)
    decreases |s|
  {
    if s == [] || key(s[0]) <= key(x) {
      assert multiset([x] + s) == multiset{x} + multiset(s);
    } else {
      InsertAdds(key, x, s[1..]);
      assert s == [s[0]] + s[1..];
    }
  }

  lemma {:induction false} InsertDescends<T(!new)>(key: T -> real, x: T, s: seq<T>)
    requires Descending(key, s)
    ensures Descending(key, InsertDesc(key, x, s))
    decreases |s|
  {
    if !(s == [] || key(s[0]) <= key(x)) {
      InsertDescends(key, x, s[1..]);
      InsertAdds(key, x, s[1..]);
      var rest := InsertDesc(key, x, s[1..]);
      forall j | 0 <= j < |rest| ensures key(s[0]) >= key(rest[j]) {
        assert rest[j] in multiset(rest);
      }
    }
  }

  lemma {:induction false} SortPermutes<T(!new)>(key: T -> real, s: seq<T>)
    ensures multiset(SortDesc(key, s)) == multiset(s)
  {
    if s == [] {
    } else {
      SortPermutes(key, s[1..]);
      InsertAdds(key, s[0], SortDesc(key, s[1..]));
      assert s == [s[0]] + s[1..];
    }
  }

  lemma {:induction false} SortDescends<T(!new)>(key: T -> real, s: seq<T>)
    ensures Descending(key, SortDesc(key, s))
  {
    if s == [] {
    } else {
      SortDescends(key, s[1..]);
      InsertDescends(key, s[0], SortDesc(key, s[1..]));
    }
  }

  lemma SortKeeps<T(!new)>(key: T -> real, s: seq<T>)
    ensures multiset(SortDesc(key, s)) == multiset(s)
    ensures Descending(key, SortDesc(key, s))
    ensures forall x :: x in SortDesc(key, s) <==> x in s
  {
    SortPermutes(key, s);
    SortDescends(key, s);
    forall x ensures x in SortDesc(key, s) <==> x in s {
      assert x in SortDesc(key, s) <==> x in multiset(SortDesc(key, s));
      assert x in s <==> x in multiset(s);
    }
  }

  lemma {:induction false} InsertFilter<T(!new)>(key: T -> real, keep: T -> bool, x: T, s: seq<T>)
    requires Descending(key, s)
    ensures Filter(keep, InsertDesc(key, x, s))
            == if keep(x) then InsertDesc(key, x, Filter(keep, s)) else Filter(keep, s)
    decreases |s|
  {
    if s == [] || key(s[0]) <= key(x) {
      FilterCons(keep, x, s);
      var kept := Filter(keep, s);
      if kept != [] {
        assert kept[0] in s;
      }
    } else {
      InsertFilter(key, keep, x, s[1..]);
      FilterCons(keep, s[0], InsertDesc(key, x, s[1..]));
      assert ([s[0]] + Filter(keep, s[1..]))[1..] == Filter(keep, s[1..]);
    }
  }

  /** Stability: sorting commutes with dropping elements. */
  lemma {:induction false} SortFilter<T(!new)>(key: T -> real, keep: T -> bool, s: seq<T>)
    ensures Filter(keep, SortDesc(key, s)) == SortDesc(key, Filter(keep, s))
  {
    if s == [] {
    } else {
      var rest := s[1..];
      SortFilter(key, keep, rest);
      assert Descending(key, SortDesc(key, rest)) by { SortKeeps(key, rest); }
      InsertFilter(key, keep, s[0], SortDesc(key, rest));
      assert ([s[0]] + Filter(keep, rest))[1..] == Filter(keep, rest);
    }
  }

  lemma {:induction false} InsertSame<T(!new)>(key: T -> real, other: T -> real, x: T, s: seq<T>)
    requires key(x) == other(x) && forall y :: y in s ==> key(y) == other(y)
    ensures InsertDesc(key, x, s) == InsertDesc(other, x, s)
    decreases |s|
  {
    if s == [] {
    } else {
      InsertSame(key, other, x, s[1..]);
    }
  }

  lemma {:induction false} SortSame<T(!new)>(key: T -> real, other: T -> real, s: seq<T>)
    requires forall y :: y in s ==> key(y) == other(y)
    ensures SortDesc(key, s) == SortDesc(other, s)
  {
    if s == [] {
    } else {
      SortSame(key, other, s[1..]);
      SortKeeps(key, s[1..]);
      InsertSame(key, other, s[0], SortDesc(key, s[1..]));
    }
  }

  lemma {:induction false} InsertMap<T(!new), U(!new)>(f: T -> U, key: U -> real, back: T -> real, x: T, s: seq<T>)
    requires back(x) == key(f(x)) && forall y :: y in s ==> back(y) == key(f(y))
    ensures InsertDesc(key, f(x), Map(f, s)) == Map(f, InsertDesc(back, x, s))
    decreases |s|
  {
    if s == [] {
    } else {
      assert Map(f, s)[1..] == Map(f, s[1..]);
      InsertMap(f, key, back, x, s[1..]);
    }
  }

  /** Sorting what a function computes is computing it in the order of its sort key. */
  lemma {:induction false} SortMap<T(!new), U(!new)>(f: T -> U, key: U -> real, back: T -> real, s: seq<T>)
    requires forall y :: y in s ==> back(y) == key(f(y))
    ensures SortDesc(key, Map(f, s)) == Map(f, SortDesc(back, s))
  {
    if s == [] {
    } else {
      assert Map(f, s)[1..] == Map(f, s[1..]);
      SortMap(f, key, back, s[1..]);
      SortKeeps(back, s[1..]);
      InsertMap(f, key, back, s[0], SortDesc(back, s[1..]));
    }
  }

  lemma MultisetDistinct<T(!new)>(s: seq<T>, t: seq<T>)
    requires Distinct(s) && multiset(s) == multiset(t)
    ensures Distinct(t)
  {
    forall i, j | 0 <= i < j < |t| ensures t[i] != t[j] {
      if t[i] == t[j] {
        assert t == t[..i] + [t[i]] + t[i + 1..j] + [t[j]] + t[j + 1..];
        assert multiset(t)[t[i]] >= 2;
        DistinctCountsOnce(s, t[i]);
      }
    }
  }

  lemma {:induction false} DistinctCountsOnce<T(!new)>(s: seq<T>, x: T)
    requires Distinct(s)
    ensures multiset(s)[x] <= 1
  {
    if s == [] {
    } else {
      assert s == [s[0]] + s[1..];
      assert forall j :: 0 <= j < |s[1..]| ==> s[1..][j] == s[j + 1];
      DistinctCountsOnce(s[1..], x);
    }
  }
}
