/**
 * Python's `list.sort(key=...)` (and `reverse=True`), which is guaranteed
 * stable, modelled as insertion sort over a total preorder `le`, together with
 * order-preserving de-duplication (SQL `DISTINCT` / `GROUP BY` keys).
 *
 * Stability is stated without indices: for every `y`, the elements that `le`
 * ranks equal to `y` (its ties) appear in the output in exactly the order they
 * had in the input.
 */
module StableSort {

  /** `le` is total and transitive: what a sort key with `<=` provides. */
  ghost predicate TotalPreorder<T(!new)>(le: (T, T) -> bool) {
    && (forall a, b :: le(a, b) || le(b, a))
    && (forall a, b, c :: le(a, b) && le(b, c) ==> le(a, c))
  }

  predicate Sorted<T>(s: seq<T>, le: (T, T) -> bool) {
    forall i, j :: 0 <= i < j < |s| ==> le(s[i], s[j])
  }

  /** The elements of `s` that `le` ranks equal to `y`, in their order in `s`. */
  function Ties<T>(s: seq<T>, le: (T, T) -> bool, y: T): seq<T> {
    if |s| == 0 then []
    else (if le(s[0], y) && le(y, s[0]) then [s[0]] else []) + Ties(s[1..], le, y)
  }

  /** The elements of `s` that `keep` accepts, in their order in `s`. */
  function Filter<T>(s: seq<T>, keep: T -> bool): seq<T> {
    if |s| == 0 then []
    else (if keep(s[0]) then [s[0]] else []) + Filter(s[1..], keep)
  }

  /** A filter keeps one element exactly when it is accepted, and filters two
      stretches of a sequence one after the other. */
  lemma {:induction false} FilterAppend<T>(a: seq<T>, b: seq<T>, keep: T -> bool)
    ensures Filter(a + b, keep) == Filter(a, keep) + Filter(b, keep)
    ensures |a| == 1 ==> Filter(a, keep) == if keep(a[0]) then a else []
  {
    if |a| == 0 {
      assert a + b == b;
    } else {
      assert (a + b)[0] == a[0] && (a + b)[1..] == a[1..] + b;
      FilterAppend(a[1..], b, keep);
      if |a| == 1 {
        assert a[1..] == [];
      }
    }
  }

  /** Inserts `x` after every element of `s` ranked at most `x`. */
  function Insert<T>(s: seq<T>, x: T, le: (T, T) -> bool): (r: seq<T>)
    ensures multiset(r) == multiset(s) + multiset{x}
  {
    if |s| == 0 then [x]
    else if le(s[0], x) then
      assert s == [s[0]] + s[1..];
      [s[0]] + Insert(s[1..], x, le)
    else [x] + s
  }

  /** `sorted(s, key=...)`: the elements of `s` inserted one by one, in input order. */
  function Sort<T>(s: seq<T>, le: (T, T) -> bool): (r: seq<T>)
    ensures multiset(r) == multiset(s)
  {
    if |s| == 0 then []
    else
      assert s == s[..|s| - 1] + [s[|s| - 1]];
      Insert(Sort(s[..|s| - 1], le), s[|s| - 1], le)
  }

  lemma {:induction false} TiesAppend<T>(a: seq<T>, b: seq<T>, le: (T, T) -> bool, y: T)
    ensures Ties(a + b, le, y) == Ties(a, le, y) + Ties(b, le, y)
    decreases |a|
  {
    if |a| == 0 {
      assert a + b == b;
    } else {
      assert (a + b)[1..] == a[1..] + b;
      TiesAppend(a[1..], b, le, y);
    }
  }

  lemma {:induction false} TiesNone<T>(s: seq<T>, le: (T, T) -> bool, y: T)
    requires forall e :: e in s ==> !(le(e, y) && le(y, e))
    ensures Ties(s, le, y) == []
    decreases |s|
  {
    if |s| > 0 {
      TiesNone(s[1..], le, y);
    }
  }

  lemma {:induction false} InsertSorted<T(!new)>(s: seq<T>, x: T, le: (T, T) -> bool)
    requires TotalPreorder(le) && Sorted(s, le)
    ensures Sorted(Insert(s, x, le), le)
    decreases |s|
  {
    if |s| > 0 {
      if le(s[0], x) {
        InsertSorted(s[1..], x, le);
        InsertSortedBehind(s, x, le);
      } else {
        InsertSortedAhead(s, x, le);
      }
    }
  }

  /** `x` goes after the head: the head ranks below all of the sorted rest. */
  lemma InsertSortedBehind<T(!new)>(s: seq<T>, x: T, le: (T, T) -> bool)
    requires TotalPreorder(le) && Sorted(s, le) && |s| > 0 && le(s[0], x)
    requires Sorted(Insert(s[1..], x, le), le)
    ensures Sorted(Insert(s, x, le), le)
  {
    HeadBelowRest(s, x, le);
    SortedCons(s[0], Insert(s[1..], x, le), le);
  }

  /** The head of a sorted list ranks below the rest with `x` inserted, when
      it ranks below `x`. */
  lemma HeadBelowRest<T(!new)>(s: seq<T>, x: T, le: (T, T) -> bool)
    requires TotalPreorder(le) && Sorted(s, le) && |s| > 0 && le(s[0], x)
    ensures forall e :: e in Insert(s[1..], x, le) ==> le(s[0], e)
  {
    var rest := Insert(s[1..], x, le);
    forall e | e in rest
      ensures le(s[0], e)
    {
      assert e in multiset(rest);
      if e != x {
        assert e in s[1..];
      }
    }
  }

  /** `x` goes in front: it ranks below the head and so below everything. */
  lemma InsertSortedAhead<T(!new)>(s: seq<T>, x: T, le: (T, T) -> bool)
    requires TotalPreorder(le) && Sorted(s, le) && |s| > 0 && !le(s[0], x)
    ensures Sorted(Insert(s, x, le), le)
  {
    assert le(x, s[0]);
    forall e | e in s
      ensures le(x, e)
    {
      var k :| 0 <= k < |s| && s[k] == e;
      if k > 0 {
        assert le(s[0], s[k]);
      }
    }
    SortedCons(x, s, le);
  }

  /** A sorted list behind an element that ranks below all of it is sorted. */
  lemma SortedCons<T>(h: T, t: seq<T>, le: (T, T) -> bool)
    requires Sorted(t, le) && forall e :: e in t ==> le(h, e)
    ensures Sorted([h] + t, le)
  {
    var r := [h] + t;
    forall i, j | 0 <= i < j < |r|
      ensures le(r[i], r[j])
    {
      assert r[j] == t[j - 1];
      if i > 0 {
        assert r[i] == t[i - 1];
      }
    }
  }

  /** In a sorted `s` whose head ranks above `x`, every element ranks above `x`. */
  lemma AllAbove<T(!new)>(s: seq<T>, x: T, le: (T, T) -> bool)
    requires TotalPreorder(le) && Sorted(s, le)
    requires |s| > 0 && !le(s[0], x)
    ensures forall k :: 0 <= k < |s| ==> !le(s[k], x)
  {
    forall k | 0 < k < |s|
      ensures !le(s[k], x)
    {
      assert le(s[0], s[k]);
    }
  }

  lemma {:induction false} InsertTies<T(!new)>(s: seq<T>, x: T, le: (T, T) -> bool, y: T)
    requires TotalPreorder(le) && Sorted(s, le)
    ensures Ties(Insert(s, x, le), le, y) == Ties(s, le, y) + Ties([x], le, y)
    decreases |s|
  {
    if |s| == 0 {
    } else if le(s[0], x) {
      InsertTies(s[1..], x, le, y);
      InsertTiesBehind(s, x, le, y);
    } else {
      InsertTiesAhead(s, x, le, y);
    }
  }

  /** Inserted behind the head, `x` adds its tie after the head's. */
  lemma InsertTiesBehind<T>(s: seq<T>, x: T, le: (T, T) -> bool, y: T)
    requires |s| > 0 && le(s[0], x)
    requires Ties(Insert(s[1..], x, le), le, y) == Ties(s[1..], le, y) + Ties([x], le, y)
    ensures Ties(Insert(s, x, le), le, y) == Ties(s, le, y) + Ties([x], le, y)
  {
    var r, rest := Insert(s, x, le), Insert(s[1..], x, le);
    assert r == [s[0]] + rest;
    assert |r| > 0 && r[0] == s[0] && r[1..] == rest;
    var h: seq<T> := if le(s[0], y) && le(y, s[0]) then [s[0]] else [];
    var t, u := Ties(s[1..], le, y), Ties([x], le, y);
    assert Ties(r, le, y) == h + (t + u);
    assert Ties(s, le, y) == h + t;
    Assoc(h, t, u);
  }

  lemma Assoc<T>(a: seq<T>, b: seq<T>, c: seq<T>)
    ensures a + (b + c) == a + b + c
  {
  }

  /** Inserted ahead of everything, `x` is the only tie it can add. */
  lemma InsertTiesAhead<T(!new)>(s: seq<T>, x: T, le: (T, T) -> bool, y: T)
    requires TotalPreorder(le) && Sorted(s, le)
    requires |s| > 0 && !le(s[0], x)
    ensures Ties(Insert(s, x, le), le, y) == Ties(s, le, y) + Ties([x], le, y)
  {
    assert Insert(s, x, le) == [x] + s;
    TiesAppend([x], s, le, y);
    if le(x, y) && le(y, x) {
      NoTiesAbove(s, x, le, y);
    }
  }

  lemma NoTiesAbove<T(!new)>(s: seq<T>, x: T, le: (T, T) -> bool, y: T)
    requires TotalPreorder(le) && Sorted(s, le)
    requires |s| > 0 && !le(s[0], x) && le(y, x)
    ensures Ties(s, le, y) == []
  {
    AllAbove(s, x, le);
    forall e | e in s
      ensures !(le(e, y) && le(y, e))
    {
      var k :| 0 <= k < |s| && s[k] == e;
      assert !le(s[k], x);
    }
    TiesNone(s, le, y);
  }

  lemma {:induction false} SortSorted<T(!new)>(s: seq<T>, le: (T, T) -> bool)
    requires TotalPreorder(le)
    ensures Sorted(Sort(s, le), le)
    decreases |s|
  {
    if |s| > 0 {
      SortSorted(s[..|s| - 1], le);
      InsertSorted(Sort(s[..|s| - 1], le), s[|s| - 1], le);
    }
  }

  lemma {:induction false} SortTies<T(!new)>(s: seq<T>, le: (T, T) -> bool, y: T)
    requires TotalPreorder(le)
    ensures Ties(Sort(s, le), le, y) == Ties(s, le, y)
    decreases |s|
  {
    if |s| > 0 {
      var p, x := s[..|s| - 1], s[|s| - 1];
      assert s == p + [x];
      SortSorted(p, le);
      SortTies(p, le, y);
      InsertTies(Sort(p, le), x, le, y);
      TiesAppend(p, [x], le, y);
    }
  }

  /** Python's sort is a stable sort: the output is ordered by `le`, and ties
      keep the relative order they had in the input. */
  lemma SortIsStable<T(!new)>(s: seq<T>, le: (T, T) -> bool)
    requires TotalPreorder(le)
    ensures Sorted(Sort(s, le), le)
    ensures forall y :: Ties(Sort(s, le), le, y) == Ties(s, le, y)
  {
    SortSorted(s, le);
    forall y
      ensures Ties(Sort(s, le), le, y) == Ties(s, le, y)
    {
      SortTies(s, le, y);
    }
  }

  // ---------------------------------------------------------------------------
  // Distinct elements
  // ---------------------------------------------------------------------------

  predicate Distinct<T(==)>(s: seq<T>) {
    forall i, j :: 0 <= i < j < |s| ==> s[i] != s[j]
  }

  /** The distinct elements of `s`, each at the place of its first occurrence. */
  function Dedup<T(==)>(s: seq<T>): (r: seq<T>)
    ensures forall i :: 0 <= i < |r| ==> r[i] in s
    ensures forall i :: 0 <= i < |s| ==> s[i] in r
    ensures Distinct(r)
  {
    if |s| == 0 then []
    else
      var d := Dedup(s[..|s| - 1]);
      assert forall i :: 0 <= i < |s| - 1 ==> s[i] == s[..|s| - 1][i];
      if s[|s| - 1] in d then d else d + [s[|s| - 1]]
  }

  lemma {:induction false} InsertDistinct<T(!new)>(s: seq<T>, x: T, le: (T, T) -> bool)
    requires Distinct(s) && x !in s
    ensures Distinct(Insert(s, x, le))
    decreases |s|
  {
    if |s| > 0 && le(s[0], x) {
      var rest := Insert(s[1..], x, le);
      InsertDistinct(s[1..], x, le);
      assert s[0] !in rest by {
        assert s[0] !in multiset(s[1..]);
        assert s[0] !in multiset(rest);
      }
    }
  }

  /** Sorting keeps a sequence free of duplicates. */
  lemma {:induction false} SortDistinct<T(!new)>(s: seq<T>, le: (T, T) -> bool)
    requires Distinct(s)
    ensures Distinct(Sort(s, le))
    decreases |s|
  {
    if |s| > 0 {
      var p, x := s[..|s| - 1], s[|s| - 1];
      SortDistinct(p, le);
      assert x !in Sort(p, le) by {
        assert x !in p;
        assert x !in multiset(Sort(p, le));
      }
      InsertDistinct(Sort(p, le), x, le);
    }
  }

  /** Membership is unchanged by sorting. */
  lemma SortMembers<T>(s: seq<T>, le: (T, T) -> bool)
    ensures forall x :: x in Sort(s, le) <==> x in s
  {
    forall x
      ensures x in Sort(s, le) <==> x in s
    {
      assert x in Sort(s, le) <==> x in multiset(Sort(s, le));
      assert x in s <==> x in multiset(s);
    }
  }
}
