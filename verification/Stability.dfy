/** The sort of Sorting is the stable one, `sort.SliceStable`: it is the only sorted sequence that keeps ties in the
    order they came in. */
module Stability {
  import opened Sorting

  predicate Tied<T>(less: (T, T) -> bool, a: T, b: T)
  {
    !less(a, b) && !less(b, a)
  }

  /** The entries tied with x, in their order. */
  function Ties<T>(less: (T, T) -> bool, s: seq<T>, x: T): seq<T>
  {
    if s == [] then [] else (if Tied(less, x, s[0]) then [s[0]] else []) + Ties(less, s[1..], x)
  }

  lemma {:induction false} InsertKeepsTies<T(!new)>(less: (T, T) -> bool, x: T, s: seq<T>, y: T)
    requires StrictWeakOrder(less)
    ensures Ties(less, Insert(less, x, s), y) == Ties(less, [x] + s, y)
  {
    assert ([x] + s)[1..] == s;
    if s != [] && less(s[0], x) {
      InsertKeepsTies(less, x, s[1..], y);
      assert ([x] + s[1..])[1..] == s[1..];
      assert !(Tied(less, y, s[0]) && Tied(less, y, x));
    }
  }

  /** The sort is stable: ties stay in the order they came in. */
  lemma {:induction false} SortKeepsTies<T(!new)>(less: (T, T) -> bool, s: seq<T>, y: T)
    requires StrictWeakOrder(less)
    ensures Ties(less, Sort(less, s), y) == Ties(less, s, y)
  {
    if s != [] {
      SortKeepsTies(less, s[1..], y);
      InsertKeepsTies(less, s[0], Sort(less, s[1..]), y);
      assert ([s[0]] + Sort(less, s[1..]))[1..] == Sort(less, s[1..]);
    }
  }

  lemma {:induction false} TiesAreMembers<T>(less: (T, T) -> bool, s: seq<T>, y: T)
    ensures forall z :: z in Ties(less, s, y) ==> z in s && Tied(less, y, z)
    ensures forall z :: z in s && Tied(less, y, z) ==> z in Ties(less, s, y)
  {
    if s != [] {
      TiesAreMembers(less, s[1..], y);
      assert s == [s[0]] + s[1..];
    }
  }

  /** Every entry has the same ties, in the same order, on both sides. */
  ghost predicate SameTies<T(!new)>(less: (T, T) -> bool, s: seq<T>, t: seq<T>)
  {
    forall y :: Ties(less, s, y) == Ties(less, t, y)
  }

  lemma SameTiesSameMembers<T(!new)>(less: (T, T) -> bool, s: seq<T>, t: seq<T>, x: T)
    requires StrictWeakOrder(less) && SameTies(less, s, t) && x in s
    ensures x in t
  {
    TiesAreMembers(less, s, x);
    TiesAreMembers(less, t, x);
    assert Ties(less, s, x) == Ties(less, t, x);
    hide Ties;
    assert !less(x, x);
  }

  lemma TiedHeadsAgree<T(!new)>(less: (T, T) -> bool, s: seq<T>, t: seq<T>)
    requires StrictWeakOrder(less) && Sorted(less, s) && Sorted(less, t) && s != [] && t != []
    requires SameTies(less, s, t)
    ensures s[0] == t[0]
  {
    SameTiesSameMembers(less, s, t, s[0]);
    SameTiesSameMembers(less, t, s, t[0]);
    assert Ties(less, s, s[0]) == Ties(less, t, s[0]);
    var i :| 0 <= i < |s| && s[i] == t[0];
    var j :| 0 <= j < |t| && t[j] == s[0];
    assert !less(s[0], s[0]);
    assert Tied(less, s[0], t[0]);
    assert Ties(less, s, s[0])[0] == s[0] && Ties(less, t, s[0])[0] == t[0];
  }

  lemma SameTiesTail<T(!new)>(less: (T, T) -> bool, s: seq<T>, t: seq<T>)
    requires s != [] && t != [] && s[0] == t[0] && SameTies(less, s, t)
    ensures SameTies(less, s[1..], t[1..])
  {
    forall y
      ensures Ties(less, s[1..], y) == Ties(less, t[1..], y)
    {
      assert Ties(less, s, y) == Ties(less, t, y);
      var head := if Tied(less, y, s[0]) then [s[0]] else [];
      assert Ties(less, s, y)[|head|..] == Ties(less, s[1..], y);
      assert Ties(less, t, y)[|head|..] == Ties(less, t[1..], y);
    }
  }

  /** There is only one sorted sequence with the same ties in the same order. */
  lemma {:induction false} StableSortIsUnique<T(!new)>(less: (T, T) -> bool, s: seq<T>, t: seq<T>)
    requires StrictWeakOrder(less) && Sorted(less, s) && Sorted(less, t) && SameTies(less, s, t)
    ensures s == t
    decreases |s|
  {
    if s == [] && t != [] {
      SameTiesSameMembers(less, t, s, t[0]);
    }
    hide StrictWeakOrder, SameTies;
    if s != [] {
      SameTiesSameMembers(less, s, t, s[0]);
      TiedHeadsAgree(less, s, t);
      SameTiesTail(less, s, t);
      StableSortIsUnique(less, s[1..], t[1..]);
      assert s == [s[0]] + s[1..] && t == [t[0]] + t[1..];
    }
  }

  /** So `Sort` is what a stable sort must return: the one sequence that is sorted and keeps ties in order. */
  lemma SortIsTheStableSort<T(!new)>(less: (T, T) -> bool, s: seq<T>, t: seq<T>)
    requires StrictWeakOrder(less)
    ensures t == Sort(less, s) <==> Sorted(less, t) && SameTies(less, t, s)
  {
    SortSorts(less, s);
    forall y
      ensures Ties(less, Sort(less, s), y) == Ties(less, s, y)
    {
      SortKeepsTies(less, s, y);
    }
    hide StrictWeakOrder, Sorted, Sort, Ties;
    if Sorted(less, t) && SameTies(less, t, s) {
      StableSortIsUnique(less, t, Sort(less, s));
    }
  }
}
