/** Go's `sort.SliceStable` as a function, and the laws about sorting, merging and truncating
    that search, scatter-gather and listing rest on. `less` is the comparator the caller passes. */
module Sorting {

  ghost predicate StrictWeakOrder<T(!new)>(less: (T, T) -> bool)
  {
    && (forall a, b :: less(a, b) ==> !less(b, a))
    && (forall a, b, c :: !less(b, a) && !less(c, b) ==> !less(c, a))
  }

  ghost predicate Sorted<T>(less: (T, T) -> bool, s: seq<T>)
  {
    forall i, j :: 0 <= i < j < |s| ==> !less(s[j], s[i])
  }

  /** Any two entries at different places are ordered one way or the other. */
  ghost predicate Separated<T>(less: (T, T) -> bool, s: seq<T>)
  {
    forall i, j :: 0 <= i < j < |s| ==> less(s[i], s[j]) || less(s[j], s[i])
  }

  /** Puts `x` in front of the first entry that is not before it. */
  function Insert<T>(less: (T, T) -> bool, x: T, s: seq<T>): (r: seq<T>)
  {
    if s == [] || !less(s[0], x) then [x] + s else [s[0]] + Insert(less, x, s[1..])
  }

  /** The stable sort of `s`. */
  function Sort<T>(less: (T, T) -> bool, s: seq<T>): (r: seq<T>)
  {
    if s == [] then [] else Insert(less, s[0], Sort(less, s[1..]))
  }

  /** The stable merge of two sorted sequences. */
  function Merge<T>(less: (T, T) -> bool, a: seq<T>, b: seq<T>): (r: seq<T>)
  {
    if a == [] then b
    else if b == [] then a
    else if !less(b[0], a[0]) then [a[0]] + Merge(less, a[1..], b)
    else [b[0]] + Merge(less, a, b[1..])
  }

  function Take<T>(s: seq<T>, k: nat): (r: seq<T>)
  {
    if |s| > k then s[..k] else s
  }

  lemma {:induction false} InsertPermutes<T>(less: (T, T) -> bool, x: T, s: seq<T>)
    ensures multiset(Insert(less, x, s)) == multiset{x} + multiset(s)
  {
    if s != [] {
      assert s == [s[0]] + s[1..];
      if less(s[0], x) {
        InsertPermutes(less, x, s[1..]);
      }
    }
  }

  lemma {:induction false} InsertSorted<T(!new)>(less: (T, T) -> bool, x: T, s: seq<T>)
    requires StrictWeakOrder(less) && Sorted(less, s)
    ensures Sorted(less, Insert(less, x, s))
  {
    if s != [] && less(s[0], x) {
      var rest := Insert(less, x, s[1..]);
      InsertSorted(less, x, s[1..]);
      InsertPermutes(less, x, s[1..]);
      forall j | 0 <= j < |rest|
        ensures !less(rest[j], s[0])
      {
        assert rest[j] in multiset(rest);
        assert rest[j] == x || rest[j] in s[1..];
      }
    }
  }

  lemma {:induction false} SortPermutes<T>(less: (T, T) -> bool, s: seq<T>)
    ensures multiset(Sort(less, s)) == multiset(s)
    ensures |Sort(less, s)| == |s|
  {
    if s != [] {
      SortPermutes(less, s[1..]);
      InsertPermutes(less, s[0], Sort(less, s[1..]));
      assert s == [s[0]] + s[1..];
    }
    assert |multiset(Sort(less, s))| == |multiset(s)|;
  }

  lemma {:induction false} SortSorts<T(!new)>(less: (T, T) -> bool, s: seq<T>)
    requires StrictWeakOrder(less)
    ensures Sorted(less, Sort(less, s))
  {
    if s != [] {
      SortSorts(less, s[1..]);
      InsertSorted(less, s[0], Sort(less, s[1..]));
    }
  }

  /** Sorting a sorted sequence changes nothing. */
  lemma {:induction false} SortOfSorted<T>(less: (T, T) -> bool, s: seq<T>)
    requires Sorted(less, s)
    ensures Sort(less, s) == s
  {
    if s != [] {
      SortOfSorted(less, s[1..]);
      assert s == [s[0]] + s[1..];
      assert |s| > 1 ==> !less(s[1], s[0]);
    }
  }

  lemma SortedHeadsAgree<T(!new)>(less: (T, T) -> bool, s: seq<T>, t: seq<T>)
    requires StrictWeakOrder(less)
    requires Sorted(less, s) && Sorted(less, t) && Separated(less, s)
    requires s != [] && t != [] && t[0] in s && s[0] in t
    ensures s[0] == t[0]
  {
    var i :| 0 <= i < |s| && s[i] == t[0];
    var j :| 0 <= j < |t| && t[j] == s[0];
    if i > 0 && j > 0 {
      assert false;
    }
  }

  lemma TailMultiset<T>(s: seq<T>)
    requires s != []
    ensures multiset(s[1..]) == multiset(s) - multiset{s[0]}
  {
    assert s == [s[0]] + s[1..];
  }

  /** A multiset whose entries are pairwise ordered has only one sorted listing. */
  lemma {:induction false} SortedListingIsUnique<T(!new)>(less: (T, T) -> bool, s: seq<T>, t: seq<T>)
    requires StrictWeakOrder(less)
    requires Sorted(less, s) && Sorted(less, t)
    requires multiset(s) == multiset(t)
    requires Separated(less, s)
    ensures s == t
    decreases |s|
  {
    assert |multiset(s)| == |s| && |multiset(t)| == |t|;
    if s != [] {
      assert t[0] in multiset(s) && s[0] in multiset(t);
      SortedHeadsAgree(less, s, t);
      hide StrictWeakOrder;
      TailMultiset(s);
      TailMultiset(t);
      SortedListingIsUnique(less, s[1..], t[1..]);
      assert s == [s[0]] + s[1..] && t == [t[0]] + t[1..];
    }
  }

  lemma {:induction false} InsertIntoMerge<T(!new)>(less: (T, T) -> bool, x: T, a: seq<T>, b: seq<T>)
    requires StrictWeakOrder(less)
    ensures Insert(less, x, Merge(less, a, b)) == Merge(less, Insert(less, x, a), b)
    decreases |a| + |b|
  {
    if a == [] {
      if b != [] && less(b[0], x) {
        InsertIntoMerge(less, x, a, b[1..]);
        assert Merge(less, [x], b) == [b[0]] + Merge(less, [x], b[1..]);
      } else if b != [] {
        assert Merge(less, [x], b) == [x] + Merge(less, [x][1..], b);
      }
    } else if b == [] {
    } else if !less(b[0], a[0]) {
      var m := Merge(less, a[1..], b);
      assert Merge(less, a, b)[1..] == m;
      if less(a[0], x) {
        InsertIntoMerge(less, x, a[1..], b);
        assert Insert(less, x, a)[1..] == Insert(less, x, a[1..]);
      } else {
        assert ([x] + a)[1..] == a;
      }
    } else {
      var m := Merge(less, a, b[1..]);
      assert Merge(less, a, b)[1..] == m;
      if less(b[0], x) {
        InsertIntoMerge(less, x, a, b[1..]);
      } else {
        assert ([x] + a)[1..] == a;
      }
    }
  }

  /** Sorting a concatenation is merging the two sorts: the reason scatter-gather works. */
  lemma {:induction false} SortConcat<T(!new)>(less: (T, T) -> bool, a: seq<T>, b: seq<T>)
    requires StrictWeakOrder(less)
    ensures Sort(less, a + b) == Merge(less, Sort(less, a), Sort(less, b))
  {
    if a == [] {
      assert a + b == b;
    } else {
      assert (a + b)[1..] == a[1..] + b;
      SortConcat(less, a[1..], b);
      InsertIntoMerge(less, a[0], Sort(less, a[1..]), Sort(less, b));
    }
  }

  lemma TakeCons<T>(x: T, s: seq<T>, k: nat)
    requires k > 0
    ensures Take([x] + s, k) == [x] + Take(s, k - 1)
  {
  }

  lemma TakeTail<T>(s: seq<T>, k: nat)
    requires s != [] && k > 0
    ensures Take(s, k) != [] && Take(s, k)[0] == s[0] && Take(s, k)[1..] == Take(s[1..], k - 1)
    ensures Take(Take(s, k), k - 1) == Take(s, k - 1)
    ensures |Take(s, k)| <= |s|
  {
  }

  /** The first `k` of a merge depend only on the first `k` of each side. */
  lemma {:induction false} TakeMerge<T>(less: (T, T) -> bool, a: seq<T>, b: seq<T>, k: nat)
    ensures Take(Merge(less, a, b), k) == Take(Merge(less, Take(a, k), Take(b, k)), k)
    decreases |a| + |b|, k
  {
    if k == 0 || a == [] || b == [] {
      return;
    }
    hide Take;
    var a', b' := Take(a, k), Take(b, k);
    TakeTail(a, k);
    TakeTail(b, k);
    if !less(b[0], a[0]) {
      TakeMerge(less, a[1..], b, k - 1);
      TakeMerge(less, a'[1..], b', k - 1);
      TakeTwice(a[1..], k - 1);
      TakeCons(a[0], Merge(less, a[1..], b), k);
      TakeCons(a[0], Merge(less, a'[1..], b'), k);
    } else {
      TakeMerge(less, a, b[1..], k - 1);
      TakeMerge(less, a', b'[1..], k - 1);
      TakeTwice(b[1..], k - 1);
      TakeCons(b[0], Merge(less, a, b[1..]), k);
      TakeCons(b[0], Merge(less, a', b'[1..]), k);
    }
  }

  lemma TakeTwice<T>(s: seq<T>, k: nat)
    ensures Take(Take(s, k), k) == Take(s, k)
  {
  }
}
