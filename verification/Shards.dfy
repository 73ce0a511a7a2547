/** Scatter-gather over shards: `Merge` (internal/shard/merge_results.go) and the placement and collection of
    internal/shard/coordinator.go. */
module Shards {
  import opened Search
  import opened Sorting
  import Text

  // ----- the merge

  function AllHits(results: seq<Result>): seq<Hit>
  {
    if results == [] then [] else AllHits(results[..|results| - 1]) + results[|results| - 1].hits
  }

  function Total(results: seq<Result>): nat
  {
    if results == [] then 0 else Total(results[..|results| - 1]) + results[|results| - 1].total
  }

  function Max(a: nat, b: nat): nat
  {
    if a > b then a else b
  }

  function Newest(results: seq<Result>): nat
  {
    if results == [] then 0 else Max(Newest(results[..|results| - 1]), results[|results| - 1].generation)
  }

  predicate AnyPartial(results: seq<Result>)
  {
    results != [] && (AnyPartial(results[..|results| - 1]) || results[|results| - 1].partial)
  }

  /** A size of zero or less does not truncate. */
  function Truncate(hits: seq<Hit>, size: int): seq<Hit>
  {
    if size > 0 then Take(hits, size) else hits
  }

  function Merged(results: seq<Result>, size: int): Result
  {
    Result(Truncate(Sort(Before, AllHits(results)), size), Total(results), Newest(results), AnyPartial(results), "")
  }

  lemma LastOfPrefix(results: seq<Result>, i: nat)
    requires i < |results|
    ensures results[..i + 1][..i] == results[..i] && results[..i + 1][i] == results[i]
  {
  }

  method Merge(results: seq<Result>, size: int) returns (out: Result)
    ensures out == Merged(results, size)
  {
    out := Result([], 0, 0, false, "");
    for i := 0 to |results|
      invariant out == Result(AllHits(results[..i]), Total(results[..i]), Newest(results[..i]),
        AnyPartial(results[..i]), "")
    {
      LastOfPrefix(results, i);
      out := out.(total := out.total + results[i].total);
      out := out.(generation := Max(out.generation, results[i].generation));
      out := out.(partial := out.partial || results[i].partial);
      out := out.(hits := out.hits + results[i].hits);
    }
    assert results[..|results|] == results;
    out := out.(hits := Sort(Before, out.hits));
    if size > 0 && |out.hits| > size {
      out := out.(hits := out.hits[..size]);
    }
  }

  // ----- top-k

  function Concat(lists: seq<seq<Hit>>): seq<Hit>
  {
    if lists == [] then [] else Concat(lists[..|lists| - 1]) + lists[|lists| - 1]
  }

  lemma {:induction false} AllHitsIsConcat(results: seq<Result>)
    ensures AllHits(results) == Concat(seq(|results|, i requires 0 <= i < |results| => results[i].hits))
  {
    if results != [] {
      var rest := results[..|results| - 1];
      AllHitsIsConcat(rest);
      var lists := seq(|results|, i requires 0 <= i < |results| => results[i].hits);
      assert lists[..|lists| - 1] == seq(|rest|, i requires 0 <= i < |rest| => rest[i].hits);
    }
  }

  /** Every shard ranked its hits and sent the first k. */
  ghost predicate SentTop(full: seq<seq<Hit>>, results: seq<Result>, k: nat)
  {
    && |full| == |results|
    && forall i :: 0 <= i < |results| ==> Sorted(Before, full[i]) && results[i].hits == Take(full[i], k)
  }

  lemma TakeSorted(s: seq<Hit>, k: nat)
    requires Sorted(Before, s)
    ensures Sorted(Before, Take(s, k))
  {
  }

  /** What one more shard adds to the first k. */
  lemma TopOfTwo(a: seq<Hit>, b: seq<Hit>, k: nat)
    requires Sorted(Before, b)
    ensures Take(Sort(Before, a + b), k) == Take(Sorting.Merge(Before, Take(Sort(Before, a), k), Take(b, k)), k)
  {
    BeforeIsAnOrder();
    SortConcat(Before, a, b);
    SortOfSorted(Before, b);
    TakeMerge(Before, Sort(Before, a), b, k);
  }

  lemma {:induction false} TopOfTruncated(full: seq<seq<Hit>>, results: seq<Result>, k: nat)
    requires SentTop(full, results, k)
    ensures Take(Sort(Before, AllHits(results)), k) == Take(Sort(Before, Concat(full)), k)
  {
    if results != [] {
      var n := |results| - 1;
      TopOfTruncated(full[..n], results[..n], k);
      hide Sort;
      TopOfTwo(Concat(full[..n]), full[n], k);
      TakeSorted(full[n], k);
      TopOfTwo(AllHits(results[..n]), results[n].hits, k);
      TakeTwice(full[n], k);
      hide Take, AllHits, Concat, Sorted;
    }
  }

  /** Distributed top-k: merging the first k hits of every shard gives exactly the first k of all their hits
      taken together. Thanks to the stable sort this needs no disjointness of the shards. */
  lemma MergeIsGlobalTop(full: seq<seq<Hit>>, results: seq<Result>, k: nat)
    requires k > 0 && SentTop(full, results, k)
    ensures Merged(results, k).hits == Take(Sort(Before, Concat(full)), k)
  {
    TopOfTruncated(full, results, k);
    hide Sort, SentTop, Take, Concat;
  }

  // ----- shard order

  lemma {:induction false} AllHitsConcat(a: seq<Result>, b: seq<Result>)
    ensures AllHits(a + b) == AllHits(a) + AllHits(b)
    ensures Total(a + b) == Total(a) + Total(b)
    ensures Newest(a + b) == Max(Newest(a), Newest(b))
    ensures AnyPartial(a + b) == (AnyPartial(a) || AnyPartial(b))
  {
    if b == [] {
      assert a + b == a;
    } else {
      assert (a + b)[..|a + b| - 1] == a + b[..|b| - 1];
      AllHitsConcat(a, b[..|b| - 1]);
    }
  }

  lemma OneResult(r: Result)
    ensures AllHits([r]) == r.hits && Total([r]) == r.total && Newest([r]) == r.generation
      && AnyPartial([r]) == r.partial
  {
    assert [r][..0] == [];
  }

  lemma {:induction false} MergePermuted(results: seq<Result>, results': seq<Result>)
    requires multiset(results) == multiset(results')
    ensures multiset(AllHits(results)) == multiset(AllHits(results'))
    ensures Total(results) == Total(results') && Newest(results) == Newest(results')
    ensures AnyPartial(results) == AnyPartial(results')
    decreases |results|
  {
    assert |multiset(results)| == |results| && |multiset(results')| == |results'|;
    if results != [] {
      var n := |results| - 1;
      var last := results[n];
      assert last in multiset(results');
      var j :| 0 <= j < |results'| && results'[j] == last;
      var without := results'[..j] + results'[j + 1..];
      RemoveOne(results', j);
      RemoveOne(results, n);
      assert results[..n] + results[n + 1..] == results[..n];
      MergePermuted(results[..n], without);
    }
  }

  /** Taking one result out. */
  lemma RemoveOne(results: seq<Result>, j: nat)
    requires j < |results|
    ensures
      var without := results[..j] + results[j + 1..];
      && multiset(without) == multiset(results) - multiset{results[j]}
      && multiset(AllHits(results)) == multiset(AllHits(without)) + multiset(results[j].hits)
      && Total(results) == Total(without) + results[j].total
      && Newest(results) == Max(Newest(without), results[j].generation)
      && (AnyPartial(results) <==> AnyPartial(without) || results[j].partial)
  {
    var before, r, after := results[..j], results[j], results[j + 1..];
    WithoutOneMultiset(results, j);
    assert results == before + [r] + after;
    AllHitsConcat(before + [r], after);
    AllHitsConcat(before, [r]);
    AllHitsConcat(before, after);
    OneResult(r);
    hide AllHits, Total, Newest, AnyPartial;
  }

  lemma WithoutOneMultiset(results: seq<Result>, j: nat)
    requires j < |results|
    ensures multiset(results[..j] + results[j + 1..]) == multiset(results) - multiset{results[j]}
  {
    assert results == results[..j] + [results[j]] + results[j + 1..];
  }

  lemma PermutationKeepsDistinct(hits: seq<Hit>, hits': seq<Hit>)
    requires multiset(hits) == multiset(hits') && Separated(Before, hits)
    ensures Sort(Before, hits) == Sort(Before, hits')
  {
    BeforeIsAnOrder();
    SortSorts(Before, hits);
    SortSorts(Before, hits');
    SortPermutes(Before, hits);
    SortPermutes(Before, hits');
    InsertionSeparates(hits);
    hide Separated;
    SortedListingIsUnique(Before, Sort(Before, hits), Sort(Before, hits'));
  }

  lemma {:induction false} InsertionSeparates(hits: seq<Hit>)
    requires Separated(Before, hits)
    ensures Separated(Before, Sort(Before, hits))
  {
    if hits != [] {
      InsertionSeparates(hits[1..]);
      var rest := Sort(Before, hits[1..]);
      SortPermutes(Before, hits[1..]);
      forall h | h in rest
        ensures Before(hits[0], h) || Before(h, hits[0])
      {
        assert h in multiset(rest);
        assert h in hits[1..];
      }
      InsertSeparates(hits[0], rest);
    }
  }

  lemma {:induction false} InsertSeparates(x: Hit, s: seq<Hit>)
    requires Separated(Before, s) && forall h :: h in s ==> Before(x, h) || Before(h, x)
    ensures Separated(Before, Insert(Before, x, s))
  {
    if s != [] && Before(s[0], x) {
      InsertSeparates(x, s[1..]);
      var rest := Insert(Before, x, s[1..]);
      InsertPermutes(Before, x, s[1..]);
      forall j | 0 <= j < |rest|
        ensures Before(s[0], rest[j]) || Before(rest[j], s[0])
      {
        assert rest[j] in multiset(rest);
        assert rest[j] == x || rest[j] in s[1..];
      }
    }
  }

  /** Shards that hold different documents may answer in any order. */
  lemma MergeIgnoresShardOrder(results: seq<Result>, results': seq<Result>, size: int)
    requires multiset(results) == multiset(results') && DistinctIds(AllHits(results))
    ensures Merged(results, size) == Merged(results', size)
  {
    MergePermuted(results, results');
    DistinctIdsSeparate(AllHits(results));
    PermutationKeepsDistinct(AllHits(results), AllHits(results'));
    hide Sort, AllHits, Total, Newest, AnyPartial;
  }

  // ----- grouping

  lemma TopOfSortedFirst(a: seq<Hit>, b: seq<Hit>, size: int)
    ensures Truncate(Sort(Before, Truncate(Sort(Before, a), size) + b), size) == Truncate(Sort(Before, a + b), size)
  {
    BeforeIsAnOrder();
    var sorted := Sort(Before, a);
    SortSorts(Before, a);
    var first := Truncate(sorted, size);
    SortOfSorted(Before, first);
    SortConcat(Before, a, b);
    SortConcat(Before, first, b);
    if size > 0 {
      TakeMerge(Before, sorted, Sort(Before, b), size);
      TakeMerge(Before, first, Sort(Before, b), size);
      TakeTwice(sorted, size);
    }
  }

  lemma TopOfSortedLast(a: seq<Hit>, b: seq<Hit>, size: int)
    ensures Truncate(Sort(Before, a + Truncate(Sort(Before, b), size)), size) == Truncate(Sort(Before, a + b), size)
  {
    BeforeIsAnOrder();
    var sorted := Sort(Before, b);
    SortSorts(Before, b);
    var first := Truncate(sorted, size);
    SortOfSorted(Before, first);
    SortConcat(Before, a, b);
    SortConcat(Before, a, first);
    if size > 0 {
      TakeMerge(Before, Sort(Before, a), sorted, size);
      TakeMerge(Before, Sort(Before, a), first, size);
      TakeTwice(sorted, size);
    }
  }

  /** Every group merged by itself. */
  function MergedGroups(groups: seq<seq<Result>>, size: int): seq<Result>
  {
    if groups == [] then []
    else MergedGroups(groups[..|groups| - 1], size) + [Merged(groups[|groups| - 1], size)]
  }

  function Flat(groups: seq<seq<Result>>): seq<Result>
  {
    if groups == [] then [] else Flat(groups[..|groups| - 1]) + groups[|groups| - 1]
  }

  /** One more group, whether merged by itself or not. */
  lemma OneMoreGroup(a: seq<Result>, a': seq<Result>, g: seq<Result>, size: int)
    requires Merged(a, size) == Merged(a', size)
    ensures Merged(a + [Merged(g, size)], size) == Merged(a' + g, size)
  {
    var group := Merged(g, size);
    AllHitsConcat(a, [group]);
    AllHitsConcat(a', g);
    OneResult(group);
    hide Sort, AllHits, Total, Newest, AnyPartial, Truncate;
    TopOfSortedLast(AllHits(a), AllHits(g), size);
    TopOfSortedFirst(AllHits(a), AllHits(g), size);
    TopOfSortedFirst(AllHits(a'), AllHits(g), size);
  }

  /** Merging in groups: the shards may be merged in any consecutive groups first, and the merges of the groups after
      that; nothing is lost. */
  lemma {:induction false} MergeInGroups(groups: seq<seq<Result>>, size: int)
    ensures Merged(MergedGroups(groups, size), size) == Merged(Flat(groups), size)
    decreases |groups|
  {
    if groups != [] {
      var rest, last := groups[..|groups| - 1], groups[|groups| - 1];
      MergeInGroups(rest, size);
      hide Merged;
      OneMoreGroup(MergedGroups(rest, size), Flat(rest), last, size);
    }
  }

  // ----- what a merge is

  /** Higher scores first, and among equal scores no id behind a greater one. */
  ghost predicate Descends(hits: seq<Hit>)
  {
    forall i, j :: 0 <= i < j < |hits| ==>
      || hits[i].score > hits[j].score
      || (hits[i].score == hits[j].score && (hits[i].id == hits[j].id || Text.Less(hits[i].id, hits[j].id)))
  }

  /** The merge shows the best hits of all shards, and `rest` are the others; there are none if the size is zero or
      less, or if the merge is shorter than it. */
  ghost predicate ShowsBest(results: seq<Result>, size: int, shown: seq<Hit>, rest: seq<Hit>)
  {
    && multiset(shown) + multiset(rest) == multiset(AllHits(results)) && Descends(shown + rest)
    && (size > 0 ==> |shown| <= size)
    && (size <= 0 || |shown| < size ==> rest == [])
  }

  /** Its generation is the highest of the shards', and it is partial if one of theirs is. */
  lemma MergedMeans(results: seq<Result>, size: int)
    ensures exists rest :: ShowsBest(results, size, Merged(results, size).hits, rest)
    ensures
      var out := Merged(results, size);
      && (forall i :: 0 <= i < |results| ==> results[i].generation <= out.generation)
      && (if results == [] then out.generation == 0
          else exists i :: 0 <= i < |results| && results[i].generation == out.generation)
      && (out.partial <==> exists i :: 0 <= i < |results| && results[i].partial)
      && out.nextCursor == ""
  {
    BestIsShown(results, size);
    NewestIs(results);
    var rest :| ShowsBest(results, size, Merged(results, size).hits, rest);
    hide Sort, AllHits, Total, Newest, AnyPartial, Truncate, ShowsBest;
  }

  lemma {:induction false} NewestIs(results: seq<Result>)
    ensures forall i :: 0 <= i < |results| ==> results[i].generation <= Newest(results)
    ensures results == [] ==> Newest(results) == 0
    ensures results != [] ==> exists i :: 0 <= i < |results| && results[i].generation == Newest(results)
    ensures AnyPartial(results) <==> exists i :: 0 <= i < |results| && results[i].partial
  {
    if results != [] {
      var n := |results| - 1;
      NewestIs(results[..n]);
      assert forall i :: 0 <= i < n ==> results[..n][i] == results[i];
      assert results[n].generation == Newest(results) || (n > 0 && Newest(results[..n]) == Newest(results));
    }
  }

  lemma SortedDescends(hits: seq<Hit>)
    requires Sorted(Before, hits)
    ensures Descends(hits)
  {
    forall i, j | 0 <= i < j < |hits| && hits[i].score == hits[j].score
      ensures hits[i].id == hits[j].id || Text.Less(hits[i].id, hits[j].id)
    {
      Text.LessTotal(hits[i].id, hits[j].id);
    }
  }

  lemma CutInTwo(all: seq<Hit>, size: int)
    ensures
      var first := Truncate(all, size);
      var rest := all[|first|..];
      && all == first + rest && multiset(all) == multiset(first) + multiset(rest)
      && (size > 0 ==> |first| <= size) && (size <= 0 || |first| < size ==> rest == [])
  {
    assert all == Truncate(all, size) + all[|Truncate(all, size)|..];
  }

  lemma BestIsShown(results: seq<Result>, size: int)
    ensures exists rest :: ShowsBest(results, size, Merged(results, size).hits, rest)
  {
    var all := Sort(Before, AllHits(results));
    BeforeIsAnOrder();
    SortSorts(Before, AllHits(results));
    SortPermutes(Before, AllHits(results));
    SortedDescends(all);
    CutInTwo(all, size);
    hide Sort, Sorted, Before, Descends, AllHits, Truncate, StrictWeakOrder;
    var shown := Merged(results, size).hits;
    assert ShowsBest(results, size, shown, all[|shown|..]);
  }
}
