/** Scatter-gather against one engine that holds everything (internal/shard/coordinator.go,
    internal/shard/merge_results.go): every shard scores with its own number of documents. */
module OneEngine {
  import opened Documents
  import opened Matching
  import opened MatchingLaws
  import opened Query
  import opened ScatterGather
  import opened Scoring
  import opened Search
  import opened ShardCoordinator
  import opened Shards
  import opened Sorting
  import Text
  import opened Totals

  /** The shards have one analyzer and logarithm, are placed by their route, and together hold exactly these
      documents. */
  ghost predicate Holds(vs: seq<ShardView>, route: string -> int, s: Setup, all: map<string, Document>)
  {
    && Placed(vs, route) && WellKeyed(all)
    && (forall i :: 0 <= i < |vs| ==> vs[i].setup == s)
    && (forall i, id :: 0 <= i < |vs| && id in vs[i].view ==> id in all && all[id] == vs[i].view[id])
    && (forall id :: id in all ==> exists i :: 0 <= i < |vs| && id in vs[i].view)
  }

  /** All shards' hits ranked together; and those of one engine. */
  ghost function Sharded(vs: seq<ShardView>, r: Request): seq<Hit>
  {
    Sort(Before, Concat(Rankings(vs, r)))
  }

  // ----- hits

  /** A document is a hit or not, whatever it is scored with. */
  lemma HitOrNot(s: Setup, r: Request, d: Document, n: nat, m: nat)
    ensures IsHit(s, r, d, n) <==> IsHit(s, r, d, m)
    ensures IsHit(s, r, d, n) ==> Satisfies(s, r.query, d)
  {
    EvaluateMeans(s, r.query, d, n);
    EvaluateMeans(s, r.query, d, m);
    forall i | 0 <= i < |r.filters|
      ensures Evaluate(s, r.filters[i], d, n).matched <==> Evaluate(s, r.filters[i], d, m).matched
    {
      EvaluateMeans(s, r.filters[i], d, n);
      EvaluateMeans(s, r.filters[i], d, m);
    }
    hide Evaluate, Satisfies;
  }

  /** Two numbers of documents make the same hit of a document if and only if they are equal or its score owes nothing
      to text. */
  lemma SameHitIff(s: Setup, r: Request, d: Document, n: nat, m: nat)
    requires LogLaws(s.log) && n > 0 && m > 0 && IsHit(s, r, d, n)
    ensures HitOf(s, r, d, n) == HitOf(s, r, d, m) <==> n == m || !Weighs(s, r.query, d)
  {
    HitOrNot(s, r, d, n, m);
    hide IsHit, Evaluate, Weighs, Satisfies, LogLaws;
    OutcomesAgreeIff(s, r.query, d, n, m);
  }

  /** The hits of a ranking are those of the view's documents. */
  lemma RankedIff(s: Setup, r: Request, view: map<string, Document>, h: Hit)
    requires WellKeyed(view)
    ensures h in Ranking(s, r, view) <==>
      exists id :: id in view && IsHit(s, r, view[id], |view|) && h == HitOf(s, r, view[id], |view|)
    ensures h in Ranking(s, r, view) ==>
      h.id in view && IsHit(s, r, view[h.id], |view|) && h == HitOf(s, r, view[h.id], |view|)
  {
    RankingIsUnique(s, r, view, []);
    var hits, ranking := HitsAmong(s, r, view, view.Keys), Ranking(s, r, view);
    assert h in ranking <==> h in multiset(ranking);
    assert h in multiset(hits) <==> h in hits;
    hide Ranking, IsHit, Evaluate;
  }

  lemma {:induction false} InConcat(lists: seq<seq<Hit>>, h: Hit)
    ensures h in Concat(lists) <==> exists i :: 0 <= i < |lists| && h in lists[i]
    decreases |lists|
  {
    if lists != [] {
      var k := |lists| - 1;
      InConcat(lists[..k], h);
      assert forall i :: 0 <= i < k ==> lists[..k][i] == lists[i];
    }
  }

  lemma InSort(hits: seq<Hit>, h: Hit)
    ensures h in Sort(Before, hits) <==> h in hits
  {
    hide Sort, Before;
    SortPermutes(Before, hits);
    assert h in hits <==> h in multiset(hits);
    assert h in Sort(Before, hits) <==> h in multiset(Sort(Before, hits));
  }

  lemma ShardedIff(vs: seq<ShardView>, r: Request, h: Hit)
    ensures h in Sharded(vs, r) <==> exists i :: 0 <= i < |vs| && h in RankingOf(vs[i], r)
  {
    hide Sort, Concat, RankingOf, Before;
    var full := Rankings(vs, r);
    InSort(Concat(full), h);
    InConcat(full, h);
    assert forall i :: 0 <= i < |vs| ==> full[i] == RankingOf(vs[i], r);
  }

  /** The shard that holds a document. */
  ghost function ShardOf(vs: seq<ShardView>, id: string): (i: nat)
    requires exists i :: 0 <= i < |vs| && id in vs[i].view
    ensures i < |vs| && id in vs[i].view
  {
    var i :| 0 <= i < |vs| && id in vs[i].view;
    i
  }

  lemma OnlyShard(vs: seq<ShardView>, route: string -> int, s: Setup, all: map<string, Document>, id: string, i: nat)
    requires Holds(vs, route, s, all) && i < |vs| && id in vs[i].view
    ensures id in all && ShardOf(vs, id) == i
  {
    var j := ShardOf(vs, id);
    assert route(id) == vs[i].id && route(id) == vs[j].id;
  }

  /** A document is scored by its shard as by one engine: they hold the same number of documents, or its score owes
      nothing to text. */
  ghost predicate SharesScore(vs: seq<ShardView>, s: Setup, r: Request, all: map<string, Document>, id: string)
    requires id in all && exists i :: 0 <= i < |vs| && id in vs[i].view
  {
    |vs[ShardOf(vs, id)].view| == |all| || !Weighs(s, r.query, all[id])
  }

  lemma NotEmpty<T>(m: map<string, T>, id: string)
    requires id in m
    ensures |m| > 0
  {
    assert |m| == |m.Keys|;
  }

  /** The two hits of one document, as its shard and as one engine rank it. */
  lemma TwoHits(vs: seq<ShardView>, route: string -> int, s: Setup, r: Request, all: map<string, Document>, id: string)
    requires Holds(vs, route, s, all) && LogLaws(s.log) && id in all
    ensures
      var n, m, d := |vs[ShardOf(vs, id)].view|, |all|, all[id];
      && (IsHit(s, r, d, n) <==> IsHit(s, r, d, m))
      && (IsHit(s, r, d, m) ==>
           && HitOf(s, r, d, n) in Sharded(vs, r) && HitOf(s, r, d, m) in Ranking(s, r, all)
           && HitOf(s, r, d, n).id == HitOf(s, r, d, m).id == id
           && (HitOf(s, r, d, n) == HitOf(s, r, d, m) <==> SharesScore(vs, s, r, all, id)))
  {
    var v := vs[ShardOf(vs, id)];
    var n, m, d := |v.view|, |all|, all[id];
    assert v.view[id] == d && v.setup == s && d.id == id;
    HitOrNot(s, r, d, n, m);
    if IsHit(s, r, d, m) {
      NotEmpty(v.view, id);
      NotEmpty(all, id);
      SameHitIff(s, r, d, n, m);
      RankedIff(s, r, v.view, HitOf(s, r, d, n));
      RankedIff(s, r, all, HitOf(s, r, d, m));
      ShardedIff(vs, r, HitOf(s, r, d, n));
      hide IsHit, Ranking, Sharded, Evaluate, Weighs, LogLaws;
      assert HitOf(s, r, d, n) in RankingOf(v, r);
    }
  }

  /** Every hit of the shards is such a hit; and so is every hit of one engine. */
  lemma HitsAreDocuments(vs: seq<ShardView>, route: string -> int, s: Setup, r: Request, all: map<string, Document>,
                         h: Hit)
    requires Holds(vs, route, s, all)
    ensures h in Sharded(vs, r) ==>
      h.id in all && IsHit(s, r, all[h.id], |vs[ShardOf(vs, h.id)].view|)
      && h == HitOf(s, r, all[h.id], |vs[ShardOf(vs, h.id)].view|)
    ensures h in Ranking(s, r, all) ==>
      h.id in all && IsHit(s, r, all[h.id], |all|) && h == HitOf(s, r, all[h.id], |all|)
  {
    RankedIff(s, r, all, h);
    ShardedIff(vs, r, h);
    hide IsHit, HitOf, Ranking, Sharded;
    if h in Sharded(vs, r) {
      var i :| 0 <= i < |vs| && h in RankingOf(vs[i], r);
      RankedIff(s, r, vs[i].view, h);
      OnlyShard(vs, route, s, all, h.id, i);
    }
  }

  // ----- what is found

  lemma RankingIsRouted(v: ShardView, route: string -> int, r: Request)
    requires WellKeyed(v.view) && forall id :: id in v.view ==> route(id) == v.id
    ensures DistinctIds(RankingOf(v, r)) && RoutedTo(RankingOf(v, r), route, v.id)
  {
    RankingIsUnique(v.setup, r, v.view, []);
    hide Ranking;
    forall h | h in RankingOf(v, r)
      ensures route(h.id) == v.id
    {
      RankedAreViewed(v.setup, r, v.view, h);
    }
  }

  lemma RankedSort(hits: seq<Hit>)
    requires DistinctIds(hits)
    ensures Sorted(Before, Sort(Before, hits)) && DistinctIds(Sort(Before, hits)) && |Sort(Before, hits)| == |hits|
  {
    BeforeIsAnOrder();
    hide Before, DistinctIds, Sorted, Sort;
    SortSorts(Before, hits);
    SortPermutes(Before, hits);
    PermutedIds(hits, Sort(Before, hits));
  }

  lemma PermutedIds(hits: seq<Hit>, hits': seq<Hit>)
    requires DistinctIds(hits) && multiset(hits) == multiset(hits')
    ensures DistinctIds(hits') && |hits| == |hits'|
  {
    assert |multiset(hits)| == |hits| && |multiset(hits')| == |hits'|;
    forall i, j | 0 <= i < j < |hits'|
      ensures hits'[i].id != hits'[j].id
    {
      assert hits'[i] in multiset(hits') && hits'[j] in multiset(hits');
      if hits'[i].id == hits'[j].id {
        SameIdSameHit(hits, hits'[i], hits'[j]);
        ListedTwice(hits', i, j);
        OnceOnly(hits, hits'[i]);
      }
    }
  }

  lemma ShardedIsRanked(vs: seq<ShardView>, route: string -> int, r: Request)
    requires Placed(vs, route)
    ensures Sorted(Before, Sharded(vs, r)) && DistinctIds(Sharded(vs, r))
    ensures |Sharded(vs, r)| == |Concat(Rankings(vs, r))|
  {
    hide RankingOf, Sort, Concat, DistinctIds, RoutedTo, Sorted, WellKeyed, Before;
    var full := Rankings(vs, r);
    forall i | 0 <= i < |vs|
      ensures DistinctIds(full[i]) && RoutedTo(full[i], route, vs[i].id)
    {
      RankingIsRouted(vs[i], route, r);
    }
    var order := seq(|vs|, i requires 0 <= i < |vs| => vs[i].id);
    RoutedAreDistinct(full, route, order);
    RankedSort(Concat(full));
  }

  lemma {:induction false} AtMostAsManyIds(a: seq<Hit>, b: seq<Hit>)
    requires DistinctIds(a) && forall h :: h in a ==> Finds(b, h.id)
    ensures |a| <= |b|
    decreases |a|
  {
    if a != [] {
      var rest, last := a[..|a| - 1], a[|a| - 1];
      assert last in a && Finds(b, last.id);
      var h' :| h' in b && h'.id == last.id;
      var k :| 0 <= k < |b| && b[k] == h';
      var b' := b[..k] + b[k + 1..];
      forall h | h in rest
        ensures Finds(b', h.id)
      {
        assert h in a && h.id != last.id && Finds(b, h.id);
        var x :| x in b && x.id == h.id;
        assert x in b';
      }
      AtMostAsManyIds(rest, b');
    }
  }

  ghost predicate Finds(hits: seq<Hit>, id: string)
  {
    exists h :: h in hits && h.id == id
  }

  lemma FoundTwice(vs: seq<ShardView>, route: string -> int, s: Setup, r: Request, all: map<string, Document>, h: Hit)
    requires Holds(vs, route, s, all) && LogLaws(s.log) && (h in Sharded(vs, r) || h in Ranking(s, r, all))
    ensures Finds(Sharded(vs, r), h.id) && Finds(Ranking(s, r, all), h.id)
  {
    HitsAreDocuments(vs, route, s, r, all, h);
    TwoHits(vs, route, s, r, all, h.id);
    hide Holds, Sharded, Ranking, IsHit, HitOf, SharesScore, LogLaws;
  }

  /** The shards together find exactly the documents that one engine finds, and as many. */
  lemma SameDocumentsFound(vs: seq<ShardView>, route: string -> int, s: Setup, r: Request, all: map<string, Document>)
    requires Holds(vs, route, s, all) && LogLaws(s.log)
    ensures forall id :: Finds(Sharded(vs, r), id) <==> Finds(Ranking(s, r, all), id)
    ensures |Sharded(vs, r)| == |Concat(Rankings(vs, r))| == |Ranking(s, r, all)|
  {
    ShardedIsRanked(vs, route, r);
    RankingIsUnique(s, r, all, []);
    hide Holds, Sharded, Ranking, LogLaws, Concat, Rankings, IsRanking, DistinctIds;
    var x, y := Sharded(vs, r), Ranking(s, r, all);
    forall h | h in x || h in y
      ensures Finds(x, h.id) && Finds(y, h.id)
    {
      FoundTwice(vs, route, s, r, all, h);
    }
    AtMostAsManyIds(x, y);
    AtMostAsManyIds(y, x);
  }

  // ----- what is shown first

  lemma TakeIsPrefix(x: seq<Hit>, k: nat)
    ensures Take(x, k) <= x && |Take(x, k)| == if |x| > k then k else |x|
    ensures forall h :: h in Take(x, k) ==> h in x
  {
  }

  /** What is not among the first k comes behind them. */
  lemma BehindTheFirst(x: seq<Hit>, k: nat, h: Hit, first: Hit)
    requires Sorted(Before, x) && DistinctIds(x) && h in x && h !in Take(x, k) && first in Take(x, k)
    ensures Before(first, h)
  {
    var i :| 0 <= i < |Take(x, k)| && Take(x, k)[i] == first;
    var j :| 0 <= j < |x| && x[j] == h;
    assert forall m :: 0 <= m < |Take(x, k)| ==> Take(x, k)[m] == x[m];
    assert x[i] == first && i < j;
    DistinctIdsSeparate(x);
  }

  lemma {:induction false} SubsetOfSameSize(a: seq<Hit>, b: seq<Hit>, h: Hit)
    requires DistinctIds(a) && DistinctIds(b) && |a| == |b| && (forall x :: x in a ==> x in b) && h in b
    ensures h in a
  {
    if h !in a {
      var a' := a + [h];
      forall i, j | 0 <= i < j < |a'|
        ensures a'[i].id != a'[j].id
      {
        if j == |a| && a[i].id == h.id {
          assert a[i] in a && a[i] in b;
          SameIdSameHit(b, a[i], h);
        }
      }
      assert forall x :: x in a' ==> x in b && Finds(b, x.id);
      AtMostAsManyIds(a', b);
    }
  }

  lemma SameIdSameHit(b: seq<Hit>, x: Hit, y: Hit)
    requires DistinctIds(b) && x in b && y in b && x.id == y.id
    ensures x == y
  {
    var i :| 0 <= i < |b| && b[i] == x;
    var j :| 0 <= j < |b| && b[j] == y;
  }

  /** If the first k of either ranking are in the other one too, they are the same. */
  lemma TopsAgree(x: seq<Hit>, y: seq<Hit>, k: nat)
    requires Sorted(Before, x) && DistinctIds(x) && Sorted(Before, y) && DistinctIds(y) && |x| == |y|
    requires (forall h :: h in Take(x, k) ==> h in y) && (forall h :: h in Take(y, k) ==> h in x)
    ensures Take(x, k) == Take(y, k)
  {
    var p, q := Take(x, k), Take(y, k);
    TakeIsPrefix(x, k);
    TakeIsPrefix(y, k);
    PrefixIsRanked(x, p);
    PrefixIsRanked(y, q);
    forall h | h in p
      ensures h in q
    {
      if h !in q {
        var o := SomeOther(q, p, h);
        BehindTheFirst(y, k, h, o);
        BehindTheFirst(x, k, o, h);
        BeforeIsAnOrder();
        assert false;
      }
    }
    hide Take;
    SameMembersSameRanking(p, q);
  }

  /** Of two sequences of the same size, one has an entry the other lacks if the other does. */
  lemma SomeOther(q: seq<Hit>, p: seq<Hit>, h: Hit) returns (o: Hit)
    requires DistinctIds(p) && DistinctIds(q) && |p| == |q| && h in p && h !in q
    ensures o in q && o !in p
  {
    if forall x :: x in q ==> x in p {
      SubsetOfSameSize(q, p, h);
      o := h;
    } else {
      o :| o in q && o !in p;
    }
  }

  lemma PrefixIsRanked(x: seq<Hit>, p: seq<Hit>)
    requires Sorted(Before, x) && DistinctIds(x) && p <= x
    ensures Sorted(Before, p) && DistinctIds(p)
  {
    hide Before;
    assert forall i :: 0 <= i < |p| ==> p[i] == x[i];
  }

  lemma SameMembersSameRanking(p: seq<Hit>, q: seq<Hit>)
    requires Sorted(Before, p) && DistinctIds(p) && Sorted(Before, q) && DistinctIds(q) && |p| == |q|
    requires forall h :: h in p ==> h in q
    ensures p == q
  {
    forall h
      ensures multiset(p)[h] == multiset(q)[h]
    {
      OnceOnly(p, h);
      OnceOnly(q, h);
      if h in q {
        SubsetOfSameSize(p, q, h);
      }
    }
    assert multiset(p) == multiset(q);
    BeforeIsAnOrder();
    DistinctIdsSeparate(p);
    SortedListingIsUnique(Before, p, q);
  }

  lemma {:induction false} OnceOnly(p: seq<Hit>, h: Hit)
    requires DistinctIds(p)
    ensures multiset(p)[h] == if h in p then 1 else 0
    decreases |p|
  {
    if p != [] {
      var k := |p| - 1;
      assert p == p[..k] + [p[k]];
      OnceOnly(p[..k], h);
      assert multiset(p) == multiset(p[..k]) + multiset{p[k]};
      assert p[k] !in p[..k];
    }
  }

  /** Every hit among these is scored by its shard as by one engine. */
  ghost predicate AllShare(vs: seq<ShardView>, route: string -> int, s: Setup, r: Request, all: map<string, Document>,
                           hits: seq<Hit>)
    requires Holds(vs, route, s, all)
  {
    forall h :: h in hits && h.id in all ==> SharesScore(vs, s, r, all, h.id)
  }

  /** A hit of the shards is a hit of one engine, and the other way round, if and only if its score is shared. */
  lemma InBothIff(vs: seq<ShardView>, route: string -> int, s: Setup, r: Request, all: map<string, Document>, h: Hit)
    requires Holds(vs, route, s, all) && LogLaws(s.log) && (h in Sharded(vs, r) || h in Ranking(s, r, all))
    ensures h.id in all
    ensures h in Sharded(vs, r) && h in Ranking(s, r, all) <==> SharesScore(vs, s, r, all, h.id)
  {
    HitsAreDocuments(vs, route, s, r, all, h);
    TwoHits(vs, route, s, r, all, h.id);
    hide Holds, Sharded, Ranking, IsHit, HitOf, SharesScore, LogLaws;
  }

  /** When the first page of the shards is the first page of one engine: if and only if on both pages every hit comes
      from a shard that holds as many documents as there are, so all of them, or owes nothing of its score to text. */
  lemma PagesAgreeIff(vs: seq<ShardView>, route: string -> int, s: Setup, r: Request, all: map<string, Document>,
                      size: nat)
    requires Holds(vs, route, s, all) && LogLaws(s.log)
    ensures
      var page, one := Take(Sharded(vs, r), size), Take(Ranking(s, r, all), size);
      page == one <==> AllShare(vs, route, s, r, all, page) && AllShare(vs, route, s, r, all, one)
  {
    var page, one := Take(Sharded(vs, r), size), Take(Ranking(s, r, all), size);
    ShardedIsRanked(vs, route, r);
    RankingIsUnique(s, r, all, []);
    SameDocumentsFound(vs, route, s, r, all);
    TakeIsPrefix(Sharded(vs, r), size);
    TakeIsPrefix(Ranking(s, r, all), size);
    hide Holds, Sharded, Ranking, SharesScore, LogLaws, Take, Sorted, DistinctIds, Concat, Rankings;
    forall h | h in page || h in one
      ensures h.id in all && (h in Sharded(vs, r) && h in Ranking(s, r, all) <==> SharesScore(vs, s, r, all, h.id))
    {
      InBothIff(vs, route, s, r, all, h);
    }
    if AllShare(vs, route, s, r, all, page) && AllShare(vs, route, s, r, all, one) {
      TopsAgree(Sharded(vs, r), Ranking(s, r, all), size);
    }
  }

  /** One shard holds everything. */
  ghost predicate OneHoldsAll(vs: seq<ShardView>, all: map<string, Document>)
  {
    exists i :: 0 <= i < |vs| && |vs[i].view| == |all|
  }

  lemma {:induction false} AsManyIsAll(part: map<string, Document>, all: map<string, Document>)
    requires part.Keys <= all.Keys && |part| == |all|
    ensures part.Keys == all.Keys
  {
    assert |part| == |part.Keys| && |all| == |all.Keys|;
    if part.Keys != all.Keys {
      SubsetIsSmaller(part.Keys, all.Keys);
    }
  }

  lemma SubsetIsSmaller(a: set<string>, b: set<string>)
    requires a < b
    ensures |a| < |b|
  {
    assert b == a + (b - a) && a !! (b - a) && b - a != {};
  }

  lemma SharedIfOneHoldsAll(vs: seq<ShardView>, route: string -> int, s: Setup, r: Request, all: map<string, Document>,
                            id: string)
    requires Holds(vs, route, s, all) && OneHoldsAll(vs, all) && id in all
    ensures SharesScore(vs, s, r, all, id)
  {
    var i :| 0 <= i < |vs| && |vs[i].view| == |all|;
    ViewIsWithin(vs, route, s, all, i);
    AsManyIsAll(vs[i].view, all);
    OnlyShard(vs, route, s, all, id, i);
    hide Holds, Weighs;
  }

  lemma ViewIsWithin(vs: seq<ShardView>, route: string -> int, s: Setup, all: map<string, Document>, i: nat)
    requires Holds(vs, route, s, all) && i < |vs|
    ensures vs[i].view.Keys <= all.Keys
  {
  }

  /** For a text query: if and only if nothing is found or one shard holds everything. */
  lemma TextPagesAgreeIff(vs: seq<ShardView>, route: string -> int, s: Setup, r: Request, all: map<string, Document>,
                          size: nat)
    requires Holds(vs, route, s, all) && LogLaws(s.log) && IsTextKind(r.query.kind) && size >= 1
    ensures Take(Sharded(vs, r), size) == Take(Ranking(s, r, all), size)
      <==> Ranking(s, r, all) == [] || OneHoldsAll(vs, all)
  {
    var page, one := Take(Sharded(vs, r), size), Take(Ranking(s, r, all), size);
    PagesAgreeIff(vs, route, s, r, all, size);
    SameDocumentsFound(vs, route, s, r, all);
    TakeIsPrefix(Sharded(vs, r), size);
    TakeIsPrefix(Ranking(s, r, all), size);
    hide Sharded, Ranking, Take, Satisfies, Concat, Rankings;
    if OneHoldsAll(vs, all) {
      hide Holds, SharesScore;
      forall id | id in all
        ensures SharesScore(vs, s, r, all, id)
      {
        SharedIfOneHoldsAll(vs, route, s, r, all, id);
      }
    } else if Ranking(s, r, all) != [] {
      var h := one[0];
      assert h in one;
      HitsAreDocuments(vs, route, s, r, all, h);
      TextWeighs(vs, s, r, all, h.id);
    }
  }

  lemma TextWeighs(vs: seq<ShardView>, s: Setup, r: Request, all: map<string, Document>, id: string)
    requires IsTextKind(r.query.kind) && !OneHoldsAll(vs, all)
    requires id in all && exists i :: 0 <= i < |vs| && id in vs[i].view
    ensures !SharesScore(vs, s, r, all, id)
  {
    var i := ShardOf(vs, id);
    assert 0 <= i < |vs|;
  }
}
