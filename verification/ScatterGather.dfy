/** What the merge of all shards' replies is, when documents are placed by the hash of their id
    (internal/shard/coordinator.go, internal/shard/merge_results.go). */
module ScatterGather {
  import opened Cursors
  import opened Documents
  import opened IndexEngine
  import opened Matching
  import opened Options
  import opened Query
  import opened Search
  import opened ShardCoordinator
  import opened Shards
  import opened Sorting
  import opened Store

  /** A shard as a query sees it. */
  datatype ShardView = ShardView(id: int, setup: Setup, codec: Codec, view: map<string, Document>, generation: nat)

  ghost function RankingOf(v: ShardView, r: Request): seq<Hit>
  {
    Ranking(v.setup, r, v.view)
  }

  ghost function Rankings(vs: seq<ShardView>, r: Request): seq<seq<Hit>>
  {
    seq(|vs|, i requires 0 <= i < |vs| => RankingOf(vs[i], r))
  }

  /** Every document is on the shard its id routes to. */
  ghost predicate Placed(vs: seq<ShardView>, route: string -> int)
  {
    && (forall i, j :: 0 <= i < j < |vs| ==> vs[i].id != vs[j].id)
    && (forall i :: 0 <= i < |vs| ==> WellKeyed(vs[i].view))
    && (forall i, id :: 0 <= i < |vs| && id in vs[i].view ==> route(id) == vs[i].id)
  }

  /** Every hit of a ranking is a document of the view. */
  lemma RankedAreViewed(s: Setup, r: Request, view: map<string, Document>, h: Hit)
    requires WellKeyed(view) && h in Ranking(s, r, view)
    ensures h.id in view
  {
    RankingIsUnique(s, r, view, []);
    assert h in multiset(Ranking(s, r, view));
    hide Ranking, Evaluate;
    assert h in multiset(HitsAmong(s, r, view, view.Keys));
  }

  ghost predicate RoutedTo(list: seq<Hit>, route: string -> int, shard: int)
  {
    forall h :: h in list ==> route(h.id) == shard
  }

  lemma {:induction false} RoutedAreDistinct(lists: seq<seq<Hit>>, route: string -> int, order: seq<int>)
    requires |lists| == |order| && NoRepeat(order)
    requires forall i :: 0 <= i < |lists| ==> DistinctIds(lists[i]) && RoutedTo(lists[i], route, order[i])
    ensures DistinctIds(Concat(lists))
    ensures forall h :: h in Concat(lists) ==> route(h.id) in order
    decreases |lists|
  {
    if lists != [] {
      var n := |lists| - 1;
      RoutedAreDistinct(lists[..n], route, order[..n]);
      var before, last := Concat(lists[..n]), lists[n];
      forall i, j | 0 <= i < |before| && 0 <= j < |last|
        ensures before[i].id != last[j].id
      {
        assert before[i] in before && last[j] in last;
        assert route(before[i].id) in order[..n] && route(last[j].id) == order[n];
      }
      assert order[n] in order;
      assert forall h :: h in Concat(lists) ==> h in before || h in last;
    }
  }

  /** Scatter-gather: if documents are placed by their route and every shard answers, the merged first page is the
      first page of all shards' hits ranked together, its total is the number of all hits, and the order in which
      the shards answered does not show. */
  lemma ScatterGatherIsGlobal(vs: seq<ShardView>, route: string -> int, r: Request, now: int, results: seq<Result>,
                              results': seq<Result>)
    requires Placed(vs, route) && r.size >= 1 && r.searchAfter == ""
    requires |results| == |vs|
    requires forall i :: 0 <= i < |vs| ==>
      Answer(vs[i].setup, vs[i].codec, vs[i].view, vs[i].generation, r, now) == Found(results[i])
    requires multiset(results') == multiset(results)
    ensures Merged(results, r.size).hits == Take(Sort(Before, Concat(Rankings(vs, r))), r.size)
    ensures Merged(results, r.size).total == |Concat(Rankings(vs, r))|
    ensures Merged(results', r.size) == Merged(results, r.size)
  {
    hide Answer, Ranking, RankingOf, Sort, Take, Concat, RoutedTo, DistinctIds;
    var full := Rankings(vs, r);
    forall i | 0 <= i < |vs|
      ensures Sorted(Before, full[i]) && results[i].hits == Take(full[i], r.size) && results[i].total == |full[i]|
      ensures DistinctIds(full[i]) && RoutedTo(full[i], route, vs[i].id)
    {
      FirstPageOf(vs[i], route, r, now, results[i]);
    }
    var order := seq(|vs|, i requires 0 <= i < |vs| => vs[i].id);
    hide *;
    MergeIsGlobalTop(full, results, r.size);
    TotalIsLength(full, results);
    RepliesAreDistinct(full, results, route, order, r.size);
    MergeIgnoresShardOrder(results, results', r.size);
    MergedTotal(results, r.size);
  }

  // ----- the coordinator and the merge together

  ghost function ViewOf(id: int, e: Engine): ShardView
    reads e, e.segments
  {
    ShardView(id, e.SetupOf(), e.codec, View(e.StateOf()), e.generation)
  }

  /** A first page over all shards: the coordinator asks them, the replies are merged. If documents are placed by their
      route, it is the first page of all shards' hits ranked together, whichever way the map of shards is walked. */
  method SearchAllShards(c: Coordinator, r: Request, now: int, patience: int -> Option<nat>)
    returns (out: Option<Result>, ghost order: seq<int>, ghost vs: seq<ShardView>)
    requires (forall id :: id in c.shards ==> c.shards[id].Valid()) && r.size >= 1 && r.searchAfter == ""
    requires forall id, key :: id in c.shards && key in View(c.shards[id].StateOf()) ==> c.Route(key) == id
    ensures out.Some? <==>
      c.shards != map[] && forall id :: id in c.shards ==> AnswerOf(c.shards[id], r, now, patience(id)).Found?
    ensures out.Some? ==>
      && NoRepeat(order) && (forall id :: id in order <==> id in c.shards) && |vs| == |order|
      && (forall i :: 0 <= i < |order| ==> order[i] in c.shards && vs[i] == ViewOf(order[i], c.shards[order[i]]))
      && out.value.hits == Take(Sort(Before, Concat(Rankings(vs, r))), r.size)
      && out.value.total == |Concat(Rankings(vs, r))|
  {
    hide *;
    var gathered;
    gathered, order := c.Query(r, now, patience);
    if !gathered.Gathered? {
      return None, [], [];
    }
    vs := ViewsOf(c.shards, order);
    var route: string -> int := key => c.Route(key);
    ViewsArePlaced(c.shards, order, vs, route);
    ViewsAnswer(c.shards, order, vs, r, now, patience, gathered.results);
    ScatterGatherIsGlobal(vs, route, r, now, gathered.results, gathered.results);
    var merged := Shards.Merge(gathered.results, r.size);
    out := Some(merged);
  }

  /** The views of the shards, in the order in which they answered. */
  lemma {:induction false} ViewsOf(shards: map<int, Engine>, order: seq<int>) returns (vs: seq<ShardView>)
    requires forall i :: 0 <= i < |order| ==> order[i] in shards
    ensures |vs| == |order|
    ensures forall i :: 0 <= i < |vs| ==> vs[i] == ViewOf(order[i], shards[order[i]])
    decreases |order|
  {
    hide ViewOf;
    vs := [];
    if order != [] {
      var rest, last := order[..|order| - 1], order[|order| - 1];
      vs := ViewsOf(shards, rest);
      vs := vs + [ViewOf(last, shards[last])];
    }
  }

  lemma ViewsArePlaced(shards: map<int, Engine>, order: seq<int>, vs: seq<ShardView>, route: string -> int)
    requires |vs| == |order| && NoRepeat(order)
    requires forall i :: 0 <= i < |order| ==> order[i] in shards
    requires forall i :: 0 <= i < |vs| ==> vs[i] == ViewOf(order[i], shards[order[i]])
    requires forall id :: id in shards ==> shards[id].Valid()
    requires forall id, key :: id in shards && key in View(shards[id].StateOf()) ==> route(key) == id
    ensures Placed(vs, route)
    ensures |vs| == |order| && forall i :: 0 <= i < |vs| ==> vs[i].id == order[i]
  {
    hide Engine.Valid, View, WellKeyed;
    forall i | 0 <= i < |vs|
      ensures vs[i].id == order[i] && vs[i].view == View(shards[order[i]].StateOf()) && WellKeyed(vs[i].view)
    {
      ViewIsWellKeyed(shards[order[i]]);
    }
  }

  lemma ViewsAnswer(shards: map<int, Engine>, order: seq<int>, vs: seq<ShardView>, r: Request, now: int,
                    patience: int -> Option<nat>, results: seq<Result>)
    requires |vs| == |results| == |order| && r.size >= 1
    requires forall i :: 0 <= i < |order| ==> order[i] in shards
    requires forall i :: 0 <= i < |vs| ==> vs[i] == ViewOf(order[i], shards[order[i]])
    requires forall i ::
      0 <= i < |order| ==> AnswerOf(shards[order[i]], r, now, patience(order[i])) == Found(results[i])
    ensures forall i :: 0 <= i < |vs| ==>
      Answer(vs[i].setup, vs[i].codec, vs[i].view, vs[i].generation, r, now) == Found(results[i])
  {
    hide Answer, View;
    forall i | 0 <= i < |vs|
      ensures Answer(vs[i].setup, vs[i].codec, vs[i].view, vs[i].generation, r, now) == Found(results[i])
    {
      AnswerOfIs(shards[order[i]], r, now, patience(order[i]));
    }
  }

  lemma MergedTotal(results: seq<Result>, size: int)
    ensures Merged(results, size).total == Total(results)
  {
  }

  lemma RepliesAreDistinct(full: seq<seq<Hit>>, results: seq<Result>, route: string -> int, order: seq<int>, k: nat)
    requires |full| == |results| == |order| && NoRepeat(order)
    requires forall i :: 0 <= i < |full| ==> DistinctIds(full[i]) && RoutedTo(full[i], route, order[i])
    requires forall i :: 0 <= i < |full| ==> results[i].hits == Take(full[i], k)
    ensures DistinctIds(AllHits(results))
  {
    hide AllHits, Concat, Take, DistinctIds, RoutedTo, NoRepeat;
    var lists := seq(|results|, i requires 0 <= i < |results| => results[i].hits);
    AllHitsIsConcat(results);
    TakenAreRouted(full, lists, route, order, k);
    RoutedAreDistinct(lists, route, order);
  }

  lemma FirstPageOf(v: ShardView, route: string -> int, r: Request, now: int, result: Result)
    requires WellKeyed(v.view) && r.size >= 1 && r.searchAfter == ""
    requires forall id :: id in v.view ==> route(id) == v.id
    requires Answer(v.setup, v.codec, v.view, v.generation, r, now) == Found(result)
    ensures
      var full := RankingOf(v, r);
      && Sorted(Before, full) && result.hits == Take(full, r.size) && result.total == |full|
      && DistinctIds(full) && RoutedTo(full, route, v.id)
  {
    RankingIsUnique(v.setup, r, v.view, []);
    forall h | h in RankingOf(v, r)
      ensures route(h.id) == v.id
    {
      RankedAreViewed(v.setup, r, v.view, h);
    }
    hide Ranking, Encode;
  }

  lemma TakenAreRouted(full: seq<seq<Hit>>, lists: seq<seq<Hit>>, route: string -> int, order: seq<int>, k: nat)
    requires |full| == |lists| == |order|
    requires forall i :: 0 <= i < |full| ==> DistinctIds(full[i]) && RoutedTo(full[i], route, order[i])
    requires forall i :: 0 <= i < |full| ==> lists[i] == Take(full[i], k)
    ensures forall i :: 0 <= i < |lists| ==> DistinctIds(lists[i]) && RoutedTo(lists[i], route, order[i])
  {
    forall i | 0 <= i < |lists|
      ensures DistinctIds(lists[i]) && RoutedTo(lists[i], route, order[i])
    {
      assert forall h :: h in lists[i] ==> h in full[i];
    }
  }

  lemma {:induction false} TotalIsLength(full: seq<seq<Hit>>, results: seq<Result>)
    requires |full| == |results|
    requires forall i :: 0 <= i < |full| ==> results[i].total == |full[i]|
    ensures Total(results) == |Concat(full)|
    decreases |full|
  {
    if full != [] {
      TotalIsLength(full[..|full| - 1], results[..|full| - 1]);
    }
  }
}
