/** What a search returns: the ranked hits of a view, cut into pages by signed cursors
    (`Search` in internal/index/index.go). */
module Search {
  import opened Cursors
  import opened Documents
  import opened Matching
  import opened Options
  import opened Query
  import opened Scoring
  import opened Sorting
  import Text

  /** The source's `Sort` field is always the pair (score, id). */
  datatype Hit = Hit(id: string, score: real, fields: map<string, Value>, explanation: Option<Explanation>)

  datatype Result = Result(hits: seq<Hit>, total: nat, generation: nat, partial: bool, nextCursor: string)

  datatype Reply = Found(result: Result) | BadCursor(error: CursorError) | GenerationGone | Cancelled

  // ----- order

  /** The comparator of `sort.SliceStable` in `Search` and `Merge`. */
  predicate Before(a: Hit, b: Hit)
  {
    if a.score == b.score then Text.Less(a.id, b.id) else a.score > b.score
  }

  ghost predicate DistinctIds(hits: seq<Hit>)
  {
    forall i, j :: 0 <= i < j < |hits| ==> hits[i].id != hits[j].id
  }

  lemma BeforeIsAnOrder()
    ensures StrictWeakOrder(Before)
  {
    forall a, b | Before(a, b)
      ensures !Before(b, a)
    {
      if a.score == b.score {
        Text.LessAsymmetric(a.id, b.id);
      }
    }
    forall a, b, c | !Before(b, a) && !Before(c, b)
      ensures !Before(c, a)
    {
      if a.score == b.score && b.score == c.score && Text.Less(c.id, a.id) {
        Text.LessTotal(a.id, b.id);
        Text.LessTotal(b.id, c.id);
        if Text.Less(a.id, b.id) {
          Text.LessTransitive(c.id, a.id, b.id);
        }
      }
    }
  }

  lemma DistinctIdsSeparate(hits: seq<Hit>)
    requires DistinctIds(hits)
    ensures Separated(Before, hits)
  {
    forall i, j | 0 <= i < j < |hits|
      ensures Before(hits[i], hits[j]) || Before(hits[j], hits[i])
    {
      Text.LessTotal(hits[i].id, hits[j].id);
    }
  }

  // ----- the hits of a view

  ghost predicate AllFiltersMatch(s: Setup, filters: seq<Clause>, d: Document, total: nat)
  {
    forall i :: 0 <= i < |filters| ==> Evaluate(s, filters[i], d, total).matched
  }

  predicate Visible(r: Request, d: Document)
  {
    !d.deleted && d.tenant == r.tenant && d.collection == r.collection
  }

  ghost predicate IsHit(s: Setup, r: Request, d: Document, total: nat)
  {
    Visible(r, d) && Evaluate(s, r.query, d, total).matched && AllFiltersMatch(s, r.filters, d, total)
  }

  ghost function HitOf(s: Setup, r: Request, d: Document, total: nat): Hit
  {
    var o := Evaluate(s, r.query, d, total);
    Hit(d.id, o.score, d.fields, if r.explain then Some(o.explanation) else None)
  }

  ghost predicate WellKeyed(view: map<string, Document>)
  {
    forall id :: id in view ==> view[id].id == id
  }

  /** The hits found in part of a view. */
  ghost function HitsAmong(s: Setup, r: Request, view: map<string, Document>, ids: set<string>): set<Hit>
    requires ids <= view.Keys
  {
    set id | id in ids && IsHit(s, r, view[id], |view|) :: HitOf(s, r, view[id], |view|)
  }

  /** r lists the hits in rank order. */
  ghost predicate IsRanking(hits: set<Hit>, r: seq<Hit>)
  {
    Sorted(Before, r) && multiset(r) == multiset(hits)
  }

  ghost function Listing(hits: set<Hit>): (l: seq<Hit>)
    ensures multiset(l) == multiset(hits)
  {
    if hits == {} then []
    else
      var h :| h in hits;
      assert multiset(hits) == multiset{h} + multiset(hits - {h});
      [h] + Listing(hits - {h})
  }

  /** The ranked hits of a view: filtered, scored and sorted, a function of the view alone. */
  ghost function Ranking(s: Setup, r: Request, view: map<string, Document>): seq<Hit>
  {
    Sort(Before, Listing(HitsAmong(s, r, view, view.Keys)))
  }

  lemma ListedTwice<T>(l: seq<T>, i: nat, j: nat)
    requires i < j < |l| && l[i] == l[j]
    ensures multiset(l)[l[i]] >= 2
  {
    assert l == l[..j] + l[j..];
    assert l[..j][i] == l[i] && l[j..][0] == l[j];
    assert l[i] in multiset(l[..j]) && l[j] in multiset(l[j..]);
  }

  lemma ListingOfDistinct(hits: set<Hit>, l: seq<Hit>)
    requires multiset(l) == multiset(hits)
    requires forall a, b :: a in hits && b in hits && a.id == b.id ==> a == b
    ensures DistinctIds(l)
  {
    forall i, j | 0 <= i < j < |l|
      ensures l[i].id != l[j].id
    {
      assert l[i] in multiset(hits) && l[j] in multiset(hits);
      assert multiset(l)[l[i]] == 1;
      if l[i] == l[j] {
        ListedTwice(l, i, j);
      }
    }
  }

  /** (score, id) orders hits of different documents strictly, so there is one ranking only: neither the order
      in which the maps are walked nor the way they were filled can show. */
  lemma RankingIsUnique(s: Setup, r: Request, view: map<string, Document>, ranked: seq<Hit>)
    requires WellKeyed(view)
    ensures IsRanking(HitsAmong(s, r, view, view.Keys), Ranking(s, r, view))
    ensures DistinctIds(Ranking(s, r, view))
    ensures IsRanking(HitsAmong(s, r, view, view.Keys), ranked) ==> ranked == Ranking(s, r, view)
  {
    var hits := HitsAmong(s, r, view, view.Keys);
    HitsHaveDistinctIds(s, r, view);
    hide HitsAmong;
    BeforeIsAnOrder();
    SortSorts(Before, Listing(hits));
    SortPermutes(Before, Listing(hits));
    ListingOfDistinct(hits, Ranking(s, r, view));
    if IsRanking(hits, ranked) {
      DistinctIdsSeparate(Ranking(s, r, view));
      SortedListingIsUnique(Before, Ranking(s, r, view), ranked);
    }
  }

  lemma HitsHaveDistinctIds(s: Setup, r: Request, view: map<string, Document>)
    requires WellKeyed(view)
    ensures
      var hits := HitsAmong(s, r, view, view.Keys);
      forall a, b :: a in hits && b in hits && a.id == b.id ==> a == b
  {
    hide IsHit, Evaluate;
  }

  // ----- one page

  /** Index of the hit with this id; |hits| if there is none. */
  function IndexOf(hits: seq<Hit>, id: string): (i: nat)
    ensures i <= |hits|
    ensures i < |hits| ==> hits[i].id == id
    ensures forall j :: 0 <= j < i ==> hits[j].id != id
  {
    if hits == [] || hits[0].id == id then 0 else 1 + IndexOf(hits[1..], id)
  }

  /** The hits behind the one with this id; all of them if there is none. */
  function Behind(hits: seq<Hit>, id: string): seq<Hit>
  {
    var i := IndexOf(hits, id);
    if i < |hits| then hits[i + 1..] else hits
  }

  const CURSOR_LIFETIME: int := 900

  function Page(codec: Codec, rest: seq<Hit>, total: nat, generation: nat, size: nat, now: int): Result
    requires size >= 1
  {
    var hits := Take(rest, size);
    var next :=
      if |hits| == size then
        var last := hits[|hits| - 1];
        Encode(codec, Payload(last.score, last.id, last.id, generation, now + CURSOR_LIFETIME))
      else "";
    Result(hits, total, generation, false, next)
  }

  /** The reply to a request whose ranked hits are known. A page size below one makes the source index out of
      bounds, so it is demanded of the caller, as `Request.Validate` does. */
  function PageReply(codec: Codec, ranking: seq<Hit>, generation: nat, searchAfter: string, size: nat, now: int): Reply
    requires size >= 1
  {
    if searchAfter == "" then Found(Page(codec, ranking, |ranking|, generation, size, now))
    else
      match Decode(codec, searchAfter, now)
      case Refused(e) => BadCursor(e)
      case Read(p) =>
        if p.generation != generation then GenerationGone
        else Found(Page(codec, Behind(ranking, p.docId), |ranking|, generation, size, now))
  }

  /** The reply to a request on a given view and generation at time `now` (in seconds). */
  ghost function Answer(s: Setup, codec: Codec, view: map<string, Document>, generation: nat, r: Request,
                        now: int): Reply
    requires r.size >= 1
  {
    PageReply(codec, Ranking(s, r, view), generation, r.searchAfter, r.size, now)
  }

  /** A search looks for cancellation before every candidate. `patience` is the number of candidates it can look at
      before its context is done; None if that never happens. */
  function Within(patience: Option<nat>, candidates: nat, reply: Reply): Reply
  {
    if patience.Some? && patience.value < candidates then Cancelled else reply
  }

  /** Size and cursor do not enter the ranking. */
  lemma RankingIgnoresPaging(s: Setup, r: Request, view: map<string, Document>, size: int, after: string)
    ensures Ranking(s, r.(size := size, searchAfter := after), view) == Ranking(s, r, view)
  {
    var r' := r.(size := size, searchAfter := after);
    hide Evaluate;
    assert HitsAmong(s, r', view, view.Keys) == HitsAmong(s, r, view, view.Keys) by {
      forall d
        ensures IsHit(s, r', d, |view|) == IsHit(s, r, d, |view|)
        ensures HitOf(s, r', d, |view|) == HitOf(s, r, d, |view|)
      {
      }
    }
  }
}
