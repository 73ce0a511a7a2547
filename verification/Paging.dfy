/** Walking the pages of a search: from a fixed engine state the pages partition the ranked hits. */
module Paging {
  import opened Cursors
  import opened Documents
  import opened Matching
  import opened Query
  import opened Search
  import opened Sorting

  /** The pages of a walk, each with the size and the time it was asked for. */
  datatype Walk =
    | First(size: nat, time: int, page: Result)
    | Next(earlier: Walk, size: nat, time: int, page: Result)

  /** Each page answers the request with the cursor of the page before, while that cursor is valid. */
  ghost predicate IsWalk(s: Setup, codec: Codec, view: map<string, Document>, generation: nat, r: Request, w: Walk)
  {
    && w.size >= 1
    && match w
       case First(size, time, page) =>
         Answer(s, codec, view, generation, r.(size := size, searchAfter := ""), time) == Found(page)
       case Next(earlier, size, time, page) =>
         && IsWalk(s, codec, view, generation, r, earlier)
         && earlier.page.nextCursor != "" && time <= earlier.time + CURSOR_LIFETIME
         && Answer(s, codec, view, generation, r.(size := size, searchAfter := earlier.page.nextCursor), time)
           == Found(page)
  }

  function AllHits(w: Walk): seq<Hit>
  {
    match w
    case First(_, _, page) => page.hits
    case Next(earlier, _, _, page) => AllHits(earlier) + page.hits
  }

  function PageCount(w: Walk): nat
  {
    match w
    case First(_, _, _) => 1
    case Next(earlier, _, _, _) => PageCount(earlier) + 1
  }

  predicate AllTotalsAre(w: Walk, total: nat)
  {
    w.page.total == total && (w.Next? ==> AllTotalsAre(w.earlier, total))
  }

  /** The same walk, over a known ranking. */
  ghost predicate WalksRanking(codec: Codec, ranking: seq<Hit>, generation: nat, w: Walk)
  {
    && w.size >= 1
    && match w
       case First(size, time, page) => PageReply(codec, ranking, generation, "", size, time) == Found(page)
       case Next(earlier, size, time, page) =>
         && WalksRanking(codec, ranking, generation, earlier)
         && earlier.page.nextCursor != "" && time <= earlier.time + CURSOR_LIFETIME
         && PageReply(codec, ranking, generation, earlier.page.nextCursor, size, time) == Found(page)
  }

  lemma {:induction false} WalkIsOverRanking(s: Setup, codec: Codec, view: map<string, Document>, generation: nat,
                                             r: Request, w: Walk)
    requires IsWalk(s, codec, view, generation, r, w)
    ensures WalksRanking(codec, Ranking(s, r, view), generation, w)
  {
    hide PageReply, Ranking;
    match w
    case First(size, time, page) => RankingIgnoresPaging(s, r, view, size, "");
    case Next(earlier, size, time, page) =>
      RankingIgnoresPaging(s, r, view, size, earlier.page.nextCursor);
      WalkIsOverRanking(s, codec, view, generation, r, earlier);
  }

  // ----- one page over a ranking

  lemma {:induction false} IndexOfDistinct(hits: seq<Hit>, n: nat)
    requires DistinctIds(hits) && n < |hits|
    ensures IndexOf(hits, hits[n].id) == n
  {
    if n > 0 {
      assert hits[0].id != hits[n].id;
      IndexOfDistinct(hits[1..], n - 1);
    }
  }

  function PlaceAt(ranking: seq<Hit>, m: nat, generation: nat, time: int): Payload
    requires 0 < m <= |ranking|
  {
    var last := ranking[m - 1];
    Payload(last.score, last.id, last.id, generation, time + CURSOR_LIFETIME)
  }

  /** The cursor of the page that ends just before ranking[m]. */
  function CursorAt(codec: Codec, ranking: seq<Hit>, m: nat, generation: nat, time: int): string
    requires 0 < m <= |ranking|
  {
    Encode(codec, PlaceAt(ranking, m, generation, time))
  }

  /** A page cut from ranking[n..]: its hits end at some m, and it has a cursor, pointing there, if and only if
      it is full. */
  lemma PageCut(codec: Codec, ranking: seq<Hit>, n: nat, generation: nat, size: nat, time: int)
    requires Laws(codec) && n <= |ranking| && size >= 1
    ensures
      var p := Page(codec, ranking[n..], |ranking|, generation, size, time);
      var m := n + |p.hits|;
      && m <= |ranking| && p.hits == ranking[n..m] && p.total == |ranking|
      && (p.nextCursor == "" ==> m == |ranking|)
      && (p.nextCursor != "" ==> m > n && p.nextCursor == CursorAt(codec, ranking, m, generation, time))
  {
    var p := Page(codec, ranking[n..], |ranking|, generation, size, time);
    if |p.hits| == size {
      var last := p.hits[size - 1];
      assert last == ranking[n + size - 1];
      CursorRoundTrip(codec, Payload(last.score, last.id, last.id, generation, time + CURSOR_LIFETIME), time);
    }
    hide Encode;
  }

  /** A cursor reads back for a quarter of an hour, and never after. */
  lemma CursorLivesAQuarter(codec: Codec, rest: seq<Hit>, total: nat, generation: nat, size: nat, time: int, now: int)
    requires Laws(codec) && size >= 1 && |rest| >= size
    ensures
      match Decode(codec, Page(codec, rest, total, generation, size, time).nextCursor, now)
      case Read(p) =>
        now - time <= 15 * 60 && p.docId == p.values == rest[size - 1].id && p.generation == generation
      case Refused(e) => now - time > 15 * 60 && e == Expired
  {
    var last := rest[size - 1];
    CursorRoundTrip(codec, Payload(last.score, last.id, last.id, generation, time + CURSOR_LIFETIME), now);
    hide Encode, Decode;
  }

  lemma CursorFinds(codec: Codec, ranking: seq<Hit>, m: nat, generation: nat, time: int, size: nat, now: int)
    requires Laws(codec) && DistinctIds(ranking) && 0 < m <= |ranking| && size >= 1
    requires now <= time + CURSOR_LIFETIME
    ensures PageReply(codec, ranking, generation, CursorAt(codec, ranking, m, generation, time), size, now)
         == Found(Page(codec, ranking[m..], |ranking|, generation, size, now))
  {
    CursorRoundTrip(codec, PlaceAt(ranking, m, generation, time), now);
    IndexOfDistinct(ranking, m - 1);
    hide Encode, Decode, Page;
  }

  /** Where a walk stands: it has shown ranking[..m], and its last cursor points there. */
  ghost predicate Stands(codec: Codec, ranking: seq<Hit>, generation: nat, w: Walk)
  {
    var m := |AllHits(w)|;
    && m <= |ranking| && AllHits(w) == ranking[..m]
    && AllTotalsAre(w, |ranking|)
    && (w.page.nextCursor == "" ==> m == |ranking| && PageCount(w) <= m + 1)
    && (w.page.nextCursor != "" ==>
         m > 0 && PageCount(w) <= m && w.page.nextCursor == CursorAt(codec, ranking, m, generation, w.time))
  }

  lemma FirstStands(codec: Codec, ranking: seq<Hit>, generation: nat, size: nat, time: int, page: Result)
    requires Laws(codec) && WalksRanking(codec, ranking, generation, First(size, time, page))
    ensures Stands(codec, ranking, generation, First(size, time, page))
  {
    assert ranking[0..] == ranking;
    PageCut(codec, ranking, 0, generation, size, time);
    hide Page, CursorAt, Laws;
  }

  lemma NextStands(codec: Codec, ranking: seq<Hit>, generation: nat, earlier: Walk, size: nat, time: int, page: Result)
    requires Laws(codec) && DistinctIds(ranking)
    requires WalksRanking(codec, ranking, generation, Next(earlier, size, time, page))
    requires Stands(codec, ranking, generation, earlier)
    ensures Stands(codec, ranking, generation, Next(earlier, size, time, page))
  {
    hide PageReply, Page, CursorAt, Laws, DistinctIds;
    var m := |AllHits(earlier)|;
    CursorFinds(codec, ranking, m, generation, earlier.time, size, time);
    PageCut(codec, ranking, m, generation, size, time);
    hide WalksRanking;
    assert ranking[..m] + ranking[m..m + |page.hits|] == ranking[..m + |page.hits|];
  }

  lemma {:induction false} WalkStands(codec: Codec, ranking: seq<Hit>, generation: nat, w: Walk)
    requires Laws(codec) && DistinctIds(ranking) && WalksRanking(codec, ranking, generation, w)
    ensures Stands(codec, ranking, generation, w)
  {
    hide Stands, PageReply, Laws, DistinctIds;
    match w
    case First(size, time, page) => FirstStands(codec, ranking, generation, size, time, page);
    case Next(earlier, size, time, page) =>
      WalkStands(codec, ranking, generation, earlier);
      NextStands(codec, ranking, generation, earlier, size, time, page);
  }

  /** The next page can be had as long as the last cursor has not expired. */
  ghost predicate GoesOn(s: Setup, codec: Codec, view: map<string, Document>, generation: nat, r: Request, w: Walk)
  {
    forall size: nat, time :: size >= 1 && time <= w.time + CURSOR_LIFETIME ==>
      Answer(s, codec, view, generation, r.(size := size, searchAfter := w.page.nextCursor), time).Found?
  }

  lemma WalkGoesOn(s: Setup, codec: Codec, view: map<string, Document>, generation: nat, r: Request, w: Walk)
    requires Laws(codec) && DistinctIds(Ranking(s, r, view)) && w.page.nextCursor != ""
    requires Stands(codec, Ranking(s, r, view), generation, w)
    ensures GoesOn(s, codec, view, generation, r, w)
  {
    forall size: nat, time | size >= 1 && time <= w.time + CURSOR_LIFETIME
      ensures Answer(s, codec, view, generation, r.(size := size, searchAfter := w.page.nextCursor), time).Found?
    {
      RankingIgnoresPaging(s, r, view, size, w.page.nextCursor);
      CursorFinds(codec, Ranking(s, r, view), |AllHits(w)|, generation, w.time, size, time);
      hide Ranking, PageReply, Page, CursorAt, Laws, DistinctIds;
    }
  }

  /** Paging is a partition: from a fixed engine state, following unexpired cursors with any page sizes shows the
      ranked list from the top without gap or repeat; every page reports the same total; a walk has at most one
      page more than there are hits; as long as there is a cursor it gets the next page, and when none is left
      everything has been shown. */
  lemma PagingPartitions(s: Setup, codec: Codec, view: map<string, Document>, generation: nat, r: Request, w: Walk)
    requires Laws(codec) && WellKeyed(view) && IsWalk(s, codec, view, generation, r, w)
    ensures AllHits(w) <= Ranking(s, r, view)
    ensures w.page.nextCursor == "" ==> AllHits(w) == Ranking(s, r, view)
    ensures w.page.nextCursor != "" ==> GoesOn(s, codec, view, generation, r, w)
    ensures PageCount(w) <= |Ranking(s, r, view)| + 1
    ensures AllTotalsAre(w, |Ranking(s, r, view)|)
  {
    RankingIsUnique(s, r, view, []);
    WalkIsOverRanking(s, codec, view, generation, r, w);
    hide Ranking, WalksRanking, IsWalk, IsRanking, GoesOn;
    WalkStands(codec, Ranking(s, r, view), generation, w);
    if w.page.nextCursor != "" {
      WalkGoesOn(s, codec, view, generation, r, w);
    }
  }

  /** Every walk can be walked to its end, with pages of any size, so the whole ranking can be shown. */
  lemma {:induction false} WalkToTheEnd(s: Setup, codec: Codec, view: map<string, Document>, generation: nat,
                                        r: Request, w: Walk, size: nat) returns (whole: Walk)
    requires Laws(codec) && WellKeyed(view) && IsWalk(s, codec, view, generation, r, w) && size >= 1
    ensures IsWalk(s, codec, view, generation, r, whole) && whole.page.nextCursor == ""
    ensures AllHits(whole) == Ranking(s, r, view)
    decreases |Ranking(s, r, view)| + 1 - PageCount(w)
  {
    PagingPartitions(s, codec, view, generation, r, w);
    whole := w;
    if w.page.nextCursor != "" {
      hide IsWalk, Ranking, GoesOn, AllHits, Laws, WellKeyed, AllTotalsAre;
      whole := OneMorePage(s, codec, view, generation, r, w, size);
      PagingPartitions(s, codec, view, generation, r, whole);
      whole := WalkToTheEnd(s, codec, view, generation, r, whole, size);
    }
  }

  lemma OneMorePage(s: Setup, codec: Codec, view: map<string, Document>, generation: nat, r: Request, w: Walk,
                    size: nat)
    returns (longer: Walk)
    requires IsWalk(s, codec, view, generation, r, w) && size >= 1
    requires w.page.nextCursor != "" && GoesOn(s, codec, view, generation, r, w)
    ensures IsWalk(s, codec, view, generation, r, longer) && PageCount(longer) == PageCount(w) + 1
  {
    hide Answer;
    var reply := Answer(s, codec, view, generation, r.(size := size, searchAfter := w.page.nextCursor), w.time);
    assert reply.Found?;
    longer := Next(w, size, w.time, reply.result);
  }

  // ----- cursors and writes

  predicate Ranked(ranking: seq<Hit>, id: string)
  {
    exists n :: 0 <= n < |ranking| && ranking[n].id == id
  }

  lemma BehindAnId(ranking: seq<Hit>, id: string)
    requires DistinctIds(ranking)
    ensures forall n :: 0 <= n < |ranking| && ranking[n].id == id ==> Behind(ranking, id) == ranking[n + 1..]
    ensures !Ranked(ranking, id) ==> Behind(ranking, id) == ranking
  {
    forall n | 0 <= n < |ranking| && ranking[n].id == id
      ensures Behind(ranking, id) == ranking[n + 1..]
    {
      IndexOfDistinct(ranking, n);
    }
  }

  lemma TopIsNotBehind(ranking: seq<Hit>, n: nat, size: nat)
    requires DistinctIds(ranking) && n < |ranking|
    ensures ranking[0] !in Take(ranking[n + 1..], size)
  {
    var hits := Take(ranking[n + 1..], size);
    forall k | 0 <= k < |hits|
      ensures hits[k] != ranking[0]
    {
      assert hits[k] == ranking[n + 1 + k];
    }
  }

  /** Buffered writes do not change the generation, so a cursor can outlive the hit it points at. The next page
      starts behind that hit if it is still ranked; if it is not, the walk starts over from the top. */
  lemma CursorContinuesIffStillRanked(codec: Codec, ranking: seq<Hit>, generation: nat, size: nat, now: int, p: Payload)
    requires Laws(codec) && DistinctIds(ranking) && ranking != [] && size >= 1
    requires now <= p.expires && p.generation == generation
    ensures
      var reply := PageReply(codec, ranking, generation, Encode(codec, p), size, now);
      && reply.Found?
      && (Ranked(ranking, p.docId) <==> ranking[0] !in reply.result.hits)
      && (forall n ::
        0 <= n < |ranking| && ranking[n].id == p.docId ==> reply.result.hits == Take(ranking[n + 1..], size))
      && (!Ranked(ranking, p.docId) ==> reply.result.hits == Take(ranking, size))
  {
    CursorRoundTrip(codec, p, now);
    BehindAnId(ranking, p.docId);
    if Ranked(ranking, p.docId) {
      var n :| 0 <= n < |ranking| && ranking[n].id == p.docId;
      TopIsNotBehind(ranking, n, size);
    }
    hide Encode, Decode, Behind, DistinctIds, Laws;
  }
}
