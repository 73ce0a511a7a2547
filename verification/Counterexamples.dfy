/** Inputs at which the search falls short of what one would expect: the smallest phrase that misses its own text, the
    smallest walk that a buffered deletion sends back to its beginning (internal/index/index.go), and the smallest
    shards whose scores are not those of one engine (internal/shard/merge_results.go). */
module Counterexamples {
  import opened Analyzer
  import opened Cursors
  import opened Documents
  import opened FlushSchedules
  import opened Matching
  import opened MatchingLaws
  import opened OneEngine
  import opened Options
  import opened Paging
  import opened Query
  import opened ScatterGather
  import opened Scoring
  import opened Search
  import opened Sorting
  import opened Store
  import Text

  // ----- a phrase with a synonym

  /** With "b" as a synonym of "a", the one-word text "a" is not found by the phrase "a". */
  lemma SynonymSpoilsPhrase(u: Unicode)
    requires !IsBoundary(u, 'a') && !u.isSpace('b')
    ensures
      var p := Pipeline(u, false, [], map["a" := ["b"]]);
      && Tokens(p, "a") == [Token("a", 0, 0, 1, Word), Token("b", 0, 0, 1, Synonym)]
      && !TextMatches(Phrase, Tokens(p, "a"), Tokens(p, "a"))
  {
    var p := Pipeline(u, false, [], map["a" := ["b"]]);
    assert "a"[0..1] == "a" && "a"[0] == 'a' && "b"[0] == 'b';
    assert RunEnd(u, "a", 1) == 1 && RunEnd(u, "a", 0) == 1;
    assert Normalize(p, "a") == "a" && Normalize(p, "b") == "b" && StopTerms(p) == {};
    var word := Token("a", 0, 0, 1, Word);
    assert SynonymTokens(p, word) == [Token("b", 0, 0, 1, Synonym)];
    assert RunTokens(p, "a", 0, 1, 0) == [word] + SynonymTokens(p, word);
    assert TokensFrom(p, "a", 1, 1) == [];
    assert Tokens(p, "a") == [word, Token("b", 0, 0, 1, Synonym)];
    PhraseFindsItsOwnText(p, "a");
    assert Tokens(p, "a")[1].kind == Synonym;
  }

  // ----- a walk that starts over

  function Doc(id: string): Document
  {
    Document(id, "t", "c", map["f" := Value.Text("x")], 1, 1, false, 0, 0)
  }

  /** Everything whose field "f" is at least "x", two hits a page. */
  function TwoPerPage(after: string): Request
  {
    var all := Clause(Range, "f", "", Value.Text("x"), Nil, [], [], [], 0.0);
    Request("t", "c", all, [], 2, after, false, 1000)
  }

  function HitFor(id: string): Hit
  {
    Hit(id, 1.0, map["f" := Value.Text("x")], None)
  }

  function ThreeBuffered(): State
  {
    State([], map["a" := Doc("a"), "b" := Doc("b"), "c" := Doc("c")], 1000)
  }

  lemma DocIsHit(s: Setup, id: string, after: string, total: nat)
    ensures IsHit(s, TwoPerPage(after), Doc(id), total)
    ensures HitOf(s, TwoPerPage(after), Doc(id), total) == HitFor(id)
  {
    Text.LessIrreflexive("x");
  }

  lemma InOrder()
    ensures Text.Less("a", "b") && Text.Less("b", "c") && Text.Less("a", "c")
    ensures !Text.Less("b", "a") && !Text.Less("c", "b") && !Text.Less("c", "a")
  {
    assert "a"[0] == 'a' && "b"[0] == 'b' && "c"[0] == 'c';
  }

  lemma HitsOfThree(s: Setup, r: Request, view: map<string, Document>)
    requires view.Keys == {"a", "b", "c"}
    requires IsHit(s, r, view["a"], |view|) && IsHit(s, r, view["c"], |view|)
    ensures HitsAmong(s, r, view, view.Keys) ==
      {HitOf(s, r, view["a"], |view|), HitOf(s, r, view["c"], |view|)}
      + if IsHit(s, r, view["b"], |view|) then {HitOf(s, r, view["b"], |view|)} else {}
  {
    hide IsHit, HitOf;
  }

  lemma OnlyRanking(s: Setup, r: Request, view: map<string, Document>, ranked: seq<Hit>)
    requires WellKeyed(view) && IsRanking(HitsAmong(s, r, view, view.Keys), ranked)
    ensures Ranking(s, r, view) == ranked
  {
    hide *;
    RankingIsUnique(s, r, view, ranked);
  }

  lemma RankedByIds()
    ensures IsRanking({HitFor("a"), HitFor("c")}, [HitFor("a"), HitFor("c")])
    ensures IsRanking({HitFor("a"), HitFor("c")} + {HitFor("b")}, [HitFor("a"), HitFor("b"), HitFor("c")])
  {
    InOrder();
    hide Text.Less;
    assert HitFor("a").id == "a" && HitFor("b").id == "b" && HitFor("c").id == "c";
    hide HitFor;
  }

  lemma AllThreeRanked(s: Setup, after: string)
    ensures Ranking(s, TwoPerPage(after), View(ThreeBuffered())) == [HitFor("a"), HitFor("b"), HitFor("c")]
  {
    var view := View(ThreeBuffered());
    hide *;
    ThreeShown();
    DocIsHit(s, "a", after, |view|);
    DocIsHit(s, "b", after, |view|);
    DocIsHit(s, "c", after, |view|);
    RankedByIds();
    hide *;
    HitsOfThree(s, TwoPerPage(after), view);
    OnlyRanking(s, TwoPerPage(after), view, [HitFor("a"), HitFor("b"), HitFor("c")]);
  }

  lemma ViewOfBuffer(s: State)
    requires s.segments == []
    ensures View(s) == s.buffer
  {
    assert map[] + s.buffer == s.buffer;
  }

  lemma ThreeShown()
    ensures
      var view := View(ThreeBuffered());
      && WellKeyed(view) && view.Keys == {"a", "b", "c"}
      && view["a"] == Doc("a") && view["b"] == Doc("b") && view["c"] == Doc("c")
  {
    ViewOfBuffer(ThreeBuffered());
  }

  lemma TwoShown(s: Setup, after: string, now: int)
    ensures
      var view := WithoutB(now);
      && WellKeyed(view) && view.Keys == {"a", "b", "c"}
      && view["a"] == Doc("a") && view["c"] == Doc("c")
      && !IsHit(s, TwoPerPage(after), view["b"], |view|)
  {
    hide Evaluate, AllFiltersMatch;
  }

  function WithoutB(now: int): map<string, Document>
  {
    map["a" := Doc("a"), "b" := Tombstone(Doc("b"), 2, now), "c" := Doc("c")]
  }

  lemma DeletedB(now: int)
    ensures Deleted(ThreeBuffered(), "b", 2, now) == (ThreeBuffered().(buffer := WithoutB(now)), Done)
    ensures View(ThreeBuffered().(buffer := WithoutB(now))) == WithoutB(now)
  {
    ViewOfBuffer(ThreeBuffered());
    ViewOfBuffer(ThreeBuffered().(buffer := WithoutB(now)));
    assert ThreeBuffered().buffer["b" := Tombstone(Doc("b"), 2, now)] == WithoutB(now);
  }

  lemma TwoRanked(s: Setup, after: string, now: int)
    ensures Ranking(s, TwoPerPage(after), WithoutB(now)) == [HitFor("a"), HitFor("c")]
  {
    var view := WithoutB(now);
    hide *;
    TwoShown(s, after, now);
    DocIsHit(s, "a", after, |view|);
    DocIsHit(s, "c", after, |view|);
    RankedByIds();
    hide *;
    HitsOfThree(s, TwoPerPage(after), view);
    assert {HitFor("a"), HitFor("c")} + {} == {HitFor("a"), HitFor("c")};
    OnlyRanking(s, TwoPerPage(after), view, [HitFor("a"), HitFor("c")]);
  }

  /** Three hits, two a page: the first page shows "a" and "b". Then "b" is deleted, and the second page shows "a"
      again. */
  lemma BufferedDeletionStartsOver(s: Setup, codec: Codec, now: int)
    requires Laws(codec)
    ensures
      var before := ThreeBuffered();
      var (after, status) := Deleted(before, "b", 2, now);
      var first := Answer(s, codec, View(before), Generation(before), TwoPerPage(""), now);
      && status == Done && first.Found? && first.result.hits == [HitFor("a"), HitFor("b")]
      && var second := Answer(s, codec, View(after), Generation(after), TwoPerPage(first.result.nextCursor), now);
         second.Found? && second.result.hits == [HitFor("a"), HitFor("c")]
  {
    AllThreeRanked(s, "");
    DeletedB(now);
    FirstTwo(codec, [HitFor("a"), HitFor("b"), HitFor("c")], now);
    var cursor := Encode(codec, Payload(1.0, "b", "b", 0, now + CURSOR_LIFETIME));
    TwoRanked(s, cursor, now);
    SecondTwo(codec, [HitFor("a"), HitFor("c")], now);
    hide Ranking, View, PageReply, Encode, Laws, Deleted, HitFor, WithoutB;
  }

  lemma SecondTwo(codec: Codec, two: seq<Hit>, now: int)
    requires Laws(codec) && two == [HitFor("a"), HitFor("c")]
    ensures
      var cursor := Encode(codec, Payload(1.0, "b", "b", 0, now + CURSOR_LIFETIME));
      var reply := PageReply(codec, two, 0, cursor, 2, now);
      reply.Found? && reply.result.hits == two
  {
    assert two[0].id == "a" && two[1].id == "c" && "a"[0] != "b"[0] && "c"[0] != "b"[0];
    assert DistinctIds(two) && !Ranked(two, "b");
    assert Take(two, 2) == two;
    hide Laws, PageReply, Encode, HitFor, DistinctIds, Ranked, Take;
    CursorContinuesIffStillRanked(codec, two, 0, 2, now, Payload(1.0, "b", "b", 0, now + CURSOR_LIFETIME));
  }

  lemma FirstTwo(codec: Codec, three: seq<Hit>, now: int)
    requires three == [HitFor("a"), HitFor("b"), HitFor("c")]
    ensures
      var reply := PageReply(codec, three, 0, "", 2, now);
      && reply.Found? && reply.result.hits == [HitFor("a"), HitFor("b")]
      && reply.result.nextCursor == Encode(codec, Payload(1.0, "b", "b", 0, now + CURSOR_LIFETIME))
  {
    hide Encode;
    assert Take(three, 2) == [HitFor("a"), HitFor("b")];
  }

  // ----- two shards that score apart

  function OneWord(u: Unicode, log: real -> real): Setup
  {
    Setup(Pipeline(u, false, [], map[]), log)
  }

  function MatchX(): Request
  {
    Request("t", "c", Clause(Match, "f", "x", Nil, Nil, [], [], [], 0.0), [], 10, "", false, 1000)
  }

  function Both(): map<string, Document>
  {
    map["a" := Doc("a"), "b" := Doc("b")]
  }

  function TwoShards(s: Setup, codec: Codec): seq<ShardView>
  {
    [ShardView(0, s, codec, map["a" := Doc("a")], 0), ShardView(1, s, codec, map["b" := Doc("b")], 0)]
  }

  function FirstOrSecond(id: string): int
  {
    if id == "a" then 0 else 1
  }

  lemma OneToken(u: Unicode)
    requires !IsBoundary(u, 'x')
    ensures Tokens(Pipeline(u, false, [], map[]), "x") == [Token("x", 0, 0, 1, Word)]
  {
    var p := Pipeline(u, false, [], map[]);
    assert "x"[0..1] == "x" && "x"[0] == 'x';
    assert RunEnd(u, "x", 1) == 1 && RunEnd(u, "x", 0) == 1;
    assert Normalize(p, "x") == "x" && StopTerms(p) == {};
    assert RunTokens(p, "x", 0, 1, 0) == [Token("x", 0, 0, 1, Word)];
    assert TokensFrom(p, "x", 1, 1) == [];
  }

  lemma MatchesX(u: Unicode, log: real -> real, total: nat)
    requires !IsBoundary(u, 'x')
    ensures IsHit(OneWord(u, log), MatchX(), Doc("a"), total)
  {
    var s := OneWord(u, log);
    OneToken(u);
    var token := [Token("x", 0, 0, 1, Word)];
    FrequencyPositive(Match, "x", token, 0);
    assert FieldTokens(s.analyzer, Doc("a"), "f") == token;
    assert TextMatches(Match, token, token);
    EvaluateMeans(s, MatchX().query, Doc("a"), total);
    hide Evaluate, Tokens, Frequency;
  }

  lemma BothAreHeld(s: Setup, codec: Codec)
    ensures Holds(TwoShards(s, codec), FirstOrSecond, s, Both())
    ensures !OneHoldsAll(TwoShards(s, codec), Both())
  {
    var vs, all := TwoShards(s, codec), Both();
    assert "a"[0] != "b"[0];
    assert all.Keys == {"a", "b"} && |all| == |all.Keys|;
    assert vs[0].view.Keys == {"a"} && |vs[0].view| == |vs[0].view.Keys|;
    assert vs[1].view.Keys == {"b"} && |vs[1].view| == |vs[1].view.Keys|;
    assert "a" in vs[0].view && "b" in vs[1].view;
  }

  /** Two documents that match, on a shard each: the merged page is not the page of one engine that holds both. */
  lemma TwoShardsScoreApart(u: Unicode, log: real -> real, codec: Codec)
    requires !IsBoundary(u, 'x') && LogLaws(log)
    ensures
      var s := OneWord(u, log);
      && Holds(TwoShards(s, codec), FirstOrSecond, s, Both())
      && Take(Sharded(TwoShards(s, codec), MatchX()), 10) != Take(Ranking(s, MatchX(), Both()), 10)
  {
    var s := OneWord(u, log);
    MatchesX(u, log, |Both()|);
    BothAreHeld(s, codec);
    assert "a" in Both() && Both()["a"] == Doc("a") && IsTextKind(MatchX().query.kind) && s.log == log;
    assert WellKeyed(Both());
    hide *;
    var h := HitOf(s, MatchX(), Both()["a"], |Both()|);
    RankedIff(s, MatchX(), Both(), h);
    assert h in Ranking(s, MatchX(), Both());
    TextPagesAgreeIff(TwoShards(s, codec), FirstOrSecond, s, MatchX(), Both(), 10);
  }
}
