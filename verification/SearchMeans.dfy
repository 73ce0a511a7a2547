/** What a search finds and shows, clause by clause and field by field (`Search`, `evaluate`, `textMatch` and
    `rangeMatch` in internal/index/index.go, `Score` in internal/scoring/bm25.go). */
module SearchMeans {
  import opened Analyzer
  import opened Cursors
  import opened Documents
  import opened EditDistance
  import opened IndexEngine
  import opened Matching
  import opened MatchingLaws
  import opened Options
  import opened Query
  import opened Scoring
  import opened Search
  import opened Sorting
  import opened Store
  import Text

  // ----- text clauses

  /** The tokens of a field of the document: none unless the field is there and holds a string. */
  lemma FieldTokensAre(p: Pipeline, d: Document, field: string)
    ensures FieldTokens(p, d, field) ==
      if field in d.fields && d.fields[field].Text? then Tokens(p, d.fields[field].text) else []
  {
    hide Tokens;
  }

  ghost predicate Serves(kind: Kind, term: string, wanted: string)
  {
    match kind
    case Prefix => exists rest :: term == wanted + rest
    case Fuzzy => OneEditApart(term, wanted)
    case _ => term == wanted
  }

  lemma ServesIff(kind: Kind, term: string, wanted: string)
    requires IsTextKind(kind)
    ensures TermMatches(kind, term, wanted) <==> Serves(kind, term, wanted)
  {
    if kind.Fuzzy? {
      WithinOneEdit(term, wanted);
      hide OneEditApart, Levenshtein;
    } else if kind.Prefix? && wanted <= term {
      assert term == wanted + term[|wanted|..];
    }
  }

  ghost predicate SomeServes(kind: Kind, field: seq<Token>, wanted: string)
  {
    exists k :: 0 <= k < |field| && Serves(kind, field[k].term, wanted)
  }

  lemma FrequencyPositiveIff(kind: Kind, wanted: string, field: seq<Token>)
    requires IsTextKind(kind)
    ensures Frequency(kind, wanted, field) > 0 <==> SomeServes(kind, field, wanted)
  {
    hide Frequency, TermMatches, Serves;
    if Frequency(kind, wanted, field) > 0 {
      var k := FrequencyWitness(kind, wanted, field);
      ServesIff(kind, field[k].term, wanted);
    }
    if SomeServes(kind, field, wanted) {
      var k :| 0 <= k < |field| && Serves(kind, field[k].term, wanted);
      ServesIff(kind, field[k].term, wanted);
      FrequencyPositive(kind, wanted, field, k);
    }
  }

  ghost predicate HasTermAt(field: seq<Token>, term: string, position: int)
  {
    exists t :: t in field && t.term == term && t.position == position
  }

  /** The tokens stand in the field at consecutive positions. */
  ghost predicate InARow(field: seq<Token>, wanted: seq<Token>, start: int)
  {
    forall i :: 0 <= i < |wanted| ==> HasTermAt(field, wanted[i].term, start + i)
  }

  lemma HasTermAtIff(field: seq<Token>, term: string, position: int)
    ensures HasTermAt(field, term, position) <==> OccursAt(field, term, position)
  {
    if t :| t in field && t.term == term && t.position == position {
      var k :| 0 <= k < |field| && field[k] == t;
    }
    if k :| 0 <= k < |field| && field[k].term == term && field[k].position == position {
      assert field[k] in field;
    }
  }

  lemma PhraseIff(field: seq<Token>, wanted: seq<Token>)
    ensures HasPhrase(field, wanted) <==> exists start :: InARow(field, wanted, start)
  {
    hide HasTermAt, OccursAt;
    forall start
      ensures PhraseAt(field, wanted, start) <==> InARow(field, wanted, start)
    {
      forall i | 0 <= i < |wanted|
        ensures HasTermAt(field, wanted[i].term, start + i) <==> OccursAt(field, wanted[i].term, start + i)
      {
        HasTermAtIff(field, wanted[i].term, start + i);
      }
    }
  }

  /** What a text clause matches: the query has tokens, and each of them has a token of the field with the same term,
      with a term that begins with it, or with a term at most one edit away; for a phrase, all of them in a row. */
  lemma TextClauseMeans(s: Setup, c: Clause, d: Document, total: nat)
    requires IsTextKind(c.kind)
    ensures
      var wanted := Tokens(s.analyzer, c.value);
      var field := if c.field in d.fields && d.fields[c.field].Text?
        then Tokens(s.analyzer, d.fields[c.field].text) else [];
      Evaluate(s, c, d, total).matched <==>
        && wanted != []
        && (forall i :: 0 <= i < |wanted| ==> SomeServes(c.kind, field, wanted[i].term))
        && (c.kind.Phrase? ==> exists start :: InARow(field, wanted, start))
  {
    FieldTokensAre(s.analyzer, d, c.field);
    EvaluateMeans(s, c, d, total);
    var wanted, field := Tokens(s.analyzer, c.value), FieldTokens(s.analyzer, d, c.field);
    PhraseIff(field, wanted);
    forall i | 0 <= i < |wanted|
      ensures Frequency(c.kind, wanted[i].term, field) > 0 <==> SomeServes(c.kind, field, wanted[i].term)
    {
      FrequencyPositiveIff(c.kind, wanted[i].term, field);
    }
    assert Satisfies(s, c, d) <==> TextMatches(c.kind, wanted, field);
    hide Evaluate, Satisfies, Tokens, FieldTokens, Frequency, SomeServes, HasPhrase, InARow;
  }

  /** Fuzzy matching finds exactly the terms that are equal or differ by one edit. */
  lemma FuzzyMeans(s: Setup, c: Clause, d: Document, total: nat)
    requires c.kind.Fuzzy? && c.field in d.fields && d.fields[c.field].Text?
    ensures
      var wanted, field := Tokens(s.analyzer, c.value), Tokens(s.analyzer, d.fields[c.field].text);
      Evaluate(s, c, d, total).matched <==>
        && wanted != []
        && forall i :: 0 <= i < |wanted| ==>
             exists k :: 0 <= k < |field| && OneEditApart(field[k].term, wanted[i].term)
  {
    TextClauseMeans(s, c, d, total);
    hide Evaluate, Tokens, OneEditApart;
    var wanted, field := Tokens(s.analyzer, c.value), Tokens(s.analyzer, d.fields[c.field].text);
    forall i | 0 <= i < |wanted|
      ensures SomeServes(Fuzzy, field, wanted[i].term) <==>
        exists k :: 0 <= k < |field| && OneEditApart(field[k].term, wanted[i].term)
    {
      assert forall k :: 0 <= k < |field| ==>
        (Serves(Fuzzy, field[k].term, wanted[i].term) <==> OneEditApart(field[k].term, wanted[i].term));
    }
  }

  // ----- range clauses

  /** How a value is printed. */
  function Printed(v: Value): string
  {
    match v
    case Nil => "<nil>"
    case Text(s) => s
    case Other(p) => p
  }

  /** What a range clause matches, and its score: the printed value is neither before `from` nor after `to`, where
      these are given. */
  lemma RangeClauseMeans(s: Setup, c: Clause, d: Document, total: nat)
    requires c.kind.Range?
    ensures
      var v := if c.field in d.fields then Printed(d.fields[c.field]) else "<nil>";
      var o := Evaluate(s, c, d, total);
      && (o.matched <==>
           && (c.from.Nil? || !Text.Less(v, Printed(c.from)))
           && (c.to.Nil? || !Text.Less(Printed(c.to), v)))
      && o.score == (if o.matched then 1.0 else 0.0)
      && o.explanation == Explanation("lexical range", o.score, [])
  {
    hide Text.Less;
  }

  // ----- scores

  /** The formula, for one token that occurs so often in a field of so many tokens: BM25 with k1 = 1.2, b = 0.75, an
      average length of 10 and a document frequency of 1. */
  lemma TermScoreIs(log: real -> real, frequency: nat, length: nat, total: nat)
    ensures frequency == 0 || total == 0 ==> TermScore(log, frequency, length, total) == 0.0
    ensures frequency > 0 && total > 0 ==>
      var f := frequency as real;
      var idf := log(1.0 + (total as real - 1.0 + 0.5) / (1.0 + 0.5));
      var denominator := f + 1.2 * (1.0 - 0.75 + 0.75 * (length as real) / 10.0);
      denominator > 0.0 && TermScore(log, frequency, length, total) == idf * f * 2.2 / denominator
  {
    var l := length as real;
    assert l >= 0.0;
    DampingNonNegative(DefaultBM25(), l, 10.0);
  }

  /** How often a term is served: once for every token that serves it. */
  lemma {:induction false} FrequencyIs(kind: Kind, wanted: string, field: seq<Token>)
    requires IsTextKind(kind)
    ensures Frequency(kind, wanted, field) == |ServedAt(kind, wanted, field)|
    decreases |field|
  {
    if field != [] {
      var rest, last := field[..|field| - 1], field[|field| - 1];
      assert field == rest + [last];
      ServedSnoc(kind, wanted, rest, last);
      ServesIff(kind, last.term, wanted);
      hide TermMatches, Serves, ServedAt;
      FrequencyIs(kind, wanted, rest);
    }
  }

  lemma ServedSnoc(kind: Kind, wanted: string, rest: seq<Token>, t: Token)
    ensures |ServedAt(kind, wanted, rest + [t])|
      == |ServedAt(kind, wanted, rest)| + if Serves(kind, t.term, wanted) then 1 else 0
  {
    var before, after := ServedAt(kind, wanted, rest), ServedAt(kind, wanted, rest + [t]);
    var added := if Serves(kind, t.term, wanted) then {|rest|} else {};
    forall k
      ensures k in after <==> k in before || k in added
    {
      if 0 <= k < |rest| {
        assert (rest + [t])[k] == rest[k];
      }
    }
    hide ServedAt, Serves;
    assert after == before + added;
    assert |rest| !in before by {
      ServedIsBelow(kind, wanted, rest);
    }
  }

  lemma ServedIsBelow(kind: Kind, wanted: string, field: seq<Token>)
    ensures |field| !in ServedAt(kind, wanted, field)
  {
  }

  ghost function ServedAt(kind: Kind, wanted: string, field: seq<Token>): set<int>
  {
    set k | 0 <= k < |field| && Serves(kind, field[k].term, wanted)
  }

  /** What its tokens score, each with its frequency and the field's length, times the boost. */
  ghost predicate ScoredBy(s: Setup, c: Clause, wanted: seq<Token>, field: seq<Token>, total: nat, o: Outcome)
    requires IsTextKind(c.kind)
  {
    var sum := ScoreOfAll(s.log, c.kind, wanted, field, total);
    && o.score == (if c.boost > 0.0 then sum * c.boost else sum)
    && o.explanation == Explanation(TypeOf(c.kind) + " query", o.score, [])
  }

  /** The score of a text clause. */
  lemma TextClauseScores(s: Setup, c: Clause, d: Document, total: nat)
    requires IsTextKind(c.kind) && Evaluate(s, c, d, total).matched
    ensures
      var wanted, field := Tokens(s.analyzer, c.value), FieldTokens(s.analyzer, d, c.field);
      ScoredBy(s, c, wanted, field, total, Evaluate(s, c, d, total))
  {
    var wanted, field := Tokens(s.analyzer, c.value), FieldTokens(s.analyzer, d, c.field);
    assert Evaluate(s, c, d, total) == TextOutcome(s, c, wanted, field, total);
    hide *;
    MatchedScores(s, c, wanted, field, total);
  }

  lemma MatchedScores(s: Setup, c: Clause, wanted: seq<Token>, field: seq<Token>, total: nat)
    requires IsTextKind(c.kind) && TextOutcome(s, c, wanted, field, total).matched
    ensures ScoredBy(s, c, wanted, field, total, TextOutcome(s, c, wanted, field, total))
  {
    hide HasAllTerms, HasPhrase, TextScore, ScoreOfAll;
    ScoresAddUp(s.log, c.kind, wanted, field, total);
  }

  function TypeOf(kind: Kind): string
    requires IsTextKind(kind)
  {
    match kind
    case Match => "match"
    case Phrase => "phrase"
    case Prefix => "prefix"
    case Fuzzy => "fuzzy"
  }

  ghost function ScoreOfAll(log: real -> real, kind: Kind, wanted: seq<Token>, field: seq<Token>, total: nat): real
  {
    if wanted == [] then 0.0
    else
      TermScore(log, |ServedAt(kind, wanted[0].term, field)|, |field|, total)
      + ScoreOfAll(log, kind, wanted[1..], field, total)
  }

  lemma {:induction false} ScoreOfAllSnoc(log: real -> real, kind: Kind, wanted: seq<Token>, t: Token,
                                          field: seq<Token>, total: nat)
    ensures ScoreOfAll(log, kind, wanted + [t], field, total) ==
      ScoreOfAll(log, kind, wanted, field, total) + TermScore(log, |ServedAt(kind, t.term, field)|, |field|, total)
  {
    hide TermScore, ServedAt;
    if wanted == [] {
      assert wanted + [t] == [t] && [t][1..] == [];
    } else {
      assert (wanted + [t])[1..] == wanted[1..] + [t];
      ScoreOfAllSnoc(log, kind, wanted[1..], t, field, total);
    }
  }

  lemma {:induction false} ScoresAddUp(log: real -> real, kind: Kind, wanted: seq<Token>, field: seq<Token>, total: nat)
    requires IsTextKind(kind)
    ensures TextScore(log, kind, wanted, field, total) == ScoreOfAll(log, kind, wanted, field, total)
    decreases |wanted|
  {
    hide TermScore, ServedAt, Frequency;
    if wanted != [] {
      var rest, last := wanted[..|wanted| - 1], wanted[|wanted| - 1];
      assert wanted == rest + [last];
      ScoresAddUp(log, kind, rest, field, total);
      FrequencyIs(kind, last.term, field);
      ScoreOfAllSnoc(log, kind, rest, last, field, total);
    }
  }

  /** A longer field scores lower. */
  lemma LongerScoresLower(log: real -> real, frequency: nat, shorter: nat, longer: nat, total: nat)
    requires LogLaws(log) && frequency > 0 && total > 0 && shorter < longer
    ensures TermScore(log, frequency, longer, total) < TermScore(log, frequency, shorter, total)
  {
    var f, x, y := frequency as real, shorter as real, longer as real;
    TermScoreIs(log, frequency, shorter, total);
    TermScoreIs(log, frequency, longer, total);
    IdfPositive(log, 1.0, total as real);
    var idf := log(1.0 + (total as real - 1.0 + 0.5) / (1.0 + 0.5));
    var u, v := f + 1.2 * (1.0 - 0.75 + 0.75 * x / 10.0), f + 1.2 * (1.0 - 0.75 + 0.75 * y / 10.0);
    assert idf > 0.0 && 0.0 < u < v;
    hide TermScore, LogLaws;
    Positive(idf, f);
    SmallerQuotient(idf * f * 2.2, u, v);
  }

  lemma Positive(idf: real, f: real)
    requires idf > 0.0 && f > 0.0
    ensures idf * f * 2.2 > 0.0
  {
    assert idf * f > 0.0;
  }

  lemma SmallerQuotient(n: real, u: real, v: real)
    requires n > 0.0 && 0.0 < u < v
    ensures n / v < n / u
  {
    Quotient(n, u);
    Quotient(n, v);
    SmallerFactor(n / u, n / v, u, v);
  }

  /** The scores of those clauses of a list that the document satisfies. */
  ghost function SatisfiedScores(s: Setup, cs: seq<Clause>, d: Document, total: nat): real
  {
    if cs == [] then 0.0
    else
      SatisfiedScores(s, cs[..|cs| - 1], d, total)
      + if Satisfies(s, cs[|cs| - 1], d) then Evaluate(s, cs[|cs| - 1], d, total).score else 0.0
  }

  lemma SuccessesOneMore(os: seq<Outcome>, o: Outcome)
    ensures TotalScore(Successes(os + [o])) == TotalScore(Successes(os)) + if o.matched then o.score else 0.0
  {
    var before := Successes(os);
    assert (os + [o])[..|os|] == os;
    if o.matched {
      assert Successes(os + [o]) == before + [o];
      assert (before + [o])[..|before|] == before;
    } else {
      assert before + [] == before;
      assert Successes(os + [o]) == before + [];
    }
  }

  lemma {:induction false} EvaluateAllSnoc(s: Setup, cs: seq<Clause>, c: Clause, d: Document, total: nat)
    ensures EvaluateAll(s, cs + [c], d, total) == EvaluateAll(s, cs, d, total) + [Evaluate(s, c, d, total)]
    decreases |cs|
  {
    hide Evaluate;
    if cs == [] {
      assert cs + [c] == [c] && [c][1..] == [];
    } else {
      assert (cs + [c])[1..] == cs[1..] + [c];
      EvaluateAllSnoc(s, cs[1..], c, d, total);
    }
  }

  lemma {:induction false} SuccessesScore(s: Setup, cs: seq<Clause>, d: Document, total: nat)
    ensures TotalScore(Successes(EvaluateAll(s, cs, d, total))) == SatisfiedScores(s, cs, d, total)
    decreases |cs|
  {
    if cs != [] {
      var rest, last := cs[..|cs| - 1], cs[|cs| - 1];
      assert cs == rest + [last];
      hide Evaluate, EvaluateAll, Satisfies, TotalScore, Successes;
      SuccessesScore(s, rest, d, total);
      EvaluateMeans(s, last, d, total);
      EvaluateAllSnoc(s, rest, last, d, total);
      SuccessesOneMore(EvaluateAll(s, rest, d, total), Evaluate(s, last, d, total));
    }
  }

  lemma {:induction false} AllMatchedSucceed(os: seq<Outcome>)
    requires forall i :: 0 <= i < |os| ==> os[i].matched
    ensures Successes(os) == os
    decreases |os|
  {
    if os != [] {
      AllMatchedSucceed(os[..|os| - 1]);
      assert os == os[..|os| - 1] + [os[|os| - 1]];
    }
  }

  lemma {:induction false} TotalsAddUp(a: seq<Outcome>, b: seq<Outcome>)
    ensures TotalScore(a + b) == TotalScore(a) + TotalScore(b)
    decreases |b|
  {
    if b == [] {
      assert a + b == a;
    } else {
      assert (a + b)[..|a + b| - 1] == a + b[..|b| - 1];
      TotalsAddUp(a, b[..|b| - 1]);
    }
  }

  /** The score of a boolean clause: what its `must` clauses score, and those of its `should` clauses that match. */
  lemma BoolClauseScores(s: Setup, c: Clause, d: Document, total: nat)
    requires c.kind.Bool? && Evaluate(s, c, d, total).matched
    ensures
      var o := Evaluate(s, c, d, total);
      && o.score == SatisfiedScores(s, c.must, d, total) + SatisfiedScores(s, c.should, d, total)
      && o.explanation.description == "boolean query" && o.explanation.value == o.score
  {
    var must, should := EvaluateAll(s, c.must, d, total), EvaluateAll(s, c.should, d, total);
    var mustNot := EvaluateAll(s, c.mustNot, d, total);
    assert Evaluate(s, c, d, total) == BoolOutcome(must, mustNot, should);
    BoolOutcomeMeans(must, mustNot, should);
    hide Evaluate, EvaluateAll, TotalScore, Successes, SatisfiedScores;
    AllMatchedSucceed(must);
    SuccessesScore(s, c.must, d, total);
    SuccessesScore(s, c.should, d, total);
    TotalsAddUp(must, Successes(should));
  }

  // ----- a first page

  /** What is found: documents of the view that are not deleted, belong to the request's tenant and collection, and
      satisfy the query and every filter. */
  ghost predicate IsFound(s: Setup, r: Request, view: map<string, Document>, id: string)
  {
    && id in view && !view[id].deleted && view[id].tenant == r.tenant && view[id].collection == r.collection
    && Satisfies(s, r.query, view[id])
    && forall i :: 0 <= i < |r.filters| ==> Satisfies(s, r.filters[i], view[id])
  }

  lemma HitIff(s: Setup, r: Request, d: Document, total: nat)
    ensures IsHit(s, r, d, total) <==>
      && !d.deleted && d.tenant == r.tenant && d.collection == r.collection
      && Satisfies(s, r.query, d)
      && forall i :: 0 <= i < |r.filters| ==> Satisfies(s, r.filters[i], d)
  {
    EvaluateMeans(s, r.query, d, total);
    forall i | 0 <= i < |r.filters|
      ensures Evaluate(s, r.filters[i], d, total).matched <==> Satisfies(s, r.filters[i], d)
    {
      EvaluateMeans(s, r.filters[i], d, total);
    }
    hide Evaluate, Satisfies;
  }

  /** How a hit shows its document. */
  ghost predicate ShowsDocument(s: Setup, r: Request, view: map<string, Document>, h: Hit)
  {
    && h.id in view && h.fields == view[h.id].fields
    && h.score == Evaluate(s, r.query, view[h.id], |view|).score
    && h.explanation == if r.explain then Some(Evaluate(s, r.query, view[h.id], |view|).explanation) else None
  }

  /** Higher scores first, and ids ascending among equal scores. */
  ghost predicate InRankOrder(hits: seq<Hit>)
  {
    forall i, j :: 0 <= i < j < |hits| ==>
      hits[i].score > hits[j].score || (hits[i].score == hits[j].score && Text.Less(hits[i].id, hits[j].id))
  }

  ghost predicate ListsId(hits: seq<Hit>, id: string)
  {
    exists h :: h in hits && h.id == id
  }

  ghost predicate IsWholeAnswer(s: Setup, r: Request, view: map<string, Document>, ranked: seq<Hit>)
  {
    && (forall id :: ListsId(ranked, id) <==> IsFound(s, r, view, id))
    && (forall h :: h in ranked ==> ShowsDocument(s, r, view, h))
    && InRankOrder(ranked)
  }

  lemma RankedMember(s: Setup, r: Request, view: map<string, Document>, h: Hit)
    requires WellKeyed(view)
    ensures h in Ranking(s, r, view) <==>
      exists id :: id in view && IsHit(s, r, view[id], |view|) && h == HitOf(s, r, view[id], |view|)
  {
    RankingIsUnique(s, r, view, []);
    var hits, ranking := HitsAmong(s, r, view, view.Keys), Ranking(s, r, view);
    assert h in ranking <==> h in multiset(ranking);
    assert h in multiset(hits) <==> h in hits;
    hide Ranking, IsHit, HitOf;
  }

  lemma RankedAscends(hits: seq<Hit>)
    requires Sorted(Before, hits) && DistinctIds(hits)
    ensures InRankOrder(hits)
  {
    forall i, j | 0 <= i < j < |hits|
      ensures hits[i].score > hits[j].score || (hits[i].score == hits[j].score && Text.Less(hits[i].id, hits[j].id))
    {
      Text.LessTotal(hits[i].id, hits[j].id);
    }
  }

  lemma HitOfIs(s: Setup, r: Request, view: map<string, Document>, id: string)
    requires WellKeyed(view) && id in view
    ensures HitOf(s, r, view[id], |view|).id == id && ShowsDocument(s, r, view, HitOf(s, r, view[id], |view|))
  {
    hide Evaluate;
  }

  lemma RankingIsWholeAnswer(s: Setup, r: Request, view: map<string, Document>)
    requires WellKeyed(view)
    ensures IsWholeAnswer(s, r, view, Ranking(s, r, view))
  {
    var ranked := Ranking(s, r, view);
    RankingIsUnique(s, r, view, []);
    RankedAscends(ranked);
    hide *;
    forall h | h in ranked
      ensures ShowsDocument(s, r, view, h) && IsFound(s, r, view, h.id)
    {
      RankedIsFound(s, r, view, h);
    }
    forall id | IsFound(s, r, view, id)
      ensures ListsId(ranked, id)
    {
      FoundIsRanked(s, r, view, id);
    }
    WholeIf(s, r, view, ranked);
  }

  lemma WholeIf(s: Setup, r: Request, view: map<string, Document>, ranked: seq<Hit>)
    requires forall h :: h in ranked ==> ShowsDocument(s, r, view, h) && IsFound(s, r, view, h.id)
    requires forall id :: IsFound(s, r, view, id) ==> ListsId(ranked, id)
    requires InRankOrder(ranked)
    ensures IsWholeAnswer(s, r, view, ranked)
  {
    hide IsFound, ShowsDocument, InRankOrder;
  }

  lemma RankedIsFound(s: Setup, r: Request, view: map<string, Document>, h: Hit)
    requires WellKeyed(view) && h in Ranking(s, r, view)
    ensures ShowsDocument(s, r, view, h) && IsFound(s, r, view, h.id)
  {
    hide Ranking, IsHit, HitOf, ShowsDocument, Satisfies;
    RankedMember(s, r, view, h);
    var id :| id in view && IsHit(s, r, view[id], |view|) && h == HitOf(s, r, view[id], |view|);
    HitOfIs(s, r, view, id);
    HitIff(s, r, view[id], |view|);
  }

  lemma FoundIsRanked(s: Setup, r: Request, view: map<string, Document>, id: string)
    requires WellKeyed(view) && IsFound(s, r, view, id)
    ensures ListsId(Ranking(s, r, view), id)
  {
    hide Ranking, IsHit, HitOf, ShowsDocument, Satisfies;
    HitIff(s, r, view[id], |view|);
    HitOfIs(s, r, view, id);
    RankedMember(s, r, view, HitOf(s, r, view[id], |view|));
  }

  /** A search without cursor: the engine returns the beginning of the whole answer, as many hits as were asked for or
      are there, and its length as the total. */
  method SearchFirst(e: Engine, r: Request, now: int) returns (result: Result, ghost ranked: seq<Hit>)
    requires e.Valid() && r.size >= 1 && r.searchAfter == ""
    ensures IsWholeAnswer(e.SetupOf(), r, View(e.StateOf()), ranked)
    ensures result.hits <= ranked && |result.hits| == (if |ranked| < r.size then |ranked| else r.size)
    ensures result.total == |ranked| && result.generation == e.generation && !result.partial
    ensures |ranked| < r.size ==> result.nextCursor == ""
  {
    hide *;
    ghost var view := View(e.StateOf());
    ViewIsWellKeyed(e);
    ghost var answer := Answer(e.SetupOf(), e.codec, view, e.generation, r, now);
    ranked := Ranking(e.SetupOf(), r, view);
    RankingIsWholeAnswer(e.SetupOf(), r, view);
    FirstReply(e.SetupOf(), e.codec, view, e.generation, r, now);
    WithinForever(|view|, answer);
    var reply := e.Search(r, now, None);
    assert reply == answer;
    result := reply.result;
  }

  /** A search that can look at every document of the view answers like one that has forever; any other is cancelled. */
  lemma CancelledIff(s: Setup, codec: Codec, view: map<string, Document>, generation: nat, r: Request, now: int,
                     patience: Option<nat>)
    requires r.size >= 1
    ensures
      var answer := Answer(s, codec, view, generation, r, now);
      var reply := Within(patience, |view|, answer);
      && (reply.Cancelled? <==> patience.Some? && patience.value < |view|)
      && (!reply.Cancelled? ==> reply == answer)
  {
    hide Ranking, Encode, Decode, Behind;
  }

  lemma WithinForever(candidates: nat, reply: Reply)
    ensures Within(None, candidates, reply) == reply
  {
  }

  lemma FirstReply(s: Setup, codec: Codec, view: map<string, Document>, generation: nat, r: Request, now: int)
    requires r.size >= 1 && r.searchAfter == ""
    ensures
      var ranked, reply := Ranking(s, r, view), Answer(s, codec, view, generation, r, now);
      && reply.Found? && reply.result.hits <= ranked
      && |reply.result.hits| == (if |ranked| < r.size then |ranked| else r.size)
      && reply.result.total == |ranked| && reply.result.generation == generation && !reply.result.partial
      && (|ranked| < r.size ==> reply.result.nextCursor == "")
  {
    hide Ranking, Encode;
  }
}
