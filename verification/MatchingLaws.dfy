/** The laws of query evaluation: boolean meaning, explanations that add up, phrases as infixes,
    the hierarchy of query kinds, and retrieval of embedded text. */
module MatchingLaws {
  import opened Analyzer
  import opened AnalyzerLaws
  import opened Documents
  import opened EditDistance
  import opened Matching
  import opened Query
  import opened Scoring

  // ----- boolean meaning

  /** The logical reading of a clause, with no scores and no order of evaluation. */
  ghost predicate Satisfies(s: Setup, c: Clause, d: Document)
    decreases c
  {
    match c.kind
    case Match | Phrase | Prefix | Fuzzy =>
      TextMatches(c.kind, Tokens(s.analyzer, c.value), FieldTokens(s.analyzer, d, c.field))
    case Range => InRange(c, Field(d, c.field))
    case Bool =>
      && (forall i :: 0 <= i < |c.must| ==> Satisfies(s, c.must[i], d))
      && (forall i :: 0 <= i < |c.mustNot| ==> !Satisfies(s, c.mustNot[i], d))
      && (c.should == [] || exists i :: 0 <= i < |c.should| && Satisfies(s, c.should[i], d))
    case Unsupported(_) => false
  }

  lemma {:induction false} EvaluateMeans(s: Setup, c: Clause, d: Document, total: nat)
    ensures Evaluate(s, c, d, total).matched <==> Satisfies(s, c, d)
    decreases c, 1
  {
    if c.kind.Bool? {
      EvaluateAllMeans(s, c.must, d, total);
      EvaluateAllMeans(s, c.mustNot, d, total);
      EvaluateAllMeans(s, c.should, d, total);
      hide Evaluate, Satisfies, Agrees;
      BoolMeans(s, c, d, total);
    }
  }

  lemma BoolMeans(s: Setup, c: Clause, d: Document, total: nat)
    requires c.kind.Bool?
    requires Agrees(s, c.must, d, total) && Agrees(s, c.mustNot, d, total) && Agrees(s, c.should, d, total)
    ensures Evaluate(s, c, d, total).matched <==> Satisfies(s, c, d)
  {
    hide EvaluateAll, BoolOutcome;
    var must, mustNot := EvaluateAll(s, c.must, d, total), EvaluateAll(s, c.mustNot, d, total);
    var should := EvaluateAll(s, c.should, d, total);
    BoolOutcomeMeans(must, mustNot, should);
    assert Evaluate(s, c, d, total) == BoolOutcome(must, mustNot, should);
    hide Evaluate;
  }

  ghost predicate Agrees(s: Setup, cs: seq<Clause>, d: Document, total: nat)
  {
    forall i :: 0 <= i < |cs| ==> (EvaluateAll(s, cs, d, total)[i].matched <==> Satisfies(s, cs[i], d))
  }

  lemma {:induction false} EvaluateAllMeans(s: Setup, cs: seq<Clause>, d: Document, total: nat)
    ensures Agrees(s, cs, d, total)
    decreases cs, 0
  {
    hide Satisfies, Evaluate;
    if cs != [] {
      EvaluateMeans(s, cs[0], d, total);
      EvaluateAllMeans(s, cs[1..], d, total);
      var os := EvaluateAll(s, cs, d, total);
      assert os[1..] == EvaluateAll(s, cs[1..], d, total);
      forall i | 0 <= i < |cs|
        ensures os[i].matched <==> Satisfies(s, cs[i], d)
      {
        if i > 0 {
          assert os[i] == os[1..][i - 1] && cs[i] == cs[1..][i - 1];
        }
      }
    }
  }

  lemma BoolOutcomeMeans(must: seq<Outcome>, mustNot: seq<Outcome>, should: seq<Outcome>)
    ensures BoolOutcome(must, mustNot, should).matched <==>
      && (forall i :: 0 <= i < |must| ==> must[i].matched)
      && !(exists i :: 0 <= i < |mustNot| && mustNot[i].matched)
      && (should == [] || exists i :: 0 <= i < |should| && should[i].matched)
  {
  }

  // ----- explanations

  function SumOfValues(xs: seq<Explanation>): real
  {
    if xs == [] then 0.0 else SumOfValues(xs[..|xs| - 1]) + xs[|xs| - 1].value
  }

  function SumOfLeaves(x: Explanation): real
    decreases x, 1
  {
    if x.details == [] then x.value else SumOfAllLeaves(x.details)
  }

  function SumOfAllLeaves(xs: seq<Explanation>): real
    decreases xs, 0
  {
    if xs == [] then 0.0 else SumOfAllLeaves(xs[..|xs| - 1]) + SumOfLeaves(xs[|xs| - 1])
  }

  /** Every inner node's value is the sum of its details'. */
  ghost predicate AddsUp(x: Explanation)
  {
    && (x.details != [] ==> x.value == SumOfValues(x.details))
    && forall y | y in x.details :: AddsUp(y)
  }

  lemma {:induction false} LeavesAddUp(x: Explanation)
    requires AddsUp(x)
    ensures SumOfLeaves(x) == x.value
    decreases x, 1
  {
    if x.details != [] {
      AllLeavesAddUp(x.details);
    }
  }

  lemma {:induction false} AllLeavesAddUp(xs: seq<Explanation>)
    requires forall y | y in xs :: AddsUp(y)
    ensures SumOfAllLeaves(xs) == SumOfValues(xs)
    decreases xs, 0
  {
    if xs != [] {
      LeavesAddUp(xs[|xs| - 1]);
      AllLeavesAddUp(xs[..|xs| - 1]);
    }
  }

  ghost predicate Justified(o: Outcome)
  {
    o.matched ==> o.score == o.explanation.value && AddsUp(o.explanation)
  }

  lemma {:induction false} CountedAddUp(os: seq<Outcome>)
    requires forall o | o in os :: o.matched && Justified(o)
    ensures SumOfValues(Explanations(os)) == TotalScore(os)
    ensures forall x | x in Explanations(os) :: AddsUp(x)
  {
    if os != [] {
      CountedAddUp(os[..|os| - 1]);
      assert Explanations(os)[..|os| - 1] == Explanations(os[..|os| - 1]);
    }
  }

  lemma {:induction false} SuccessesMatched(os: seq<Outcome>)
    ensures forall o | o in Successes(os) :: o.matched && o in os
  {
    if os != [] {
      SuccessesMatched(os[..|os| - 1]);
    }
  }

  lemma BoolOutcomeJustified(must: seq<Outcome>, mustNot: seq<Outcome>, should: seq<Outcome>)
    requires forall o | o in must :: Justified(o)
    requires forall o | o in should :: Justified(o)
    ensures Justified(BoolOutcome(must, mustNot, should))
  {
    var o := BoolOutcome(must, mustNot, should);
    if o.matched {
      var counted := must + Successes(should);
      SuccessesMatched(should);
      assert forall x | x in counted :: x.matched && Justified(x);
      CountedAddUp(counted);
    }
  }

  /** For every matched clause tree the score is the explanation's root value, every inner node is the
      sum of its details, and the root is the sum of the leaves. */
  lemma {:induction false} ExplanationAddsUp(s: Setup, c: Clause, d: Document, total: nat)
    ensures Justified(Evaluate(s, c, d, total))
    ensures
      var o := Evaluate(s, c, d, total);
      o.matched ==> o.score == SumOfLeaves(o.explanation)
    decreases c, 1
  {
    if c.kind.Bool? {
      hide EvaluateAll, BoolOutcome, Justified;
      AllExplanationsAddUp(s, c.must, d, total);
      AllExplanationsAddUp(s, c.should, d, total);
      BoolOutcomeJustified(EvaluateAll(s, c.must, d, total), EvaluateAll(s, c.mustNot, d, total),
                           EvaluateAll(s, c.should, d, total));
    }
    JustifiedLeaves(Evaluate(s, c, d, total));
  }

  lemma JustifiedLeaves(o: Outcome)
    requires Justified(o)
    ensures o.matched ==> o.score == SumOfLeaves(o.explanation)
  {
    if o.matched {
      LeavesAddUp(o.explanation);
    }
  }

  lemma {:induction false} AllExplanationsAddUp(s: Setup, cs: seq<Clause>, d: Document, total: nat)
    ensures forall o | o in EvaluateAll(s, cs, d, total) :: Justified(o)
    decreases cs, 0
  {
    hide Evaluate, Justified;
    if cs != [] {
      ExplanationAddsUp(s, cs[0], d, total);
      AllExplanationsAddUp(s, cs[1..], d, total);
    }
  }

  /** Neither the clause nor any clause below it evaluates to the "unsupported" outcome. */
  ghost predicate NeverUnsupported(s: Setup, c: Clause, d: Document, total: nat)
    decreases c
  {
    && Evaluate(s, c, d, total).explanation.description != "unsupported"
    && (c.kind.Bool? ==>
         && (forall x | x in c.must :: NeverUnsupported(s, x, d, total))
         && (forall x | x in c.should :: NeverUnsupported(s, x, d, total))
         && (forall x | x in c.mustNot :: NeverUnsupported(s, x, d, total)))
  }

  /** A validated clause never reaches the evaluator's "unsupported" branch, whatever the document. */
  lemma AcceptedNeverUnsupported(s: Setup, u: Unicode, c: Clause, d: Document, total: nat)
    requires ValidateClause(u, c, 0).Accepted?
    ensures NeverUnsupported(s, c, d, total)
  {
    AcceptedQueries(u, c);
    hide NeverUnsupported, WellFormed, FitsIn, ValidateClause;
    WellFormedIsSupported(s, u, c, d, total);
  }

  lemma {:induction false} WellFormedIsSupported(s: Setup, u: Unicode, c: Clause, d: Document, total: nat)
    requires WellFormed(u, c)
    ensures NeverUnsupported(s, c, d, total)
    decreases c
  {
    hide Evaluate;
    if c.kind.Bool? {
      forall x | x in c.must
        ensures NeverUnsupported(s, x, d, total)
      {
        WellFormedIsSupported(s, u, x, d, total);
      }
      forall x | x in c.should
        ensures NeverUnsupported(s, x, d, total)
      {
        WellFormedIsSupported(s, u, x, d, total);
      }
      forall x | x in c.mustNot
        ensures NeverUnsupported(s, x, d, total)
      {
        WellFormedIsSupported(s, u, x, d, total);
      }
      BoolIsSupported(s, c, d, total);
    } else {
      LeafIsSupported(s, c, d, total);
    }
  }

  lemma LeafIsSupported(s: Setup, c: Clause, d: Document, total: nat)
    requires !c.kind.Bool? && !c.kind.Unsupported?
    ensures Evaluate(s, c, d, total).explanation.description != "unsupported"
  {
    hide HasAllTerms, HasPhrase, TextScore, Tokens, FieldTokens, InRange;
    assert "unsupported"[0] == 'u';
    assert (KindName(c.kind) + " query")[0] != 'u';
  }

  /** A boolean clause explains itself, or passes on the explanation of one below it. */
  lemma BoolIsSupported(s: Setup, c: Clause, d: Document, total: nat)
    requires c.kind.Bool?
    requires forall x | x in c.must :: Evaluate(s, x, d, total).explanation.description != "unsupported"
    requires forall x | x in c.mustNot :: Evaluate(s, x, d, total).explanation.description != "unsupported"
    ensures Evaluate(s, c, d, total).explanation.description != "unsupported"
  {
    var must, mustNot := EvaluateAll(s, c.must, d, total), EvaluateAll(s, c.mustNot, d, total);
    var should := EvaluateAll(s, c.should, d, total);
    assert Evaluate(s, c, d, total) == BoolOutcome(must, mustNot, should);
    hide Evaluate, EvaluateAll;
    forall i | 0 <= i < |c.must|
      ensures must[i].explanation.description != "unsupported"
    {
      EvaluateAllAt(s, c.must, d, total, i);
    }
    forall i | 0 <= i < |c.mustNot|
      ensures mustNot[i].explanation.description != "unsupported"
    {
      EvaluateAllAt(s, c.mustNot, d, total, i);
    }
    assert "unsupported"[0] == 'u' && "boolean query"[0] == 'b';
  }

  // ----- the hierarchy of text kinds

  lemma {:induction false} FrequencyPositive(kind: Kind, wanted: string, field: seq<Token>, k: nat)
    requires k < |field| && TermMatches(kind, field[k].term, wanted)
    ensures Frequency(kind, wanted, field) > 0
  {
    hide TermMatches;
    if k < |field| - 1 {
      FrequencyPositive(kind, wanted, field[..|field| - 1], k);
    }
  }

  lemma {:induction false} FrequencyWitness(kind: Kind, wanted: string, field: seq<Token>) returns (k: nat)
    requires Frequency(kind, wanted, field) > 0
    ensures k < |field| && TermMatches(kind, field[k].term, wanted)
  {
    if TermMatches(kind, field[|field| - 1].term, wanted) {
      k := |field| - 1;
    } else {
      k := FrequencyWitness(kind, wanted, field[..|field| - 1]);
    }
  }

  /** Exact terms are prefixes of themselves and at distance zero. */
  lemma {:induction false} FrequencyGrows(wanted: string, field: seq<Token>, wider: Kind)
    requires wider.Prefix? || wider.Fuzzy?
    ensures Frequency(Match, wanted, field) <= Frequency(wider, wanted, field)
  {
    if field != [] {
      DistanceIsAMetric(wanted, wanted, wanted);
      hide Levenshtein;
      FrequencyGrows(wanted, field[..|field| - 1], wider);
    }
  }

  lemma {:induction false} FrequencyOfPhrase(wanted: string, field: seq<Token>)
    ensures Frequency(Phrase, wanted, field) == Frequency(Match, wanted, field)
  {
    if field != [] {
      FrequencyOfPhrase(wanted, field[..|field| - 1]);
    }
  }

  lemma TermScoreGrows(log: real -> real, fewer: nat, more: nat, length: nat, total: nat)
    requires LogLaws(log) && 1 <= fewer <= more && total > 0
    ensures 0.0 < TermScore(log, fewer, length, total) <= TermScore(log, more, length, total)
  {
    ScoreSaturates(DefaultBM25(), log, fewer as real, (more + 1) as real, length as real, 10.0, 1.0, total as real);
    if fewer < more {
      ScoreSaturates(DefaultBM25(), log, fewer as real, more as real, length as real, 10.0, 1.0, total as real);
    }
  }

  lemma {:induction false} TextScoreGrows(log: real -> real, wanted: seq<Token>, field: seq<Token>, total: nat,
                                          wider: Kind)
    requires LogLaws(log) && total > 0 && (wider.Prefix? || wider.Fuzzy?)
    requires HasAllTerms(Match, wanted, field)
    ensures HasAllTerms(wider, wanted, field)
    ensures 0.0 <= TextScore(log, Match, wanted, field, total) <= TextScore(log, wider, wanted, field, total)
  {
    if wanted != [] {
      hide TermScore;
      var rest, last := wanted[..|wanted| - 1], wanted[|wanted| - 1].term;
      TextScoreGrows(log, rest, field, total, wider);
      FrequencyGrows(last, field, wider);
      hide Frequency;
      assert Frequency(Match, last, field) > 0;
      TermScoreGrows(log, Frequency(Match, last, field), Frequency(wider, last, field), |field|, total);
      forall i | 0 <= i < |wanted|
        ensures Frequency(wider, wanted[i].term, field) > 0
      {
        assert i < |wanted| - 1 ==> wanted[i] == rest[i];
      }
    }
  }

  lemma {:induction false} TextScoreOfPhrase(log: real -> real, wanted: seq<Token>, field: seq<Token>, total: nat)
    ensures TextScore(log, Phrase, wanted, field, total) == TextScore(log, Match, wanted, field, total)
    ensures HasAllTerms(Phrase, wanted, field) <==> HasAllTerms(Match, wanted, field)
  {
    hide TermScore;
    if wanted != [] {
      TextScoreOfPhrase(log, wanted[..|wanted| - 1], field, total);
      FrequencyOfPhrase(wanted[|wanted| - 1].term, field);
    }
    forall i | 0 <= i < |wanted|
      ensures Frequency(Phrase, wanted[i].term, field) == Frequency(Match, wanted[i].term, field)
    {
      FrequencyOfPhrase(wanted[i].term, field);
    }
  }

  lemma BoostedGrows(lesser: real, greater: real, boost: real)
    requires 0.0 <= lesser <= greater
    ensures 0.0 <= Boosted(lesser, boost) <= Boosted(greater, boost)
  {
    if boost > 0.0 {
      ProductNonNegative(lesser, boost);
      ProductNonNegative(greater - lesser, boost);
    }
  }

  /** On one field, with one value and one boost: a phrase match is a match with the same score, and a
      match is both a prefix match and a fuzzy match with at least that score. */
  lemma KindHierarchy(s: Setup, c: Clause, d: Document, total: nat)
    requires LogLaws(s.log) && total > 0
    ensures
      var phrase, exact := Evaluate(s, c.(kind := Phrase), d, total), Evaluate(s, c.(kind := Match), d, total);
      phrase.matched ==> exact.matched && exact.score == phrase.score
    ensures
      var exact := Evaluate(s, c.(kind := Match), d, total);
      var prefix, fuzzy := Evaluate(s, c.(kind := Prefix), d, total), Evaluate(s, c.(kind := Fuzzy), d, total);
      exact.matched ==>
        && prefix.matched && 0.0 <= exact.score <= prefix.score
        && fuzzy.matched && exact.score <= fuzzy.score
  {
    var wanted, field := Tokens(s.analyzer, c.value), FieldTokens(s.analyzer, d, c.field);
    TextScoreOfPhrase(s.log, wanted, field, total);
    if HasAllTerms(Match, wanted, field) {
      TextScoreGrows(s.log, wanted, field, total, Prefix);
      TextScoreGrows(s.log, wanted, field, total, Fuzzy);
      hide TextScore, HasAllTerms, HasPhrase, Tokens, FieldTokens;
      var exact := TextScore(s.log, Match, wanted, field, total);
      BoostedGrows(exact, TextScore(s.log, Prefix, wanted, field, total), c.boost);
      BoostedGrows(exact, TextScore(s.log, Fuzzy, wanted, field, total), c.boost);
    }
  }

  /** The most one query token can contribute. */
  function TermBound(log: real -> real, total: nat): real
  {
    Idf(log, 1.0, total as real) * (1.2 + 1.0)
  }

  lemma TermScoreBounded(log: real -> real, frequency: nat, length: nat, total: nat)
    requires LogLaws(log) && total > 0 && frequency > 0
    ensures 0.0 < TermScore(log, frequency, length, total) < TermBound(log, total)
  {
    ScoreSaturates(DefaultBM25(), log, frequency as real, (frequency + 1) as real, length as real, 10.0, 1.0,
                   total as real);
  }

  lemma OneMoreBound(n: nat, bound: real)
    ensures (n + 1) as real * bound == n as real * bound + bound
  {
  }

  /** The unboosted score of an m-token clause stays strictly between zero and m times the bound of one token. */
  lemma {:induction false} TextScoreBounded(log: real -> real, kind: Kind, wanted: seq<Token>, field: seq<Token>,
                                            total: nat)
    requires LogLaws(log) && total > 0 && wanted != []
    requires HasAllTerms(kind, wanted, field)
    ensures 0.0 < TextScore(log, kind, wanted, field, total) < |wanted| as real * TermBound(log, total)
    decreases |wanted|
  {
    hide TermScore, TermBound, Frequency, LogLaws;
    var rest, last := wanted[..|wanted| - 1], wanted[|wanted| - 1];
    assert Frequency(kind, last.term, field) > 0;
    TermScoreBounded(log, Frequency(kind, last.term, field), |field|, total);
    OneMoreBound(|rest|, TermBound(log, total));
    if rest != [] {
      TextScoreBounded(log, kind, rest, field, total);
    }
  }

  /** How much a clause's boost multiplies its score. */
  function BoostFactor(boost: real): real
  {
    if boost > 0.0 then boost else 1.0
  }

  lemma BoostedBounded(score: real, bound: real, boost: real)
    requires 0.0 < score < bound
    ensures 0.0 < Boosted(score, boost) < BoostFactor(boost) * bound
  {
    if boost > 0.0 {
      LargerFactor(boost, 0.0, score);
      LargerFactor(boost, score, bound);
    }
  }

  lemma LargerFactor(p: real, u: real, v: real)
    requires p > 0.0 && u < v
    ensures u * p < p * v
  {
  }

  /** m times the bound of one token, times the clause's boost. */
  function ClauseBound(log: real -> real, boost: real, m: nat, total: nat): real
  {
    BoostFactor(boost) * (m as real * TermBound(log, total))
  }

  lemma TextOutcomeBounded(s: Setup, c: Clause, wanted: seq<Token>, field: seq<Token>, total: nat)
    requires LogLaws(s.log) && total > 0 && TextOutcome(s, c, wanted, field, total).matched
    ensures 0.0 < TextOutcome(s, c, wanted, field, total).score < ClauseBound(s.log, c.boost, |wanted|, total)
  {
    var score := TextScore(s.log, c.kind, wanted, field, total);
    assert TextOutcome(s, c, wanted, field, total).score == Boosted(score, c.boost);
    assert wanted != [] && HasAllTerms(c.kind, wanted, field);
    hide TextOutcome, HasAllTerms, HasPhrase, TextScore, TermBound, LogLaws, Boosted, BoostFactor;
    TextScoreBounded(s.log, c.kind, wanted, field, total);
    BoostedBounded(score, |wanted| as real * TermBound(s.log, total), c.boost);
  }

  /** The score of a matching text clause is positive and stays strictly below its bound. */
  lemma ClauseScoreBounded(s: Setup, c: Clause, d: Document, total: nat)
    requires LogLaws(s.log) && total > 0 && IsTextKind(c.kind) && Evaluate(s, c, d, total).matched
    ensures 0.0 < Evaluate(s, c, d, total).score
    ensures Evaluate(s, c, d, total).score < ClauseBound(s.log, c.boost, |Tokens(s.analyzer, c.value)|, total)
  {
    var wanted, field := Tokens(s.analyzer, c.value), FieldTokens(s.analyzer, d, c.field);
    assert Evaluate(s, c, d, total) == TextOutcome(s, c, wanted, field, total);
    hide *;
    TextOutcomeBounded(s, c, wanted, field, total);
  }

  // ----- phrases

  function Terms(ts: seq<Token>): seq<string>
  {
    seq(|ts|, i requires 0 <= i < |ts| => ts[i].term)
  }

  ghost predicate StandsAt(part: seq<string>, whole: seq<string>, i: int)
  {
    0 <= i && i + |part| <= |whole| && whole[i..i + |part|] == part
  }

  /** `part` stands somewhere in `whole` without gaps. */
  ghost predicate IsInfix(part: seq<string>, whole: seq<string>)
  {
    exists i :: StandsAt(part, whole, i)
  }

  ghost predicate PositionsAreIndices(ts: seq<Token>)
  {
    forall k :: 0 <= k < |ts| ==> ts[k].position == k
  }

  lemma PhraseAtIsSlice(field: seq<Token>, wanted: seq<Token>, start: int)
    requires PositionsAreIndices(field) && wanted != []
    ensures PhraseAt(field, wanted, start) <==> StandsAt(Terms(wanted), Terms(field), start)
  {
    if PhraseAt(field, wanted, start) {
      assert OccursAt(field, wanted[0].term, start + 0);
      assert OccursAt(field, wanted[|wanted| - 1].term, start + (|wanted| - 1));
      forall i | 0 <= i < |wanted|
        ensures field[start + i].term == wanted[i].term
      {
        assert OccursAt(field, wanted[i].term, start + i);
      }
    }
    if StandsAt(Terms(wanted), Terms(field), start) {
      forall i | 0 <= i < |wanted|
        ensures OccursAt(field, wanted[i].term, start + i)
      {
        assert Terms(field)[start..start + |wanted|][i] == Terms(wanted)[i];
        assert field[start + i].term == wanted[i].term;
      }
    }
  }

  lemma PhraseImpliesTerms(field: seq<Token>, wanted: seq<Token>)
    requires HasPhrase(field, wanted)
    ensures HasAllTerms(Phrase, wanted, field)
  {
    var start :| PhraseAt(field, wanted, start);
    forall i | 0 <= i < |wanted|
      ensures Frequency(Phrase, wanted[i].term, field) > 0
    {
      assert OccursAt(field, wanted[i].term, start + i);
      var k :| 0 <= k < |field| && field[k].term == wanted[i].term && field[k].position == start + i;
      FrequencyPositive(Phrase, wanted[i].term, field, k);
    }
  }

  /** Phrase search is exact: without synonyms a phrase clause matches exactly the fields whose term
      sequence contains the query's nonempty term sequence as an infix. */
  lemma PhraseIsInfix(p: Pipeline, query: string, text: string)
    requires p.synonyms == map[]
    ensures TextMatches(Phrase, Tokens(p, query), Tokens(p, text)) <==>
      Tokens(p, query) != [] && IsInfix(Terms(Tokens(p, query)), Terms(Tokens(p, text)))
  {
    var wanted, field := Tokens(p, query), Tokens(p, text);
    WithoutSynonymsPositions(p, text);
    hide Tokens;
    if wanted != [] {
      if HasPhrase(field, wanted) {
        var start :| PhraseAt(field, wanted, start);
        PhraseAtIsSlice(field, wanted, start);
        PhraseImpliesTerms(field, wanted);
      }
      if IsInfix(Terms(wanted), Terms(field)) {
        var i :| StandsAt(Terms(wanted), Terms(field), i);
        PhraseAtIsSlice(field, wanted, i);
        PhraseImpliesTerms(field, wanted);
      }
    }
  }

  // ----- retrieval

  ghost predicate AllWords(ts: seq<Token>)
  {
    forall t :: t in ts ==> t.kind.Word?
  }

  lemma {:induction false} AllWordsIffNoSynonym(ts: seq<Token>)
    ensures AllWords(ts) <==> Words(ts) == ts
    ensures |Words(ts)| <= |ts|
    ensures |Words(ts)| == |ts| ==> AllWords(ts)
  {
    if ts != [] {
      AllWordsIffNoSynonym(ts[1..]);
      assert ts == [ts[0]] + ts[1..];
    }
  }

  /** What every occurrence of the query inside a field needs: its tokens, shifted. */
  lemma EmbeddedTokens(p: Pipeline, before: string, first: char, query: string, second: char, after: string)
    returns (a: seq<Token>, b: seq<Token>)
    requires IsSeparator(p.unicode, first) && IsSeparator(p.unicode, second)
    ensures
      var n := |Words(Tokens(p, before))|;
      Tokens(p, before + [first] + query + [second] + after)
      == a + Shift(Tokens(p, query), n, |before| + 1) + b
  {
    var left := before + [first] + query;
    AnalyzeComposes(p, left, second, after);
    AnalyzeComposes(p, before, first, query);
    a := Tokens(p, before);
    b := Shift(Tokens(p, after), |Words(Tokens(p, left))|, |left| + 1);
  }

  /** Text set off by separators is always found: by match, prefix and fuzzy clauses whatever the
      synonyms, and by a phrase clause if none of its own tokens is a synonym. */
  lemma EmbeddedTextIsFound(p: Pipeline, before: string, first: char, query: string, second: char, after: string)
    requires IsSeparator(p.unicode, first) && IsSeparator(p.unicode, second)
    requires Tokens(p, query) != []
    ensures
      var wanted, field := Tokens(p, query), Tokens(p, before + [first] + query + [second] + after);
      && TextMatches(Match, wanted, field) && TextMatches(Prefix, wanted, field) && TextMatches(Fuzzy, wanted, field)
      && (AllWords(wanted) ==> TextMatches(Phrase, wanted, field))
  {
    var wanted, field := Tokens(p, query), Tokens(p, before + [first] + query + [second] + after);
    var a, b := EmbeddedTokens(p, before, first, query, second, after);
    var n := |Words(Tokens(p, before))|;
    StreamPositions(p, query);
    hide Tokens, Words;
    EmbeddedIsFound(wanted, field, a, b, n, |before| + 1);
  }

  lemma EmbeddedIsFound(wanted: seq<Token>, field: seq<Token>, a: seq<Token>, b: seq<Token>, n: nat, offset: nat)
    requires wanted != [] && field == a + Shift(wanted, n, offset) + b
    requires AllWords(wanted) ==> PositionsAreIndices(wanted)
    ensures TextMatches(Match, wanted, field) && TextMatches(Prefix, wanted, field) && TextMatches(Fuzzy, wanted, field)
    ensures AllWords(wanted) ==> TextMatches(Phrase, wanted, field)
  {
    forall i | 0 <= i < |wanted|
      ensures field[|a| + i] == Shift(wanted, n, offset)[i]
      ensures Frequency(Match, wanted[i].term, field) > 0
      ensures Frequency(Prefix, wanted[i].term, field) > 0
      ensures Frequency(Fuzzy, wanted[i].term, field) > 0
    {
      assert field[|a| + i] == Shift(wanted, n, offset)[i];
      FrequencyPositive(Match, wanted[i].term, field, |a| + i);
      FrequencyGrows(wanted[i].term, field, Prefix);
      FrequencyGrows(wanted[i].term, field, Fuzzy);
    }
    if AllWords(wanted) {
      forall i | 0 <= i < |wanted|
        ensures OccursAt(field, wanted[i].term, n + i)
      {
        assert field[|a| + i].position == n + i;
      }
      assert PhraseAt(field, wanted, n);
      PhraseImpliesTerms(field, wanted);
    }
  }

  // ----- phrases and synonyms

  lemma {:induction false} PositionsBelowWordCount(p: Pipeline, text: string, ws: seq<Token>, n: nat)
    requires forall w :: w in ws ==> w.start < |text| && w.position < n
    ensures forall t :: t in WithSynonyms(p, text, ws) ==> t.position < n
  {
    if ws != [] {
      PositionsBelowWordCount(p, text, ws[1..], n);
    }
  }

  lemma WordNumbers(p: Pipeline, text: string)
    ensures
      var ws := Words(Tokens(p, text));
      && (forall w :: w in ws ==> w.start < |text| && w.position < |ws|)
      && PositionsAreIndices(ws)
  {
    WordsAreWellPlaced(p, text, 0, 0);
    hide TokensFrom, Words, IsWordPlace;
  }

  lemma StreamPositions(p: Pipeline, text: string)
    ensures forall t :: t in Tokens(p, text) ==> t.position < |Words(Tokens(p, text))|
    ensures AllWords(Tokens(p, text)) ==> PositionsAreIndices(Tokens(p, text))
  {
    hide TokensFrom, Words, PositionsAreIndices;
    var ws := Words(Tokens(p, text));
    WordNumbers(p, text);
    AllWordsIffNoSynonym(Tokens(p, text));
    StreamIsWordsWithSynonyms(p, text, 0, 0);
    PositionsBelowWordCount(p, text, ws, |ws|);
  }

  lemma PhraseNeedsRoom(field: seq<Token>, wanted: seq<Token>, n: nat)
    requires HasPhrase(field, wanted) && wanted != []
    requires forall t :: t in field ==> t.position < n
    ensures |wanted| <= n
  {
    var start :| PhraseAt(field, wanted, start);
    assert OccursAt(field, wanted[0].term, start + 0);
    assert OccursAt(field, wanted[|wanted| - 1].term, start + (|wanted| - 1));
  }

  /** A text is found by itself as a phrase exactly when none of its tokens is a synonym: synonym tokens
      of the query ask for positions of their own, which no document text has. */
  lemma PhraseFindsItsOwnText(p: Pipeline, text: string)
    ensures TextMatches(Phrase, Tokens(p, text), Tokens(p, text)) <==>
      Tokens(p, text) != [] && AllWords(Tokens(p, text))
  {
    var ts := Tokens(p, text);
    StreamPositions(p, text);
    AllWordsIffNoSynonym(ts);
    hide Tokens, Words;
    if ts != [] && AllWords(ts) {
      assert ts == [] + Shift(ts, 0, 0) + [];
      EmbeddedIsFound(ts, ts, [], [], 0, 0);
    }
    if HasPhrase(ts, ts) && ts != [] {
      PhraseNeedsRoom(ts, ts, |Words(ts)|);
    }
  }
}
