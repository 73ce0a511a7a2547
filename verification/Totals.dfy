/** How a score depends on the number of documents it is computed with: through the text clauses it counts, and through
    nothing else (internal/index/index.go, internal/scoring/bm25.go). */
module Totals {
  import opened Analyzer
  import opened Documents
  import opened Matching
  import opened MatchingLaws
  import opened Query
  import opened Scoring

  /** The clause, if satisfied, counts the score of some text clause. */
  ghost predicate Weighs(s: Setup, c: Clause, d: Document)
    decreases c
  {
    match c.kind
    case Match | Phrase | Prefix | Fuzzy => true
    case Range => false
    case Bool =>
      || (exists i :: 0 <= i < |c.must| && Weighs(s, c.must[i], d))
      || (exists i :: 0 <= i < |c.should| && Satisfies(s, c.should[i], d) && Weighs(s, c.should[i], d))
    case Unsupported(_) => false
  }

  // ----- text clauses

  lemma QuotientRises(x: real, y: real, d: real)
    requires x < y && d > 0.0
    ensures x / d < y / d
  {
    Quotient(x, d);
    Quotient(y, d);
    FactorRises(x / d, y / d, d);
  }

  lemma FactorRises(p: real, q: real, d: real)
    requires p * d < q * d && d > 0.0
    ensures p < q
  {
    if p >= q {
      ProductNonNegative(p - q, d);
    }
  }

  lemma IdfRises(log: real -> real, n: real, m: real)
    requires LogLaws(log) && 1.0 <= n < m
    ensures 0.0 < Idf(log, 1.0, n) < Idf(log, 1.0, m)
  {
    IdfPositive(log, 1.0, n);
    var x, y := (n - 1.0 + 0.5) / 1.5, (m - 1.0 + 0.5) / 1.5;
    QuotientRises(n - 1.0 + 0.5, m - 1.0 + 0.5, 1.5);
    assert 0.0 < 1.0 + x < 1.0 + y;
  }

  lemma ProductRises(x: real, y: real, k: real)
    requires x < y && k > 0.0
    ensures x * k < y * k
  {
  }

  lemma TermScoreRises(log: real -> real, frequency: nat, length: nat, n: nat, m: nat)
    requires LogLaws(log) && 0 < n < m && frequency > 0
    ensures TermScore(log, frequency, length, n) < TermScore(log, frequency, length, m)
  {
    var f, l := frequency as real, length as real;
    ScoreFactors(DefaultBM25(), log, f, l, 10.0, 1.0, n as real);
    ScoreFactors(DefaultBM25(), log, f, l, 10.0, 1.0, m as real);
    IdfRises(log, n as real, m as real);
    DampingPositive(DefaultBM25(), l, 10.0);
    var damping := Damping(DefaultBM25(), l, 10.0);
    Saturates(f, f + 1.0, damping);
    hide Idf, Damping, Score, LogLaws;
    var share, k := f / (f + damping), DefaultBM25().k1 + 1.0;
    ProductRises(Idf(log, 1.0, n as real), Idf(log, 1.0, m as real), k);
    ProductRises(Idf(log, 1.0, n as real) * k, Idf(log, 1.0, m as real) * k, share);
  }

  lemma {:induction false} TextScoreRises(log: real -> real, kind: Kind, wanted: seq<Token>, field: seq<Token>, n: nat,
                                          m: nat)
    requires LogLaws(log) && 0 < n < m && wanted != [] && HasAllTerms(kind, wanted, field)
    ensures TextScore(log, kind, wanted, field, n) < TextScore(log, kind, wanted, field, m)
    decreases |wanted|
  {
    hide TermScore, Frequency, LogLaws;
    var rest, last := wanted[..|wanted| - 1], wanted[|wanted| - 1];
    assert Frequency(kind, last.term, field) > 0;
    TermScoreRises(log, Frequency(kind, last.term, field), |field|, n, m);
    if rest != [] {
      TextScoreRises(log, kind, rest, field, n, m);
    }
  }

  lemma BoostedRises(x: real, y: real, boost: real)
    requires x < y
    ensures Boosted(x, boost) < Boosted(y, boost)
  {
    if boost > 0.0 {
      ProductRises(x, y, boost);
    }
  }

  // ----- all clauses

  /** With more documents a matched outcome has a higher score if it counts text, and is the same if it does not. */
  ghost predicate Rises(o: Outcome, o': Outcome, weighs: bool)
  {
    && o.matched && o'.matched
    && if weighs then o.score < o'.score else o == o'
  }

  lemma TextRises(s: Setup, c: Clause, wanted: seq<Token>, field: seq<Token>, n: nat, m: nat)
    requires LogLaws(s.log) && 0 < n < m && TextMatches(c.kind, wanted, field)
    ensures Rises(TextOutcome(s, c, wanted, field, n), TextOutcome(s, c, wanted, field, m), true)
  {
    TextScoreRises(s.log, c.kind, wanted, field, n, m);
    BoostedRises(TextScore(s.log, c.kind, wanted, field, n), TextScore(s.log, c.kind, wanted, field, m), c.boost);
    hide TextScore, Boosted, HasPhrase, LogLaws;
  }

  /** Outcome by outcome. */
  ghost predicate AllRise(os: seq<Outcome>, os': seq<Outcome>, weigh: seq<bool>)
  {
    |os| == |os'| == |weigh| && forall i :: 0 <= i < |os| ==> Rises(os[i], os'[i], weigh[i])
  }

  lemma {:induction false} SumRises(os: seq<Outcome>, os': seq<Outcome>, weigh: seq<bool>)
    requires AllRise(os, os', weigh)
    ensures if true in weigh then TotalScore(os) < TotalScore(os') else os == os'
    decreases |os|
  {
    if os != [] {
      var k := |os| - 1;
      assert weigh == weigh[..k] + [weigh[k]] && os == os[..k] + [os[k]] && os' == os'[..k] + [os'[k]];
      SumRises(os[..k], os'[..k], weigh[..k]);
    }
  }

  /** The entries that belong to matched outcomes. */
  function Kept(os: seq<Outcome>, weigh: seq<bool>): seq<bool>
    requires |os| == |weigh|
  {
    if os == [] then []
    else Kept(os[..|os| - 1], weigh[..|os| - 1]) + if os[|os| - 1].matched then [weigh[|os| - 1]] else []
  }

  ghost predicate MatchedRise(os: seq<Outcome>, os': seq<Outcome>, weigh: seq<bool>)
  {
    && |os| == |os'| == |weigh|
    && forall i ::
      0 <= i < |os| ==> os[i].matched == os'[i].matched && (os[i].matched ==> Rises(os[i], os'[i], weigh[i]))
  }

  lemma {:induction false} SuccessesRise(os: seq<Outcome>, os': seq<Outcome>, weigh: seq<bool>)
    requires MatchedRise(os, os', weigh)
    ensures AllRise(Successes(os), Successes(os'), Kept(os, weigh))
    ensures true in Kept(os, weigh) <==> exists i :: 0 <= i < |os| && os[i].matched && weigh[i]
    decreases |os|
  {
    hide Rises;
    if os != [] {
      var k := |os| - 1;
      SuccessesRise(os[..k], os'[..k], weigh[..k]);
    }
  }

  lemma {:induction false} MatchedFirst(os: seq<Outcome>, os': seq<Outcome>, wanted: bool)
    requires |os| == |os'| && forall i :: 0 <= i < |os| ==> os[i].matched == os'[i].matched
    ensures FirstWith(os, wanted) == FirstWith(os', wanted)
  {
    if os != [] {
      MatchedFirst(os[1..], os'[1..], wanted);
    }
  }

  lemma BoolRises(must: seq<Outcome>, must': seq<Outcome>, mustNot: seq<Outcome>, mustNot': seq<Outcome>,
                  should: seq<Outcome>, should': seq<Outcome>, w: seq<bool>, v: seq<bool>)
    requires AllRise(must, must', w) && MatchedRise(should, should', v)
    requires |mustNot| == |mustNot'| && forall i :: 0 <= i < |mustNot| ==> !mustNot[i].matched && !mustNot'[i].matched
    requires should == [] || exists i :: 0 <= i < |should| && should[i].matched
    ensures
      Rises(BoolOutcome(must, mustNot, should), BoolOutcome(must', mustNot', should'),
            true in w || exists i :: 0 <= i < |should| && should[i].matched && v[i])
  {
    SuccessesRise(should, should', v);
    MatchedFirst(should, should', true);
    var counted, counted', weigh := must + Successes(should), must' + Successes(should'), w + Kept(should, v);
    assert AllRise(counted, counted', weigh);
    SumRises(counted, counted', weigh);
    BoolOutcomeMeans(must, mustNot, should);
    BoolOutcomeMeans(must', mustNot', should');
    assert true in weigh <==> true in w || true in Kept(should, v);
    hide Rises, MatchedRise, AllRise, Successes, TotalScore, Kept, Explanations;
    CountedOutcome(must, mustNot, should);
    CountedOutcome(must', mustNot', should');
    RisesIf(BoolOutcome(must, mustNot, should), BoolOutcome(must', mustNot', should'), true in weigh);
  }

  lemma CountedOutcome(must: seq<Outcome>, mustNot: seq<Outcome>, should: seq<Outcome>)
    requires BoolOutcome(must, mustNot, should).matched
    ensures
      var counted := must + Successes(should);
      BoolOutcome(must, mustNot, should)
      == Outcome(true, TotalScore(counted), Explanation("boolean query", TotalScore(counted), Explanations(counted)))
  {
    hide Successes, TotalScore, Explanations;
  }

  lemma RisesIf(o: Outcome, o': Outcome, weighs: bool)
    requires o.matched && o'.matched && if weighs then o.score < o'.score else o == o'
    ensures Rises(o, o', weighs)
  {
  }

  ghost function AllWeigh(s: Setup, cs: seq<Clause>, d: Document): (ws: seq<bool>)
    ensures |ws| == |cs| && forall i :: 0 <= i < |cs| ==> ws[i] == Weighs(s, cs[i], d)
  {
    seq(|cs|, i requires 0 <= i < |cs| => Weighs(s, cs[i], d))
  }

  /** With more documents the score of a satisfied clause rises if it counts text; if it does not, nothing changes. */
  lemma {:induction false} ScoreRises(s: Setup, c: Clause, d: Document, n: nat, m: nat)
    requires LogLaws(s.log) && 0 < n < m && Satisfies(s, c, d)
    ensures Rises(Evaluate(s, c, d, n), Evaluate(s, c, d, m), Weighs(s, c, d))
    decreases c
  {
    EvaluateMeans(s, c, d, n);
    if IsTextKind(c.kind) {
      hide TextOutcome, TextMatches, LogLaws, Rises;
      TextRises(s, c, Tokens(s.analyzer, c.value), FieldTokens(s.analyzer, d, c.field), n, m);
    } else if c.kind.Bool? {
      forall i | 0 <= i < |c.must|
        ensures Rises(Evaluate(s, c.must[i], d, n), Evaluate(s, c.must[i], d, m), Weighs(s, c.must[i], d))
      {
        ScoreRises(s, c.must[i], d, n, m);
      }
      forall i | 0 <= i < |c.should| && Satisfies(s, c.should[i], d)
        ensures Rises(Evaluate(s, c.should[i], d, n), Evaluate(s, c.should[i], d, m), Weighs(s, c.should[i], d))
      {
        ScoreRises(s, c.should[i], d, n, m);
      }
      hide Evaluate, Rises;
      BoolScoreRises(s, c, d, n, m);
    }
  }

  lemma BoolScoreRises(s: Setup, c: Clause, d: Document, n: nat, m: nat)
    requires c.kind.Bool? && Satisfies(s, c, d)
    requires forall i :: 0 <= i < |c.must| ==>
      Rises(Evaluate(s, c.must[i], d, n), Evaluate(s, c.must[i], d, m), Weighs(s, c.must[i], d))
    requires forall i :: 0 <= i < |c.should| && Satisfies(s, c.should[i], d) ==>
      Rises(Evaluate(s, c.should[i], d, n), Evaluate(s, c.should[i], d, m), Weighs(s, c.should[i], d))
    ensures Rises(Evaluate(s, c, d, n), Evaluate(s, c, d, m), Weighs(s, c, d))
  {
    hide *;
    EvaluateIsBool(s, c, d, n);
    EvaluateIsBool(s, c, d, m);
    BoolSatisfied(s, c, d);
    MustRise(s, c, d, n, m);
    ShouldRise(s, c, d, n, m);
    NoneForbidden(s, c.mustNot, d, n);
    NoneForbidden(s, c.mustNot, d, m);
    var w, v := AllWeigh(s, c.must, d), AllWeigh(s, c.should, d);
    BoolRises(EvaluateAll(s, c.must, d, n), EvaluateAll(s, c.must, d, m),
              EvaluateAll(s, c.mustNot, d, n), EvaluateAll(s, c.mustNot, d, m),
              EvaluateAll(s, c.should, d, n), EvaluateAll(s, c.should, d, m), w, v);
  }

  lemma EvaluateIsBool(s: Setup, c: Clause, d: Document, total: nat)
    requires c.kind.Bool?
    ensures Evaluate(s, c, d, total)
         == BoolOutcome(EvaluateAll(s, c.must, d, total), EvaluateAll(s, c.mustNot, d, total),
                        EvaluateAll(s, c.should, d, total))
  {
    hide EvaluateAll, BoolOutcome;
  }

  lemma BoolSatisfied(s: Setup, c: Clause, d: Document)
    requires c.kind.Bool? && Satisfies(s, c, d)
    ensures forall i :: 0 <= i < |c.mustNot| ==> !Satisfies(s, c.mustNot[i], d)
    ensures c.should == [] || exists i :: 0 <= i < |c.should| && Satisfies(s, c.should[i], d)
    ensures Weighs(s, c, d) <==>
      || true in AllWeigh(s, c.must, d)
      || exists i :: 0 <= i < |c.should| && Satisfies(s, c.should[i], d) && AllWeigh(s, c.should, d)[i]
  {
    var w := AllWeigh(s, c.must, d);
    assert true in w <==> exists i :: 0 <= i < |c.must| && w[i];
    hide AllWeigh;
  }

  lemma MustRise(s: Setup, c: Clause, d: Document, n: nat, m: nat)
    requires forall i :: 0 <= i < |c.must| ==>
      Rises(Evaluate(s, c.must[i], d, n), Evaluate(s, c.must[i], d, m), Weighs(s, c.must[i], d))
    ensures AllRise(EvaluateAll(s, c.must, d, n), EvaluateAll(s, c.must, d, m), AllWeigh(s, c.must, d))
  {
    hide Evaluate, EvaluateAll, Rises, Weighs;
    forall i | 0 <= i < |c.must|
      ensures Rises(EvaluateAll(s, c.must, d, n)[i], EvaluateAll(s, c.must, d, m)[i], Weighs(s, c.must[i], d))
    {
      EvaluateAllAt(s, c.must, d, n, i);
      EvaluateAllAt(s, c.must, d, m, i);
    }
  }

  lemma ShouldRise(s: Setup, c: Clause, d: Document, n: nat, m: nat)
    requires forall i :: 0 <= i < |c.should| && Satisfies(s, c.should[i], d) ==>
      Rises(Evaluate(s, c.should[i], d, n), Evaluate(s, c.should[i], d, m), Weighs(s, c.should[i], d))
    ensures MatchedRise(EvaluateAll(s, c.should, d, n), EvaluateAll(s, c.should, d, m), AllWeigh(s, c.should, d))
    ensures forall i :: 0 <= i < |c.should| ==>
      (EvaluateAll(s, c.should, d, n)[i].matched <==> Satisfies(s, c.should[i], d))
  {
    hide Evaluate, EvaluateAll, Rises, Weighs, Satisfies;
    var should, should' := EvaluateAll(s, c.should, d, n), EvaluateAll(s, c.should, d, m);
    forall i | 0 <= i < |c.should|
      ensures should[i].matched <==> Satisfies(s, c.should[i], d)
      ensures should'[i].matched <==> Satisfies(s, c.should[i], d)
      ensures should[i].matched ==> Rises(should[i], should'[i], Weighs(s, c.should[i], d))
    {
      EvaluateAllAt(s, c.should, d, n, i);
      EvaluateAllAt(s, c.should, d, m, i);
      EvaluateMeans(s, c.should[i], d, n);
      EvaluateMeans(s, c.should[i], d, m);
    }
  }

  lemma NoneForbidden(s: Setup, cs: seq<Clause>, d: Document, total: nat)
    requires forall i :: 0 <= i < |cs| ==> !Satisfies(s, cs[i], d)
    ensures forall i :: 0 <= i < |cs| ==> !EvaluateAll(s, cs, d, total)[i].matched
  {
    hide Evaluate, EvaluateAll, Satisfies;
    forall i | 0 <= i < |cs|
      ensures !EvaluateAll(s, cs, d, total)[i].matched
    {
      EvaluateAllAt(s, cs, d, total, i);
      EvaluateMeans(s, cs[i], d, total);
    }
  }

  /** Two numbers of documents give a satisfied clause the same outcome if and only if they are equal or the clause
      counts no text. */
  lemma OutcomesAgreeIff(s: Setup, c: Clause, d: Document, n: nat, m: nat)
    requires LogLaws(s.log) && n > 0 && m > 0 && Satisfies(s, c, d)
    ensures Evaluate(s, c, d, n).score == Evaluate(s, c, d, m).score <==> n == m || !Weighs(s, c, d)
    ensures Evaluate(s, c, d, n) == Evaluate(s, c, d, m) <==> n == m || !Weighs(s, c, d)
  {
    hide Evaluate, Satisfies, Weighs, LogLaws;
    if n < m {
      ScoreRises(s, c, d, n, m);
    } else if m < n {
      ScoreRises(s, c, d, m, n);
    }
  }
}
