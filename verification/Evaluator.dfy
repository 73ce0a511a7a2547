/** The evaluation loops of internal/index/index.go over an indexed document, proved to compute the
    declarative outcome of module Matching. */
module Evaluator {
  import opened Analyzer
  import opened Documents
  import opened EditDistance
  import opened Indexing
  import opened Matching
  import opened Query
  import opened Scoring
  import MatchingLaws

  ghost predicate Aligned(groups: seq<seq<nat>>, start: nat)
  {
    forall i :: 0 <= i < |groups| ==> start + i in groups[i]
  }

  /** Is `wanted` listed in the group? The innermost loop of `consecutive`. */
  method Listed(group: seq<nat>, wanted: nat) returns (found: bool)
    ensures found <==> wanted in group
  {
    found := false;
    for k := 0 to |group|
      invariant !found && wanted !in group[..k]
    {
      if group[k] == wanted {
        found := true;
        return;
      }
    }
    assert group[..|group|] == group;
  }

  lemma NeverAligned(groups: seq<seq<nat>>)
    requires groups != []
    requires forall k :: 0 <= k < |groups[0]| ==> !Aligned(groups, groups[0][k])
    ensures !exists start: nat :: Aligned(groups, start)
  {
    forall start: nat | Aligned(groups, start)
      ensures start in groups[0]
    {
      assert start + 0 in groups[0];
    }
  }

  method Consecutive(groups: seq<seq<nat>>) returns (r: bool)
    ensures r <==> |groups| < 2 || exists start: nat :: Aligned(groups, start)
  {
    if |groups| < 2 {
      return true;
    }
    for g := 0 to |groups[0]|
      invariant forall k :: 0 <= k < g ==> !Aligned(groups, groups[0][k])
    {
      var start := groups[0][g];
      var wanted := start + 1;
      var ok := true;
      var i := 1;
      while i < |groups|
        invariant 1 <= i <= |groups| && wanted == start + i
        invariant ok && forall k :: 0 <= k < i ==> start + k in groups[k]
      {
        var found := Listed(groups[i], wanted);
        if !found {
          ok := false;
          break;
        }
        wanted := wanted + 1;
        i := i + 1;
      }
      if ok {
        assert Aligned(groups, start);
        return true;
      }
      assert !Aligned(groups, start) by {
        assert start + i !in groups[i];
      }
    }
    NeverAligned(groups);
    return false;
  }

  // ----- positions of one query token

  lemma {:induction false} CountIsFrequency(kind: Kind, wanted: string, ts: seq<Token>, terms: set<string>)
    requires forall k :: 0 <= k < |ts| ==> (ts[k].term in terms <==> TermMatches(kind, ts[k].term, wanted))
    ensures CountIn(ts, terms) == Frequency(kind, wanted, ts)
  {
    hide TermMatches;
    if ts != [] {
      CountIsFrequency(kind, wanted, ts[..|ts| - 1], terms);
    }
  }

  /** Does one listed term serve the query token? The loop guards of the prefix and fuzzy cases. */
  method Serves(kind: Kind, term: string, wanted: string) returns (b: bool)
    ensures b == TermMatches(kind, term, wanted)
  {
    if kind.Fuzzy? {
      var d := Distance(term, wanted);
      b := d <= 1;
    } else {
      b := TermMatches(kind, term, wanted);
    }
  }

  /** Gathers the lists of all terms that serve the query token, in whatever order the map yields them. */
  method GatherLists(kind: Kind, wanted: string, ghost ts: seq<Token>, terms: map<string, seq<nat>>)
    returns (pos: seq<nat>)
    requires terms == TermIndex(ts)
    ensures |pos| == Frequency(kind, wanted, ts)
  {
    hide TermIndex, Positions, TermMatches;
    pos := [];
    var pending := terms.Keys;
    ghost var taken: set<string> := {};
    CountNone(ts);
    while pending != {}
      invariant pending <= terms.Keys && taken <= terms.Keys - pending
      invariant forall t :: t in terms.Keys - pending ==> (t in taken <==> TermMatches(kind, t, wanted))
      invariant |pos| == CountIn(ts, taken)
      decreases pending
    {
      var t :| t in pending;
      pending := pending - {t};
      var serves := Serves(kind, t, wanted);
      if serves {
        CountOneMore(ts, taken, t);
        TermIndexAt(ts, t);
        pos := pos + terms[t];
        taken := taken + {t};
      }
    }
    TermIndexKeys(ts);
    CountIsFrequency(kind, wanted, ts, taken);
  }

  lemma TermIndexKeys(ts: seq<Token>)
    ensures TermIndex(ts).Keys == TermSet(ts)
    ensures forall k :: 0 <= k < |ts| ==> ts[k].term in TermIndex(ts)
  {
  }

  lemma TermIndexAt(ts: seq<Token>, t: string)
    ensures t in TermIndex(ts) ==> TermIndex(ts)[t] == Positions(t, ts)
    ensures t !in TermIndex(ts) ==> Positions(t, ts) == []
  {
    if t !in TermSet(ts) {
      AbsentTerm(t, ts);
    }
  }

  /** What a phrase needs of its position lists. */
  ghost predicate ListsOf(positions: seq<seq<nat>>, wanted: seq<Token>, field: seq<Token>)
  {
    && |positions| == |wanted|
    && forall i :: 0 <= i < |wanted| ==> positions[i] == Positions(wanted[i].term, field)
  }

  lemma AlignedIsPhrase(positions: seq<seq<nat>>, wanted: seq<Token>, field: seq<Token>)
    requires wanted != [] && ListsOf(positions, wanted, field) && HasAllTerms(Phrase, wanted, field)
    ensures (|positions| < 2 || exists start: nat :: Aligned(positions, start)) <==> HasPhrase(field, wanted)
  {
    if exists start: nat :: Aligned(positions, start) {
      var start: nat :| Aligned(positions, start);
      forall i | 0 <= i < |wanted|
        ensures OccursAt(field, wanted[i].term, start + i)
      {
        ListedExactly(wanted[i].term, field, start + i);
      }
      assert PhraseAt(field, wanted, start);
    }
    if HasPhrase(field, wanted) {
      var start :| PhraseAt(field, wanted, start);
      assert OccursAt(field, wanted[0].term, start + 0);
      forall i | 0 <= i < |wanted|
        ensures start + i in positions[i]
      {
        assert OccursAt(field, wanted[i].term, start + i);
        ListedExactly(wanted[i].term, field, start + i);
      }
      assert Aligned(positions, start);
    }
    if |positions| == 1 {
      OneTokenPhrase(wanted, field);
    }
  }

  lemma OneTokenPhrase(wanted: seq<Token>, field: seq<Token>)
    requires |wanted| == 1 && HasAllTerms(Phrase, wanted, field)
    ensures HasPhrase(field, wanted)
  {
    assert Frequency(Phrase, wanted[0].term, field) > 0;
    var k := MatchingLaws.FrequencyWitness(Phrase, wanted[0].term, field);
    assert OccursAt(field, wanted[0].term, field[k].position + 0);
    assert PhraseAt(field, wanted, field[k].position);
  }

  /** The positions one query token finds, for any text kind. */
  method TokenPositions(kind: Kind, wanted: string, ghost ts: seq<Token>, terms: map<string, seq<nat>>)
    returns (pos: seq<nat>)
    requires IsTextKind(kind) && terms == TermIndex(ts)
    ensures |pos| == Frequency(kind, wanted, ts)
    ensures kind.Phrase? ==> pos == Positions(wanted, ts)
  {
    if kind.Match? || kind.Phrase? {
      TermIndexAt(ts, wanted);
      ListedExactly(wanted, ts, 0);
      MatchingLaws.FrequencyOfPhrase(wanted, ts);
      pos := if wanted in terms then terms[wanted] else [];
    } else {
      pos := GatherLists(kind, wanted, ts, terms);
    }
  }

  method TextMatch(s: Setup, c: Clause, d: IndexedDoc, total: nat) returns (o: Outcome)
    requires IsTextKind(c.kind) && d == Indexed(s.analyzer, d.doc)
    ensures o == TextOutcome(s, c, Tokens(s.analyzer, c.value), FieldTokens(s.analyzer, d.doc, c.field), total)
  {
    hide Tokens, TermIndex, Frequency, TermScore, FieldTokens, HasPhrase, Indexed, KindName, Positions;
    var tokens := Analyze(s.analyzer, c.value);
    if tokens == [] {
      return Outcome(false, 0.0, Explanation("", 0.0, []));
    }
    ghost var field := FieldTokens(s.analyzer, d.doc, c.field);
    var terms := if c.field in d.terms then d.terms[c.field] else map[];
    var length := if c.field in d.lengths then d.lengths[c.field] else 0;
    FieldLists(s.analyzer, d.doc, c.field);
    var score := 0.0;
    var positions: seq<seq<nat>> := [];
    for i := 0 to |tokens|
      invariant |positions| == i
      invariant forall k :: 0 <= k < i ==> Frequency(c.kind, tokens[k].term, field) > 0
      invariant c.kind.Phrase? ==> forall k :: 0 <= k < i ==> positions[k] == Positions(tokens[k].term, field)
      invariant score == TextScore(s.log, c.kind, tokens[..i], field, total)
    {
      var pos := TokenPositions(c.kind, tokens[i].term, field, terms);
      if |pos| == 0 {
        return Outcome(false, 0.0, Explanation("term not found", 0.0, []));
      }
      positions := positions + [pos];
      assert tokens[..i + 1][..i] == tokens[..i];
      score := score + TermScore(s.log, |pos|, length, total);
    }
    assert tokens[..|tokens|] == tokens;
    if c.kind.Phrase? {
      AlignedIsPhrase(positions, tokens, field);
      var ok := Consecutive(positions);
      if !ok {
        return Outcome(false, 0.0, Explanation("phrase positions do not match", 0.0, []));
      }
    }
    if c.boost > 0.0 {
      score := score * c.boost;
    }
    o := Outcome(true, score, Explanation(KindName(c.kind) + " query", score, []));
  }

  lemma FieldLists(p: Pipeline, d: Document, name: string)
    ensures
      var item, field := Indexed(p, d), FieldTokens(p, d, name);
      && (if name in item.terms then item.terms[name] else map[]) == TermIndex(field)
      && (if name in item.lengths then item.lengths[name] else 0) == |field|
  {
    hide Tokens;
    if name !in TextFields(d) {
      assert FieldTokens(p, d, name) == [];
      assert TermIndex([]) == map[];
    }
  }

  method RangeMatch(c: Clause, value: Value) returns (o: Outcome)
    ensures o == RangeOutcome(c, value)
  {
    var v := Sprint(value);
    var ok := true;
    if !c.from.Nil? {
      ok := ok && AtMost(Sprint(c.from), v);
    }
    if !c.to.Nil? {
      ok := ok && AtMost(v, Sprint(c.to));
    }
    var score := 0.0;
    if ok {
      score := 1.0;
    }
    o := Outcome(ok, score, Explanation("lexical range", score, []));
  }

  // ----- clause trees

  lemma SuccessesStep(os: seq<Outcome>, o: Outcome)
    ensures Successes(os + [o]) == if o.matched then Successes(os) + [o] else Successes(os)
  {
    assert (os + [o])[..|os|] == os;
  }

  lemma TotalScoreStep(os: seq<Outcome>, o: Outcome)
    ensures TotalScore(os + [o]) == TotalScore(os) + o.score
    ensures Explanations(os + [o]) == Explanations(os) + [o.explanation]
  {
    assert (os + [o])[..|os|] == os;
  }

  lemma PrefixStep(os: seq<Outcome>, i: nat)
    requires i < |os|
    ensures os[..i + 1] == os[..i] + [os[i]]
  {
  }

  lemma FirstWithIs(os: seq<Outcome>, wanted: bool, i: nat)
    requires i < |os| && os[i].matched == wanted
    requires forall j :: 0 <= j < i ==> os[j].matched != wanted
    ensures FirstWith(os, wanted) == i
  {
  }

  lemma FirstWithNone(os: seq<Outcome>, wanted: bool)
    requires forall j :: 0 <= j < |os| ==> os[j].matched != wanted
    ensures FirstWith(os, wanted) == |os|
  {
  }

  /** The `must` loop: stops at the first clause that fails. */
  method EvaluateMust(s: Setup, cs: seq<Clause>, d: IndexedDoc, total: nat)
    returns (stopped: bool, score: real, details: seq<Explanation>, x: Explanation)
    requires d == Indexed(s.analyzer, d.doc)
    ensures
      var os := EvaluateAll(s, cs, d.doc, total);
      var i := FirstWith(os, false);
      if stopped then i < |os| && x == os[i].explanation
      else i == |os| && score == TotalScore(os) && details == Explanations(os)
    decreases cs, 0
  {
    hide EvaluateAll, Evaluate, TotalScore, Explanations, FirstWith, Indexed;
    ghost var os := EvaluateAll(s, cs, d.doc, total);
    stopped, score, details, x := false, 0.0, [], Explanation("", 0.0, []);
    EmptySums();
    for i := 0 to |cs|
      invariant forall j :: 0 <= j < i ==> os[j].matched
      invariant score == TotalScore(os[..i]) && details == Explanations(os[..i])
    {
      EvaluateAllAt(s, cs, d.doc, total, i);
      var o := EvaluateClause(s, cs[i], d, total);
      if !o.matched {
        FirstWithIs(os, false, i);
        return true, 0.0, [], o.explanation;
      }
      PrefixStep(os, i);
      TotalScoreStep(os[..i], os[i]);
      score := score + o.score;
      details := details + [o.explanation];
    }
    assert os[..|os|] == os;
    FirstWithNone(os, false);
  }

  lemma EmptySums()
    ensures TotalScore([]) == 0.0 && Explanations([]) == [] && Successes([]) == []
  {
  }

  /** The `must_not` loop: stops at the first clause that matches. */
  method EvaluateMustNot(s: Setup, cs: seq<Clause>, d: IndexedDoc, total: nat) returns (stopped: bool, x: Explanation)
    requires d == Indexed(s.analyzer, d.doc)
    ensures
      var os := EvaluateAll(s, cs, d.doc, total);
      var i := FirstWith(os, true);
      if stopped then i < |os| && x == os[i].explanation else i == |os|
    decreases cs, 0
  {
    hide EvaluateAll, Evaluate, FirstWith, Indexed;
    ghost var os := EvaluateAll(s, cs, d.doc, total);
    stopped, x := false, Explanation("", 0.0, []);
    for i := 0 to |cs|
      invariant forall j :: 0 <= j < i ==> !os[j].matched
    {
      EvaluateAllAt(s, cs, d.doc, total, i);
      var o := EvaluateClause(s, cs[i], d, total);
      if o.matched {
        FirstWithIs(os, true, i);
        return true, o.explanation;
      }
    }
    FirstWithNone(os, true);
  }

  /** The `should` loop: adds whatever matches to the running score and details. */
  method EvaluateShould(s: Setup, cs: seq<Clause>, d: IndexedDoc, total: nat, ghost must: seq<Outcome>, score: real,
                        details: seq<Explanation>)
    returns (should: bool, score': real, details': seq<Explanation>)
    requires d == Indexed(s.analyzer, d.doc)
    requires score == TotalScore(must) && details == Explanations(must)
    ensures
      var os := EvaluateAll(s, cs, d.doc, total);
      && (should <==> os == [] || FirstWith(os, true) < |os|)
      && score' == TotalScore(must + Successes(os))
      && details' == Explanations(must + Successes(os))
    decreases cs, 0
  {
    hide EvaluateAll, Evaluate, TotalScore, Explanations, FirstWith, Successes, Indexed;
    ghost var os := EvaluateAll(s, cs, d.doc, total);
    should, score', details' := |cs| == 0, score, details;
    EmptySums();
    assert must + [] == must;
    for i := 0 to |cs|
      invariant should <==> |cs| == 0 || exists j :: 0 <= j < i && os[j].matched
      invariant score' == TotalScore(must + Successes(os[..i]))
      invariant details' == Explanations(must + Successes(os[..i]))
    {
      EvaluateAllAt(s, cs, d.doc, total, i);
      var o := EvaluateClause(s, cs[i], d, total);
      PrefixStep(os, i);
      SuccessesStep(os[..i], os[i]);
      if o.matched {
        assert must + (Successes(os[..i]) + [o]) == must + Successes(os[..i]) + [o];
        TotalScoreStep(must + Successes(os[..i]), o);
        should := true;
        score' := score' + o.score;
        details' := details' + [o.explanation];
      }
    }
    assert os[..|os|] == os;
    AnyMatched(os);
  }

  lemma AnyMatched(os: seq<Outcome>)
    ensures FirstWith(os, true) < |os| <==> exists j :: 0 <= j < |os| && os[j].matched
  {
  }

  method EvaluateClause(s: Setup, c: Clause, d: IndexedDoc, total: nat) returns (o: Outcome)
    requires d == Indexed(s.analyzer, d.doc)
    ensures o == Evaluate(s, c, d.doc, total)
    decreases c, 1
  {
    hide TextOutcome, RangeOutcome, EvaluateAll, Indexed, FirstWith, TotalScore, Successes, Explanations;
    if IsTextKind(c.kind) {
      o := TextMatch(s, c, d, total);
    } else if c.kind.Range? {
      o := RangeMatch(c, Field(d.doc, c.field));
    } else if c.kind.Bool? {
      var stopped, score, details, x := EvaluateMust(s, c.must, d, total);
      if stopped {
        return Outcome(false, 0.0, x);
      }
      stopped, x := EvaluateMustNot(s, c.mustNot, d, total);
      if stopped {
        return Outcome(false, 0.0, x);
      }
      var should;
      should, score, details := EvaluateShould(s, c.should, d, total, EvaluateAll(s, c.must, d.doc, total), score,
        details);
      o := Outcome(should, score, Explanation("boolean query", score, details));
    } else {
      o := Outcome(false, 0.0, Explanation("unsupported", 0.0, []));
    }
  }
}
