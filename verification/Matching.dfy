/** What it means for a document to match a clause, and with what score: the declarative side of
    `evaluate` and `textMatch` in internal/index/index.go, stated on token streams rather than on the
    inverted index. */
module Matching {
  import opened Analyzer
  import opened Documents
  import opened EditDistance
  import opened Query
  import opened Scoring
  import Text

  /** What the engine brings to a query: its analyzer and the logarithm of its score formula. */
  datatype Setup = Setup(analyzer: Pipeline, log: real -> real)

  datatype Outcome = Outcome(matched: bool, score: real, explanation: Explanation)

  function Failed(description: string): Outcome
  {
    Outcome(false, 0.0, Explanation(description, 0.0, []))
  }

  // ----- text clauses

  /** Does a term of the document serve a term of the query? */
  predicate TermMatches(kind: Kind, term: string, wanted: string)
  {
    match kind
    case Match => term == wanted
    case Phrase => term == wanted
    case Prefix => Text.HasPrefix(term, wanted)
    case Fuzzy => Levenshtein(term, wanted) <= 1
    case Range => false
    case Bool => false
    case Unsupported(_) => false
  }

  /** How many tokens of the field serve the wanted term. */
  function Frequency(kind: Kind, wanted: string, field: seq<Token>): (n: nat)
    ensures n <= |field|
  {
    if field == [] then 0
    else
      Frequency(kind, wanted, field[..|field| - 1])
      + if TermMatches(kind, field[|field| - 1].term, wanted) then 1 else 0
  }

  ghost predicate OccursAt(field: seq<Token>, term: string, position: int)
  {
    exists k :: 0 <= k < |field| && field[k].term == term && field[k].position == position
  }

  /** The query's tokens stand one position after another, from `start` on. */
  ghost predicate PhraseAt(field: seq<Token>, wanted: seq<Token>, start: int)
  {
    forall i :: 0 <= i < |wanted| ==> OccursAt(field, wanted[i].term, start + i)
  }

  ghost predicate HasPhrase(field: seq<Token>, wanted: seq<Token>)
  {
    exists start :: PhraseAt(field, wanted, start)
  }

  ghost predicate HasAllTerms(kind: Kind, wanted: seq<Token>, field: seq<Token>)
  {
    forall i :: 0 <= i < |wanted| ==> Frequency(kind, wanted[i].term, field) > 0
  }

  ghost predicate TextMatches(kind: Kind, wanted: seq<Token>, field: seq<Token>)
  {
    && wanted != []
    && HasAllTerms(kind, wanted, field)
    && (kind.Phrase? ==> HasPhrase(field, wanted))
  }

  /** The contribution of one query token. */
  function TermScore(log: real -> real, frequency: nat, length: nat, total: nat): real
  {
    Score(DefaultBM25(), log, frequency as real, length as real, 10.0, 1.0, total as real)
  }

  function TextScore(log: real -> real, kind: Kind, wanted: seq<Token>, field: seq<Token>, total: nat): real
  {
    if wanted == [] then 0.0
    else
      TextScore(log, kind, wanted[..|wanted| - 1], field, total)
      + TermScore(log, Frequency(kind, wanted[|wanted| - 1].term, field), |field|, total)
  }

  function Boosted(score: real, boost: real): real
  {
    if boost > 0.0 then score * boost else score
  }

  ghost function TextOutcome(s: Setup, c: Clause, wanted: seq<Token>, field: seq<Token>, total: nat): Outcome
  {
    if wanted == [] then Failed("")
    else if !HasAllTerms(c.kind, wanted, field) then Failed("term not found")
    else if c.kind.Phrase? && !HasPhrase(field, wanted) then Failed("phrase positions do not match")
    else
      var score := Boosted(TextScore(s.log, c.kind, wanted, field, total), c.boost);
      Outcome(true, score, Explanation(KindName(c.kind) + " query", score, []))
  }

  /** The analyzed text of a field; a field that is absent or not a string has no tokens. */
  function FieldTokens(p: Pipeline, d: Document, field: string): seq<Token>
  {
    if Field(d, field).Text? then Tokens(p, Field(d, field).text) else []
  }

  // ----- range clauses

  predicate AtMost(a: string, b: string)
  {
    !Text.Less(b, a)
  }

  predicate InRange(c: Clause, v: Value)
  {
    && (!c.from.Nil? ==> AtMost(Sprint(c.from), Sprint(v)))
    && (!c.to.Nil? ==> AtMost(Sprint(v), Sprint(c.to)))
  }

  function RangeOutcome(c: Clause, v: Value): Outcome
  {
    var score := if InRange(c, v) then 1.0 else 0.0;
    Outcome(InRange(c, v), score, Explanation("lexical range", score, []))
  }

  // ----- boolean clauses

  /** The first outcome that matched, or failed to, as `wanted` says; |os| if there is none. */
  function FirstWith(os: seq<Outcome>, wanted: bool): (i: nat)
    ensures i <= |os|
    ensures i < |os| ==> os[i].matched == wanted
    ensures forall j :: 0 <= j < i ==> os[j].matched != wanted
  {
    if os == [] || os[0].matched == wanted then 0 else 1 + FirstWith(os[1..], wanted)
  }

  /** The outcomes that matched, in order. */
  function Successes(os: seq<Outcome>): seq<Outcome>
  {
    if os == [] then []
    else Successes(os[..|os| - 1]) + if os[|os| - 1].matched then [os[|os| - 1]] else []
  }

  function TotalScore(os: seq<Outcome>): real
  {
    if os == [] then 0.0 else TotalScore(os[..|os| - 1]) + os[|os| - 1].score
  }

  function Explanations(os: seq<Outcome>): seq<Explanation>
  {
    seq(|os|, i requires 0 <= i < |os| => os[i].explanation)
  }

  function BoolOutcome(must: seq<Outcome>, mustNot: seq<Outcome>, should: seq<Outcome>): Outcome
  {
    var failing, forbidden := FirstWith(must, false), FirstWith(mustNot, true);
    if failing < |must| then Outcome(false, 0.0, must[failing].explanation)
    else if forbidden < |mustNot| then Outcome(false, 0.0, mustNot[forbidden].explanation)
    else
      var counted := must + Successes(should);
      var score := TotalScore(counted);
      Outcome(should == [] || FirstWith(should, true) < |should|, score,
              Explanation("boolean query", score, Explanations(counted)))
  }

  // ----- all clauses

  ghost function Evaluate(s: Setup, c: Clause, d: Document, total: nat): Outcome
    decreases c, 1
  {
    match c.kind
    case Match | Phrase | Prefix | Fuzzy =>
      TextOutcome(s, c, Tokens(s.analyzer, c.value), FieldTokens(s.analyzer, d, c.field), total)
    case Range => RangeOutcome(c, Field(d, c.field))
    case Bool =>
      BoolOutcome(EvaluateAll(s, c.must, d, total), EvaluateAll(s, c.mustNot, d, total),
                  EvaluateAll(s, c.should, d, total))
    case Unsupported(_) => Failed("unsupported")
  }

  ghost function EvaluateAll(s: Setup, cs: seq<Clause>, d: Document, total: nat): (os: seq<Outcome>)
    ensures |os| == |cs|
    decreases cs, 0
  {
    if cs == [] then []
    else [Evaluate(s, cs[0], d, total)] + EvaluateAll(s, cs[1..], d, total)
  }

  lemma {:induction false} EvaluateAllAt(s: Setup, cs: seq<Clause>, d: Document, total: nat, i: nat)
    requires i < |cs|
    ensures EvaluateAll(s, cs, d, total)[i] == Evaluate(s, cs[i], d, total)
  {
    if i > 0 {
      EvaluateAllAt(s, cs[1..], d, total, i - 1);
    }
  }
}
