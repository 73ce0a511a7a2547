/** The forward and inverted index of one document (`indexDocument` in internal/index/index.go) and its
    agreement with the analyzer. */
module Indexing {
  import opened Analyzer
  import opened AnalyzerLaws
  import opened Documents
  import opened Matching
  import Query

  datatype IndexedDoc = IndexedDoc(doc: Document, lengths: map<string, nat>, terms: map<string, map<string, seq<nat>>>)

  /** The positions of a term, in token order. */
  function Positions(term: string, ts: seq<Token>): (r: seq<nat>)
  {
    if ts == [] then []
    else Positions(term, ts[..|ts| - 1]) + if ts[|ts| - 1].term == term then [ts[|ts| - 1].position] else []
  }

  function TermSet(ts: seq<Token>): (r: set<string>)
  {
    set k | 0 <= k < |ts| :: ts[k].term
  }

  function TermIndex(ts: seq<Token>): (r: map<string, seq<nat>>)
  {
    map t | t in TermSet(ts) :: Positions(t, ts)
  }

  function TextFields(d: Document): (r: set<string>)
  {
    set f | f in d.fields && d.fields[f].Text?
  }

  /** The index entry of a document. */
  function Indexed(p: Pipeline, d: Document): (r: IndexedDoc)
  {
    IndexedDoc(d, map f | f in TextFields(d) :: |FieldTokens(p, d, f)|,
               map f | f in TextFields(d) :: TermIndex(FieldTokens(p, d, f)))
  }

  // ----- building it

  lemma TermIndexStep(ts: seq<Token>, t: Token)
    ensures
      var before := TermIndex(ts);
      TermIndex(ts + [t]) == before[t.term := (if t.term in before then before[t.term] else []) + [t.position]]
  {
    var all := ts + [t];
    assert all[..|all| - 1] == ts;
    assert TermSet(all) == TermSet(ts) + {t.term} by {
      assert all[|ts|] == t;
      assert forall k :: 0 <= k < |ts| ==> all[k] == ts[k];
    }
    if t.term !in TermSet(ts) {
      AbsentTerm(t.term, ts);
    }
    hide TermSet;
    var before, after := TermIndex(ts), TermIndex(all);
    var expected := before[t.term := (if t.term in before then before[t.term] else []) + [t.position]];
    assert after.Keys == TermSet(all) && before.Keys == TermSet(ts) && expected.Keys == after.Keys;
    forall u | u in after
      ensures after[u] == expected[u]
    {
    }
  }

  lemma {:induction false} AbsentTerm(term: string, ts: seq<Token>)
    requires term !in TermSet(ts)
    ensures Positions(term, ts) == []
  {
    if ts != [] {
      AbsentTerm(term, ts[..|ts| - 1]);
    }
  }

  method IndexTokens(ts: seq<Token>) returns (index: map<string, seq<nat>>)
    ensures index == TermIndex(ts)
  {
    index := map[];
    for i := 0 to |ts|
      invariant index == TermIndex(ts[..i])
    {
      TermIndexStep(ts[..i], ts[i]);
      assert ts[..i + 1] == ts[..i] + [ts[i]];
      var list := if ts[i].term in index then index[ts[i].term] else [];
      index := index[ts[i].term := list + [ts[i].position]];
    }
    assert ts[..|ts|] == ts;
  }

  method IndexDocument(p: Pipeline, d: Document) returns (item: IndexedDoc)
    ensures item == Indexed(p, d)
  {
    hide Tokens, TermIndex;
    var lengths: map<string, nat> := map[];
    var terms: map<string, map<string, seq<nat>>> := map[];
    var pending := d.fields.Keys;
    while pending != {}
      invariant pending <= d.fields.Keys
      invariant lengths.Keys == terms.Keys == TextFields(d) - pending
      invariant forall f :: f in lengths ==> lengths[f] == |FieldTokens(p, d, f)|
      invariant forall f :: f in terms ==> terms[f] == TermIndex(FieldTokens(p, d, f))
      decreases pending
    {
      var field :| field in pending;
      pending := pending - {field};
      if d.fields[field].Text? {
        var tokens := Analyze(p, d.fields[field].text);
        lengths := lengths[field := |tokens|];
        var index := IndexTokens(tokens);
        terms := terms[field := index];
      }
    }
    item := IndexedDoc(d, lengths, terms);
  }

  // ----- agreement of the lists with the analyzer

  /** A position is listed under a term exactly where the analyzer put the term. */
  lemma {:induction false} ListedExactly(term: string, ts: seq<Token>, position: nat)
    ensures position in Positions(term, ts) <==> OccursAt(ts, term, position)
    ensures |Positions(term, ts)| == Frequency(Query.Match, term, ts)
  {
    if ts != [] {
      var rest, last := ts[..|ts| - 1], ts[|ts| - 1];
      ListedExactly(term, rest, position);
      if OccursAt(ts, term, position) {
        var k :| 0 <= k < |ts| && ts[k].term == term && ts[k].position == position;
        assert k < |ts| - 1 ==> rest[k] == ts[k];
        assert OccursAt(rest, term, position) || (last.term == term && last.position == position);
      }
      if OccursAt(rest, term, position) {
        var k :| 0 <= k < |rest| && rest[k].term == term && rest[k].position == position;
        assert ts[k] == rest[k];
      }
    }
  }

  /** How many tokens carry one of the given terms. */
  function CountIn(ts: seq<Token>, terms: set<string>): (n: nat)
  {
    if ts == [] then 0 else CountIn(ts[..|ts| - 1], terms) + if ts[|ts| - 1].term in terms then 1 else 0
  }

  lemma {:induction false} CountOneMore(ts: seq<Token>, terms: set<string>, term: string)
    requires term !in terms
    ensures CountIn(ts, terms + {term}) == CountIn(ts, terms) + |Positions(term, ts)|
  {
    if ts != [] {
      CountOneMore(ts[..|ts| - 1], terms, term);
    }
  }

  lemma {:induction false} CountAll(ts: seq<Token>, terms: set<string>)
    requires TermSet(ts) <= terms
    ensures CountIn(ts, terms) == |ts|
  {
    if ts != [] {
      assert ts[|ts| - 1].term in TermSet(ts);
      assert TermSet(ts[..|ts| - 1]) <= TermSet(ts);
      CountAll(ts[..|ts| - 1], terms);
    }
  }

  lemma {:induction false} CountNone(ts: seq<Token>)
    ensures CountIn(ts, {}) == 0
  {
    if ts != [] {
      CountNone(ts[..|ts| - 1]);
    }
  }

  ghost function TotalLength(index: map<string, seq<nat>>, terms: set<string>): nat
    requires terms <= index.Keys
  {
    if terms == {} then 0
    else
      var t :| t in terms;
      |index[t]| + TotalLength(index, terms - {t})
  }

  lemma {:induction false} TotalLengthCounts(ts: seq<Token>, terms: set<string>)
    requires terms <= TermSet(ts)
    ensures TotalLength(TermIndex(ts), terms) == CountIn(ts, terms)
    decreases terms
  {
    if terms == {} {
      CountNone(ts);
    } else {
      var t :| t in terms
        && TotalLength(TermIndex(ts), terms) == |TermIndex(ts)[t]| + TotalLength(TermIndex(ts), terms - {t});
      TotalLengthCounts(ts, terms - {t});
      CountOneMore(ts, terms - {t}, t);
      assert terms - {t} + {t} == terms;
    }
  }

  /** Conservation: for every text field the list lengths add up to the recorded length. */
  lemma ListLengthsAddUp(p: Pipeline, d: Document, field: string)
    requires field in TextFields(d)
    ensures
      var item := Indexed(p, d);
      TotalLength(item.terms[field], item.terms[field].Keys) == item.lengths[field]
  {
    var ts := FieldTokens(p, d, field);
    assert TermIndex(ts).Keys == TermSet(ts);
    TotalLengthCounts(ts, TermSet(ts));
    CountAll(ts, TermSet(ts));
  }

  ghost predicate ListedAt(index: map<string, seq<nat>>, term: string, k: nat)
  {
    term in index && k in index[term]
  }

  /** The term listed at position k; "" if there is none. */
  ghost function TermAt(index: map<string, seq<nat>>, k: nat): string
  {
    if exists t :: ListedAt(index, t, k) then
      var t :| ListedAt(index, t, k);
      t
    else ""
  }

  lemma ListedWhereFound(ts: seq<Token>, term: string, k: nat)
    requires forall i :: 0 <= i < |ts| ==> ts[i].position == i
    ensures ListedAt(TermIndex(ts), term, k) <==> k < |ts| && term == ts[k].term
  {
    ListedExactly(term, ts, k);
    if k < |ts| && term == ts[k].term {
      assert OccursAt(ts, term, k);
    }
  }

  /** Without synonyms the lists partition 0..n-1, so the term sequence can be read back from them. */
  lemma TermsFromLists(p: Pipeline, text: string)
    requires p.synonyms == map[]
    ensures
      var ts := Tokens(p, text);
      && (forall t, k: nat :: ListedAt(TermIndex(ts), t, k) <==> k < |ts| && t == ts[k].term)
      && forall k: nat :: k < |ts| ==> TermAt(TermIndex(ts), k) == ts[k].term
  {
    var ts := Tokens(p, text);
    WithoutSynonymsPositions(p, text);
    hide Tokens, ListedAt;
    forall t, k: nat
      ensures ListedAt(TermIndex(ts), t, k) <==> k < |ts| && t == ts[k].term
    {
      ListedWhereFound(ts, t, k);
    }
    forall k: nat | k < |ts|
      ensures TermAt(TermIndex(ts), k) == ts[k].term
    {
      assert ListedAt(TermIndex(ts), ts[k].term, k);
    }
  }
}
