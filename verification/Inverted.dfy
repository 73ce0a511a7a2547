/** The inverted index of a segment: posting a document's terms field by field, and the agreement of the
    posted lists with the forward index and with the analyzer (internal/index/index.go). */
module Inverted {
  import opened Analyzer
  import opened Indexing
  import opened Matching
  import opened Options

  type Postings = map<string, map<string, map<string, seq<nat>>>>

  // ----- inverted and forward index

  /** The position list posted for a document under field and term. */
  function Posted(postings: Postings, field: string, term: string, id: string): Option<seq<nat>>
  {
    if field in postings && term in postings[field] && id in postings[field][term]
    then Some(postings[field][term][id]) else None
  }

  /** The position list the forward index holds. */
  function ForwardList(docs: map<string, IndexedDoc>, field: string, term: string, id: string): Option<seq<nat>>
  {
    if id in docs && field in docs[id].terms && term in docs[id].terms[field]
    then Some(docs[id].terms[field][term]) else None
  }

  /** The inverted index says what the forward index says, and nothing else. */
  ghost predicate Agree(postings: Postings, docs: map<string, IndexedDoc>)
  {
    && (forall f, t, id :: Posted(postings, f, t, id) == ForwardList(docs, f, t, id))
    && NoOrphans(postings, docs)
    && (forall f, t :: f in postings && t in postings[f] ==> postings[f][t] != map[])
  }

  function PostedIn(index: map<string, map<string, seq<nat>>>, term: string, id: string): Option<seq<nat>>
  {
    if term in index && id in index[term] then Some(index[term][id]) else None
  }

  /** Posts the terms of one field of one document, in any order. */
  method PostTerms(index: map<string, map<string, seq<nat>>>, terms: map<string, seq<nat>>, id: string)
    returns (index': map<string, map<string, seq<nat>>>)
    requires forall t :: t in index ==> index[t] != map[]
    ensures forall t, i ::
      PostedIn(index', t, i) == if i == id && t in terms then Some(terms[t]) else PostedIn(index, t, i)
    ensures forall t :: t in index' ==> index'[t] != map[]
  {
    index' := index;
    var pending := terms.Keys;
    while pending != {}
      invariant pending <= terms.Keys
      invariant forall t, i ::
        PostedIn(index', t, i) == if i == id && t in terms.Keys - pending then Some(terms[t]) else PostedIn(index, t, i)
      invariant forall t :: t in index' ==> index'[t] != map[]
      decreases pending
    {
      var t :| t in pending;
      pending := pending - {t};
      ghost var before := index';
      var list := if t in index' then index'[t] else map[];
      var longer := list[id := terms[t]];
      assert id in longer;
      index' := index'[t := longer];
      assert forall u, i ::
        PostedIn(index', u, i) == if i == id && u == t then Some(terms[t]) else PostedIn(before, u, i);
    }
  }

  /** Posts all fields of one document, in any order. */
  method PostFields(postings: Postings, fields: map<string, map<string, seq<nat>>>, id: string)
    returns (postings': Postings)
    requires forall f, t :: f in postings && t in postings[f] ==> postings[f][t] != map[]
    ensures forall f, t, i ::
      Posted(postings', f, t, i) ==
        if i == id && f in fields && t in fields[f] then Some(fields[f][t]) else Posted(postings, f, t, i)
    ensures postings'.Keys == postings.Keys + fields.Keys
    ensures forall f, t :: f in postings' && t in postings'[f] ==> postings'[f][t] != map[]
  {
    postings' := postings;
    var pending := fields.Keys;
    while pending != {}
      invariant pending <= fields.Keys
      invariant forall f, t, i ::
        Posted(postings', f, t, i) ==
          if i == id && f in fields.Keys - pending && t in fields[f] then Some(fields[f][t])
          else Posted(postings, f, t, i)
      invariant postings'.Keys == postings.Keys + (fields.Keys - pending)
      invariant forall f, t :: f in postings' && t in postings'[f] ==> postings'[f][t] != map[]
      decreases pending
    {
      var field :| field in pending;
      ghost var before := postings';
      var index := if field in postings' then postings'[field] else map[];
      var index' := PostTerms(index, fields[field], id);
      postings' := postings'[field := index'];
      pending := pending - {field};
      assert forall t, i :: Posted(postings', field, t, i) == PostedIn(index', t, i);
      assert forall t, i :: Posted(before, field, t, i) == PostedIn(index, t, i);
      assert forall f, t, i :: f != field ==> Posted(postings', f, t, i) == Posted(before, f, t, i);
    }
  }

  /** Every posted field is some document's field. */
  ghost predicate NoOrphans(postings: Postings, docs: map<string, IndexedDoc>)
  {
    forall f :: f in postings ==> exists id :: id in docs && f in docs[id].terms
  }

  lemma NoOrphansAfterAdd(postings: Postings, docs: map<string, IndexedDoc>, postings': Postings, id: string,
                          item: IndexedDoc)
    requires NoOrphans(postings, docs) && id !in docs
    requires postings'.Keys == postings.Keys + item.terms.Keys
    ensures NoOrphans(postings', docs[id := item])
  {
    var docs' := docs[id := item];
    forall f | f in postings'
      ensures exists i :: i in docs' && f in docs'[i].terms
    {
      if f in item.terms {
        assert id in docs' && f in docs'[id].terms;
      } else {
        assert f in postings;
        var i :| i in docs && f in docs[i].terms;
        assert i in docs' && f in docs'[i].terms;
      }
    }
  }

  /** Posting a new document's terms keeps the two indexes in agreement. */
  lemma AgreeAfterAdd(postings: Postings, docs: map<string, IndexedDoc>, postings': Postings, id: string,
                      item: IndexedDoc)
    requires Agree(postings, docs) && id !in docs
    requires forall f, t, i ::
      Posted(postings', f, t, i) ==
        if i == id && f in item.terms && t in item.terms[f] then Some(item.terms[f][t]) else Posted(postings, f, t, i)
    requires postings'.Keys == postings.Keys + item.terms.Keys
    requires forall f, t :: f in postings' && t in postings'[f] ==> postings'[f][t] != map[]
    ensures Agree(postings', docs[id := item])
  {
    NoOrphansAfterAdd(postings, docs, postings', id, item);
    hide NoOrphans;
    forall f, t, i
      ensures Posted(postings', f, t, i) == ForwardList(docs[id := item], f, t, i)
    {
      assert Posted(postings, f, t, i) == ForwardList(docs, f, t, i);
      hide Posted;
    }
  }

  lemma AgreeHasNoShells(postings: Postings, docs: map<string, IndexedDoc>)
    requires Agree(postings, docs)
    ensures forall f, t :: f in postings && t in postings[f] ==> postings[f][t] != map[]
  {
  }

  /** What is posted for a document of a segment is what the analyzer found in it: a term is posted under a field
      exactly if the analyzed field has it, and a position is in its list exactly where it occurs. */
  lemma PostedIsAnalyzed(p: Pipeline, postings: Postings, docs: map<string, IndexedDoc>, id: string, field: string,
                         term: string, position: nat)
    requires Agree(postings, docs) && id in docs && docs[id] == Indexed(p, docs[id].doc)
    ensures
      var tokens := FieldTokens(p, docs[id].doc, field);
      && (Posted(postings, field, term, id).Some? <==> term in TermSet(tokens))
      && (Posted(postings, field, term, id).Some? ==>
           (position in Posted(postings, field, term, id).value <==> OccursAt(tokens, term, position)))
  {
    var tokens := FieldTokens(p, docs[id].doc, field);
    hide Tokens;
    assert Posted(postings, field, term, id) == ForwardList(docs, field, term, id);
    assert field !in TextFields(docs[id].doc) ==> tokens == [];
    ListedExactly(term, tokens, position);
  }
}
