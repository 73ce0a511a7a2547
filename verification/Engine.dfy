/** The index engine of internal/index/index.go: a mutable buffer over heap-allocated segments that are never
    written again once they are appended, and a search over a snapshot of both. */
module IndexEngine {
  import opened Analyzer
  import opened Cursors
  import opened Documents
  import opened Evaluator
  import opened Indexing
  import opened Inverted
  import opened Matching
  import opened Options
  import opened Query
  import opened Search
  import opened Sorting
  import opened Store

  /** An immutable part of the index, once it has been appended to the engine. */
  class Segment {
    const generation: nat
    var docs: map<string, IndexedDoc>
    var postings: Postings

    ghost predicate Valid(p: Pipeline)
      reads this
    {
      && (forall id :: id in docs ==> docs[id].doc.id == id && docs[id] == Indexed(p, docs[id].doc))
      && Agree(postings, docs)
    }

    ghost function Documents(): map<string, Document>
      reads this
    {
      map id | id in docs :: docs[id].doc
    }

    constructor (p: Pipeline, generation: nat)
      ensures this.generation == generation && Valid(p) && docs == map[]
    {
      this.generation := generation;
      docs := map[];
      postings := map[];
    }

    /** Adds one document to a segment under construction. */
    method Add(p: Pipeline, doc: Document)
      requires Valid(p) && doc.id !in docs
      modifies this
      ensures Valid(p)
      ensures docs == old(docs)[doc.id := Indexed(p, doc)]
    {
      hide Indexed, Agree;
      var item := IndexDocument(p, doc);
      IndexedKeepsDoc(p, doc);
      AgreeHasNoShells(postings, docs);
      var posted := PostFields(postings, item.terms, doc.id);
      AgreeAfterAdd(postings, docs, posted, doc.id, item);
      docs := docs[doc.id := item];
      postings := posted;
    }
  }

  lemma IndexedKeepsDoc(p: Pipeline, d: Document)
    ensures Indexed(p, d).doc == d
  {
  }

  // ----- what a list of segments holds

  ghost function Stored(segments: seq<Segment>): (r: seq<map<string, Document>>)
    reads segments
    ensures |r| == |segments|
    ensures forall i :: 0 <= i < |segments| ==> r[i] == segments[i].Documents()
  {
    if segments == [] then []
    else Stored(segments[..|segments| - 1]) + [segments[|segments| - 1].Documents()]
  }

  ghost predicate AllValid(p: Pipeline, segments: seq<Segment>)
    reads segments
  {
    forall i :: 0 <= i < |segments| ==> segments[i].Valid(p)
  }

  lemma StoredSnoc(segments: seq<Segment>, s: Segment)
    ensures Stored(segments + [s]) == Stored(segments) + [s.Documents()]
  {
    assert (segments + [s])[..|segments|] == segments;
  }

  lemma AllValidSnoc(p: Pipeline, segments: seq<Segment>, s: Segment)
    requires AllValid(p, segments) && s.Valid(p)
    ensures AllValid(p, segments + [s])
  {
    hide Segment.Valid;
  }

  lemma SegmentsAreKeyed(p: Pipeline, segments: seq<Segment>)
    requires AllValid(p, segments)
    ensures forall i ::
      0 <= i < |segments| ==> forall id :: id in segments[i].docs ==> segments[i].docs[id].doc.id == id
  {
    hide Agree, Indexed;
  }

  lemma MapAssociative(a: map<string, Document>, b: map<string, Document>, c: map<string, Document>)
    ensures a + b + c == a + (b + c)
  {
  }

  lemma {:induction false} LayeredConcat(a: seq<map<string, Document>>, b: seq<map<string, Document>>)
    ensures Layered(a + b) == Layered(a) + Layered(b)
  {
    if b == [] {
      assert a + b == a;
      assert Layered(a) + map[] == Layered(a);
    } else {
      var rest, last := b[..|b| - 1], b[|b| - 1];
      assert (a + b)[..|a + b| - 1] == a + rest;
      LayeredConcat(a, rest);
      MapAssociative(Layered(a), Layered(rest), last);
    }
  }

  /** One more segment at the old end of the stack. */
  lemma LayeredCons(all: seq<map<string, Document>>, i: nat)
    requires i < |all|
    ensures Layered(all[i..]) == all[i] + Layered(all[i + 1..])
  {
    assert all[i..] == [all[i]] + all[i + 1..];
    LayeredConcat([all[i]], all[i + 1..]);
    assert [all[i]][..0] == [];
    assert Layered([all[i]]) == all[i];
  }

  /** A document found in a segment and in none above it is the visible one. */
  lemma FoundIsNewest(all: seq<map<string, Document>>, i: nat, id: string)
    requires i < |all| && id in all[i] && id !in Layered(all[i + 1..])
    ensures id in Layered(all) && Layered(all)[id] == all[i][id]
  {
    LayeredCons(all, i);
    LayeredConcat(all[..i], all[i..]);
    hide Layered;
    assert all[..i] + all[i..] == all;
  }

  lemma {:induction false} LayeredIsWellKeyed(layers: seq<map<string, Document>>)
    requires forall i :: 0 <= i < |layers| ==> WellKeyed(layers[i])
    ensures WellKeyed(Layered(layers))
  {
    if layers != [] {
      LayeredIsWellKeyed(layers[..|layers| - 1]);
    }
  }

  // ----- the engine

  datatype Snapshot = Snapshot(segments: seq<Segment>, mutable: seq<Document>, generation: nat)

  /** The snapshot's segments and buffered documents show exactly this view. */
  ghost predicate Shows(p: Pipeline, snap: Snapshot, view: map<string, Document>)
    reads snap.segments
  {
    && AllValid(p, snap.segments)
    && exists buffer: map<string, Document> ::
         && Lists(snap.mutable, buffer)
         && view == Layered(Stored(snap.segments)) + buffer
  }

  /** The documents of a map, each once, in some order. */
  ghost predicate Lists(docs: seq<Document>, m: map<string, Document>)
  {
    && (forall d :: d in docs ==> d.id in m && m[d.id] == d)
    && (forall id :: id in m ==> m[id] in docs && m[id].id == id)
  }

  lemma EmptyIsWellKeyed()
    ensures WellKeyed(map[])
  {
  }

  lemma NothingAboveTheTop(stored: seq<map<string, Document>>)
    ensures Layered(stored[|stored|..]) == map[]
  {
  }

  /** Indexes every buffered document, in any order, into a new segment; the loop of `flushLocked`. */
  method BuildSegment(p: Pipeline, buffer: map<string, Document>, generation: nat) returns (s: Segment)
    requires WellKeyed(buffer)
    ensures fresh(s) && s.generation == generation && s.Valid(p) && s.Documents() == buffer
  {
    hide Indexed, Agree;
    s := new Segment(p, generation);
    var pending := buffer.Keys;
    while pending != {}
      invariant pending <= buffer.Keys
      invariant fresh(s) && s.generation == generation && s.Valid(p)
      invariant s.docs.Keys == buffer.Keys - pending
      invariant forall id :: id in s.docs ==> s.docs[id].doc == buffer[id]
      decreases pending
    {
      var id :| id in pending;
      pending := pending - {id};
      s.Add(p, buffer[id]);
      IndexedKeepsDoc(p, buffer[id]);
    }
  }

  class Engine {
    var segments: seq<Segment>
    var mutable: map<string, Document>
    var generation: nat
    const analyzer: Pipeline
    const log: real -> real
    const codec: Codec
    const maxMutable: nat

    ghost predicate Valid()
      reads this, segments
    {
      && generation == |segments|
      && (forall i :: 0 <= i < |segments| ==> segments[i].generation == i + 1)
      && AllValid(analyzer, segments)
      && WellKeyed(mutable)
      && maxMutable >= 1
    }

    /** The engine's abstract state. */
    ghost function StateOf(): State
      reads this, segments
    {
      State(Stored(segments), mutable, maxMutable)
    }

    function SetupOf(): Setup
    {
      Setup(analyzer, log)
    }

    constructor (p: Pipeline, log: real -> real, codec: Codec, maxMutable: int)
      ensures Valid() && StateOf() == Empty(if maxMutable < 1 then 1000 else maxMutable)
      ensures analyzer == p && this.log == log && this.codec == codec
    {
      segments := [];
      mutable := map[];
      generation := 0;
      analyzer := p;
      this.log := log;
      this.codec := codec;
      this.maxMutable := if maxMutable < 1 then 1000 else maxMutable;
    }

    /** Turns a nonempty buffer into the newest segment. */
    method AppendSegment()
      requires Valid() && mutable != map[]
      modifies this
      ensures Valid() && StateOf() == Flushed(old(StateOf()))
      ensures |segments| == old(|segments|) + 1 && old(segments) <= segments
    {
      hide Stored, Segment.Valid, Segment.Documents, WellKeyed, AllValid;
      var s := BuildSegment(analyzer, mutable, generation + 1);
      StoredSnoc(segments, s);
      AllValidSnoc(analyzer, segments, s);
      EmptyIsWellKeyed();
      var longer := segments + [s];
      assert Stored(longer) == old(Stored(segments)) + [mutable];
      generation, segments, mutable := generation + 1, longer, map[];
      assert Stored(segments) == old(Stored(segments)) + [old(mutable)];
      assert AllValid(analyzer, segments);
    }

    method Flush()
      requires Valid()
      modifies this
      ensures Valid() && StateOf() == Flushed(old(StateOf()))
      ensures old(segments) <= segments
      ensures generation == old(generation) + if old(mutable) == map[] then 0 else 1
    {
      if |mutable| == 0 {
        return;
      }
      hide Stored, AllValid;
      AppendSegment();
    }

    method Upsert(doc: Document) returns (status: Status)
      requires Valid()
      modifies this
      ensures Valid() && (StateOf(), status) == Upserted(old(StateOf()), doc)
      ensures old(segments) <= segments
    {
      if doc.id in mutable && doc.version <= mutable[doc.id].version {
        return VersionConflict;
      }
      hide Stored, AllValid, Flushed;
      ghost var buffered := StateOf().(buffer := mutable[doc.id := doc]);
      assert Upserted(StateOf(), doc).0 == if |buffered.buffer| >= maxMutable then Flushed(buffered) else buffered;
      hide Upserted;
      mutable := mutable[doc.id := doc];
      assert WellKeyed(mutable);
      hide WellKeyed;
      assert Valid() && StateOf() == buffered;
      if |mutable| >= maxMutable {
        Flush();
      }
      status := Done;
    }

    /** The newest copy of a document, looking in the buffer and then from the newest segment down. */
    method FindNewest(id: string) returns (ok: bool, d: Document)
      requires Valid()
      ensures ok <==> id in View(StateOf())
      ensures ok ==> d == View(StateOf())[id] && d.id == id
    {
      ok, d := id in mutable, Document("", "", "", map[], 0, 0, false, 0, 0);
      if ok {
        d := mutable[id];
        return;
      }
      ghost var stored := Stored(segments);
      SegmentsAreKeyed(analyzer, segments);
      hide Layered, Stored, AllValid, Segment.Valid;
      var i := |segments|;
      NothingAboveTheTop(stored);
      while i > 0
        invariant 0 <= i <= |segments|
        invariant id !in Layered(stored[i..])
      {
        i := i - 1;
        assert stored[i] == segments[i].Documents();
        if id in segments[i].docs {
          FoundIsNewest(stored, i, id);
          return true, segments[i].docs[id].doc;
        }
        LayeredCons(stored, i);
      }
      assert stored[0..] == stored;
    }

    method Delete(id: string, version: nat, now: int) returns (status: Status)
      requires Valid()
      modifies this
      ensures Valid() && (StateOf(), status) == Deleted(old(StateOf()), id, version, now)
      ensures segments == old(segments)
    {
      hide View, Stored, Segment.Valid;
      var ok, d := FindNewest(id);
      if !ok {
        return NotFound;
      }
      if version <= d.version {
        return VersionConflict;
      }
      mutable := mutable[id := d.(version := version, deleted := true, updatedAt := now)];
      status := Done;
    }

    /** What a search copies under the read lock: references to the segments, the buffered documents and the
        generation. */
    method TakeSnapshot() returns (snap: Snapshot)
      requires Valid()
      ensures snap.segments == segments && snap.generation == generation
      ensures Shows(analyzer, snap, View(StateOf()))
    {
      var docs: seq<Document> := [];
      var pending := mutable.Keys;
      while pending != {}
        invariant pending <= mutable.Keys
        invariant forall d :: d in docs ==> d.id in mutable && mutable[d.id] == d
        invariant forall id :: id in mutable.Keys - pending ==> mutable[id] in docs
        decreases pending
      {
        var id :| id in pending;
        pending := pending - {id};
        docs := docs + [mutable[id]];
      }
      snap := Snapshot(segments, docs, generation);
      assert Lists(docs, mutable);
    }

    /** The rest of a search, done on the snapshot alone. */
    method SearchSnapshot(snap: Snapshot, ghost view: map<string, Document>, r: Request, now: int,
                          patience: Option<nat>)
      returns (reply: Reply)
      requires Shows(analyzer, snap, view) && WellKeyed(view) && r.size >= 1
      ensures reply == Within(patience, |view|, Answer(SetupOf(), codec, view, snap.generation, r, now))
    {
      hide Shows, Answer, Ranking, HitsAmong, IsRanking;
      var candidates := CollectCandidates(analyzer, snap, view);
      var hits, cancelled := CollectHits(SetupOf(), r, candidates, patience, view);
      if cancelled {
        return Cancelled;
      }
      SortedHitsAreRanking(SetupOf(), r, view, hits);
      hits := Sort(Before, hits);
      reply := CutPage(codec, hits, snap.generation, r.searchAfter, r.size, now);
      AnswerIsPageReply(SetupOf(), codec, view, snap.generation, r, now);
    }

    method Search(r: Request, now: int, patience: Option<nat>) returns (reply: Reply)
      requires Valid() && r.size >= 1
      ensures
        var view := View(StateOf());
        reply == Within(patience, |view|, Answer(SetupOf(), codec, view, generation, r, now))
    {
      ViewIsWellKeyed(this);
      hide Shows, Answer, View, Stored, WellKeyed, AllValid;
      var snap := TakeSnapshot();
      reply := SearchSnapshot(snap, View(StateOf()), r, now, patience);
    }

    method Apply(op: Op) returns (status: Status)
      requires Valid()
      modifies this
      ensures Valid() && (StateOf(), status) == Store.Apply(old(StateOf()), op)
      ensures old(segments) <= segments
    {
      match op
      case Upsert(doc) => status := Upsert(doc);
      case Delete(id, version, now) => status := Delete(id, version, now);
      case Flush =>
        Flush();
        status := Done;
    }
  }

  lemma AnswerIsPageReply(s: Setup, codec: Codec, view: map<string, Document>, generation: nat, r: Request, now: int)
    requires r.size >= 1
    ensures Answer(s, codec, view, generation, r, now)
         == PageReply(codec, Ranking(s, r, view), generation, r.searchAfter, r.size, now)
  {
  }

  lemma ViewIsWellKeyed(e: Engine)
    requires e.Valid()
    ensures WellKeyed(View(e.StateOf()))
  {
    LayeredIsWellKeyed(Stored(e.segments));
  }

  // ----- the loops of a search

  /** Adds the documents of an older segment that no newer one has. */
  method AddUnseen(candidates: map<string, IndexedDoc>, docs: map<string, IndexedDoc>)
    returns (c: map<string, IndexedDoc>)
    ensures c == docs + candidates
  {
    c := candidates;
    var pending := docs.Keys;
    while pending != {}
      invariant pending <= docs.Keys
      invariant c.Keys == candidates.Keys + (docs.Keys - pending)
      invariant forall id :: id in c ==> c[id] == if id in candidates then candidates[id] else docs[id]
      decreases pending
    {
      var id :| id in pending;
      pending := pending - {id};
      if id !in c {
        c := c[id := docs[id]];
      }
    }
  }

  /** The candidates are the index entries of exactly these documents. */
  ghost predicate AreIndexed(p: Pipeline, c: map<string, IndexedDoc>, view: map<string, Document>)
  {
    c.Keys == view.Keys && forall id :: id in c ==> c[id] == Indexed(p, view[id])
  }

  lemma SegmentIsIndexed(p: Pipeline, s: Segment)
    requires s.Valid(p)
    ensures AreIndexed(p, s.docs, s.Documents())
  {
    hide Indexed, Agree;
  }

  lemma LayersAreIndexed(p: Pipeline, older: map<string, IndexedDoc>, newer: map<string, IndexedDoc>,
                         olderDocs: map<string, Document>, newerDocs: map<string, Document>)
    requires AreIndexed(p, older, olderDocs) && AreIndexed(p, newer, newerDocs)
    ensures AreIndexed(p, older + newer, olderDocs + newerDocs)
  {
    hide Indexed;
  }

  /** The newest copy of every document: segments from the newest down, then the buffer over them. */
  method CollectCandidates(p: Pipeline, snap: Snapshot, ghost view: map<string, Document>)
    returns (c: map<string, IndexedDoc>)
    requires Shows(p, snap, view)
    ensures AreIndexed(p, c, view)
  {
    hide AreIndexed, Layered, Stored, Segment.Valid, Indexed;
    ghost var stored := Stored(snap.segments);
    ghost var buffer :| Lists(snap.mutable, buffer) && view == Layered(stored) + buffer;
    c := map[];
    var i := |snap.segments|;
    NothingAboveTheTop(stored);
    NothingIsIndexed(p);
    while i > 0
      invariant 0 <= i <= |snap.segments|
      invariant AreIndexed(p, c, Layered(stored[i..]))
    {
      i := i - 1;
      LayeredCons(stored, i);
      SegmentIsIndexed(p, snap.segments[i]);
      var all := AddUnseen(c, snap.segments[i].docs);
      LayersAreIndexed(p, snap.segments[i].docs, c, stored[i], Layered(stored[i + 1..]));
      c := all;
    }
    assert stored[0..] == stored;
    c := AddBuffered(p, c, snap.mutable, buffer, Layered(stored));
  }

  lemma NothingIsIndexed(p: Pipeline)
    ensures AreIndexed(p, map[], map[])
  {
  }

  /** Indexes the buffered documents and lets them win over the segments. */
  method AddBuffered(p: Pipeline, candidates: map<string, IndexedDoc>, docs: seq<Document>,
                     ghost buffer: map<string, Document>, ghost below: map<string, Document>)
    returns (c: map<string, IndexedDoc>)
    requires AreIndexed(p, candidates, below) && Lists(docs, buffer)
    ensures AreIndexed(p, c, below + buffer)
  {
    hide AreIndexed, Indexed;
    c := candidates;
    ghost var done: map<string, Document> := map[];
    assert below + done == below;
    for i := 0 to |docs|
      invariant forall id :: id in done ==> id in buffer && done[id] == buffer[id]
      invariant forall k :: 0 <= k < i ==> docs[k].id in done
      invariant AreIndexed(p, c, below + done)
    {
      assert docs[i] in docs;
      var item := IndexDocument(p, docs[i]);
      OneMoreIndexed(p, c, below + done, docs[i]);
      c := c[docs[i].id := item];
      assert (below + done)[docs[i].id := docs[i]] == below + done[docs[i].id := docs[i]];
      done := done[docs[i].id := docs[i]];
    }
    assert done == buffer;
  }

  lemma OneMoreIndexed(p: Pipeline, c: map<string, IndexedDoc>, view: map<string, Document>, d: Document)
    requires AreIndexed(p, c, view)
    ensures AreIndexed(p, c[d.id := Indexed(p, d)], view[d.id := d])
  {
    hide Indexed;
  }

  method MatchesFilters(s: Setup, filters: seq<Clause>, d: IndexedDoc, total: nat) returns (accepted: bool)
    requires d == Indexed(s.analyzer, d.doc)
    ensures accepted <==> AllFiltersMatch(s, filters, d.doc, total)
  {
    hide Indexed, Evaluate;
    for i := 0 to |filters|
      invariant forall j :: 0 <= j < i ==> Evaluate(s, filters[j], d.doc, total).matched
    {
      var o := EvaluateClause(s, filters[i], d, total);
      if !o.matched {
        return false;
      }
    }
    accepted := true;
  }

  /** One candidate: its hit, if it is one. */
  method Consider(s: Setup, r: Request, d: IndexedDoc, total: nat) returns (hit: Option<Hit>)
    requires d == Indexed(s.analyzer, d.doc)
    ensures hit == if IsHit(s, r, d.doc, total) then Some(HitOf(s, r, d.doc, total)) else None
  {
    hide Indexed, Evaluate, AllFiltersMatch;
    if !Visible(r, d.doc) {
      return None;
    }
    var o := EvaluateClause(s, r.query, d, total);
    if !o.matched {
      return None;
    }
    var accepted := MatchesFilters(s, r.filters, d, total);
    if !accepted {
      return None;
    }
    hit := Some(Hit(d.doc.id, o.score, d.doc.fields, if r.explain then Some(o.explanation) else None));
  }

  lemma OneMoreHit(s: Setup, r: Request, view: map<string, Document>, ids: set<string>, id: string)
    requires WellKeyed(view) && ids <= view.Keys && id in view && id !in ids
    ensures
      var d := view[id];
      multiset(HitsAmong(s, r, view, ids + {id})) ==
        multiset(HitsAmong(s, r, view, ids))
        + if IsHit(s, r, d, |view|) then multiset{HitOf(s, r, d, |view|)} else multiset{}
  {
    hide Evaluate, AllFiltersMatch;
    var hits := HitsAmong(s, r, view, ids);
    var hit := HitOf(s, r, view[id], |view|);
    assert forall h :: h in hits ==> h.id != hit.id;
    hide HitOf;
    if IsHit(s, r, view[id], |view|) {
      assert HitsAmong(s, r, view, ids + {id}) == hits + {hit};
    } else {
      assert HitsAmong(s, r, view, ids + {id}) == hits;
    }
  }

  /** Goes through the candidates in whatever order the map yields them, until the context is done. */
  method CollectHits(s: Setup, r: Request, candidates: map<string, IndexedDoc>, patience: Option<nat>,
                     ghost view: map<string, Document>) returns (hits: seq<Hit>, cancelled: bool)
    requires AreIndexed(s.analyzer, candidates, view) && WellKeyed(view)
    ensures cancelled <==> patience.Some? && patience.value < |view|
    ensures !cancelled ==> multiset(hits) == multiset(HitsAmong(s, r, view, view.Keys))
  {
    hide Indexed, IsHit, HitOf, HitsAmong;
    hits, cancelled := [], false;
    var looked := 0;
    var pending := candidates.Keys;
    NoHitsAmongNone(s, r, view);
    assert |candidates.Keys| == |candidates| && |view.Keys| == |view|;
    while pending != {}
      invariant pending <= candidates.Keys
      invariant multiset(hits) == multiset(HitsAmong(s, r, view, view.Keys - pending))
      invariant looked + |pending| == |view| && (patience.Some? ==> looked <= patience.value)
      decreases pending
    {
      if patience.Some? && looked == patience.value {
        return [], true;
      }
      looked := looked + 1;
      var id :| id in pending;
      OneMoreHit(s, r, view, view.Keys - pending, id);
      assert view.Keys - pending + {id} == view.Keys - (pending - {id});
      pending := pending - {id};
      IndexedKeepsDoc(s.analyzer, view[id]);
      var hit := Consider(s, r, candidates[id], |candidates|);
      if hit.Some? {
        hits := hits + [hit.value];
      }
    }
    assert view.Keys - {} == view.Keys;
  }

  lemma NoHitsAmongNone(s: Setup, r: Request, view: map<string, Document>)
    ensures HitsAmong(s, r, view, {}) == {}
    ensures view.Keys - view.Keys == {}
  {
  }

  lemma SortedHitsAreRanking(s: Setup, r: Request, view: map<string, Document>, hits: seq<Hit>)
    requires WellKeyed(view) && multiset(hits) == multiset(HitsAmong(s, r, view, view.Keys))
    ensures Sort(Before, hits) == Ranking(s, r, view)
  {
    hide HitsAmong, Ranking;
    BeforeIsAnOrder();
    SortSorts(Before, hits);
    SortPermutes(Before, hits);
    RankingIsUnique(s, r, view, Sort(Before, hits));
  }

  /** Index of the cursor's hit, by linear search. */
  method FindCursor(hits: seq<Hit>, id: string) returns (idx: nat)
    ensures idx == IndexOf(hits, id)
  {
    idx := 0;
    while idx < |hits| && hits[idx].id != id
      invariant idx <= |hits|
      invariant IndexOf(hits, id) == idx + IndexOf(hits[idx..], id)
    {
      idx := idx + 1;
    }
  }

  method CutPage(codec: Codec, ranking: seq<Hit>, generation: nat, searchAfter: string, size: nat, now: int)
    returns (reply: Reply)
    requires size >= 1
    ensures reply == PageReply(codec, ranking, generation, searchAfter, size, now)
  {
    hide Encode, Decode, IndexOf;
    var hits := ranking;
    var total := |hits|;
    if searchAfter != "" {
      var cursor := Decode(codec, searchAfter, now);
      if cursor.Refused? {
        return BadCursor(cursor.error);
      }
      if cursor.payload.generation != generation {
        return GenerationGone;
      }
      var idx := FindCursor(hits, cursor.payload.docId);
      if idx < |hits| {
        hits := hits[idx + 1..];
      }
    }
    if |hits| > size {
      hits := hits[..size];
    }
    var next := "";
    if |hits| == size {
      var last := hits[|hits| - 1];
      next := Encode(codec, Payload(last.score, last.id, last.id, generation, now + CURSOR_LIFETIME));
    }
    reply := Found(Result(hits, total, generation, false, next));
  }
}
