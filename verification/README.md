# A verified model of the distributed search service

This project models the storage, query, scatter-gather and repository core of the search service in Dafny and proves
what that core is for. `dafny verify dfyconfig.toml` checks all of it.

## How the model is organised

- **Analysis and matching.** `Analyzer` is the one-pass tokenizer as a loop, proved against a recursive token stream;
  `AnalyzerLaws` says which places of a text become tokens and how analyses compose, `AnalyzerTerms` what the terms
  are, rune by rune. `EditDistance` proves that the one-row dynamic program computes the cheapest edit script.
  `Matching` says on token streams what it means to match and with which score; `Evaluator` holds the loops over the
  inverted position lists and proves that they compute it; `MatchingLaws` holds the laws of evaluation. `Scoring` is
  BM25 and `Query` the query language.
- **The engine.** `Store` is the log-structured store as a value, next to the plain versioned map it has to agree
  with. `IndexEngine` is the engine as a class over heap-allocated segments, each method tied to `Store`; `Indexing`
  and `Inverted` are its forward and inverted index. `Search`, `Cursors` and `Paging` say what a search returns page
  by page, `Linearizability` and `FlushSchedules` what concurrency and flushing cannot change. `StoreEffects` and
  `SearchMeans` spell out what the operations do and what a search finds, down to fields, terms and scores.
  `Counterexamples` holds three small inputs at which the search falls short.
- **Several shards.** `Shards` is the merge, `ShardCoordinator` placement and collection, `ScatterGather` the two
  together, `OneEngine` the comparison with one engine that holds everything; `Totals` says how a score depends on the
  number of documents.
- **Durability.** `WriteAheadLog` and `WalLaws` are the log, `ReplayInto` and `Recovery` its replay, `Ingest` the
  service that logs before it applies; `LogIntegrity`, `ReplaySteps` and `IngestEffects` say what damage does to a
  log, what a replay does with each record, and what a caller of the service gets. `Lifecycle` is a node's life: many
  callers log and apply at once, under two locks, appends fail or go unsynced, the engine refuses, flushes, and starts
  over. `Durability`, `Survival`, `CleanLives` and `NodeProcess` prove what holds over every life, `Reordering` and
  `LastWrites` what happens when writes reach the engine in another order than the log.
- **Collections.** `Schemas` and `Collections` are the domain types and the repository, `Listings` keyset paging under
  concurrency, `SchemaClients` compare-and-swap schema replacement by interleaved clients, `ClientListings` the two
  together.
- `Text`, `Sorting`, `Stability` and `Options` hold what is needed of Go's string order, stable sort and missing
  values.

Library code is known by laws only: Unicode tables and the logarithm are arbitrary functions (the logarithm with
`log(1)=0` and strict monotonicity), JSON, SHA-256, HMAC (RFC 2104) and base64url (section 5 of RFC 4648) are
functions with the inverse laws that are needed: a record reads back if its payload is JSON that encoding/json
produced, a cursor reads back but for its score, which nobody reads. Clocks, cancellation and the outcome of file
operations are parameters. Scores are reals. Map iteration is an arbitrary choice, so every result that does not
mention an order holds for every order.

## Where the code and what it promises differ

- An upsert's version is compared with the mutable buffer only. Right after a flush the engine takes an older version
  and then shows it (`Store.StaleUpsertWinsAfterFlush`). All flush schedules agree with the plain map if and only if
  no upsert is stale (`Store.SchedulesAgreeIffNoStale`); strictly increasing versions suffice.
- A write is logged before the engine checks its version, and a refused write stays in the log; so does one that was
  written but not synced. Logging and applying take two locks, so writes may overtake each other in between. The
  documentation promises that acknowledged writes are not lost. Exactly when that holds, over lives with all of this:
  - a node can be restarted with every buffer size if and only if the logged writes, acknowledged or not, have
    increasing versions per document and every deletion is of a document written before
    (`Lifecycle.RestartsIffReplayable`; for one given buffer size `Lifecycle.RestartsAtSizeIff`);
  - with such a log, every acknowledged write is always shown, or a newer one of its document is, if and only if no
    upsert is taken by the engine while a newer version of its document has been flushed
    (`Survival.ReflectedIffNeverOvertaken`). Two concurrent upserts and a flush suffice to break it
    (`Survival.OvertakenUpsertHides`); taking the writes about each document in the order of the log suffices to keep
    it (`Survival.AcknowledgedSurvive`);
  - a replay that stops has lost something if and only if some write from that record on was accepted
    (`Durability.StoppedReplayLosesIff`). The smallest inputs are three records of which the second is refused
    (`Durability.RefusedWriteLosesLaterOnes`), and an unsynced write tried again with the same version
    (`Lifecycle.RetryBlocksRestart`).
- If two upserts of one document are logged in one order and applied in the other, with a flush between, both are
  accepted and the recovered engine shows another version than the live one (`Reordering.ReorderedUpsertsDiverge`).
  Exactly when another order, or the refusal of some writes, does no harm: the log is replayable, and what was
  accepted agrees with the log on the last write of each document and, if that is a deletion, on what it deletes
  (`LastWrites.RecoversIffSameLasts`; for one given buffer size `LastWrites.RestoredAtSizeIff`).
- `scanSequence` does not look at its scanner's error. With a line of 16 MiB or more in the file, reopening continues
  from a number the file has already passed (`WalLaws.ReopeningKeepsNumbersIffAllShort`,
  `WalLaws.TooLongLineRepeatsNumbers`); one such record, a reopening and another record suffice
  (`WalLaws.TooLongLineRepeatsOne`).
- Cursors carry the generation, but buffered writes do not change it. A cursor whose hit is no longer ranked starts
  over from the first page (`Paging.CursorContinuesIffStillRanked`); three documents and one deletion show it
  (`Counterexamples.BufferedDeletionStartsOver`).
- A phrase query with a synonym among its tokens does not find its own text (`MatchingLaws.PhraseFindsItsOwnText`);
  the text "a" with a synonym for "a" is one (`Counterexamples.SynonymSpoilsPhrase`).
- Repository keys join tenant and id with a NUL. Two tenants share a key if and only if one continues the other behind
  a NUL (`Collections.KeysMeetIff`); then an update can take a collection away from another tenant
  (`Listings.NulMovesACollection`). That needs a caller of `Update` that makes up the collection it stores. The only
  caller in the program stores a copy it has read, which keeps the tenant whatever the names
  (`ClientListings.AsListingStep`).
- Merging truncated shard results is exact even if shards hold the same documents, thanks to the stable sort
  (`Shards.MergeIsGlobalTop`); distinct ids are needed only for the order of the shards not to show.
- Each shard scores with its own number of documents. The shards together find exactly the documents that one engine
  with all of them finds (`OneEngine.SameDocumentsFound`), but their first page is that engine's first page if and
  only if every hit on either page comes from a shard that holds everything or owes nothing of its score to text
  (`OneEngine.PagesAgreeIff`); for a text query, if and only if nothing is found or one shard holds everything
  (`OneEngine.TextPagesAgreeIff`). Two shards with a document each show the difference
  (`Counterexamples.TwoShardsScoreApart`).

## Model

| member | source | states |
|---|---|---|
| Analyzer.Analyze | internal/analyzer/analyzer.go:38-78 | the loop with its mutating `flush` closure yields exactly the token stream of the text |
| AnalyzerLaws.AnalyzeExact | internal/analyzer/analyzer.go:38-93 | the word tokens are exactly the maximal non-boundary runs and single CJK or emoji runes whose normalized term is not a stopword, in order, disjoint, numbered 0, 1, 2, ... |
| AnalyzerLaws.StreamIsWordsWithSynonyms | internal/analyzer/analyzer.go:38-78 | the stream is its words, each followed by its own synonyms at the same position and offsets |
| AnalyzerLaws.AnalyzeComposes | internal/analyzer/analyzer.go:38-78 | across a separator, analysing a concatenation is analysing both sides, the second shifted in position and offset |
| AnalyzerLaws.WithoutSynonymsPositions | internal/analyzer/analyzer.go:38-78 | without synonyms a token's position is its place in the stream |
| AnalyzerTerms.WordTerms | internal/analyzer/analyzer.go:80-86 | a word's term is the part of its runes between the outer spaces, rune by rune lower-cased exactly if the pipeline says so |
| AnalyzerTerms.WordsAreAt | internal/analyzer/analyzer.go:38-93 | a word stands exactly at the single CJK runes and emoji and the unsplittable runs between spaces, punctuation, symbols, CJK runes and emoji, unless its term is that of a stopword |
| AnalyzerTerms.SynonymsAre | internal/analyzer/analyzer.go:54-60 | the synonym tokens are exactly the trimmed and cased targets of the words that are not single CJK runes or emoji, at the word's place |
| AnalyzerTerms.CaseDoesNotShow | internal/analyzer/analyzer.go:38-93 | in a lower-casing pipeline, texts that differ in case only have the same tokens |
| EditDistance.Distance | internal/index/index.go:344-364 | the in-place one-row program returns the Levenshtein distance |
| EditDistance.Min | internal/index/index.go:365-373 | the variadic minimum is a member and a lower bound |
| EditDistance.DistanceIsMinimalCost | internal/index/index.go:344-373 | the distance is the least cost of any script of insertions, deletions and substitutions from one term to the other |
| EditDistance.DistanceIsAMetric | internal/index/index.go:344-373 | zero only on equal terms, symmetric, triangle inequality |
| EditDistance.WithinOneEdit | internal/index/index.go:344-373 | the distance is at most one exactly for terms that are equal or differ by one insertion, deletion or substitution |
| Scoring.ScoreSaturates | internal/scoring/bm25.go:11-21 | a contribution is positive, strictly increasing in term frequency and strictly below idf * (K1 + 1) |
| SearchMeans.TermScoreIs | internal/scoring/bm25.go:10-21 | the contribution of a token as a number: BM25 with 1.2 and 0.75, an average length of 10 and a document frequency of 1 |
| SearchMeans.LongerScoresLower | internal/scoring/bm25.go:19-20 | the same frequency scores strictly lower in a longer field |
| Query.ValidateClauseExact | internal/query/query.go:80-106 | from any depth, validation accepts exactly the well-formed clauses whose nesting fits in what is left |
| Query.AcceptedAt | internal/query/query.go:80-106 | a clause is accepted at a level if and only if a text clause has a field and a value with a rune that is no space, a range clause a field and a bound, a boolean clause some clauses, all accepted one level deeper, and the level is at most ten |
| Query.AcceptedQueries | internal/query/query.go:80-106 | a query is accepted if and only if it is well formed and at most eleven levels deep |
| Query.AcceptedRequests | internal/query/query.go:60-79 | exactly which requests are valid: identity, page size 1 to 1000, timeout, query and every filter |
| Query.DefaultedRequests | internal/query/query.go:52-79 | exactly which requests are valid once page size and timeout have been filled in |
| Query.BlankIff | internal/query/query.go:86 | a text is blank if and only if all of its runes are space |
| Query.DefaultsAre | internal/query/query.go:52-59 | ten hits and a second, exactly where the request leaves them at zero, and nothing else changes |
| Evaluator.Consecutive | internal/index/index.go:317-343 | the triple loop finds out whether some start aligns all position lists |
| Evaluator.TextMatch | internal/index/index.go:262-301 | the loops over position lists compute match, score and explanation as defined on the token streams |
| Evaluator.RangeMatch | internal/index/index.go:302-316 | computes the range outcome |
| Evaluator.EvaluateClause | internal/index/index.go:226-261 | the recursive evaluator with its early exits computes the declarative outcome of the whole clause tree |
| MatchingLaws.EvaluateMeans | internal/index/index.go:226-261 | a clause matches if and only if it is satisfied logically: all must, no must_not, some should unless there are none |
| MatchingLaws.ExplanationAddsUp | internal/index/index.go:226-261 | for every match the score is the explanation's root value, every inner node is the sum of its details, the root is the sum of the leaves |
| MatchingLaws.AcceptedNeverUnsupported | internal/index/index.go:226-261 | neither an accepted clause nor any clause below it evaluates to the "unsupported" outcome, on any document |
| MatchingLaws.KindHierarchy | internal/index/index.go:262-301 | a phrase match is a match with equal score; a match is a prefix and a fuzzy match with at least that score |
| MatchingLaws.ClauseScoreBounded | internal/index/index.go:262-301 | a matching m-token clause scores more than zero and less than m times the bound of one token times its boost |
| MatchingLaws.PhraseIsInfix | internal/index/index.go:262-343 | without synonyms a phrase matches exactly the fields whose term sequence contains the query's nonempty one as an infix |
| MatchingLaws.EmbeddedTextIsFound | internal/index/index.go:262-301 | text set off by separators is found by match, prefix and fuzzy clauses, and by a phrase if it has no synonym token |
| MatchingLaws.PhraseFindsItsOwnText | internal/index/index.go:262-301 | a text finds itself as a phrase exactly when it has tokens and none of them is a synonym |
| SearchMeans.TextClauseMeans | internal/index/index.go:262-301 | a text clause matches if and only if its query has tokens and for each the field has a token with the same term, with a term that continues it, or one edit away; for a phrase, all in a row |
| SearchMeans.FuzzyMeans | internal/index/index.go:281-286 | a fuzzy clause matches if and only if its query has tokens and each has a field token that is equal or one edit away |
| SearchMeans.TextClauseScores | internal/index/index.go:262-301 | its score is the sum over its tokens, each by how many field tokens serve it, times a positive boost |
| SearchMeans.BoolClauseScores | internal/index/index.go:226-261 | a boolean clause scores what its must clauses and its satisfied should clauses score |
| SearchMeans.RangeClauseMeans | internal/index/index.go:302-316 | a range clause matches if and only if the printed value is neither before `from` nor after `to`, and then scores one |
| Text.LessIff | internal/index/index.go:302-316 | strings are compared lexicographically: they agree up to some place, where the smaller ends or has the smaller rune |
| Counterexamples.SynonymSpoilsPhrase | internal/index/index.go:262-301 | the one-word text "a" with the synonym "b" does not find itself |
| Indexing.IndexDocument | internal/index/index.go:126-141 | builds the index entry: lengths and position lists of every text field |
| Indexing.ListedExactly | internal/index/index.go:126-141 | a position is listed under a term exactly where the analyzer put it |
| Indexing.ListLengthsAddUp | internal/index/index.go:126-141 | the list lengths of a field add up to its recorded length |
| Indexing.TermsFromLists | internal/index/index.go:126-141 | without synonyms the lists partition 0..n-1 and the term sequence can be read back from them |
| Inverted.AgreeAfterAdd | internal/index/index.go:101-125 | posting a document keeps postings and forward index equal, with nothing else present |
| Inverted.PostedIsAnalyzed | internal/index/index.go:101-141 | what is posted for a document is exactly what the analyzer found in it |
| IndexEngine.Segment.Add | internal/index/index.go:101-125 | adding a document to a segment under construction keeps its two indexes in agreement |
| IndexEngine.Engine.constructor | internal/index/index.go:57-62 | an engine starts empty, with a thousand buffered documents if the limit is below one |
| IndexEngine.Engine.Upsert | internal/index/index.go:63-74 | the engine's state and answer are those of the store's upsert; a refused one changes nothing |
| IndexEngine.Engine.Delete | internal/index/index.go:75-99 | the same for deletion, which looks for the newest visible copy |
| IndexEngine.Engine.Flush | internal/index/index.go:100-125 | appends the buffer as one segment whose generation is the number of segments, or does nothing if it is empty |
| IndexEngine.Engine.Search | internal/index/index.go:142-225 | the reply is the one defined by ranking the newest-wins view, for any map iteration order; a search whose context is done before the last candidate returns nothing |
| Linearizability.SearchAmidWrites | internal/index/index.go:142-225 | a search overtaken by any writes and flushes answers for the instant of its snapshot, or is cancelled |
| Search.BeforeIsAnOrder | internal/index/index.go:194-199 | (score, id) is a strict weak order |
| Stability.SortIsTheStableSort | internal/shard/merge_results.go:16-21 | the sort returns the one sequence that is sorted and keeps ties in the order they came in |
| Search.RankingIsUnique | internal/index/index.go:163-199 | the hits of a view have exactly one ranking |
| SearchMeans.RankingIsWholeAnswer | internal/index/index.go:163-199 | an id is ranked if and only if its document is shown, not deleted, of the request's tenant and collection, and satisfies the query and every filter; each hit shows its document's fields, score and explanation, scores descending and ids ascending among equals |
| SearchMeans.SearchFirst | internal/index/index.go:142-225 | the engine's first page is the beginning of that whole answer, as long as the page size allows, and its total is the whole answer's length |
| SearchMeans.CancelledIff | internal/index/index.go:165-169 | a search is cancelled exactly if its context is done before it has looked at every document shown |
| StoreEffects.UpsertEffect | internal/index/index.go:63-74 | an upsert is refused exactly if the buffer has the same or a newer version; otherwise the document is shown, and a full buffer becomes the newest segment |
| StoreEffects.DeleteEffect | internal/index/index.go:75-99 | a deletion marks the newest copy as deleted, with its version and time and nothing else changed, exactly if that copy is older |
| StoreEffects.FlushEffect | internal/index/index.go:100-125 | a flush makes the buffer the newest segment and changes nothing that is shown |
| StoreEffects.ViewMeans | internal/index/index.go:150-162 | what is shown of a document is its copy in the buffer or else in the newest segment that has one |
| Store.RefinesTheMap | internal/index/index.go:63-125 | while no upsert is stale the store replies and looks like one plain map, whatever its flushes |
| Store.SchedulesAgreeIffNoStale | internal/index/index.go:63-74 | every flush schedule agrees with the plain map if and only if no upsert is stale |
| Store.StaleUpsertWinsAfterFlush | internal/index/index.go:66-74 | after a flush an older upsert is accepted and shown |
| Store.EpochHoldsHighest | internal/index/index.go:63-74 | within one buffer epoch the buffer holds the highest version offered of each document |
| Store.BufferingIgnoresOrder | internal/index/index.go:63-74 | within one buffer epoch upserts with distinct versions may come in any order |
| FlushSchedules.FlushScheduleIndependence | internal/index/index.go:63-125 | the same writes with increasing versions get the same replies and view under any two limits, any extra flushes and any two clocks, up to the time stamps of tombstones |
| FlushSchedules.SearchIgnoresFlushSchedule | internal/index/index.go:152-224 | such engines return equal hits, order, scores and total for every request without cursor |
| FlushSchedules.SegmentsOnlyGrow | internal/index/index.go:101-125 | segments are only ever appended |
| FlushSchedules.CursorOutlivesBufferedWrites | internal/index/index.go:201-208 | an unexpired cursor is refused for its generation if and only if a segment has been appended since |
| FlushSchedules.FlushRaisesGeneration | internal/index/index.go:101-105 | flushing a nonempty buffer raises the generation |
| Cursors.CursorRoundTrip | internal/query/query.go:117-144 | a cursor reads back as what was encoded, but for the score, until it expires, and is never empty |
| Cursors.ReadsBackIff | internal/query/query.go:126-144 | a string reads back as a payload if and only if it holds that payload, signed with the codec's own key, and has not expired |
| Paging.PagingPartitions | internal/index/index.go:200-224 | following cursors with any page sizes shows the ranked list once, without gap or repeat, with one total; an unexpired cursor always gets the next page, and without one everything has been shown |
| Paging.WalkToTheEnd | internal/index/index.go:200-224 | every walk can be finished, and then it has shown the whole ranking |
| Paging.CursorContinuesIffStillRanked | internal/index/index.go:209-216 | a page continues behind its cursor's hit if and only if that hit is still ranked, and otherwise starts over |
| Paging.CursorLivesAQuarter | internal/index/index.go:221-223 | the cursor of a full page reads back to its last hit for fifteen minutes and is expired ever after |
| Counterexamples.BufferedDeletionStartsOver | internal/index/index.go:201-219 | three hits, two a page: after the deletion of the second, the second page shows the first hit again |
| Shards.Merge | internal/shard/merge_results.go:8-26 | totals are summed, the generation is maximal, partial is or-ed, and the hits are the truncated stable sort of all hits |
| Shards.MergeIsGlobalTop | internal/shard/merge_results.go:8-26 | merging every shard's first k hits gives the first k of all their hits |
| Shards.MergeIgnoresShardOrder | internal/shard/merge_results.go:8-26 | with distinct ids the order of the shards does not show |
| Shards.MergeInGroups | internal/shard/merge_results.go:8-26 | merging any consecutive groups first and the merges after that gives the same as merging at once |
| Shards.MergedMeans | internal/shard/merge_results.go:8-31 | a merge shows the best hits of all shards, in rank order; its generation is the highest of theirs and it is partial exactly if one of theirs is |
| ShardCoordinator.Coordinator.Route | internal/shard/coordinator.go:29-33 | a key goes to the shard within the count that its hash leaves over |
| ShardCoordinator.Coordinator.Query | internal/shard/coordinator.go:34-49 | one reply per registered shard in some order without repeats; or the first error, a cancellation too, with the replies before it |
| ScatterGather.ScatterGatherIsGlobal | internal/shard/coordinator.go:29-49 | with placement by route, the merged first page is the first page of all hits ranked together, with their number as total, in whatever order the shards answer |
| ScatterGather.SearchAllShards | internal/shard/coordinator.go:34-49 | the coordinator's query and the merge, called one after the other on the engines, return that page |
| Totals.OutcomesAgreeIff | internal/index/index.go:226-301 | two numbers of documents give a satisfied clause the same score, and the same outcome, if and only if they are equal or the clause counts no text |
| OneEngine.SameDocumentsFound | internal/shard/coordinator.go:29-49 | the shards find exactly the documents, and as many, as one engine with all of them |
| OneEngine.PagesAgreeIff | internal/shard/merge_results.go:8-26 | their first pages are equal if and only if every hit on either comes from a shard that holds everything or owes nothing of its score to text |
| OneEngine.TextPagesAgreeIff | internal/shard/merge_results.go:8-26 | for a text query, if and only if nothing is found or one shard holds everything |
| Counterexamples.TwoShardsScoreApart | internal/shard/merge_results.go:8-26 | two shards with one matching document each do not return the page of one engine with both |
| WriteAheadLog.SealedValidates | internal/storage/wal.go:37-56 | a sealed record validates if and only if it is numbered and well identified |
| LogIntegrity.ValidIff | internal/storage/wal.go:45-56 | a record is valid if and only if it is numbered, identified, of a known operation and bears the digest of its own encoding |
| WriteAheadLog.WAL.Append | internal/storage/wal.go:101-125 | what an append leaves in the file and in the counter, for every way it can end |
| LogIntegrity.AppendWrites | internal/storage/wal.go:101-125 | an append writes the caller's record with the next number, the time and the digest of its own encoding, on a line of its own |
| WriteAheadLog.WAL.Replay | internal/storage/wal.go:126-156 | the line loop delivers what the file's lines say, until the context is done or the callback fails |
| WriteAheadLog.StoppedReplayIsPrefix | internal/storage/wal.go:126-156 | a replay stopped by context or callback has delivered the beginning of the whole delivery, up to the record the callback failed on |
| WriteAheadLog.OpenWAL | internal/storage/wal.go:65-100 | opening scans the file to its highest sequence number or fails on a bad line |
| LogIntegrity.DamageStopsTheLog | internal/storage/wal.go:80-156 | a line that does not decode or bears another checksum than its digest makes opening fail, and a replay fails there having delivered nothing from it on, whatever records stand before |
| LogIntegrity.TamperingStopsTheLog | internal/storage/wal.go:37-56 | so does any change to a sealed record that the digest tells apart, or to its checksum |
| LogIntegrity.OpenTampered | internal/storage/wal.go:65-100 | a log with such a record cannot be opened |
| LogIntegrity.LimitIs16MiB | internal/storage/wal.go:80-156 | a line of 16,777,216 runes or more ends the scan unnoticed and stops a replay with an error |
| WalLaws.FirstLine | internal/storage/wal.go:113-120 | framing: the first line of a file is its first record, the rest holds the rest |
| WalLaws.ReplayOfLog | internal/storage/wal.go:126-156 | a replay delivers, in order, the records above `after` that come before the first line too long for the scanner |
| WalLaws.ScanOfLog | internal/storage/wal.go:80-100 | reopening succeeds exactly if the readable records are valid and continues from the highest of them |
| WalLaws.PerformStep | internal/storage/wal.go:65-125 | the log's methods perform the steps of the run model |
| WalLaws.LogStaysWellFormed | internal/storage/wal.go:80-125 | over any run of appends and reopenings every reopening succeeds, every record is valid, and numbers strictly increase and never pass the counter while no line is too long |
| WalLaws.ReopeningKeepsNumbersIffAllShort | internal/storage/wal.go:80-100 | reopening keeps the counter from falling behind if and only if no line is too long |
| WalLaws.TooLongLineRepeatsNumbers | internal/storage/wal.go:80-100 | after a line that is too long the next number is one the file has reached or passed |
| WalLaws.TooLongLineRepeatsOne | internal/storage/wal.go:80-125 | a record with a payload of 16 MiB, a reopening and another record leave two records numbered one |
| WalLaws.ReplayDeliversSuffix | internal/storage/wal.go:126-156 | on a well-formed log a replay delivers exactly the suffix above `after` |
| ReplayInto.Replay | internal/storage/recovery.go:14-25 | replaying into an engine applies the delivered records one by one until one cannot be read or is refused |
| ReplaySteps.RecoveredMeans | internal/storage/recovery.go:14-25 | the delivered records are taken in order, each once, a deletion as one of its document in its version and anything else as an upsert of just its payload, up to the first that cannot be read or is refused, whose error is the answer, and else with the log's own error |
| Recovery.MapAcceptsIffReplayable | internal/storage/recovery.go:14-25 | a plain map accepts a whole log if and only if versions increase per document and deletions are of documents written before |
| Recovery.ReplayCompletesIff | internal/storage/recovery.go:14-25 | a log replays under every flush schedule if and only if it is replayable |
| Recovery.RecoveryEquivalence | internal/storage/recovery.go:14-25 | writes accepted live, with increasing versions, replay without failure under any other flush schedule to the same view up to the time stamps of tombstones |
| Recovery.TimelessSearch | internal/index/index.go:163-199 | views that differ in the time stamps of tombstones only give the same ranking for every request |
| Durability.RecoverConcat | internal/storage/recovery.go:14-25 | replaying in two parts is replaying once |
| Durability.CheckpointReplay | internal/storage/recovery.go:14-25 | replaying from sequence n onto the state at n equals replaying everything |
| Durability.RecoveryRestoresTheView | internal/storage/recovery.go:14-25 | replaying the log of an engine that accepted all its writes restores its view in a fresh engine of any buffer size |
| Durability.StoppedReplayLosesIff | internal/ingest/service.go:60-79 | a replay that stops at record k, with nothing irregular before, shows something else than the live engine if and only if some write from k on was accepted |
| Durability.ReplayStopsAtFirstIrregular | internal/storage/recovery.go:14-25 | a log that is not replayable stops a replay into an engine with room for it at the first write that may not follow those before it |
| Reordering.RecoveryDespiteReordering | internal/ingest/service.go:60-79 | recovery is exact if the engine saw the logged writes in any order that keeps the order per document |
| Reordering.ReorderedUpsertsDiverge | internal/ingest/service.go:60-67 | two upserts of one document applied against the order of the log, with a flush between, leave live and recovered engine with different versions |
| LastWrites.AcceptedIffDeletesApply | internal/index/index.go:63-99 | some engine accepts given writes in a given order if and only if every deletion finds its document in an older version |
| LastWrites.RecoversIffSameLasts | internal/ingest/service.go:60-79 | every engine that accepted some of the logged writes, in whatever order and at whatever times, is restored by every replay if and only if the log is replayable and agrees with it on the last write of each document, and on what that deletes |
| LastWrites.RestoredAtSizeIff | internal/storage/recovery.go:14-25 | a replay into an engine of a given size completes and shows what the live engine shows if and only if deletions find older versions, upserts of documents in the buffer are newer, and the log agrees with the accepted writes on the last ones |
| Ingest.Service.RegisterEngine | internal/ingest/service.go:33-43 | the engine is found under its tenant and collection, and every other collection keeps its engine, unless names hold a NUL and the keys meet |
| Ingest.Service.Upsert | internal/ingest/service.go:44-69 | the whole outcome: order of checks, a document that cannot be encoded, what is logged, what the engine becomes, for every way the append can end |
| Ingest.Service.Delete | internal/ingest/service.go:70-79 | the same for deletion |
| IngestEffects.UpsertShows | internal/ingest/service.go:44-69 | after an accepted upsert the engine shows the caller's document, with the caller's version and the schema's, and the log has grown by one line that reads back as just that; otherwise nothing new is shown; an upsert newer than what is shown is never rejected |
| IngestEffects.DeleteShows | internal/ingest/service.go:70-79 | a deletion is accepted exactly if it is synced and its document is shown in an older version, and then shows it as deleted, with nothing else changed |
| Lifecycle.StaysRecorded | internal/ingest/service.go:44-79 | over any life, with concurrent calls, the log stays in order and holds every write that reached it, whether acknowledged, waiting, refused or unsynced |
| Lifecycle.RestartsIffReplayable | internal/storage/recovery.go:14-25 | over any life, with concurrent, failed, unsynced and refused writes, the node can be restarted with every buffer size if and only if the logged writes are replayable |
| Lifecycle.RestartsAtSizeIff | internal/storage/recovery.go:14-25 | with one given buffer size, if and only if logged deletions find older versions and logged upserts of documents in the buffer are newer; it then shows what the logged writes leave behind |
| Survival.ReflectedIffNeverOvertaken | internal/ingest/service.go:60-79 | over any life with a replayable log, every acknowledged write is always shown, or a newer one of its document is, if and only if no upsert is taken while a newer, flushed version of its document is shown |
| Survival.OvertakenUpsertHides | internal/ingest/service.go:60-67 | two concurrent upserts, taken against the order of the log with a flush between, hide the newer one although both are acknowledged |
| Survival.AcknowledgedSurvive | internal/ingest/service.go:44-79 | if the writes about each document are taken in the order of the log, every acknowledged write is always shown or superseded |
| Lifecycle.RetryBlocksRestart | internal/ingest/service.go:60-67 | an unsynced write tried again with the same version leaves a log with which not every restart succeeds |
| CleanLives.NothingAcknowledgedIsLost | internal/ingest/service.go:44-79 | if every logged write is synced, the log is replayable and the writes about each document are taken in its order, the engine accepts every write it takes, the node always comes up again, and it shows exactly what these make of a plain map on top of the log it was started from |
| CleanLives.IdleNodeShowsItsLog | internal/ingest/service.go:44-79 | when no call is under way such a node shows exactly what its log makes of a plain map |
| Lifecycle.ReplayableRestarts | internal/storage/recovery.go:14-25 | replaying a replayable log completes and shows what its writes make of a plain map |
| NodeProcess.LogWrite | internal/ingest/service.go:56-62 | the append takes log and engine objects to the node's state with one more write waiting |
| NodeProcess.TakeWrite | internal/ingest/service.go:63-67 | the engine's step takes them to the node's state with that write taken |
| NodeProcess.PerformPut | internal/ingest/service.go:44-69 | a whole upsert that nobody overtakes is these two steps |
| NodeProcess.PerformRemove | internal/ingest/service.go:70-79 | the same for deletion |
| NodeProcess.PerformRestart | internal/storage/recovery.go:14-25 | opening the file and replaying it into a new engine comes up exactly if the node does, in the node's state |
| Schemas.NewSchema | internal/search/domain/types.go:65-80 | a schema is built exactly if version, fields and actor are there, all fields are valid and names are distinct; otherwise the first field to blame is reported |
| Schemas.ValidateFieldIff | internal/search/domain/types.go:40-56 | a field is valid exactly if its name is not blank and has no space, dot or slash, its type is known, only text has an analyzer, and its boost lies between 0 and 100 |
| Collections.MemoryCollections.Create | internal/repository/memory.go:31-40 | stores a collection under a key not taken, or changes nothing |
| Collections.MemoryCollections.Get | internal/repository/memory.go:41-49 | answers what is stored under the key, which is the tenant's own collection unless a name holds a NUL |
| Collections.MemoryCollections.List | internal/repository/memory.go:50-66 | a page in strictly ascending order of ids, complete up to `next`, for any map iteration order |
| Collections.MemoryCollections.Update | internal/repository/memory.go:67-79 | compare and swap on the version |
| Collections.StoredIff | internal/repository/memory.go:31-79 | a create needs a free key, an update the expected version; each then changes its own entry only |
| Collections.PageIsUnique | internal/repository/memory.go:50-66 | there is only one page for a start and a limit |
| Collections.KeysMeetIff | internal/repository/memory.go:30 | two tenants have a key in common if and only if they are equal or one continues the other behind a NUL |
| Listings.ListingUnderConcurrency | internal/repository/memory.go:31-79 | a walk with any limits amid any creates and updates lists only the tenant's collections, in strictly ascending order, ends, and has then listed every collection with a nonempty id that the tenant had at every page |
| Listings.NothingPresentIsMissed | internal/repository/memory.go:31-79 | if updates keep tenants, that is every collection with a nonempty id present at its start |
| ClientListings.AsListingStep | internal/transport/httpapi/server.go:245-279 | whatever a client does to the repository is a create or an update that keeps the tenant |
| ClientListings.ListingAmidClients | internal/transport/httpapi/server.go:212-225 | so a finished walk amid clients has listed every collection present at its start, whatever the tenants are called |
| Listings.PlainTenantsAreKept | internal/repository/memory.go:67-79 | without a NUL in tenants' names every update keeps the tenant |
| Listings.NulMovesACollection | internal/repository/memory.go:67-79 | with one, an update that was not made from a copy read before can take a collection away from another tenant |
| SchemaClients.StoreReplacement | internal/transport/httpapi/server.go:262-279 | the handler's second half on the repository: validate, derive, compare and swap |
| SchemaClients.ReplacementIff | internal/transport/httpapi/server.go:266-275 | a replacement is in order exactly if it names the copy's version, the collection is active or frozen, and fields and actor are good; what it stores, field by field |
| SchemaClients.CreationIff | internal/transport/httpapi/server.go:187-197 | which creations go through, and what they store, field by field |
| SchemaClients.OrderlyReplacementSucceeds | internal/transport/httpapi/server.go:245-282 | an orderly replacement made from a fresh copy is stored, and no other collection changes |
| SchemaClients.StoredIffCopyIsCurrent | internal/search/domain/types.go:116-131 | in every reachable state a replacement is stored if and only if it is in order and its copy is still the stored collection |
| SchemaClients.NoLostSchemaUpdates | internal/transport/httpapi/server.go:245-279 | for any interleaving of clients the replacements of a collection form one chain from version 1 to what is stored, and both versions are one more than their number |
| SchemaClients.AtMostOneSuccessPerVersion | internal/transport/httpapi/server.go:245-279 | of the clients that read the same version at most one succeeds |

## Left out

- Floating point: scores are reals, so rounding, overflow and NaN are not modelled.
- Integer widths: versions, sequence numbers and generations are unbounded; wrap-around at 2^64 is not modelled.
- Unicode tables, lower-casing, JSON, SHA-256, HMAC, base64 and FNV: arbitrary functions with the laws stated. Texts are sequences of Unicode scalar values; invalid UTF-8 is not modelled.
- Files: an append writes its line completely or not at all. The code has no repair of a torn last line, and the model claims none.
- WriteAheadLog.WAL.Append: cancellation and the failures of marshalling, writing and syncing are a parameter.
- Deadlines: a context is done after a given number of candidates or lines; why is not modelled. `now` is read once per search.
- Time stamps: seconds as integers; `TookMS`, segment ids and creation times are not part of the results modelled.
- Aliasing of field maps: documents are values, so a caller that keeps writing to the map it passed is not modelled.
- Schemas and collections: Go struct values whose methods update a caller's own copy; `ReplaceSchema` is a function from the old value to the new one.
- Document validation against a schema: an arbitrary predicate of document and schema version.
- Evaluator.RangeMatch: the printed form of a value that is not a string is an arbitrary string.
- IndexEngine.Engine.Search: page sizes below one make the source index out of bounds and are excluded by its contract, as `Request.Validate` does for every request.
- Collections.MemoryCollections.List: the same for limits below one. A collection with an empty id is never listed; none is ever created, since blank ids are refused.
- Lifecycle.RestartsIffReplayable: one collection per log, and no line of 16 MiB or more, which `WalLaws` treats; replay passes deletions by document id only and does not look at tenant or collection. No command of the repository calls `ReplayInto`, so when a restart replays is the model's choice.
- ShardCoordinator.Coordinator.Query: no shard is written to while a query goes round. A reply is the engine's; network fan-out and partial replies are not implemented in the source.
- Bulk ingestion, idempotency keys, segment statistics, merge policy, maintenance tasks, snapshots, watermarks, audit log, metrics and the analyzer registry: small or not connected to the engine.
- HTTP and gRPC transport, configuration, start-up, logging and the web console.
