/** What `Analyze` promises: which places of a text become tokens, how tokens are numbered, and how
    the analysis of a text is put together from the analyses of its parts. */
module AnalyzerLaws {
  import opened Analyzer

  /** The word tokens of a stream, in order. */
  function Words(ts: seq<Token>): (r: seq<Token>)
  {
    if ts == [] then []
    else (if ts[0].kind.Word? then [ts[0]] else []) + Words(ts[1..])
  }

  lemma {:induction false} WordsConcat(a: seq<Token>, b: seq<Token>)
    ensures Words(a + b) == Words(a) + Words(b)
  {
    if a == [] {
      assert a + b == b;
    } else {
      assert (a + b)[1..] == a[1..] + b;
      WordsConcat(a[1..], b);
    }
  }

  lemma {:induction false} NoWords(ts: seq<Token>)
    requires forall t :: t in ts ==> t.kind.Synonym?
    ensures Words(ts) == []
  {
    if ts != [] {
      NoWords(ts[1..]);
    }
  }

  lemma WordsOfRun(p: Pipeline, text: string, start: nat, end: nat, pos: nat)
    requires start <= end <= |text|
    ensures
      var here := RunTokens(p, text, start, end, pos);
      Words(here) == if here == [] then [] else [here[0]]
  {
    var here := RunTokens(p, text, start, end, pos);
    if here != [] {
      NoWords(here[1..]);
    }
  }

  /** A place where no run is cut in two. */
  ghost predicate AtCut(u: Unicode, text: string, i: nat)
  {
    i <= |text| && (i == 0 || i == |text| || IsBoundary(u, text[i - 1]) || IsBoundary(u, text[i]))
  }

  /** A numbered, disjoint, ascending list of words, all of them at word places from `from` on. */
  ghost predicate WellPlaced(p: Pipeline, text: string, ws: seq<Token>, from: nat, pos: nat)
  {
    && (forall k :: 0 <= k < |ws| ==>
         && ws[k].kind.Word?
         && ws[k].position == pos + k
         && from <= ws[k].start < ws[k].end <= |text|
         && ws[k].term == Normalize(p, text[ws[k].start..ws[k].end])
         && IsWordPlace(p, text, ws[k].start, ws[k].end))
    && (forall k, l :: 0 <= k < l < |ws| ==> ws[k].end <= ws[l].start)
  }

  lemma WellPlacedCons(p: Pipeline, text: string, w: Token, ws: seq<Token>, from: nat, pos: nat)
    requires w.kind.Word? && w.position == pos && from <= w.start < w.end <= |text|
    requires w.term == Normalize(p, text[w.start..w.end]) && IsWordPlace(p, text, w.start, w.end)
    requires WellPlaced(p, text, ws, w.end, pos + 1)
    ensures WellPlaced(p, text, [w] + ws, from, pos)
  {
    var all := [w] + ws;
    assert forall k :: 0 < k < |all| ==> all[k] == ws[k - 1];
  }

  lemma BoundaryStepIsWellPlaced(p: Pipeline, text: string, i: nat, pos: nat, rest: seq<Token>)
    requires i < |text| && IsBoundary(p.unicode, text[i])
    requires WellPlaced(p, text, Words(rest), i + 1, Advance(pos, RuneTokens(p, text, i, pos)))
    ensures WellPlaced(p, text, Words(RuneTokens(p, text, i, pos) + rest), i, pos)
  {
    var here := RuneTokens(p, text, i, pos);
    WordsConcat(here, rest);
    if here != [] {
      assert text[i..i + 1] == [text[i]];
      WellPlacedCons(p, text, here[0], Words(rest), i, pos);
    }
  }

  lemma RunStepIsWellPlaced(p: Pipeline, text: string, i: nat, e: nat, pos: nat, rest: seq<Token>)
    requires IsMaximalRun(p.unicode, text, i, e)
    requires WellPlaced(p, text, Words(rest), e, Advance(pos, RunTokens(p, text, i, e, pos)))
    ensures WellPlaced(p, text, Words(RunTokens(p, text, i, e, pos) + rest), i, pos)
  {
    var here := RunTokens(p, text, i, e, pos);
    WordsConcat(here, rest);
    WordsOfRun(p, text, i, e, pos);
    if here != [] {
      WellPlacedCons(p, text, here[0], Words(rest), i, pos);
    }
  }

  lemma NothingLeft(p: Pipeline, text: string, pos: nat)
    ensures TokensFrom(p, text, |text|, pos) == [] && Words([]) == []
    ensures WellPlaced(p, text, [], |text|, pos)
  {
  }

  lemma {:induction false} WordsAreWellPlaced(p: Pipeline, text: string, i: nat, pos: nat)
    requires i <= |text| && AtCut(p.unicode, text, i)
    ensures WellPlaced(p, text, Words(TokensFrom(p, text, i, pos)), i, pos)
    decreases |text| - i
  {
    hide RunTokens, RuneTokens, Words, WellPlaced, IsBoundary;
    if i == |text| {
      NothingLeft(p, text, pos);
    } else if IsBoundary(p.unicode, text[i]) {
      var next := Advance(pos, RuneTokens(p, text, i, pos));
      WordsAreWellPlaced(p, text, i + 1, next);
      BoundaryStepIsWellPlaced(p, text, i, pos, TokensFrom(p, text, i + 1, next));
    } else {
      var e := RunEnd(p.unicode, text, i);
      var next := Advance(pos, RunTokens(p, text, i, e, pos));
      WordsAreWellPlaced(p, text, e, next);
      RunStepIsWellPlaced(p, text, i, e, pos, TokensFrom(p, text, e, next));
    }
  }

  /** No word place is missed. */
  ghost predicate Covers(ws: seq<Token>, start: nat, end: nat)
  {
    exists k :: 0 <= k < |ws| && ws[k].start == start && ws[k].end == end
  }

  lemma CoversConcat(a: seq<Token>, b: seq<Token>, start: nat, end: nat)
    requires Covers(a, start, end) || Covers(b, start, end)
    ensures Covers(a + b, start, end)
  {
    if Covers(a, start, end) {
      var k :| 0 <= k < |a| && a[k].start == start && a[k].end == end;
      assert (a + b)[k] == a[k];
    } else {
      var k :| 0 <= k < |b| && b[k].start == start && b[k].end == end;
      assert (a + b)[|a| + k] == b[k];
    }
  }

  lemma RunEndIsForced(u: Unicode, text: string, i: nat, end: nat)
    requires IsMaximalRun(u, text, i, end)
    ensures RunEnd(u, text, i) == end
  {
    var e := RunEnd(u, text, i);
    assert !(e < end) by {
      assert NoBoundary(u, text, i, end);
    }
    assert !(end < e) by {
      assert NoBoundary(u, text, i, e);
    }
  }

  lemma CoveredAtBoundary(p: Pipeline, text: string, i: nat, pos: nat, rest: seq<Token>, start: nat, end: nat)
    requires i <= start && IsWordPlace(p, text, start, end) && IsBoundary(p.unicode, text[i])
    requires start > i ==> Covers(Words(rest), start, end)
    ensures Covers(Words(RuneTokens(p, text, i, pos) + rest), start, end)
  {
    var here := RuneTokens(p, text, i, pos);
    WordsConcat(here, rest);
    if start == i {
      assert text[i..i + 1] == [text[i]];
      assert Words(here) == here && here[0].start == start;
    }
    CoversConcat(Words(here), Words(rest), start, end);
  }

  lemma CoveredAtRun(p: Pipeline, text: string, i: nat, e: nat, pos: nat, rest: seq<Token>, start: nat, end: nat)
    requires i <= start && IsWordPlace(p, text, start, end)
    requires IsMaximalRun(p.unicode, text, i, e) && e == RunEnd(p.unicode, text, i)
    requires start >= e ==> Covers(Words(rest), start, end)
    ensures Covers(Words(RunTokens(p, text, i, e, pos) + rest), start, end)
  {
    var here := RunTokens(p, text, i, e, pos);
    WordsConcat(here, rest);
    WordsOfRun(p, text, i, e, pos);
    if start == i {
      RunEndIsForced(p.unicode, text, i, end);
      assert Words(here)[0].start == start && Words(here)[0].end == end;
    } else {
      NoWordInsideRun(p, text, i, e, start, end);
    }
    CoversConcat(Words(here), Words(rest), start, end);
  }

  lemma NoWordInsideRun(p: Pipeline, text: string, i: nat, e: nat, start: nat, end: nat)
    requires i < start && IsWordPlace(p, text, start, end) && IsMaximalRun(p.unicode, text, i, e)
    ensures start >= e
  {
    var before, first := text[start - 1], text[start];
    assert i < start < e ==> !IsBoundary(p.unicode, before) && !IsBoundary(p.unicode, first);
  }

  lemma {:induction false} WordPlacesAreCovered(p: Pipeline, text: string, i: nat, pos: nat, start: nat, end: nat)
    requires i <= start && AtCut(p.unicode, text, i) && IsWordPlace(p, text, start, end)
    ensures Covers(Words(TokensFrom(p, text, i, pos)), start, end)
    decreases |text| - i
  {
    hide RunTokens, RuneTokens, Words, Covers;
    if IsBoundary(p.unicode, text[i]) {
      var next := Advance(pos, RuneTokens(p, text, i, pos));
      if start > i {
        WordPlacesAreCovered(p, text, i + 1, next, start, end);
      }
      CoveredAtBoundary(p, text, i, pos, TokensFrom(p, text, i + 1, next), start, end);
    } else {
      var e := RunEnd(p.unicode, text, i);
      var next := Advance(pos, RunTokens(p, text, i, e, pos));
      if start >= e {
        WordPlacesAreCovered(p, text, e, next, start, end);
      }
      CoveredAtRun(p, text, i, e, pos, TokensFrom(p, text, e, next), start, end);
    }
  }

  /** The analyzer's declarative specification: the words are exactly the word places of the text,
      in order, disjoint, and numbered 0, 1, 2, ... */
  lemma AnalyzeExact(p: Pipeline, text: string)
    ensures
      var ws := Words(Tokens(p, text));
      && WellPlaced(p, text, ws, 0, 0)
      && (forall start: nat, end: nat :: IsWordPlace(p, text, start, end) <==> Covers(ws, start, end))
  {
    WordsAreWellPlaced(p, text, 0, 0);
    forall start: nat, end: nat | IsWordPlace(p, text, start, end)
      ensures Covers(Words(Tokens(p, text)), start, end)
    {
      WordPlacesAreCovered(p, text, 0, 0, start, end);
    }
  }

  // ----- synonyms

  /** Each word followed by its synonyms; a word that is a stand-alone rune has none. */
  function WithSynonyms(p: Pipeline, text: string, ws: seq<Token>): (r: seq<Token>)
    requires forall w :: w in ws ==> w.start < |text|
  {
    if ws == [] then []
    else
      [ws[0]] + (if StandsAlone(p.unicode, text[ws[0].start]) then [] else SynonymTokens(p, ws[0]))
      + WithSynonyms(p, text, ws[1..])
  }

  lemma SynonymsAtBoundary(p: Pipeline, text: string, i: nat, pos: nat, rest: seq<Token>)
    requires i < |text|
    requires (forall w :: w in Words(rest) ==> w.start < |text|) && rest == WithSynonyms(p, text, Words(rest))
    ensures
      var all := RuneTokens(p, text, i, pos) + rest;
      && (forall w :: w in Words(all) ==> w.start < |text|)
      && all == WithSynonyms(p, text, Words(all))
  {
    var here := RuneTokens(p, text, i, pos);
    WordsConcat(here, rest);
    if here == [] {
      assert here + rest == rest && Words(here) + Words(rest) == Words(rest);
    } else {
      assert Words(here + rest) == [here[0]] + Words(rest);
      assert Words(here + rest)[1..] == Words(rest);
    }
  }

  lemma SynonymsAtRun(p: Pipeline, text: string, i: nat, e: nat, pos: nat, rest: seq<Token>)
    requires i < e <= |text| && !StandsAlone(p.unicode, text[i])
    requires (forall w :: w in Words(rest) ==> w.start < |text|) && rest == WithSynonyms(p, text, Words(rest))
    ensures
      var all := RunTokens(p, text, i, e, pos) + rest;
      && (forall w :: w in Words(all) ==> w.start < |text|)
      && all == WithSynonyms(p, text, Words(all))
  {
    hide Normalize, StopTerms;
    var here := RunTokens(p, text, i, e, pos);
    WordsConcat(here, rest);
    WordsOfRun(p, text, i, e, pos);
    if here == [] {
      assert here + rest == rest && Words(here) + Words(rest) == Words(rest);
    } else {
      assert Words(here + rest) == [here[0]] + Words(rest);
      assert Words(here + rest)[1..] == Words(rest);
      assert here == [here[0]] + SynonymTokens(p, here[0]);
    }
  }

  /** A token stream is its words, each followed by its own synonyms at the same position and offsets. */
  lemma {:induction false} StreamIsWordsWithSynonyms(p: Pipeline, text: string, i: nat, pos: nat)
    requires AtCut(p.unicode, text, i)
    ensures
      var ws := Words(TokensFrom(p, text, i, pos));
      && (forall w :: w in ws ==> w.start < |text|)
      && TokensFrom(p, text, i, pos) == WithSynonyms(p, text, ws)
    decreases |text| - i
  {
    hide RunTokens, RuneTokens;
    if i < |text| && IsBoundary(p.unicode, text[i]) {
      var next := Advance(pos, RuneTokens(p, text, i, pos));
      StreamIsWordsWithSynonyms(p, text, i + 1, next);
      SynonymsAtBoundary(p, text, i, pos, TokensFrom(p, text, i + 1, next));
    } else if i < |text| {
      var e := RunEnd(p.unicode, text, i);
      var next := Advance(pos, RunTokens(p, text, i, e, pos));
      StreamIsWordsWithSynonyms(p, text, e, next);
      SynonymsAtRun(p, text, i, e, pos, TokensFrom(p, text, e, next));
    }
  }

  // ----- composition

  function Shift(ts: seq<Token>, positions: nat, offsets: nat): (r: seq<Token>)
    ensures |r| == |ts|
    ensures forall k :: 0 <= k < |ts| ==>
      r[k] == ts[k].(position := ts[k].position + positions, start := ts[k].start + offsets, end := ts[k].end + offsets)
  {
    seq(|ts|, k requires 0 <= k < |ts| =>
      ts[k].(position := ts[k].position + positions, start := ts[k].start + offsets, end := ts[k].end + offsets))
  }

  lemma ShiftConcat(a: seq<Token>, b: seq<Token>, positions: nat, offsets: nat)
    ensures Shift(a + b, positions, offsets) == Shift(a, positions, offsets) + Shift(b, positions, offsets)
  {
  }

  lemma ShiftedSynonyms(p: Pipeline, word: Token, positions: nat, offsets: nat)
    ensures SynonymTokens(p, Shift([word], positions, offsets)[0]) == Shift(SynonymTokens(p, word), positions, offsets)
  {
  }

  lemma ShiftedRun(p: Pipeline, x: string, y: string, start: nat, end: nat, pos: nat, positions: nat)
    requires start <= end <= |y|
    ensures RunTokens(p, x + y, |x| + start, |x| + end, positions + pos)
         == Shift(RunTokens(p, y, start, end, pos), positions, |x|)
  {
    hide StopTerms, Normalize, SynonymTokens;
    assert (x + y)[|x| + start..|x| + end] == y[start..end];
    var here := RunTokens(p, y, start, end, pos);
    if here != [] {
      ShiftedSynonyms(p, here[0], positions, |x|);
      ShiftConcat([here[0]], SynonymTokens(p, here[0]), positions, |x|);
      assert Shift([here[0]], positions, |x|) == [Shift([here[0]], positions, |x|)[0]];
    }
  }

  lemma {:induction false} ShiftedRunEnd(u: Unicode, x: string, y: string, i: nat)
    requires i <= |y|
    ensures RunEnd(u, x + y, |x| + i) == |x| + RunEnd(u, y, i)
    decreases |y| - i
  {
    if i < |y| {
      assert (x + y)[|x| + i] == y[i];
      if !IsBoundary(u, y[i]) {
        ShiftedRunEnd(u, x, y, i + 1);
      }
    }
  }

  lemma ShiftedRune(p: Pipeline, x: string, y: string, i: nat, pos: nat, positions: nat)
    requires i < |y|
    ensures RuneTokens(p, x + y, |x| + i, positions + pos) == Shift(RuneTokens(p, y, i, pos), positions, |x|)
  {
    assert (x + y)[|x| + i] == y[i];
  }

  /** Analysing a suffix of a longer text only shifts positions and offsets. */
  lemma {:induction false} ShiftedTokens(p: Pipeline, x: string, y: string, i: nat, pos: nat, positions: nat)
    requires i <= |y|
    ensures TokensFrom(p, x + y, |x| + i, positions + pos) == Shift(TokensFrom(p, y, i, pos), positions, |x|)
    decreases |y| - i
  {
    hide RunTokens, RuneTokens, StandsAlone, Words;
    if i < |y| {
      assert (x + y)[|x| + i] == y[i];
      if IsBoundary(p.unicode, y[i]) {
        var here := RuneTokens(p, y, i, pos);
        var next := Advance(pos, here);
        ShiftedRune(p, x, y, i, pos, positions);
        ShiftedTokens(p, x, y, i + 1, next, positions);
        assert |x| + (i + 1) == |x| + i + 1;
        ShiftConcat(here, TokensFrom(p, y, i + 1, next), positions, |x|);
      } else {
        var e := RunEnd(p.unicode, y, i);
        var here := RunTokens(p, y, i, e, pos);
        var next := Advance(pos, here);
        ShiftedRunEnd(p.unicode, x, y, i);
        ShiftedRun(p, x, y, i, e, pos, positions);
        ShiftedTokens(p, x, y, e, next, positions);
        ShiftConcat(here, TokensFrom(p, y, e, next), positions, |x|);
      }
    }
  }

  lemma {:induction false} PrefixRunEnd(u: Unicode, x: string, rest: string, i: nat)
    requires i <= |x| && rest != "" && IsBoundary(u, rest[0])
    ensures RunEnd(u, x + rest, i) == RunEnd(u, x, i)
    decreases |x| - i
  {
    if i < |x| {
      assert (x + rest)[i] == x[i];
      if !IsBoundary(u, x[i]) {
        PrefixRunEnd(u, x, rest, i + 1);
      }
    }
  }

  lemma PrefixRunTokens(p: Pipeline, x: string, rest: string, start: nat, end: nat, pos: nat)
    requires start <= end <= |x|
    ensures RunTokens(p, x + rest, start, end, pos) == RunTokens(p, x, start, end, pos)
    ensures Advance(pos, RunTokens(p, x, start, end, pos)) == pos + |Words(RunTokens(p, x, start, end, pos))|
  {
    assert (x + rest)[start..end] == x[start..end];
    WordsOfRun(p, x, start, end, pos);
  }

  lemma PrefixRuneTokens(p: Pipeline, x: string, rest: string, i: nat, pos: nat)
    requires i < |x|
    ensures RuneTokens(p, x + rest, i, pos) == RuneTokens(p, x, i, pos)
    ensures Advance(pos, RuneTokens(p, x, i, pos)) == pos + |Words(RuneTokens(p, x, i, pos))|
  {
  }

  /** Up to a boundary, the analysis does not look ahead. */
  lemma {:induction false} PrefixTokens(p: Pipeline, x: string, rest: string, i: nat, pos: nat)
    requires i <= |x| && rest != "" && IsBoundary(p.unicode, rest[0])
    ensures
      var ts := TokensFrom(p, x, i, pos);
      TokensFrom(p, x + rest, i, pos) == ts + TokensFrom(p, x + rest, |x|, pos + |Words(ts)|)
    decreases |x| - i
  {
    hide RunTokens, RuneTokens, IsBoundary, Words;
    if i == |x| {
      NothingLeft(p, x, pos);
    } else if IsBoundary(p.unicode, x[i]) {
      assert (x + rest)[i] == x[i];
      var here := RuneTokens(p, x, i, pos);
      var next := Advance(pos, here);
      var later := TokensFrom(p, x, i + 1, next);
      PrefixRuneTokens(p, x, rest, i, pos);
      PrefixTokens(p, x, rest, i + 1, next);
      WordsConcat(here, later);
      assert |Words(here + later)| == |Words(here)| + |Words(later)|;
    } else {
      assert (x + rest)[i] == x[i];
      var e := RunEnd(p.unicode, x, i);
      var here := RunTokens(p, x, i, e, pos);
      var next := Advance(pos, here);
      var later := TokensFrom(p, x, e, next);
      PrefixRunEnd(p.unicode, x, rest, i);
      PrefixRunTokens(p, x, rest, i, e, pos);
      PrefixTokens(p, x, rest, e, next);
      WordsConcat(here, later);
      assert |Words(here + later)| == |Words(here)| + |Words(later)|;
    }
  }

  lemma SeparatorEmitsNothing(p: Pipeline, text: string, i: nat, pos: nat)
    requires i < |text| && IsSeparator(p.unicode, text[i])
    ensures TokensFrom(p, text, i, pos) == TokensFrom(p, text, i + 1, pos)
  {
    assert RuneTokens(p, text, i, pos) == [];
  }

  /** Composition: across a separator the two analyses are simply put one after the other. */
  lemma AnalyzeComposes(p: Pipeline, x: string, sep: char, y: string)
    requires IsSeparator(p.unicode, sep)
    ensures Tokens(p, x + [sep] + y)
         == Tokens(p, x) + Shift(Tokens(p, y), |Words(Tokens(p, x))|, |x| + 1)
  {
    hide TokensFrom, Words;
    var t := x + [sep] + y;
    var n := |Words(Tokens(p, x))|;
    assert t == x + ([sep] + y);
    PrefixTokens(p, x, [sep] + y, 0, 0);
    SeparatorEmitsNothing(p, t, |x|, n);
    ShiftedTokens(p, x + [sep], y, 0, 0, n);
  }

  // ----- pipelines without synonyms

  lemma {:induction false} WithoutSynonymsAllWords(p: Pipeline, text: string, i: nat, pos: nat)
    requires p.synonyms == map[] && i <= |text|
    ensures Words(TokensFrom(p, text, i, pos)) == TokensFrom(p, text, i, pos)
    decreases |text| - i
  {
    if i < |text| && IsBoundary(p.unicode, text[i]) {
      var here := RuneTokens(p, text, i, pos);
      WithoutSynonymsAllWords(p, text, i + 1, Advance(pos, here));
      WordsConcat(here, TokensFrom(p, text, i + 1, Advance(pos, here)));
    } else if i < |text| {
      var e := RunEnd(p.unicode, text, i);
      var here := RunTokens(p, text, i, e, pos);
      WithoutSynonymsAllWords(p, text, e, Advance(pos, here));
      WordsConcat(here, TokensFrom(p, text, e, Advance(pos, here)));
    }
  }

  /** Without synonyms, a token's position is its place in the stream. */
  lemma WithoutSynonymsPositions(p: Pipeline, text: string)
    requires p.synonyms == map[]
    ensures forall k :: 0 <= k < |Tokens(p, text)| ==> Tokens(p, text)[k].position == k
  {
    WithoutSynonymsAllWords(p, text, 0, 0);
    WordsAreWellPlaced(p, text, 0, 0);
  }
}
