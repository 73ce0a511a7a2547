/** What the tokens of a text are, rune by rune: how terms are cased and trimmed, where words begin and end, which
    words are stopped, and which synonyms follow (`normalize`, `isBoundary`, `isEmoji` and `Analyze` in
    internal/analyzer/analyzer.go). */
module AnalyzerTerms {
  import opened Analyzer
  import opened AnalyzerLaws

  // ----- terms

  /** The term is value[i..j], lower-cased or as it is, where all that is cut off is space and the ends that are kept
      are not. */
  ghost predicate TrimmedAt(p: Pipeline, value: string, term: string, i: nat, j: nat)
  {
    && i <= j <= |value| && |term| == j - i
    && (forall k ::
      0 <= k < |term| ==> term[k] == if p.lowercase then p.unicode.toLower(value[i + k]) else value[i + k])
    && (forall k :: 0 <= k < |value| && (k < i || j <= k) ==> p.unicode.isSpace(value[k]))
    && (i < j ==> !p.unicode.isSpace(value[i]) && !p.unicode.isSpace(value[j - 1]))
  }

  ghost predicate IsTermOf(p: Pipeline, value: string, term: string)
  {
    exists i, j :: TrimmedAt(p, value, term, i, j)
  }

  lemma {:induction false} LeftTrim(u: Unicode, s: string) returns (i: nat)
    ensures i <= |s| && TrimLeft(u, s) == s[i..]
    ensures forall k :: 0 <= k < i ==> u.isSpace(s[k])
    ensures i < |s| ==> !u.isSpace(s[i])
  {
    i := 0;
    if s != "" && u.isSpace(s[0]) {
      i := LeftTrim(u, s[1..]);
      i := i + 1;
    }
  }

  lemma {:induction false} RightTrim(u: Unicode, s: string) returns (j: nat)
    ensures j <= |s| && TrimRight(u, s) == s[..j]
    ensures forall k :: j <= k < |s| ==> u.isSpace(s[k])
    ensures j > 0 ==> !u.isSpace(s[j - 1])
    decreases |s|
  {
    j := |s|;
    if s != "" && u.isSpace(s[|s| - 1]) {
      j := RightTrim(u, s[..|s| - 1]);
    }
  }

  lemma NormalizedIsTerm(p: Pipeline, value: string)
    ensures IsTermOf(p, value, Normalize(p, value))
  {
    var i := LeftTrim(p.unicode, value);
    var j := RightTrim(p.unicode, value[i..]);
    assert forall k :: 0 <= k < j ==> value[i..][..j][k] == value[i + k];
    assert forall k :: i <= k < |value| ==> value[k] == value[i..][k - i];
    assert TrimmedAt(p, value, Normalize(p, value), i, i + j);
  }

  lemma OneTerm(p: Pipeline, value: string, t: string, i: nat, j: nat, t': string, i': nat, j': nat)
    requires TrimmedAt(p, value, t, i, j) && TrimmedAt(p, value, t', i', j')
    ensures t == t'
  {
    if i < j {
      assert i' <= i && j <= j';
      assert i' == i && j' == j;
    } else {
      assert i' == j';
    }
  }

  /** Trimming and casing leaves exactly this. */
  lemma NormalizedIff(p: Pipeline, value: string, term: string)
    ensures term == Normalize(p, value) <==> IsTermOf(p, value, term)
  {
    NormalizedIsTerm(p, value);
    hide Normalize, TrimmedAt;
    var i, j :| TrimmedAt(p, value, Normalize(p, value), i, j);
    forall i', j' | TrimmedAt(p, value, term, i', j')
      ensures term == Normalize(p, value)
    {
      OneTerm(p, value, term, i', j', Normalize(p, value), i, j);
    }
  }

  // ----- words

  lemma {:induction false} WordsAreTokens(ts: seq<Token>, t: Token)
    ensures t in Words(ts) <==> t in ts && t.kind.Word?
  {
    if ts != [] {
      WordsAreTokens(ts[1..], t);
      assert ts == [ts[0]] + ts[1..];
    }
  }

  /** Every word token bears the trimmed and cased text of its place. */
  lemma WordTerms(p: Pipeline, text: string, t: Token)
    requires t in Tokens(p, text) && t.kind.Word?
    ensures t.start < t.end <= |text| && IsTermOf(p, text[t.start..t.end], t.term)
  {
    AnalyzeExact(p, text);
    WordsAreTokens(Tokens(p, text), t);
    hide Tokens, Normalize, IsWordPlace, Words, IsTermOf;
    var k :| 0 <= k < |Words(Tokens(p, text))| && Words(Tokens(p, text))[k] == t;
    NormalizedIff(p, text[t.start..t.end], t.term);
  }

  lemma NotStopped(p: Pipeline, term: string)
    ensures term !in StopTerms(p) <==> forall s :: s in p.stopwords ==> !IsTermOf(p, s, term)
  {
    hide IsTermOf, Normalize;
    forall s | s in p.stopwords
      ensures Normalize(p, s) == term <==> IsTermOf(p, s, term)
    {
      NormalizedIff(p, s, term);
    }
  }

  lemma CoversIff(ts: seq<Token>, start: nat, end: nat)
    ensures Covers(Words(ts), start, end) <==> HasWordAt(ts, start, end)
  {
    var ws := Words(ts);
    if Covers(ws, start, end) {
      var k :| 0 <= k < |ws| && ws[k].start == start && ws[k].end == end;
      WordsAreTokens(ts, ws[k]);
      assert ws[k] in ws;
    }
    if t :| t in ts && t.kind.Word? && t.start == start && t.end == end {
      WordsAreTokens(ts, t);
      var k :| 0 <= k < |ws| && ws[k] == t;
    }
  }

  /** A single CJK rune or emoji, or a maximal run of runes that are no space, punctuation, symbol, CJK rune or emoji
      and of which trimming leaves something. */
  ghost predicate IsPlace(u: Unicode, text: string, start: nat, end: nat, term: string)
    requires start < end <= |text|
  {
    var alone := (r: char) => u.isCJK(r) || 0x1F300 <= r as int <= 0x1FAFF;
    var splits := (r: char) => u.isSpace(r) || u.isPunct(r) || u.isSymbol(r) || alone(r);
    || (end == start + 1 && alone(text[start]))
    || (term != "" && (forall i :: start <= i < end ==> !splits(text[i]))
        && (start == 0 || splits(text[start - 1])) && (end == |text| || splits(text[end])))
  }

  lemma PlaceIs(p: Pipeline, text: string, start: nat, end: nat)
    requires start < end <= |text|
    ensures
      var term := Normalize(p, text[start..end]);
      IsWordPlace(p, text, start, end) <==> term !in StopTerms(p) && IsPlace(p.unicode, text, start, end, term)
  {
    hide Normalize, StopTerms;
  }

  ghost predicate HasWordAt(ts: seq<Token>, start: nat, end: nat)
  {
    exists t :: t in ts && t.kind.Word? && t.start == start && t.end == end
  }

  ghost predicate IsWordWith(p: Pipeline, text: string, start: nat, end: nat, term: string)
    requires start < end <= |text|
  {
    && IsTermOf(p, text[start..end], term)
    && (forall s :: s in p.stopwords ==> !IsTermOf(p, s, term))
    && IsPlace(p.unicode, text, start, end, term)
  }

  /** Where the words are: exactly at these places, unless the term there is that of a stopword. */
  lemma WordsAreAt(p: Pipeline, text: string, start: nat, end: nat)
    requires start < end <= |text|
    ensures HasWordAt(Tokens(p, text), start, end) <==> exists term :: IsWordWith(p, text, start, end, term)
  {
    var value := text[start..end];
    var term := Normalize(p, value);
    AnalyzeExact(p, text);
    CoversIff(Tokens(p, text), start, end);
    NotStopped(p, term);
    NormalizedIsTerm(p, value);
    OnlyTerm(p, value);
    PlaceIs(p, text, start, end);
    hide Tokens, Words, Covers, StopTerms, Normalize, WellPlaced, IsTermOf, IsWordPlace, IsPlace, HasWordAt;
    if HasWordAt(Tokens(p, text), start, end) {
      assert IsWordWith(p, text, start, end, term);
    }
  }

  lemma OnlyTerm(p: Pipeline, value: string)
    ensures forall term :: IsTermOf(p, value, term) ==> term == Normalize(p, value)
  {
    hide IsTermOf, Normalize;
    forall term | IsTermOf(p, value, term)
      ensures term == Normalize(p, value)
    {
      NormalizedIff(p, value, term);
    }
  }

  // ----- synonyms

  /** A synonym token stands where a word stands that is no single CJK rune or emoji, and bears the trimmed and cased
      form of a target of that word's term. */
  ghost predicate IsSynonymOf(p: Pipeline, text: string, w: Token, t: Token)
  {
    && w.kind.Word? && w.start < |text| && w.term in p.synonyms
    && !p.unicode.isCJK(text[w.start]) && !(0x1F300 <= text[w.start] as int <= 0x1FAFF)
    && t.kind.Synonym? && t.position == w.position && t.start == w.start && t.end == w.end
    && exists target :: target in p.synonyms[w.term] && IsTermOf(p, target, t.term)
  }

  lemma SynonymTokensIff(p: Pipeline, text: string, w: Token, t: Token)
    requires w.kind.Word? && w.start < |text|
    ensures (!StandsAlone(p.unicode, text[w.start]) && t in SynonymTokens(p, w)) <==> IsSynonymOf(p, text, w, t)
  {
    hide IsTermOf, Normalize;
    if w.term in p.synonyms {
      var targets, ts := p.synonyms[w.term], SynonymTokens(p, w);
      forall i | 0 <= i < |targets|
        ensures t.term == Normalize(p, targets[i]) <==> IsTermOf(p, targets[i], t.term)
      {
        NormalizedIff(p, targets[i], t.term);
      }
      assert forall i :: 0 <= i < |ts| ==> ts[i].term == Normalize(p, targets[i]);
      if t in ts {
        var i :| 0 <= i < |ts| && ts[i] == t;
        assert targets[i] in targets;
      }
      if target :| target in targets && IsTermOf(p, target, t.term) {
        var i :| 0 <= i < |targets| && targets[i] == target;
        assert t.kind.Synonym? && t.position == w.position && t.start == w.start && t.end == w.end ==> ts[i] == t;
      }
    }
  }

  lemma {:induction false} InWithSynonyms(p: Pipeline, text: string, ws: seq<Token>, t: Token)
    requires forall w :: w in ws ==> w.start < |text| && w.kind.Word?
    requires t.kind.Synonym?
    ensures t in WithSynonyms(p, text, ws) <==> exists w :: w in ws && IsSynonymOf(p, text, w, t)
  {
    hide IsSynonymOf, SynonymTokens, StandsAlone;
    if ws != [] {
      var own := if StandsAlone(p.unicode, text[ws[0].start]) then [] else SynonymTokens(p, ws[0]);
      InWithSynonyms(p, text, ws[1..], t);
      SynonymTokensIff(p, text, ws[0], t);
      assert WithSynonyms(p, text, ws) == [ws[0]] + own + WithSynonyms(p, text, ws[1..]);
      assert ws == [ws[0]] + ws[1..];
    }
  }

  /** Which synonym tokens there are: all those of all words, and no others. */
  lemma SynonymsAre(p: Pipeline, text: string, t: Token)
    requires t.kind.Synonym?
    ensures t in Tokens(p, text) <==> exists w :: w in Tokens(p, text) && IsSynonymOf(p, text, w, t)
  {
    StreamIsWordsWithSynonyms(p, text, 0, 0);
    var ts := Tokens(p, text);
    var ws := Words(ts);
    forall w
      ensures w in ws <==> w in ts && w.kind.Word?
    {
      WordsAreTokens(ts, w);
    }
    assert ts == WithSynonyms(p, text, ws);
    hide TokensFrom, Tokens, Words, WithSynonyms, AtCut;
    InWithSynonyms(p, text, ws, t);
    assert forall w :: IsSynonymOf(p, text, w, t) ==> w.kind.Word?;
  }

  // ----- case

  /** The same kinds of runes, and the same runes once lower-cased. */
  ghost predicate SameButCase(u: Unicode, x: string, y: string)
  {
    && |x| == |y|
    && forall i :: 0 <= i < |x| ==>
         && u.isSpace(x[i]) == u.isSpace(y[i]) && u.isPunct(x[i]) == u.isPunct(y[i])
         && u.isSymbol(x[i]) == u.isSymbol(y[i]) && u.isCJK(x[i]) == u.isCJK(y[i]) && IsEmoji(x[i]) == IsEmoji(y[i])
         && u.toLower(x[i]) == u.toLower(y[i])
  }

  lemma SameTermButCase(p: Pipeline, x: string, y: string)
    requires p.lowercase && SameButCase(p.unicode, x, y)
    ensures Normalize(p, x) == Normalize(p, y)
  {
    NormalizedIsTerm(p, x);
    var i, j :| TrimmedAt(p, x, Normalize(p, x), i, j);
    hide Normalize;
    assert TrimmedAt(p, y, Normalize(p, x), i, j);
    NormalizedIff(p, y, Normalize(p, x));
  }

  lemma {:induction false} SameRunEnd(u: Unicode, x: string, y: string, i: nat)
    requires SameButCase(u, x, y) && i <= |x|
    ensures RunEnd(u, x, i) == RunEnd(u, y, i)
    decreases |x| - i
  {
    if i < |x| && !IsBoundary(u, x[i]) {
      SameRunEnd(u, x, y, i + 1);
    }
  }

  lemma SamePart(u: Unicode, x: string, y: string, i: nat, j: nat)
    requires SameButCase(u, x, y) && i <= j <= |x|
    ensures SameButCase(u, x[i..j], y[i..j])
  {
  }

  /** Where the step of the token stream that begins at rune i ends, and the tokens it yields. */
  function NextAt(u: Unicode, text: string, i: nat): (next: nat)
    requires i < |text|
    ensures i < next <= |text|
  {
    if IsBoundary(u, text[i]) then i + 1 else RunEnd(u, text, i)
  }

  function TokensHere(p: Pipeline, text: string, i: nat, pos: nat): seq<Token>
    requires i < |text|
  {
    if IsBoundary(p.unicode, text[i]) then RuneTokens(p, text, i, pos)
    else RunTokens(p, text, i, NextAt(p.unicode, text, i), pos)
  }

  lemma TokensByStep(p: Pipeline, text: string, i: nat, pos: nat)
    requires i <= |text|
    ensures TokensFrom(p, text, i, pos) ==
      if i == |text| then []
      else
        var here := TokensHere(p, text, i, pos);
        here + TokensFrom(p, text, NextAt(p.unicode, text, i), Advance(pos, here))
  {
    hide RunTokens, RuneTokens, IsBoundary, Advance;
  }

  lemma SameStep(p: Pipeline, x: string, y: string, i: nat, pos: nat)
    requires p.lowercase && SameButCase(p.unicode, x, y) && i < |x|
    ensures i < |y| && NextAt(p.unicode, x, i) == NextAt(p.unicode, y, i)
    ensures TokensHere(p, x, i, pos) == TokensHere(p, y, i, pos)
  {
    SameKind(p.unicode, x, y, i);
    SameRunEnd(p.unicode, x, y, i);
    SameRune(p, x, y, i, pos);
    SameRun(p, x, y, i, NextAt(p.unicode, x, i), pos);
    hide RunTokens, RuneTokens, IsBoundary, RunEnd, SameButCase;
  }

  lemma {:induction false} SameTokensFrom(p: Pipeline, x: string, y: string, i: nat, pos: nat)
    requires p.lowercase && SameButCase(p.unicode, x, y) && i <= |x|
    ensures |x| == |y| && TokensFrom(p, x, i, pos) == TokensFrom(p, y, i, pos)
    decreases |x| - i
  {
    assert |x| == |y|;
    hide *;
    TokensByStep(p, x, i, pos);
    TokensByStep(p, y, i, pos);
    if i < |x| {
      SameStep(p, x, y, i, pos);
      SameTokensFrom(p, x, y, NextAt(p.unicode, x, i), Advance(pos, TokensHere(p, x, i, pos)));
    }
  }

  lemma SameKind(u: Unicode, x: string, y: string, i: nat)
    requires SameButCase(u, x, y) && i < |x|
    ensures |x| == |y|
    ensures IsBoundary(u, x[i]) == IsBoundary(u, y[i]) && StandsAlone(u, x[i]) == StandsAlone(u, y[i])
  {
  }

  lemma SameRune(p: Pipeline, x: string, y: string, i: nat, pos: nat)
    requires p.lowercase && SameButCase(p.unicode, x, y) && i < |x| == |y|
    ensures RuneTokens(p, x, i, pos) == RuneTokens(p, y, i, pos)
  {
    SameKind(p.unicode, x, y, i);
    SamePart(p.unicode, x, y, i, i + 1);
    assert x[i..i + 1] == [x[i]] && y[i..i + 1] == [y[i]];
    SameTermButCase(p, [x[i]], [y[i]]);
    hide Normalize, StopTerms, StandsAlone;
  }

  lemma SameRun(p: Pipeline, x: string, y: string, i: nat, e: nat, pos: nat)
    requires p.lowercase && SameButCase(p.unicode, x, y) && i <= e <= |x| == |y|
    ensures RunTokens(p, x, i, e, pos) == RunTokens(p, y, i, e, pos)
  {
    SamePart(p.unicode, x, y, i, e);
    SameTermButCase(p, x[i..e], y[i..e]);
    hide Normalize, StopTerms, SynonymTokens;
  }

  /** A lower-casing pipeline does not see case: texts that differ in nothing else have the same tokens. */
  lemma CaseDoesNotShow(p: Pipeline, x: string, y: string)
    requires p.lowercase && SameButCase(p.unicode, x, y)
    ensures Tokens(p, x) == Tokens(p, y)
  {
    SameTokensFrom(p, x, y, 0, 0);
    hide TokensFrom;
  }
}
