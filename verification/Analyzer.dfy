/** The analyzer of internal/analyzer/analyzer.go: one pass over the runes of a text, cutting it
    into word tokens and adding synonym tokens. */
module Analyzer {

  /** Go's Unicode tables, which are library code: any tables will do. */
  datatype Unicode = Unicode(isSpace: char -> bool, isPunct: char -> bool, isSymbol: char -> bool,
                             isCJK: char -> bool, toLower: char -> char)

  datatype Pipeline = Pipeline(unicode: Unicode, lowercase: bool, stopwords: seq<string>,
                               synonyms: map<string, seq<string>>)

  datatype TokenType = Word | Synonym

  datatype Token = Token(term: string, position: nat, start: nat, end: nat, kind: TokenType)

  predicate IsEmoji(r: char)
  {
    0x1F300 <= r as int <= 0x1FAFF
  }

  /** A CJK or emoji rune is a token of its own. */
  predicate StandsAlone(u: Unicode, r: char)
  {
    u.isCJK(r) || IsEmoji(r)
  }

  predicate IsBoundary(u: Unicode, r: char)
  {
    u.isSpace(r) || u.isPunct(r) || u.isSymbol(r) || StandsAlone(u, r)
  }

  /** A boundary that leaves no token behind. */
  predicate IsSeparator(u: Unicode, r: char)
  {
    IsBoundary(u, r) && !StandsAlone(u, r)
  }

  function TrimLeft(u: Unicode, s: string): (r: string)
  {
    if s != "" && u.isSpace(s[0]) then TrimLeft(u, s[1..]) else s
  }

  function TrimRight(u: Unicode, s: string): (r: string)
  {
    if s != "" && u.isSpace(s[|s| - 1]) then TrimRight(u, s[..|s| - 1]) else s
  }

  function Normalize(p: Pipeline, value: string): (r: string)
  {
    var trimmed := TrimRight(p.unicode, TrimLeft(p.unicode, value));
    if p.lowercase
    then seq(|trimmed|, i requires 0 <= i < |trimmed| => p.unicode.toLower(trimmed[i]))
    else trimmed
  }

  function StopTerms(p: Pipeline): (r: set<string>)
  {
    set s | s in p.stopwords :: Normalize(p, s)
  }

  // ----- what a token is

  ghost predicate NoBoundary(u: Unicode, text: string, start: nat, end: nat)
    requires start <= end <= |text|
  {
    forall i :: start <= i < end ==> !IsBoundary(u, text[i])
  }

  /** text[start..end] is a nonempty run of non-boundary runes that cannot be widened. */
  ghost predicate IsMaximalRun(u: Unicode, text: string, start: nat, end: nat)
  {
    && start < end <= |text|
    && NoBoundary(u, text, start, end)
    && (start == 0 || IsBoundary(u, text[start - 1]))
    && (end == |text| || IsBoundary(u, text[end]))
  }

  /** The places of a text that yield a word token. */
  ghost predicate IsWordPlace(p: Pipeline, text: string, start: nat, end: nat)
  {
    && start < end <= |text|
    && Normalize(p, text[start..end]) !in StopTerms(p)
    && (|| (IsMaximalRun(p.unicode, text, start, end) && Normalize(p, text[start..end]) != "")
        || (end == start + 1 && StandsAlone(p.unicode, text[start])))
  }

  // ----- the token stream, run by run

  function RunEnd(u: Unicode, text: string, i: nat): (r: nat)
    requires i <= |text|
    ensures i <= r <= |text|
    ensures NoBoundary(u, text, i, r)
    ensures r == |text| || IsBoundary(u, text[r])
    decreases |text| - i
  {
    if i == |text| || IsBoundary(u, text[i]) then i else RunEnd(u, text, i + 1)
  }

  function SynonymTokens(p: Pipeline, word: Token): (r: seq<Token>)
  {
    if word.term !in p.synonyms then []
    else
      var targets := p.synonyms[word.term];
      seq(|targets|, i requires 0 <= i < |targets| =>
        Token(Normalize(p, targets[i]), word.position, word.start, word.end, Synonym))
  }

  /** The tokens of the run text[start..end]: none, or a word and its synonyms. */
  function RunTokens(p: Pipeline, text: string, start: nat, end: nat, pos: nat): (r: seq<Token>)
    requires start <= end <= |text|
  {
    var term := Normalize(p, text[start..end]);
    if term in StopTerms(p) || term == "" then []
    else
      var word := Token(term, pos, start, end, Word);
      [word] + SynonymTokens(p, word)
  }

  /** The token of the boundary rune text[i], if it has one. */
  function RuneTokens(p: Pipeline, text: string, i: nat, pos: nat): (r: seq<Token>)
    requires i < |text|
  {
    var term := Normalize(p, [text[i]]);
    if StandsAlone(p.unicode, text[i]) && term !in StopTerms(p) then [Token(term, pos, i, i + 1, Word)] else []
  }

  function Advance(pos: nat, emitted: seq<Token>): nat
  {
    if emitted == [] then pos else pos + 1
  }

  /** The tokens of text[i..], the next word getting position `pos`. */
  function TokensFrom(p: Pipeline, text: string, i: nat, pos: nat): (r: seq<Token>)
    requires i <= |text|
    decreases |text| - i
  {
    if i == |text| then []
    else if IsBoundary(p.unicode, text[i]) then
      var here := RuneTokens(p, text, i, pos);
      here + TokensFrom(p, text, i + 1, Advance(pos, here))
    else
      var e := RunEnd(p.unicode, text, i);
      var here := RunTokens(p, text, i, e, pos);
      here + TokensFrom(p, text, e, Advance(pos, here))
  }

  /** The token stream of a text. */
  function Tokens(p: Pipeline, text: string): (r: seq<Token>)
  {
    TokensFrom(p, text, 0, 0)
  }

  // ----- the one-pass loop

  /** Closes the run that began at `start`, if one did; the `flush` closure of `Analyze`. */
  method FlushRun(p: Pipeline, stops: set<string>, text: string, tokens: seq<Token>, start: int, pos: nat, end: nat)
    returns (tokens': seq<Token>, start': int, pos': nat)
    requires stops == StopTerms(p)
    requires start < end <= |text|
    ensures start' == -1
    ensures start < 0 ==> tokens' == tokens && pos' == pos
    ensures start >= 0 ==>
      var here := RunTokens(p, text, start, end, pos);
      tokens' == tokens + here && pos' == Advance(pos, here)
  {
    hide Normalize, StopTerms;
    tokens', start', pos' := tokens, -1, pos;
    if start < 0 {
      return;
    }
    var term := Normalize(p, text[start..end]);
    if term !in stops && term != "" {
      var word := Token(term, pos, start, end, Word);
      tokens' := tokens' + [word];
      pos' := pos' + 1;
      if term in p.synonyms {
        var targets := p.synonyms[term];
        for i := 0 to |targets|
          invariant tokens' == tokens + [word] + SynonymTokens(p, word)[..i]
        {
          tokens' := tokens' + [Token(Normalize(p, targets[i]), pos' - 1, start, end, Synonym)];
        }
        assert SynonymTokens(p, word)[..|targets|] == SynonymTokens(p, word);
      }
      assert tokens' == tokens + ([word] + SynonymTokens(p, word));
    }
  }

  method StopSet(p: Pipeline) returns (stops: set<string>)
    ensures stops == StopTerms(p)
  {
    stops := {};
    for i := 0 to |p.stopwords|
      invariant stops == set s | s in p.stopwords[..i] :: Normalize(p, s)
    {
      stops := stops + {Normalize(p, p.stopwords[i])};
      assert p.stopwords[..i + 1] == p.stopwords[..i] + [p.stopwords[i]];
    }
    assert p.stopwords[..|p.stopwords|] == p.stopwords;
  }

  /** The tokens found so far, and those still owed at rune i given the run the loop may be inside. */
  ghost predicate OnTrack(p: Pipeline, text: string, tokens: seq<Token>, start: int, pos: nat, i: nat)
    requires start < i <= |text|
  {
    if start < 0 then
      Tokens(p, text) == tokens + TokensFrom(p, text, i, pos)
    else
      && !IsBoundary(p.unicode, text[start])
      && RunEnd(p.unicode, text, start) == RunEnd(p.unicode, text, i)
      && Tokens(p, text) == tokens + TokensFrom(p, text, start, pos)
  }

  lemma OnTrackAfterRun(p: Pipeline, text: string, tokens: seq<Token>, start: int, pos: nat, i: nat)
    requires 0 <= start < i <= |text| && OnTrack(p, text, tokens, start, pos, i)
    requires i == |text| || IsBoundary(p.unicode, text[i])
    ensures
      var here := RunTokens(p, text, start, i, pos);
      OnTrack(p, text, tokens + here, -1, Advance(pos, here), i)
  {
    var here := RunTokens(p, text, start, i, pos);
    var rest := TokensFrom(p, text, i, Advance(pos, here));
    assert tokens + (here + rest) == tokens + here + rest;
  }

  lemma OnTrackAfterBoundary(p: Pipeline, text: string, tokens: seq<Token>, pos: nat, i: nat)
    requires i < |text| && OnTrack(p, text, tokens, -1, pos, i) && IsBoundary(p.unicode, text[i])
    ensures
      var here := RuneTokens(p, text, i, pos);
      OnTrack(p, text, tokens + here, -1, Advance(pos, here), i + 1)
  {
    var here := RuneTokens(p, text, i, pos);
    var rest := TokensFrom(p, text, i + 1, Advance(pos, here));
    assert tokens + (here + rest) == tokens + here + rest;
  }

  lemma OnTrackInsideRun(p: Pipeline, text: string, tokens: seq<Token>, start: int, pos: nat, i: nat)
    requires start < i < |text| && OnTrack(p, text, tokens, start, pos, i) && !IsBoundary(p.unicode, text[i])
    ensures OnTrack(p, text, tokens, if start < 0 then i else start, pos, i + 1)
  {
  }

  /** The loop's work at a boundary rune that stands alone. */
  method KeepRune(p: Pipeline, stops: set<string>, text: string, tokens: seq<Token>, pos: nat, i: nat)
    returns (tokens': seq<Token>, pos': nat)
    requires stops == StopTerms(p) && i < |text|
    ensures tokens' == tokens + RuneTokens(p, text, i, pos)
    ensures pos' == Advance(pos, RuneTokens(p, text, i, pos))
  {
    tokens', pos' := tokens, pos;
    var r := text[i];
    if StandsAlone(p.unicode, r) {
      var term := Normalize(p, [r]);
      if term !in stops {
        tokens' := tokens' + [Token(term, pos, i, i + 1, Word)];
        pos' := pos' + 1;
      }
    }
  }

  lemma AtTextEnds(p: Pipeline, text: string)
    ensures OnTrack(p, text, [], -1, 0, 0)
    ensures forall tokens, pos: nat :: OnTrack(p, text, tokens, -1, pos, |text|) ==> tokens == Tokens(p, text)
  {
  }

  method Analyze(p: Pipeline, text: string) returns (tokens: seq<Token>)
    ensures tokens == Tokens(p, text)
  {
    hide RunTokens, RuneTokens, TokensFrom, IsBoundary, StopTerms;
    var stops := StopSet(p);
    AtTextEnds(p, text);
    tokens := [];
    var start: int := -1;
    var pos: nat := 0;
    for i := 0 to |text|
      invariant -1 <= start < i
      invariant OnTrack(p, text, tokens, start, pos, i)
    {
      if IsBoundary(p.unicode, text[i]) {
        if start >= 0 {
          OnTrackAfterRun(p, text, tokens, start, pos, i);
        }
        tokens, start, pos := FlushRun(p, stops, text, tokens, start, pos, i);
        OnTrackAfterBoundary(p, text, tokens, pos, i);
        tokens, pos := KeepRune(p, stops, text, tokens, pos, i);
      } else {
        OnTrackInsideRun(p, text, tokens, start, pos, i);
        if start < 0 {
          start := i;
        }
      }
    }
    if start >= 0 {
      OnTrackAfterRun(p, text, tokens, start, pos, |text|);
    }
    tokens, start, pos := FlushRun(p, stops, text, tokens, start, pos, |text|);
    assert OnTrack(p, text, tokens, -1, pos, |text|);
  }
}
