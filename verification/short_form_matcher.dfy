/**
 * The short-form matcher: for one entity's language-to-short-form entries,
 * a requested set of languages and the user's search strings, finds the
 * languages whose short form matches and the spans to highlight in each.
 */
module ShortFormMatching {
  import opened Wrappers
  import opened OrderedSets
  import opened FieldNames

  /** One token of an analyzer's token stream: its text and its offsets. */
  datatype Token = Token(text: string, startOffset: int, endOffset: int)

  /** A span of a short form to highlight. */
  datatype ShortFormMatchPosition = ShortFormMatchPosition(start: int, end: int)

  /** One raw fragment of the user's query. */
  datatype SearchString = SearchString(text: string)

  /** An entity together with its short forms, one entry per language, in map order. */
  datatype EntityShortForms<E> = EntityShortForms(entity: E, shortForms: seq<(DictionaryLanguage, string)>)

  /** The result record: the spans of `shortForm` that matched the query. */
  datatype ShortFormMatch<E> =
    ShortFormMatch(entity: E, shortForm: string, language: DictionaryLanguage,
                   positions: seq<ShortFormMatchPosition>)

  /**
   * The matcher's three collaborators: the search-string tokenizer, the
   * field-name prefixes used by the field-name translator, and the indexing
   * analyzer, which turns (field name, text) into a token stream or fails.
   */
  datatype Matcher = Matcher(
    tokenizer: seq<SearchString> -> set<string>,
    prefixes: FieldPrefixes,
    analyzer: (string, string) -> Result<seq<Token>>)

  /** No two entries share a language: the entries come from a map. */
  predicate UniqueLanguages(entries: seq<(DictionaryLanguage, string)>)
  {
    forall i, j :: 0 <= i < j < |entries| ==> entries[i].0 != entries[j].0
  }

  /**
   * The span recorded for a matching token. It ends at the start offset plus
   * the token's length; the analyzer's own end offset is not used.
   */
  function PositionOf(token: Token): (p: ShortFormMatchPosition)
    ensures p.start == token.startOffset && p.end - p.start == |token.text|
  {
    ShortFormMatchPosition(token.startOffset, token.startOffset + |token.text|)
  }

  /** The spans of the tokens whose text is a search token, in stream order. */
  function Hits(tokens: seq<Token>, searchTokens: set<string>): (r: seq<ShortFormMatchPosition>)
    ensures |r| <= |tokens|
    ensures forall p :: p in r <==>
      exists t :: t in tokens && t.text in searchTokens && p == PositionOf(t)
    decreases |tokens|
  {
    if tokens == [] then []
    else
      var front, last := tokens[..|tokens| - 1], tokens[|tokens| - 1];
      assert tokens == front + [last];
      Hits(front, searchTokens) + (if last.text in searchTokens then [PositionOf(last)] else [])
  }

  /** `Hits` extends by one token at a time, as the analyzer's stream is read. */
  lemma HitsSnoc(tokens: seq<Token>, token: Token, searchTokens: set<string>)
    ensures Hits(tokens + [token], searchTokens)
         == Hits(tokens, searchTokens) + (if token.text in searchTokens then [PositionOf(token)] else [])
  {
    assert (tokens + [token])[..|tokens|] == tokens;
  }

  /**
   * One analyzer pass over `shortForm` under `fieldName`: the positions
   * collected so far, extended by this pass's hits; or the analyzer's failure.
   */
  function Pass(analyzer: (string, string) -> Result<seq<Token>>, fieldName: string,
                shortForm: string, searchTokens: set<string>,
                positions: seq<ShortFormMatchPosition>): (r: Result<seq<ShortFormMatchPosition>>)
    ensures r.Failure? <==> analyzer(fieldName, shortForm).Failure?
    ensures r.Failure? ==> r.error == analyzer(fieldName, shortForm).error
    ensures r.Success? ==> positions <= r.value
  {
    match analyzer(fieldName, shortForm)
    case Failure(e) => Failure(e)
    case Success(tokens) => Success(InsertAll(positions, Hits(tokens, searchTokens)))
  }

  /**
   * One step of the token loop: reading `tokens[i]` and adding its span when
   * its text is a search token, and the span is not there yet, keeps the
   * collected positions equal to the insertion of the hits read so far.
   */
  lemma AddStep(positions: seq<ShortFormMatchPosition>, tokens: seq<Token>, i: int,
                searchTokens: set<string>, collected: seq<ShortFormMatchPosition>)
    requires 0 <= i < |tokens|
    requires collected == InsertAll(positions, Hits(tokens[..i], searchTokens))
    ensures tokens[i].text in searchTokens ==>
      (if PositionOf(tokens[i]) in collected then collected else collected + [PositionOf(tokens[i])])
      == InsertAll(positions, Hits(tokens[..i + 1], searchTokens))
    ensures tokens[i].text !in searchTokens ==>
      collected == InsertAll(positions, Hits(tokens[..i + 1], searchTokens))
  {
    var token := tokens[i];
    var hits := Hits(tokens[..i], searchTokens);
    assert tokens[..i + 1] == tokens[..i] + [token];
    HitsSnoc(tokens[..i], token, searchTokens);
    if token.text in searchTokens {
      var position := PositionOf(token);
      assert Hits(tokens[..i + 1], searchTokens) == hits + [position];
      InsertAllSnoc(positions, hits, position);
    } else {
      assert Hits(tokens[..i + 1], searchTokens) == hits;
    }
  }

  /**
   * Runs the analyzer over `shortForm` under `fieldName` and adds the span of
   * every token whose text is a search token to `positions`, unless already there.
   */
  method AddPossibleTokenMatches(analyzer: (string, string) -> Result<seq<Token>>,
                                 shortForm: string, fieldName: string,
                                 searchTokens: set<string>,
                                 positions: seq<ShortFormMatchPosition>)
    returns (r: Result<seq<ShortFormMatchPosition>>)
    ensures r == Pass(analyzer, fieldName, shortForm, searchTokens, positions)
  {
    var tokenStream := analyzer(fieldName, shortForm);
    if tokenStream.Failure? {
      return Failure(tokenStream.error);
    }
    var tokens := tokenStream.value;
    var collected := positions;
    var i := 0;
    while i < |tokens|
      invariant 0 <= i <= |tokens|
      invariant collected == InsertAll(positions, Hits(tokens[..i], searchTokens))
    {
      var token := tokens[i];
      AddStep(positions, tokens, i, searchTokens, collected);
      if token.text in searchTokens {
        var position := PositionOf(token);
        if position !in collected {
          collected := collected + [position];
        }
      }
      i := i + 1;
    }
    assert tokens[..i] == tokens;
    return Success(collected);
  }

  /**
   * The match for one language: the edge n-gram pass, then the word pass into
   * the same positions; a match only when some position was found.
   */
  function ShortFormMatchOf<E>(m: Matcher, entity: E, language: DictionaryLanguage,
                               shortForm: string, searchTokens: set<string>)
    : (r: Result<Option<ShortFormMatch<E>>>)
    ensures r.Failure? <==>
      m.analyzer(EdgeNGramFieldName(m.prefixes, language), shortForm).Failure? ||
      m.analyzer(WordFieldName(m.prefixes, language), shortForm).Failure?
    ensures r.Success? && r.value.Some? ==>
      && r.value.value.entity == entity
      && r.value.value.shortForm == shortForm
      && r.value.value.language == language
      && |r.value.value.positions| > 0
  {
    var ngrams := Pass(m.analyzer, EdgeNGramFieldName(m.prefixes, language), shortForm, searchTokens, []);
    if ngrams.Failure? then Failure(ngrams.error)
    else
      var both := Pass(m.analyzer, WordFieldName(m.prefixes, language), shortForm, searchTokens, ngrams.value);
      if both.Failure? then Failure(both.error)
      else if both.value == [] then Success(None)
      else Success(Some(ShortFormMatch(entity, shortForm, language, both.value)))
  }

  /** `ShortFormMatchOf`, threading one position builder through the two passes. */
  method GetShortFormMatch<E>(m: Matcher, entity: E, language: DictionaryLanguage,
                              shortForm: string, searchTokens: set<string>)
    returns (r: Result<Option<ShortFormMatch<E>>>)
    ensures r == ShortFormMatchOf(m, entity, language, shortForm, searchTokens)
  {
    var ngramFieldName := EdgeNGramFieldName(m.prefixes, language);
    var positions := AddPossibleTokenMatches(m.analyzer, shortForm, ngramFieldName, searchTokens, []);
    if positions.Failure? {
      return Failure(positions.error);
    }
    var wordFieldName := WordFieldName(m.prefixes, language);
    positions := AddPossibleTokenMatches(m.analyzer, shortForm, wordFieldName, searchTokens, positions.value);
    if positions.Failure? {
      return Failure(positions.error);
    }
    if positions.value == [] {
      return Success(None);
    }
    return Success(Some(ShortFormMatch(entity, shortForm, language, positions.value)));
  }

  /**
   * One entry of the stream: nothing when its language is not requested,
   * otherwise its match if it has one (the filter and the flat-map step).
   */
  function EntryMatches<E>(m: Matcher, entity: E, entry: (DictionaryLanguage, string),
                           languages: set<DictionaryLanguage>, searchTokens: set<string>)
    : (r: Result<seq<ShortFormMatch<E>>>)
    ensures entry.0 !in languages ==> r == Success([])
    ensures r.Failure? <==> entry.0 in languages && ShortFormMatchOf(m, entity, entry.0, entry.1, searchTokens).Failure?
    ensures r.Success? ==> |r.value| <= 1 && forall sm :: sm in r.value ==>
      entry.0 in languages && ShortFormMatchOf(m, entity, entry.0, entry.1, searchTokens) == Success(Some(sm))
  {
    if entry.0 !in languages then Success([])
    else
      match ShortFormMatchOf(m, entity, entry.0, entry.1, searchTokens)
      case Failure(e) => Failure(e)
      case Success(None) => Success([])
      case Success(Some(sm)) => Success([sm])
  }

  /**
   * The requested entries, in order, each replaced by its match if it has one;
   * the first analyzer failure fails the whole sequence.
   */
  function MatchEntries<E>(m: Matcher, entity: E, entries: seq<(DictionaryLanguage, string)>,
                           languages: set<DictionaryLanguage>, searchTokens: set<string>)
    : (r: Result<seq<ShortFormMatch<E>>>)
    ensures r.Success? ==> forall sm :: sm in r.value ==>
      exists e :: e in entries && e.0 in languages &&
        ShortFormMatchOf(m, entity, e.0, e.1, searchTokens) == Success(Some(sm))
    decreases |entries|
  {
    if entries == [] then Success([])
    else
      match EntryMatches(m, entity, entries[0], languages, searchTokens)
      case Failure(e) => Failure(e)
      case Success(here) =>
        match MatchEntries(m, entity, entries[1..], languages, searchTokens)
        case Failure(e) => Failure(e)
        case Success(rest) =>
          assert forall e :: e in entries[1..] ==> e in entries;
          Success(here + rest)
  }

  /**
   * Tokenizes the search strings once, keeps the requested languages and
   * yields the match of each kept entry that has one.
   */
  function ShortFormMatches<E>(m: Matcher, entityShortForms: EntityShortForms<E>,
                               languages: set<DictionaryLanguage>,
                               searchStrings: seq<SearchString>)
    : (r: Result<seq<ShortFormMatch<E>>>)
    ensures r.Success? ==> forall sm :: sm in r.value ==>
      && sm.entity == entityShortForms.entity
      && sm.language in languages
      && (sm.language, sm.shortForm) in entityShortForms.shortForms
      && |sm.positions| > 0
  {
    var searchTokens := m.tokenizer(searchStrings);
    MatchEntries(m, entityShortForms.entity, entityShortForms.shortForms, languages, searchTokens)
  }

  // Properties of one language's match

  /**
   * The hits of both passes, edge n-gram pass first, repeats kept: the reference
   * the positions of a match are compared with. Defined when neither pass fails.
   */
  function BothPassHits(m: Matcher, language: DictionaryLanguage, shortForm: string,
                        searchTokens: set<string>): (r: seq<ShortFormMatchPosition>)
    requires m.analyzer(EdgeNGramFieldName(m.prefixes, language), shortForm).Success?
    requires m.analyzer(WordFieldName(m.prefixes, language), shortForm).Success?
    ensures Hits(m.analyzer(EdgeNGramFieldName(m.prefixes, language), shortForm).value, searchTokens) <= r
    ensures forall p :: p in r <==>
      exists t :: (t in m.analyzer(EdgeNGramFieldName(m.prefixes, language), shortForm).value ||
                   t in m.analyzer(WordFieldName(m.prefixes, language), shortForm).value) &&
                  t.text in searchTokens && p == PositionOf(t)
  {
    Hits(m.analyzer(EdgeNGramFieldName(m.prefixes, language), shortForm).value, searchTokens)
      + Hits(m.analyzer(WordFieldName(m.prefixes, language), shortForm).value, searchTokens)
  }

  /**
   * A language has a match exactly when some token of either pass is a search
   * token; its positions are then the distinct hits, each once, in the order
   * of first occurrence (edge n-gram pass first), not sorted by start.
   */
  lemma MatchPositionsAreDistinctHits<E>(m: Matcher, entity: E, language: DictionaryLanguage,
                                         shortForm: string, searchTokens: set<string>)
    requires ShortFormMatchOf(m, entity, language, shortForm, searchTokens).Success?
    ensures var r := ShortFormMatchOf(m, entity, language, shortForm, searchTokens).value;
      var hits := BothPassHits(m, language, shortForm, searchTokens);
      && (r.None? <==> hits == [])
      && (r.Some? ==> r.value.positions == InsertAll([], hits))
      && (r.Some? ==> Distinct(r.value.positions))
      && (r.Some? ==> InFirstOccurrenceOrder(r.value.positions, hits))
  {
    var ngramTokens := m.analyzer(EdgeNGramFieldName(m.prefixes, language), shortForm).value;
    var wordTokens := m.analyzer(WordFieldName(m.prefixes, language), shortForm).value;
    InsertAllConcat([], Hits(ngramTokens, searchTokens), Hits(wordTokens, searchTokens));
    InsertAllFirstOccurrenceOrder(BothPassHits(m, language, shortForm, searchTokens));
  }

  /**
   * A position is in a match exactly when it is the span of a token of one of
   * the two passes whose text is a search token; other tokens add nothing.
   */
  lemma MatchPositionsComeFromSearchTokens<E>(m: Matcher, entity: E, language: DictionaryLanguage,
                                              shortForm: string, searchTokens: set<string>)
    requires ShortFormMatchOf(m, entity, language, shortForm, searchTokens).Success?
    requires ShortFormMatchOf(m, entity, language, shortForm, searchTokens).value.Some?
    ensures var ngramTokens := m.analyzer(EdgeNGramFieldName(m.prefixes, language), shortForm).value;
      var wordTokens := m.analyzer(WordFieldName(m.prefixes, language), shortForm).value;
      forall p :: p in ShortFormMatchOf(m, entity, language, shortForm, searchTokens).value.value.positions <==>
        exists t :: (t in ngramTokens || t in wordTokens) && t.text in searchTokens && p == PositionOf(t)
  {
    var ngramTokens := m.analyzer(EdgeNGramFieldName(m.prefixes, language), shortForm).value;
    var wordTokens := m.analyzer(WordFieldName(m.prefixes, language), shortForm).value;
    var positions := ShortFormMatchOf(m, entity, language, shortForm, searchTokens).value.value.positions;
    MatchPositionsAreDistinctHits(m, entity, language, shortForm, searchTokens);
    forall p
      ensures p in positions <==>
        exists t :: (t in ngramTokens || t in wordTokens) && t.text in searchTokens && p == PositionOf(t)
    {
      assert p in positions <==> p in Hits(ngramTokens, searchTokens) || p in Hits(wordTokens, searchTokens);
    }
  }

  /**
   * The positions found by the edge n-gram pass come first, in their own
   * order; every later position was found only by the word pass.
   */
  lemma EdgeNGramPositionsComeFirst<E>(m: Matcher, entity: E, language: DictionaryLanguage,
                                       shortForm: string, searchTokens: set<string>)
    requires ShortFormMatchOf(m, entity, language, shortForm, searchTokens).Success?
    requires ShortFormMatchOf(m, entity, language, shortForm, searchTokens).value.Some?
    ensures var ngramHits := Hits(m.analyzer(EdgeNGramFieldName(m.prefixes, language), shortForm).value, searchTokens);
      var wordHits := Hits(m.analyzer(WordFieldName(m.prefixes, language), shortForm).value, searchTokens);
      var positions := ShortFormMatchOf(m, entity, language, shortForm, searchTokens).value.value.positions;
      && InsertAll([], ngramHits) <= positions
      && forall k :: |InsertAll([], ngramHits)| <= k < |positions| ==>
           positions[k] !in ngramHits && positions[k] in wordHits
  {
    var ngramHits := Hits(m.analyzer(EdgeNGramFieldName(m.prefixes, language), shortForm).value, searchTokens);
    var wordHits := Hits(m.analyzer(WordFieldName(m.prefixes, language), shortForm).value, searchTokens);
    var first := InsertAll([], ngramHits);
    var positions := ShortFormMatchOf(m, entity, language, shortForm, searchTokens).value.value.positions;
    assert positions == InsertAll(first, wordHits);
  }

  // Properties of the whole call

  /** Entry `a` has language `language`. */
  ghost predicate LanguageAt(entries: seq<(DictionaryLanguage, string)>, a: int, language: DictionaryLanguage)
  {
    0 <= a < |entries| && entries[a].0 == language
  }

  /** The languages of a sequence of matches, in order. */
  function MatchLanguages<E>(ms: seq<ShortFormMatch<E>>): (r: seq<DictionaryLanguage>)
    ensures |r| == |ms| && forall k :: 0 <= k < |ms| ==> r[k] == ms[k].language
  {
    seq(|ms|, k requires 0 <= k < |ms| => ms[k].language)
  }

  /** Some entry has language `x`. */
  ghost predicate HasLanguage(entries: seq<(DictionaryLanguage, string)>, x: DictionaryLanguage)
  {
    exists c :: LanguageAt(entries, c, x)
  }

  /** Some entry with language `x` comes before some entry with language `y`. */
  ghost predicate Before(entries: seq<(DictionaryLanguage, string)>, x: DictionaryLanguage, y: DictionaryLanguage)
  {
    exists a, b :: a < b && LanguageAt(entries, a, x) && LanguageAt(entries, b, y)
  }

  /** Every two of `langs` are languages of entries, in the same order. */
  ghost predicate FollowsEntryOrder(langs: seq<DictionaryLanguage>, entries: seq<(DictionaryLanguage, string)>)
  {
    forall i, j :: 0 <= i < j < |langs| ==> Before(entries, langs[i], langs[j])
  }

  /** The language of every match is the language of some entry. */
  lemma MatchLanguagesAreEntryLanguages<E>(m: Matcher, entity: E,
                                           entries: seq<(DictionaryLanguage, string)>,
                                           languages: set<DictionaryLanguage>,
                                           searchTokens: set<string>, sm: ShortFormMatch<E>)
    requires MatchEntries(m, entity, entries, languages, searchTokens).Success?
    requires sm in MatchEntries(m, entity, entries, languages, searchTokens).value
    ensures HasLanguage(entries, sm.language)
  {
    var e :| e in entries && e.0 in languages && ShortFormMatchOf(m, entity, e.0, e.1, searchTokens) == Success(Some(sm));
    var c :| 0 <= c < |entries| && entries[c] == e;
    assert LanguageAt(entries, c, sm.language);
  }

  /** Putting the language of the first entry (if any) before the others keeps entry order. */
  lemma ConsFollowsEntryOrder(here: seq<DictionaryLanguage>, rest: seq<DictionaryLanguage>,
                              entries: seq<(DictionaryLanguage, string)>,
                              tail: seq<(DictionaryLanguage, string)>)
    requires entries != [] && tail == entries[1..] && |here| <= 1
    requires here != [] ==> here[0] == entries[0].0
    requires FollowsEntryOrder(rest, tail)
    requires forall k :: 0 <= k < |rest| ==> HasLanguage(tail, rest[k])
    ensures FollowsEntryOrder(here + rest, entries)
  {
    var ls := here + rest;
    forall i, j | 0 <= i < j < |ls|
      ensures Before(entries, ls[i], ls[j])
    {
      if i < |here| {
        assert HasLanguage(tail, rest[j - |here|]);
        var c :| LanguageAt(tail, c, rest[j - |here|]);
        assert LanguageAt(entries, 0, ls[i]) && LanguageAt(entries, c + 1, ls[j]);
        assert Before(entries, ls[i], ls[j]);
      } else {
        var i', j' := i - |here|, j - |here|;
        assert Before(tail, rest[i'], rest[j']);
        var a, b :| a < b && LanguageAt(tail, a, rest[i']) && LanguageAt(tail, b, rest[j']);
        assert LanguageAt(entries, a + 1, ls[i]) && LanguageAt(entries, b + 1, ls[j]);
        assert Before(entries, ls[i], ls[j]);
      }
    }
  }

  lemma MatchLanguagesConcat<E>(xs: seq<ShortFormMatch<E>>, ys: seq<ShortFormMatch<E>>)
    ensures MatchLanguages(xs + ys) == MatchLanguages(xs) + MatchLanguages(ys)
  {
  }

  /** One step of `MatchEntries`: the first entry's matches, then the rest's. */
  lemma MatchEntriesStep<E>(m: Matcher, entity: E, entries: seq<(DictionaryLanguage, string)>,
                            languages: set<DictionaryLanguage>, searchTokens: set<string>)
    requires entries != []
    requires MatchEntries(m, entity, entries, languages, searchTokens).Success?
    ensures EntryMatches(m, entity, entries[0], languages, searchTokens).Success?
    ensures MatchEntries(m, entity, entries[1..], languages, searchTokens).Success?
    ensures MatchEntries(m, entity, entries, languages, searchTokens).value
      == EntryMatches(m, entity, entries[0], languages, searchTokens).value
         + MatchEntries(m, entity, entries[1..], languages, searchTokens).value
  {
  }

  /** `MatchEntries` of an entry followed by more entries, when both parts succeed. */
  lemma MatchEntriesCons<E>(m: Matcher, entity: E, entry: (DictionaryLanguage, string),
                            entries: seq<(DictionaryLanguage, string)>,
                            languages: set<DictionaryLanguage>, searchTokens: set<string>,
                            here: seq<ShortFormMatch<E>>, rest: seq<ShortFormMatch<E>>)
    requires EntryMatches(m, entity, entry, languages, searchTokens) == Success(here)
    requires MatchEntries(m, entity, entries, languages, searchTokens) == Success(rest)
    ensures MatchEntries(m, entity, [entry] + entries, languages, searchTokens) == Success(here + rest)
  {
    assert ([entry] + entries)[1..] == entries;
  }

  /** `MatchEntries` of two entries, when both succeed. */
  lemma MatchEntriesOfTwo<E>(m: Matcher, entity: E, e1: (DictionaryLanguage, string), e2: (DictionaryLanguage, string),
                             languages: set<DictionaryLanguage>, searchTokens: set<string>,
                             here1: seq<ShortFormMatch<E>>, here2: seq<ShortFormMatch<E>>)
    requires EntryMatches(m, entity, e1, languages, searchTokens) == Success(here1)
    requires EntryMatches(m, entity, e2, languages, searchTokens) == Success(here2)
    ensures MatchEntries(m, entity, [e1, e2], languages, searchTokens) == Success(here1 + here2)
    ensures here1 == [] ==> MatchEntries(m, entity, [e1, e2], languages, searchTokens) == Success(here2)
  {
    assert MatchEntries(m, entity, [], languages, searchTokens) == Success([]);
    MatchEntriesCons(m, entity, e2, [], languages, searchTokens, here2, []);
    assert [e2] + [] == [e2] && here2 + [] == here2;
    MatchEntriesCons(m, entity, e1, [e2], languages, searchTokens, here1, here2);
    assert [e1] + [e2] == [e1, e2];
    assert here1 == [] ==> here1 + here2 == here2;
  }

  /**
   * The matches' languages come in the order of the entity's short-form entries.
   * The order is over languages, so it fixes the order of the matches themselves
   * when each language has one entry, as the entries of a map do.
   */
  lemma {:induction false} MatchesFollowEntryOrder<E>(m: Matcher, entity: E,
                                                      entries: seq<(DictionaryLanguage, string)>,
                                                      languages: set<DictionaryLanguage>,
                                                      searchTokens: set<string>,
                                                      ms: seq<ShortFormMatch<E>>)
    requires MatchEntries(m, entity, entries, languages, searchTokens) == Success(ms)
    ensures FollowsEntryOrder(MatchLanguages(ms), entries)
    decreases |entries|
  {
    if entries != [] {
      var tail := entries[1..];
      MatchEntriesStep(m, entity, entries, languages, searchTokens);
      var rest := MatchEntries(m, entity, tail, languages, searchTokens).value;
      var here := EntryMatches(m, entity, entries[0], languages, searchTokens).value;
      MatchesFollowEntryOrder(m, entity, tail, languages, searchTokens, rest);
      RestLanguagesInTail(m, entity, tail, languages, searchTokens, rest);
      if here != [] {
        assert here[0] in here;
      }
      ConsFollowsEntryOrder(MatchLanguages(here), MatchLanguages(rest), entries, tail);
      MatchLanguagesConcat(here, rest);
    }
  }

  lemma RestLanguagesInTail<E>(m: Matcher, entity: E, tail: seq<(DictionaryLanguage, string)>,
                               languages: set<DictionaryLanguage>, searchTokens: set<string>,
                               rest: seq<ShortFormMatch<E>>)
    requires MatchEntries(m, entity, tail, languages, searchTokens) == Success(rest)
    ensures forall k :: 0 <= k < |MatchLanguages(rest)| ==> HasLanguage(tail, MatchLanguages(rest)[k])
  {
    forall k | 0 <= k < |rest|
      ensures HasLanguage(tail, rest[k].language)
    {
      assert rest[k] in rest;
      MatchLanguagesAreEntryLanguages(m, entity, tail, languages, searchTokens, rest[k]);
    }
  }

  /** A requested entry whose language has a match contributes that match. */
  lemma {:induction false} MatchEntriesComplete<E>(m: Matcher, entity: E,
                                                   entries: seq<(DictionaryLanguage, string)>,
                                                   languages: set<DictionaryLanguage>,
                                                   searchTokens: set<string>,
                                                   e: (DictionaryLanguage, string), sm: ShortFormMatch<E>)
    requires MatchEntries(m, entity, entries, languages, searchTokens).Success?
    requires e in entries && e.0 in languages
    requires ShortFormMatchOf(m, entity, e.0, e.1, searchTokens) == Success(Some(sm))
    ensures sm in MatchEntries(m, entity, entries, languages, searchTokens).value
    decreases |entries|
  {
    MatchEntriesStep(m, entity, entries, languages, searchTokens);
    if e == entries[0] {
      assert EntryMatches(m, entity, entries[0], languages, searchTokens).value == [sm];
    } else {
      assert e in entries[1..];
      MatchEntriesComplete(m, entity, entries[1..], languages, searchTokens, e, sm);
    }
  }

  /** The entries fail exactly when the match of some requested entry fails. */
  lemma {:induction false} MatchEntriesFailure<E>(m: Matcher, entity: E,
                                                  entries: seq<(DictionaryLanguage, string)>,
                                                  languages: set<DictionaryLanguage>,
                                                  searchTokens: set<string>)
    ensures MatchEntries(m, entity, entries, languages, searchTokens).Failure? <==>
      exists e :: e in entries && e.0 in languages &&
        ShortFormMatchOf(m, entity, e.0, e.1, searchTokens).Failure?
    decreases |entries|
  {
    if entries != [] {
      MatchEntriesFailure(m, entity, entries[1..], languages, searchTokens);
      assert forall e :: e in entries <==> e == entries[0] || e in entries[1..];
    }
  }

  /**
   * The matches of the call are exactly the matches of the requested entries,
   * each computed with the one token set the search strings give.
   */
  lemma MatchesAreThoseOfRequestedEntries<E>(m: Matcher, entityShortForms: EntityShortForms<E>,
                                             languages: set<DictionaryLanguage>,
                                             searchStrings: seq<SearchString>, sm: ShortFormMatch<E>)
    requires ShortFormMatches(m, entityShortForms, languages, searchStrings).Success?
    ensures sm in ShortFormMatches(m, entityShortForms, languages, searchStrings).value <==>
      exists e :: e in entityShortForms.shortForms && e.0 in languages &&
        ShortFormMatchOf(m, entityShortForms.entity, e.0, e.1, m.tokenizer(searchStrings)) == Success(Some(sm))
  {
    var searchTokens := m.tokenizer(searchStrings);
    var entity, entries := entityShortForms.entity, entityShortForms.shortForms;
    if e :| e in entries && e.0 in languages && ShortFormMatchOf(m, entity, e.0, e.1, searchTokens) == Success(Some(sm)) {
      MatchEntriesComplete(m, entity, entries, languages, searchTokens, e, sm);
    }
  }

  /**
   * The call fails, with no matches at all, exactly when an analyzer pass of
   * some requested entry fails.
   */
  lemma FailsIffSomePassFails<E>(m: Matcher, entityShortForms: EntityShortForms<E>,
                                 languages: set<DictionaryLanguage>, searchStrings: seq<SearchString>)
    ensures ShortFormMatches(m, entityShortForms, languages, searchStrings).Failure? <==>
      exists e :: e in entityShortForms.shortForms && e.0 in languages &&
        (m.analyzer(EdgeNGramFieldName(m.prefixes, e.0), e.1).Failure? ||
         m.analyzer(WordFieldName(m.prefixes, e.0), e.1).Failure?)
  {
    MatchEntriesFailure(m, entityShortForms.entity, entityShortForms.shortForms, languages,
                        m.tokenizer(searchStrings));
  }

  /**
   * The matches follow the order of the entity's entries and, the entries
   * coming from a map, no language has two matches.
   */
  lemma AtMostOneMatchPerLanguage<E>(m: Matcher, entityShortForms: EntityShortForms<E>,
                                     languages: set<DictionaryLanguage>,
                                     searchStrings: seq<SearchString>)
    requires UniqueLanguages(entityShortForms.shortForms)
    requires ShortFormMatches(m, entityShortForms, languages, searchStrings).Success?
    ensures var ms := ShortFormMatches(m, entityShortForms, languages, searchStrings).value;
      && FollowsEntryOrder(MatchLanguages(ms), entityShortForms.shortForms)
      && forall i, j :: 0 <= i < j < |ms| ==> ms[i].language != ms[j].language
  {
    var entries := entityShortForms.shortForms;
    var ms := ShortFormMatches(m, entityShortForms, languages, searchStrings).value;
    MatchesFollowEntryOrder(m, entityShortForms.entity, entries, languages, m.tokenizer(searchStrings), ms);
    var langs := MatchLanguages(ms);
    forall i, j | 0 <= i < j < |ms|
      ensures ms[i].language != ms[j].language
    {
      assert Before(entries, langs[i], langs[j]);
      var a, b :| a < b && LanguageAt(entries, a, langs[i]) && LanguageAt(entries, b, langs[j]);
      assert entries[a].0 != entries[b].0;
    }
  }

  /** The search strings matter only through the token set they give. */
  lemma OnlySearchTokensMatter<E>(m: Matcher, entityShortForms: EntityShortForms<E>,
                                  languages: set<DictionaryLanguage>,
                                  searchStrings1: seq<SearchString>, searchStrings2: seq<SearchString>)
    requires m.tokenizer(searchStrings1) == m.tokenizer(searchStrings2)
    ensures ShortFormMatches(m, entityShortForms, languages, searchStrings1)
         == ShortFormMatches(m, entityShortForms, languages, searchStrings2)
  {
  }
}
