/** Worked examples of the matcher on concrete short forms and analyzers. */
module ShortFormScenarios {
  import opened Wrappers
  import opened OrderedSets
  import opened FieldNames
  import opened ShortFormMatching

  const Prefixes := FieldPrefixes("value.", "word.", "ngram.")

  const RdfsLabelEn := AnnotationBased("rdfs:label", "en")

  /** A search-string tokenizer that takes each search string as one token. */
  function WholeStringTokenizer(searchStrings: seq<SearchString>): (r: set<string>)
  {
    set s | s in searchStrings :: s.text
  }

  /**
   * An analyzer for "hasPart": the word field splits the camel case and
   * lower-cases, the edge n-gram field emits word prefixes of three or more characters.
   */
  function HasPartAnalyzer(field: string, text: string): (r: Result<seq<Token>>)
  {
    if field == EdgeNGramFieldName(Prefixes, LocalName) then
      Success([Token("has", 0, 3), Token("par", 3, 6), Token("part", 3, 7)])
    else
      Success([Token("has", 0, 3), Token("part", 3, 7)])
  }

  /** An analyzer for "Heart Disease" whose edge n-grams stop at three characters. */
  function HeartDiseaseAnalyzer(field: string, text: string): (r: Result<seq<Token>>)
  {
    if field == EdgeNGramFieldName(Prefixes, RdfsLabelEn) then
      Success([Token("hea", 0, 3), Token("dis", 6, 9)])
    else
      Success([Token("heart", 0, 5), Token("disease", 6, 13)])
  }

  const HasPartMatcher := Matcher(WholeStringTokenizer, Prefixes, HasPartAnalyzer)

  const HeartDiseaseMatcher := Matcher(WholeStringTokenizer, Prefixes, HeartDiseaseAnalyzer)

  /** The edge n-gram and word fields of a language are different fields. */
  lemma NGramAndWordFieldsDiffer(language: DictionaryLanguage)
    ensures EdgeNGramFieldName(Prefixes, language) != WordFieldName(Prefixes, language)
  {
    assert Prefixes.edgeNGram[0] != Prefixes.word[0];
    UnrelatedPrefixesSeparateFields(Prefixes.edgeNGram, Prefixes.word, language, language);
  }

  /** Both passes over "hasPart" hit only "part", at the same span 3..7. */
  lemma HasPartPasses()
    ensures var m := HasPartMatcher;
      && Pass(m.analyzer, EdgeNGramFieldName(Prefixes, LocalName), "hasPart", {"part"}, [])
         == Success([ShortFormMatchPosition(3, 7)])
      && Pass(m.analyzer, WordFieldName(Prefixes, LocalName), "hasPart", {"part"}, [ShortFormMatchPosition(3, 7)])
         == Success([ShortFormMatchPosition(3, 7)])
  {
    var searchTokens: set<string> := {"part"};
    var has, par, part := Token("has", 0, 3), Token("par", 3, 6), Token("part", 3, 7);
    var p := PositionOf(part);
    NGramAndWordFieldsDiffer(LocalName);
    HitsSnoc([], has, searchTokens);
    HitsSnoc([has], par, searchTokens);
    HitsSnoc([has, par], part, searchTokens);
    HitsSnoc([has], part, searchTokens);
    assert [has] == [] + [has] && [has, par] == [has] + [par] && [has, par, part] == [has, par] + [part];
    assert [has, part] == [has] + [part];
    assert Hits([has, par, part], searchTokens) == [p];
    assert Hits([has, part], searchTokens) == [p];
    assert InsertAll([], [p]) == [p];
    assert InsertAll([p], [p]) == [p];
  }

  /** So the local name has one match, with that span once. */
  lemma HasPartLocalNameMatch<E>(entity: E)
    ensures ShortFormMatchOf(HasPartMatcher,
                             entity, LocalName, "hasPart", {"part"})
         == Success(Some(ShortFormMatch(entity, "hasPart", LocalName, [ShortFormMatchPosition(3, 7)])))
  {
    HasPartPasses();
  }

  /** The search strings give the token set {"part"}. */
  lemma WholeStringTokenizerPart()
    ensures WholeStringTokenizer([SearchString("part")]) == {"part"}
  {
    assert SearchString("part") in [SearchString("part")];
  }

  /** The requested local-name entry contributes its match. */
  lemma HasPartLocalNameEntry<E>(entity: E)
    ensures EntryMatches(HasPartMatcher, entity, (LocalName, "hasPart"), {LocalName}, {"part"})
         == Success([ShortFormMatch(entity, "hasPart", LocalName, [ShortFormMatchPosition(3, 7)])])
  {
    HasPartLocalNameMatch(entity);
  }

  /** The label's language is not requested, so its entry contributes nothing. */
  lemma HasPartLabelEntryFiltered<E>(entity: E)
    ensures EntryMatches(HasPartMatcher, entity, (RdfsLabelEn, "has part"), {LocalName}, {"part"}) == Success([])
  {
  }

  /**
   * "hasPart" with the local name requested and an unrequested English label:
   * the search token "part" is hit by both passes at the same span, which is
   * recorded once; the label gives nothing.
   */
  lemma HasPartEntriesMatchOnce<E>(entity: E)
    ensures MatchEntries(HasPartMatcher, entity, [(RdfsLabelEn, "has part"), (LocalName, "hasPart")],
                        {LocalName}, {"part"})
         == Success([ShortFormMatch(entity, "hasPart", LocalName, [ShortFormMatchPosition(3, 7)])])
  {
    HasPartLocalNameEntry(entity);
    HasPartLabelEntryFiltered(entity);
    MatchEntriesOfTwo(HasPartMatcher, entity, (RdfsLabelEn, "has part"), (LocalName, "hasPart"),
                      {LocalName}, {"part"}, [], [ShortFormMatch(entity, "hasPart", LocalName, [ShortFormMatchPosition(3, 7)])]);
  }

  lemma HasPartMatchesOnce<E>(entity: E)
    ensures ShortFormMatches(HasPartMatcher,
                             EntityShortForms(entity, [(RdfsLabelEn, "has part"), (LocalName, "hasPart")]),
                             {LocalName}, [SearchString("part")])
         == Success([ShortFormMatch(entity, "hasPart", LocalName, [ShortFormMatchPosition(3, 7)])])
  {
    HasPartEntriesMatchOnce(entity);
    WholeStringTokenizerPart();
    assert HasPartMatcher.tokenizer([SearchString("part")]) == {"part"};
  }

  /** The hits of a two-token stream. */
  lemma HitsOfPair(a: Token, b: Token, searchTokens: set<string>)
    ensures Hits([a, b], searchTokens)
         == (if a.text in searchTokens then [PositionOf(a)] else [])
            + (if b.text in searchTokens then [PositionOf(b)] else [])
  {
    HitsSnoc([], a, searchTokens);
    HitsSnoc([a], b, searchTokens);
    assert [a] == [] + [a] && [a, b] == [a] + [b];
  }

  /** A pass whose stream has exactly one hit, not yet recorded, appends that position. */
  lemma PassWithOneHit(analyzer: (string, string) -> Result<seq<Token>>, fieldName: string, shortForm: string,
                       searchTokens: set<string>, positions: seq<ShortFormMatchPosition>,
                       tokens: seq<Token>, p: ShortFormMatchPosition)
    requires analyzer(fieldName, shortForm) == Success(tokens)
    requires Hits(tokens, searchTokens) == [p]
    requires p !in positions
    ensures Pass(analyzer, fieldName, shortForm, searchTokens, positions) == Success(positions + [p])
  {
    InsertAllSingleton(positions, p);
  }

  /** The match of a language whose two passes give the positions `positions`. */
  lemma ShortFormMatchOfPasses<E>(m: Matcher, entity: E, language: DictionaryLanguage, shortForm: string,
                                  searchTokens: set<string>, ngramPositions: seq<ShortFormMatchPosition>,
                                  positions: seq<ShortFormMatchPosition>)
    requires Pass(m.analyzer, EdgeNGramFieldName(m.prefixes, language), shortForm, searchTokens, [])
          == Success(ngramPositions)
    requires Pass(m.analyzer, WordFieldName(m.prefixes, language), shortForm, searchTokens, ngramPositions)
          == Success(positions)
    requires positions != []
    ensures ShortFormMatchOf(m, entity, language, shortForm, searchTokens)
         == Success(Some(ShortFormMatch(entity, shortForm, language, positions)))
  {
  }

  /** The analyzer's two token streams for "Heart Disease". */
  lemma HeartDiseaseStreams()
    ensures HeartDiseaseMatcher.analyzer(EdgeNGramFieldName(Prefixes, RdfsLabelEn), "Heart Disease")
         == Success([Token("hea", 0, 3), Token("dis", 6, 9)])
    ensures HeartDiseaseMatcher.analyzer(WordFieldName(Prefixes, RdfsLabelEn), "Heart Disease")
         == Success([Token("heart", 0, 5), Token("disease", 6, 13)])
  {
    NGramAndWordFieldsDiffer(RdfsLabelEn);
  }

  /** The edge n-gram pass over "Heart Disease" hits only "dis". */
  lemma HeartDiseaseNGramHits()
    ensures Hits([Token("hea", 0, 3), Token("dis", 6, 9)], {"dis", "heart"}) == [ShortFormMatchPosition(6, 9)]
  {
    HitsOfPair(Token("hea", 0, 3), Token("dis", 6, 9), {"dis", "heart"});
    assert "hea"[0] != "dis"[0] && |"hea"| != |"heart"|;
  }

  /** The word pass over "Heart Disease" hits only "heart". */
  lemma HeartDiseaseWordHits()
    ensures Hits([Token("heart", 0, 5), Token("disease", 6, 13)], {"dis", "heart"}) == [ShortFormMatchPosition(0, 5)]
  {
    HitsOfPair(Token("heart", 0, 5), Token("disease", 6, 13), {"dis", "heart"});
    assert |"disease"| != |"dis"| && |"disease"| != |"heart"|;
  }

  /**
   * "Heart Disease": "dis" is hit by the n-gram pass, "heart" only by the word
   * pass, so the later span comes first. Positions are not sorted by start.
   */
  lemma PositionsAreNotSortedByStart<E>(entity: E)
    ensures ShortFormMatchOf(HeartDiseaseMatcher,
                             entity, RdfsLabelEn, "Heart Disease", {"dis", "heart"})
         == Success(Some(ShortFormMatch(entity, "Heart Disease", RdfsLabelEn,
                                        [ShortFormMatchPosition(6, 9), ShortFormMatchPosition(0, 5)])))
  {
    var m, shortForm, searchTokens := HeartDiseaseMatcher, "Heart Disease", {"dis", "heart"};
    var p, q := ShortFormMatchPosition(6, 9), ShortFormMatchPosition(0, 5);
    HeartDiseaseStreams();
    HeartDiseaseNGramHits();
    HeartDiseaseWordHits();
    PassWithOneHit(m.analyzer, EdgeNGramFieldName(Prefixes, RdfsLabelEn), shortForm, searchTokens, [],
                   [Token("hea", 0, 3), Token("dis", 6, 9)], p);
    assert [] + [p] == [p];
    PassWithOneHit(m.analyzer, WordFieldName(Prefixes, RdfsLabelEn), shortForm, searchTokens, [p],
                   [Token("heart", 0, 5), Token("disease", 6, 13)], q);
    assert [p] + [q] == [p, q];
    ShortFormMatchOfPasses(m, entity, RdfsLabelEn, shortForm, searchTokens, [p], [p, q]);
  }
}
