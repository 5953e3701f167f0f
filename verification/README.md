# Short-form matching for the entity dictionary

This project models two pieces of WebProtégé's Lucene-backed entity dictionary and proves properties of them.

- The **field-name translator** maps a dictionary language to the names of the index fields that hold that language's short forms. A dictionary language is either the entity's local name, or the labels of one annotation property in one language tag. Each field name is a value, word or edge n-gram prefix followed by a language suffix. The suffix is `lang@iri` for an annotation-based language and `localName` for the local name.
- The **short-form matcher** takes an entity with its short forms (one per language), a set of requested languages and the user's search strings. It tokenizes the search strings once. For every requested language it runs the indexing analyzer twice over the short form: first under the language's edge n-gram field, then under its word field. Each token whose text is a search token contributes its span. The spans go into one insertion-ordered set. A language with at least one span yields a short-form match.

Modules:

- `Wrappers`: `Option`, and a `Result` that carries an I/O error.
- `Sequences`: the first index of an element in a sequence, used by the suffix parser and the ordered set.
- `OrderedSets`: the insertion-ordered set, which stands in for the immutable-set builder the matcher threads through its two passes.
- `FieldNames`: the translator, with a parser for field names. The parser is the partner that round-trip and injectivity are proved against.
- `ShortFormMatching`: the matcher.
  - `AddPossibleTokenMatches` and `GetShortFormMatch` are methods, as in the source. The first loops over the token stream; the second threads one builder through two passes.
  - Each method is proved equal to a specification function: `Pass` and `ShortFormMatchOf` respectively.
  - The stream pipeline over the entries is the function `ShortFormMatches`.
- `ShortFormScenarios`: worked examples on concrete analyzers.

Two details of the code are worth stating outright:

- **Position order.** The positions keep insertion order. The code collects them in an `ImmutableSet.Builder` (`LuceneShortFormMatcher.java` lines 67 and 100) and copies the built set into a list without sorting it (line 76). `PositionsAreNotSortedByStart` shows a match whose positions are not sorted by start.
- **End offset.** A hit's span ends at the token's start offset plus the token's length (line 98). It does not use the end offset the analyzer reports. `PositionOf` does the same; its length counts characters, as noted under "## Left out".

## Model

| member | source | states |
|---|---|---|
| FieldNames.LocalNameFieldName | webprotege-server-lucene/src/main/java/edu/stanford/bmir/protege/web/server/shortform/DictionaryLanguage2FieldNameTranslatorImpl.java:17-27 | the local-name field name is the constant "localName", which contains no '@' |
| FieldNames.Suffix | webprotege-server-lucene/src/main/java/edu/stanford/bmir/protege/web/server/shortform/DictionaryLanguage2FieldNameTranslatorImpl.java:47-54 | the suffix contains an '@' exactly when the language is annotation-based; the local name's suffix is the local-name field name |
| FieldNames.FieldName | webprotege-server-lucene/src/main/java/edu/stanford/bmir/protege/web/server/shortform/DictionaryLanguage2FieldNameTranslatorImpl.java:31-44 | every field name is its prefix followed by the language's suffix |
| FieldNames.SuffixSplitsAtTag | webprotege-server-lucene/src/main/java/edu/stanford/bmir/protege/web/server/shortform/DictionaryLanguage2FieldNameTranslatorImpl.java:49 | for a tag without '@', the suffix's first '@' sits right after the tag; before it is the tag, after it the property IRI |
| FieldNames.SuffixRoundTrip | webprotege-server-lucene/src/main/java/edu/stanford/bmir/protege/web/server/shortform/DictionaryLanguage2FieldNameTranslatorImpl.java:47-54 | parsing the suffix of a well-formed language gives back that language |
| FieldNames.ParsedSuffixRoundTrip | webprotege-server-lucene/src/main/java/edu/stanford/bmir/protege/web/server/shortform/DictionaryLanguage2FieldNameTranslatorImpl.java:47-54 | every string that parses as a suffix is the suffix of the well-formed language it parses to |
| FieldNames.SuffixInjective | webprotege-server-lucene/src/main/java/edu/stanford/bmir/protege/web/server/shortform/DictionaryLanguage2FieldNameTranslatorImpl.java:47-54 | two well-formed languages with the same suffix are equal |
| FieldNames.SuffixCollidesForTagWithAt | webprotege-server-lucene/src/main/java/edu/stanford/bmir/protege/web/server/shortform/DictionaryLanguage2FieldNameTranslatorImpl.java:49 | two different languages share a suffix when a tag may contain '@' (tag "a@b" with IRI "c", tag "a" with IRI "b@c") |
| FieldNames.FieldNameRoundTrip | webprotege-server-lucene/src/main/java/edu/stanford/bmir/protege/web/server/shortform/DictionaryLanguage2FieldNameTranslatorImpl.java:31-44 | the language of a well-formed field name is recovered from the name and its prefix |
| FieldNames.FieldNamesShareSuffix | webprotege-server-lucene/src/main/java/edu/stanford/bmir/protege/web/server/shortform/DictionaryLanguage2FieldNameTranslatorImpl.java:31-44 | the value, word and edge n-gram names of a language (`ValueFieldName`, `WordFieldName`, `EdgeNGramFieldName`) are the three prefixes, each followed by the same suffix |
| FieldNames.KindsNeverCollide | webprotege-server-lucene/src/main/java/edu/stanford/bmir/protege/web/server/shortform/DictionaryLanguage2FieldNameTranslatorImpl.java:48-53 | an annotation-based language and the local name never share a suffix, and so never share a field name under one prefix |
| FieldNames.DistinctIrisDistinctNames | webprotege-server-lucene/src/main/java/edu/stanford/bmir/protege/web/server/shortform/DictionaryLanguage2FieldNameTranslatorImpl.java:49 | with the same tag, different annotation properties give different field names |
| FieldNames.UnrelatedPrefixesSeparateFields | webprotege-server-lucene/src/main/java/edu/stanford/bmir/protege/web/server/shortform/DictionaryLanguage2FieldNameTranslatorImpl.java:31-44 | when neither prefix starts the other, no two languages share a field name across the two prefixes |
| FieldNames.FieldNameDeterminesPrefix | webprotege-server-lucene/src/main/java/edu/stanford/bmir/protege/web/server/shortform/DictionaryLanguage2FieldNameTranslatorImpl.java:31-44 | the same language's field names under two prefixes are equal only when the prefixes are equal, because the suffix is shared |
| FieldNames.DistinctPrefixesSeparateKinds | webprotege-server-lucene/src/main/java/edu/stanford/bmir/protege/web/server/shortform/DictionaryLanguage2FieldNameTranslatorImpl.java:31-44 | with pairwise-distinct prefixes, a language's value, word and edge n-gram field names are three different names |
| OrderedSets.Insert | webprotege-server-lucene/src/main/java/edu/stanford/bmir/protege/web/server/shortform/LuceneShortFormMatcher.java:100 | adding a position keeps what was there, holds exactly the old elements plus the new one, and keeps the elements distinct |
| OrderedSets.InsertAll | webprotege-server-lucene/src/main/java/edu/stanford/bmir/protege/web/server/shortform/LuceneShortFormMatcher.java:94-101 | adding a sequence of positions keeps what was there, holds exactly the old elements plus the added ones, and keeps them distinct |
| OrderedSets.InsertAllConcat | webprotege-server-lucene/src/main/java/edu/stanford/bmir/protege/web/server/shortform/LuceneShortFormMatcher.java:67-73 | adding two batches one after the other is the same as adding their concatenation (the two passes share one builder) |
| OrderedSets.InsertAllFirstOccurrenceOrder | webprotege-server-lucene/src/main/java/edu/stanford/bmir/protege/web/server/shortform/LuceneShortFormMatcher.java:76 | the built set lists each added element once, in the order of its first addition |
| ShortFormMatching.PositionOf | webprotege-server-lucene/src/main/java/edu/stanford/bmir/protege/web/server/shortform/LuceneShortFormMatcher.java:97-99 | a hit's span starts at the token's start offset and has the token's length; the analyzer's end offset is not used |
| ShortFormMatching.Hits | webprotege-server-lucene/src/main/java/edu/stanford/bmir/protege/web/server/shortform/LuceneShortFormMatcher.java:94-101 | a span is a hit exactly when some token whose text is a search token has that span; at most one hit per token |
| ShortFormMatching.HitsSnoc | webprotege-server-lucene/src/main/java/edu/stanford/bmir/protege/web/server/shortform/LuceneShortFormMatcher.java:94-101 | the hits grow one token at a time, as the token stream is read |
| ShortFormMatching.Pass | webprotege-server-lucene/src/main/java/edu/stanford/bmir/protege/web/server/shortform/LuceneShortFormMatcher.java:89-106 | a pass fails exactly when the analyzer fails, with the analyzer's error; otherwise it only adds to the positions found so far |
| ShortFormMatching.AddStep | webprotege-server-lucene/src/main/java/edu/stanford/bmir/protege/web/server/shortform/LuceneShortFormMatcher.java:94-101 | reading one more token and adding its span when its text is a search token and the span is new keeps the collected positions equal to the insertion of the hits read so far |
| ShortFormMatching.AddPossibleTokenMatches | webprotege-server-lucene/src/main/java/edu/stanford/bmir/protege/web/server/shortform/LuceneShortFormMatcher.java:85-107 | the loop over the token stream computes the pass: the given positions extended by the distinct hits, or the analyzer's failure |
| ShortFormMatching.ShortFormMatchOf | webprotege-server-lucene/src/main/java/edu/stanford/bmir/protege/web/server/shortform/LuceneShortFormMatcher.java:62-83 | the match fails exactly when one of the two passes fails; a match carries the entity, short form and language given and at least one position |
| ShortFormMatching.GetShortFormMatch | webprotege-server-lucene/src/main/java/edu/stanford/bmir/protege/web/server/shortform/LuceneShortFormMatcher.java:62-83 | threading one builder through the edge n-gram pass and then the word pass computes the language's match |
| ShortFormMatching.EntryMatches | webprotege-server-lucene/src/main/java/edu/stanford/bmir/protege/web/server/shortform/LuceneShortFormMatcher.java:54-58 | an unrequested entry gives nothing; a requested one fails when its match fails and otherwise gives at most its own match |
| ShortFormMatching.MatchEntries | webprotege-server-lucene/src/main/java/edu/stanford/bmir/protege/web/server/shortform/LuceneShortFormMatcher.java:52-58 | every match produced comes from a requested entry whose own match it is |
| ShortFormMatching.ShortFormMatches | webprotege-server-lucene/src/main/java/edu/stanford/bmir/protege/web/server/shortform/LuceneShortFormMatcher.java:46-59 | every match is for the given entity, a requested language and one of the entity's short forms in that language, with at least one position |
| ShortFormMatching.BothPassHits | webprotege-server-lucene/src/main/java/edu/stanford/bmir/protege/web/server/shortform/LuceneShortFormMatcher.java:69-73 | the reference list of both passes' hits: a span is in it exactly when a token of either pass whose text is a search token has that span, and the edge n-gram pass's hits come first |
| ShortFormMatching.MatchPositionsAreDistinctHits | webprotege-server-lucene/src/main/java/edu/stanford/bmir/protege/web/server/shortform/LuceneShortFormMatcher.java:67-82 | a language has no match exactly when neither pass has a hit; otherwise its positions are the distinct hits of both passes, each once, in order of first occurrence |
| ShortFormMatching.MatchPositionsComeFromSearchTokens | webprotege-server-lucene/src/main/java/edu/stanford/bmir/protege/web/server/shortform/LuceneShortFormMatcher.java:94-101 | a position is in a match exactly when it is the span of a token of either pass whose text is a search token |
| ShortFormMatching.EdgeNGramPositionsComeFirst | webprotege-server-lucene/src/main/java/edu/stanford/bmir/protege/web/server/shortform/LuceneShortFormMatcher.java:69-73 | the edge n-gram pass's positions come first; every later position was found only by the word pass |
| ShortFormMatching.MatchLanguagesAreEntryLanguages | webprotege-server-lucene/src/main/java/edu/stanford/bmir/protege/web/server/shortform/LuceneShortFormMatcher.java:52-58 | the language of every match is the language of one of the entity's entries |
| ShortFormMatching.MatchesFollowEntryOrder | webprotege-server-lucene/src/main/java/edu/stanford/bmir/protege/web/server/shortform/LuceneShortFormMatcher.java:52-58 | the matches' languages come in the order of the entity's entries; with one entry per language, as the entries of a map have, this is the order of the matches themselves |
| ShortFormMatching.MatchEntriesComplete | webprotege-server-lucene/src/main/java/edu/stanford/bmir/protege/web/server/shortform/LuceneShortFormMatcher.java:54-58 | when the call succeeds, every requested entry with a match contributes that match |
| ShortFormMatching.MatchEntriesFailure | webprotege-server-lucene/src/main/java/edu/stanford/bmir/protege/web/server/shortform/LuceneShortFormMatcher.java:104-105 | the entries fail exactly when the match of some requested entry fails |
| ShortFormMatching.MatchesAreThoseOfRequestedEntries | webprotege-server-lucene/src/main/java/edu/stanford/bmir/protege/web/server/shortform/LuceneShortFormMatcher.java:46-59 | the matches of a successful call are exactly the matches of the requested entries, all computed with one token set |
| ShortFormMatching.FailsIffSomePassFails | webprotege-server-lucene/src/main/java/edu/stanford/bmir/protege/web/server/shortform/LuceneShortFormMatcher.java:104-105 | the call fails exactly when some analyzer pass of a requested entry fails |
| ShortFormMatching.AtMostOneMatchPerLanguage | webprotege-server-lucene/src/main/java/edu/stanford/bmir/protege/web/server/shortform/LuceneShortFormMatcher.java:51-58 | with one entry per language, the matches follow entry order and no language has two matches |
| ShortFormMatching.OnlySearchTokensMatter | webprotege-server-lucene/src/main/java/edu/stanford/bmir/protege/web/server/shortform/LuceneShortFormMatcher.java:50 | the search strings affect the result only through the token set the tokenizer makes of them |
| ShortFormScenarios.HasPartPasses | webprotege-server-lucene/src/main/java/edu/stanford/bmir/protege/web/server/shortform/LuceneShortFormMatcher.java:94-101 | for "hasPart" and the search token "part", both passes hit only the span 3..7, and the word pass adds nothing new |
| ShortFormScenarios.HasPartMatchesOnce | webprotege-server-lucene/src/main/java/edu/stanford/bmir/protege/web/server/shortform/LuceneShortFormMatcher.java:46-59 | with the local name requested and an unrequested label, the call gives one match for "hasPart" with the single span 3..7 |
| ShortFormScenarios.PositionsAreNotSortedByStart | webprotege-server-lucene/src/main/java/edu/stanford/bmir/protege/web/server/shortform/LuceneShortFormMatcher.java:67-82 | a match can list its positions as [6..9, 0..5], which is not sorted by start |

## Left out

- Lucene itself is not part of this model: the analyzers, the token stream and its attributes, the index and its queries.
- The indexing analyzer and its factory are a parameter of the matcher. It is a function from a field name and a text to a token sequence or an I/O error. Every call to the factory is assumed to behave like the same function.
- The search-string tokenizer is also a parameter of the matcher: a function from the search strings to a set of tokens.
- The values of the value, word and edge n-gram prefixes are not part of this model. The prefixes are a parameter (`FieldPrefixes`). The scenarios use their own example values.
- `DictionaryLanguage`, `EntityShortForms`, `SearchString`, `ShortFormMatch` and `ShortFormMatchPosition` are not part of this model beyond their fields. They are plain datatypes here, and their factory methods are constructors.
- An absent language tag is modelled as the empty string.
- The entity's map of short forms is a sequence of entries in the map's iteration order. `UniqueLanguages` states the one-entry-per-language property where a lemma needs it.
- ShortFormMatches: `getShortFormMatches` returns a lazy stream and throws nothing itself. The `UncheckedIOException` (line 105) surfaces only while the stream is consumed. The model, `FailsIffSomePassFails` included, describes a consumer that drains the whole stream (as `collect` does): such a consumer gets either all matches or the first failing requested entry's error. A `forEach` consumer has already received the matches of earlier entries when a later pass fails. A short-circuiting consumer (`findFirst`, `anyMatch`, `limit`) may never run a later, failing pass at all. The model does not capture these partial results.
- Pass: an analyzer failure is modelled as failing the whole pass. The source may fail part-way through a token stream after adding some positions to the builder. Those positions are never used, because the exception leaves `getShortFormMatch` before the builder is built.
- PositionOf: a Dafny string here stands for Java's sequence of UTF-16 code units. Token texts, their lengths (`token.length()`, line 98) and the analyzer's offsets all count code units. The model does not separate code units from characters. A character outside the Basic Multilingual Plane is one element of a Dafny string but two code units in Java, so for such text the model's span end differs from the source's.
- Calling `reset()` (line 93) and `end()` (line 103) on the token stream, and the `close()` that try-with-resources runs (line 90), are not modelled as separate steps. An `IOException` from any of them is caught at line 104 like one from `incrementToken()`, even after every token has been read, and the model folds it into the analyzer's `Failure`.
- The language of a well-formed suffix is recovered only for tags without '@'. This is the condition that makes the field names injective. `SuffixCollidesForTagWithAt` shows the collision that happens otherwise.
- Offsets are unbounded integers. Java `int` overflow of `startOffset + token.length()` is not modelled, because offsets into a short form are far from the limit.
- Concurrency and thread-safety are not modelled. Every member is a deterministic function of its inputs, so calling the matcher twice with the same inputs gives the same result.
