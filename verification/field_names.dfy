/**
 * The field-name translator: from a dictionary language to the names of the
 * index fields (value, word, edge n-gram) under which that language's short
 * forms are stored and queried.
 */
module FieldNames {
  import opened Wrappers
  import opened Sequences

  /**
   * A naming scheme for entity labels: the local name, or the labels of one
   * annotation property in one language tag. An absent tag is the empty string.
   */
  datatype DictionaryLanguage =
    | LocalName
    | AnnotationBased(annotationPropertyIri: string, lang: string)

  /** Language tags contain no '@' (they are letters, digits and hyphens). */
  predicate WellFormed(language: DictionaryLanguage)
  {
    language.AnnotationBased? ==> '@' !in language.lang
  }

  /**
   * The three field-name prefixes of the index document. Their values are not
   * part of this model; the index relies on their being pairwise distinct.
   */
  datatype FieldPrefixes = FieldPrefixes(value: string, word: string, edgeNGram: string)
  {
    predicate PairwiseDistinct()
    {
      value != word && word != edgeNGram && value != edgeNGram
    }
  }

  const LocalNameConstant: string := "localName"

  function LocalNameFieldName(): (r: string)
    ensures r == "localName"
    ensures '@' !in r
  {
    LocalNameConstant
  }

  /** The part of a field name that identifies the language. */
  function Suffix(language: DictionaryLanguage): (r: string)
    ensures '@' in r <==> language.AnnotationBased?
    ensures language.LocalName? ==> r == LocalNameFieldName()
  {
    if language.AnnotationBased? then
      var r := language.lang + "@" + language.annotationPropertyIri;
      assert r[|language.lang|] == '@';
      r
    else
      LocalNameFieldName()
  }

  /** A prefix followed by the language's suffix. */
  function FieldName(prefix: string, language: DictionaryLanguage): (r: string)
    ensures prefix <= r && r[|prefix|..] == Suffix(language)
  {
    var r := prefix + Suffix(language);
    assert r[|prefix|..] == Suffix(language);
    r
  }

  function ValueFieldName(prefixes: FieldPrefixes, language: DictionaryLanguage): (r: string)
  {
    FieldName(prefixes.value, language)
  }

  function WordFieldName(prefixes: FieldPrefixes, language: DictionaryLanguage): (r: string)
  {
    FieldName(prefixes.word, language)
  }

  function EdgeNGramFieldName(prefixes: FieldPrefixes, language: DictionaryLanguage): (r: string)
  {
    FieldName(prefixes.edgeNGram, language)
  }

  /** Reads a language back from a suffix: the inverse of `Suffix`. */
  function ParseSuffix(s: string): (r: Option<DictionaryLanguage>)
  {
    if s == LocalNameConstant then Some(LocalName)
    else if '@' in s then
      var i := FirstIndex(s, '@');
      Some(AnnotationBased(s[i + 1..], s[..i]))
    else None
  }

  /** Reads a language back from a field name that starts with `prefix`. */
  function ParseFieldName(prefix: string, name: string): (r: Option<DictionaryLanguage>)
  {
    if prefix <= name then ParseSuffix(name[|prefix|..]) else None
  }

  /** An annotation-based suffix splits at its first '@' into the tag and the IRI. */
  lemma SuffixSplitsAtTag(language: DictionaryLanguage)
    requires language.AnnotationBased? && WellFormed(language)
    ensures '@' in Suffix(language) && FirstIndex(Suffix(language), '@') == |language.lang|
    ensures Suffix(language)[..|language.lang|] == language.lang
    ensures Suffix(language)[|language.lang| + 1..] == language.annotationPropertyIri
  {
    var s, n := Suffix(language), |language.lang|;
    assert s[..n] == language.lang;
    assert s[n] == '@';
    assert s[n + 1..] == language.annotationPropertyIri;
    var k := FirstIndex(s, '@');
    assert k <= n;
    assert forall j :: 0 <= j < n ==> s[j] == language.lang[j];
  }

  /** Every well-formed language is recovered from its suffix. */
  lemma {:induction false} SuffixRoundTrip(language: DictionaryLanguage)
    requires WellFormed(language)
    ensures ParseSuffix(Suffix(language)) == Some(language)
  {
    if language.AnnotationBased? {
      var s := Suffix(language);
      assert '@' in s && '@' !in LocalNameFieldName();
      SuffixSplitsAtTag(language);
      assert ParseSuffix(s) == Some(AnnotationBased(s[|language.lang| + 1..], s[..|language.lang|]));
    }
  }

  /** Every suffix that parses is the suffix of the well-formed language it parses to. */
  lemma ParsedSuffixRoundTrip(s: string)
    requires ParseSuffix(s).Some?
    ensures WellFormed(ParseSuffix(s).value)
    ensures Suffix(ParseSuffix(s).value) == s
  {
    if s != LocalNameConstant {
      var i := FirstIndex(s, '@');
      assert s == s[..i] + "@" + s[i + 1..];
    }
  }

  /** Two well-formed languages with the same suffix are the same language. */
  lemma SuffixInjective(l1: DictionaryLanguage, l2: DictionaryLanguage)
    requires WellFormed(l1) && WellFormed(l2)
    requires Suffix(l1) == Suffix(l2)
    ensures l1 == l2
  {
    SuffixRoundTrip(l1);
    SuffixRoundTrip(l2);
  }

  /** Without the tag restriction the suffix is not injective. */
  lemma SuffixCollidesForTagWithAt()
    ensures var l1, l2 := AnnotationBased("c", "a@b"), AnnotationBased("b@c", "a");
      l1 != l2 && Suffix(l1) == Suffix(l2)
  {
    assert Suffix(AnnotationBased("c", "a@b")) == "a@b@c";
    assert Suffix(AnnotationBased("b@c", "a")) == "a@b@c";
  }

  /** A field name built with `prefix` gives back its language. */
  lemma FieldNameRoundTrip(prefix: string, language: DictionaryLanguage)
    requires WellFormed(language)
    ensures ParseFieldName(prefix, FieldName(prefix, language)) == Some(language)
  {
    SuffixRoundTrip(language);
  }

  /** The three field names of a language carry their own prefix and one shared suffix. */
  lemma FieldNamesShareSuffix(prefixes: FieldPrefixes, language: DictionaryLanguage)
    ensures ValueFieldName(prefixes, language) == prefixes.value + Suffix(language)
    ensures WordFieldName(prefixes, language) == prefixes.word + Suffix(language)
    ensures EdgeNGramFieldName(prefixes, language) == prefixes.edgeNGram + Suffix(language)
  {
  }

  /**
   * Local-name and annotation-based suffixes never collide, so under one prefix
   * the field names of the two kinds differ.
   */
  lemma KindsNeverCollide(prefix: string, l1: DictionaryLanguage, l2: DictionaryLanguage)
    requires l1.AnnotationBased? && l2.LocalName?
    ensures Suffix(l1) != Suffix(l2)
    ensures FieldName(prefix, l1) != FieldName(prefix, l2)
  {
  }

  /** With the same tag, distinct annotation properties give distinct field names. */
  lemma DistinctIrisDistinctNames(prefix: string, l1: DictionaryLanguage, l2: DictionaryLanguage)
    requires l1.AnnotationBased? && l2.AnnotationBased?
    requires l1.lang == l2.lang && l1.annotationPropertyIri != l2.annotationPropertyIri
    ensures Suffix(l1) != Suffix(l2)
    ensures FieldName(prefix, l1) != FieldName(prefix, l2)
  {
    var n := |prefix| + |l1.lang| + 1;
    assert FieldName(prefix, l1)[n..] == l1.annotationPropertyIri;
    assert FieldName(prefix, l2)[n..] == l2.annotationPropertyIri;
    assert Suffix(l1)[|l1.lang| + 1..] == l1.annotationPropertyIri;
    assert Suffix(l2)[|l2.lang| + 1..] == l2.annotationPropertyIri;
  }

  /** One language's field names under two prefixes are equal only when the prefixes are. */
  lemma FieldNameDeterminesPrefix(prefix1: string, prefix2: string, language: DictionaryLanguage)
    requires FieldName(prefix1, language) == FieldName(prefix2, language)
    ensures prefix1 == prefix2
  {
    var name := FieldName(prefix1, language);
    assert |name| == |prefix1| + |Suffix(language)| == |prefix2| + |Suffix(language)|;
    assert prefix1 == name[..|prefix1|] == prefix2;
  }

  /**
   * With pairwise-distinct prefixes, the value, word and edge n-gram fields of
   * one language are three different fields.
   */
  lemma DistinctPrefixesSeparateKinds(prefixes: FieldPrefixes, language: DictionaryLanguage)
    requires prefixes.PairwiseDistinct()
    ensures ValueFieldName(prefixes, language) != WordFieldName(prefixes, language)
    ensures WordFieldName(prefixes, language) != EdgeNGramFieldName(prefixes, language)
    ensures ValueFieldName(prefixes, language) != EdgeNGramFieldName(prefixes, language)
  {
    if ValueFieldName(prefixes, language) == WordFieldName(prefixes, language) {
      FieldNameDeterminesPrefix(prefixes.value, prefixes.word, language);
    }
    if WordFieldName(prefixes, language) == EdgeNGramFieldName(prefixes, language) {
      FieldNameDeterminesPrefix(prefixes.word, prefixes.edgeNGram, language);
    }
    if ValueFieldName(prefixes, language) == EdgeNGramFieldName(prefixes, language) {
      FieldNameDeterminesPrefix(prefixes.value, prefixes.edgeNGram, language);
    }
  }

  /**
   * Prefixes of which neither starts the other keep the fields of any two
   * languages apart; pairwise-distinct prefixes of equal length are such.
   */
  lemma UnrelatedPrefixesSeparateFields(prefix1: string, prefix2: string,
                                        l1: DictionaryLanguage, l2: DictionaryLanguage)
    requires !(prefix1 <= prefix2) && !(prefix2 <= prefix1)
    ensures FieldName(prefix1, l1) != FieldName(prefix2, l2)
  {
    var n := if |prefix1| <= |prefix2| then |prefix1| else |prefix2|;
    assert prefix1[..n] != prefix2[..n];
    var k :| 0 <= k < n && prefix1[k] != prefix2[k];
    assert FieldName(prefix1, l1)[k] == prefix1[k];
    assert FieldName(prefix2, l2)[k] == prefix2[k];
  }
}
