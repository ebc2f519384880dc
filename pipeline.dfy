/** The analysis the page runs on "Analyze Resume": keywords of the job
    description with `get_keywords(jd_text, min_freq=1, top_n=75)`, tokens of
    the resume with `preprocess_text`, then `calculate_match_score` with its
    defaults `min_freq=1, top_n=75`. */
module Pipeline {
  import opened Collections
  import opened Preprocessing
  import opened Keywords
  import opened Scoring

  /** In a duplicate-free keyword list every keyword occurs once, so the
      frequency filter keeps all of them at `min_freq <= 1` and none above. */
  lemma FilteredOfDistinct(jdKeywords: seq<string>, minFreq: int)
    requires NoDup(jdKeywords)
    ensures FilteredKeywords(jdKeywords, minFreq) == if minFreq <= 1 then Elems(jdKeywords) else {}
  {
    forall w | w in jdKeywords ensures Count(jdKeywords, w) == 1 {
      NoDupCountOne(jdKeywords, w);
    }
  }

  /** With the page's parameters nothing is cut: `get_keywords` returns at
      most 75 distinct keywords, so the scorer's top-75 cut keeps every
      matched and every missing keyword. */
  lemma AnalysisKeepsAllKeywords(jdText: Option<string>, resumeText: Option<string>, nltk: Nltk)
    ensures var keywords := GetKeywords(jdText, nltk, 1, 75);
      var tokens := Preprocess(resumeText, nltk);
      var r := CalculateMatchScore(tokens, keywords, 1, 75);
      keywords != [] && tokens != [] ==>
        r.matched == Elems(keywords) * Elems(tokens) && r.missing == Elems(keywords) - Elems(tokens)
  {
    var keywords := GetKeywords(jdText, nltk, 1, 75);
    var tokens := Preprocess(resumeText, nltk);
    if keywords != [] && tokens != [] {
      GetKeywordsSpec(jdText, nltk, 1, 75);
      FilteredOfDistinct(keywords, 1);
      NoDupCardinality(keywords);
      SmallCutKeepsAll(tokens, keywords, 1, 75);
    }
  }

  /** The page's score is the share of the extracted keywords that occur in
      the resume: `100 * |keywords found| / |keywords|`, the same ratio as
      its "Found N matching keywords out of M" message. */
  lemma AnalysisScore(jdText: Option<string>, resumeText: Option<string>, nltk: Nltk)
    ensures var keywords := GetKeywords(jdText, nltk, 1, 75);
      var tokens := Preprocess(resumeText, nltk);
      var r := CalculateMatchScore(tokens, keywords, 1, 75);
      keywords != [] && tokens != [] ==>
        r.score == ScoreOf(|Elems(keywords) * Elems(tokens)|, |keywords|)
  {
    var keywords := GetKeywords(jdText, nltk, 1, 75);
    var tokens := Preprocess(resumeText, nltk);
    if keywords != [] && tokens != [] {
      GetKeywordsSpec(jdText, nltk, 1, 75);
      FilteredOfDistinct(keywords, 1);
      NoDupCardinality(keywords);
      ScoreOfMatch(tokens, keywords, 1, 75);
    }
  }
}
