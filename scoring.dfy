/** `calculate_match_score`: how many of the job description's keywords a
    resume contains. */
module Scoring {
  import opened Collections

  /** The returned triple: the percentage score (exact, before
      `round(score, 2)`), the matched keywords and the missing ones. */
  datatype MatchResult = MatchResult(score: real, matched: set<string>, missing: set<string>)

  /** `{word for word, count in Counter(jd_keywords).items() if count >= min_freq}`:
      counted within the keyword list itself. */
  function FilteredKeywords(jdKeywords: seq<string>, minFreq: int): set<string> {
    set w | w in jdKeywords && Count(jdKeywords, w) >= minFreq
  }

  /** The filtered keywords that occur in the resume. */
  function MatchedKeywords(resumeTokens: seq<string>, jdKeywords: seq<string>, minFreq: int): set<string> {
    FilteredKeywords(jdKeywords, minFreq) * Elems(resumeTokens)
  }

  /** The filtered keywords that do not. */
  function MissingKeywords(resumeTokens: seq<string>, jdKeywords: seq<string>, minFreq: int): set<string> {
    FilteredKeywords(jdKeywords, minFreq) - MatchedKeywords(resumeTokens, jdKeywords, minFreq)
  }

  /** `len(matched) / len(filtered) * 100`, or 0 when nothing was filtered in. */
  function ScoreOf(matched: nat, filtered: nat): (score: real)
    ensures matched <= filtered ==> 0.0 <= score <= 100.0
  {
    if filtered == 0 then 0.0 else (matched as real / filtered as real) * 100.0
  }

  /** The score is the percentage of keywords matched: 0 with no keywords,
      100 exactly when all of at least one keyword are matched. */
  lemma ScoreIsPercentage(matched: nat, filtered: nat)
    requires matched <= filtered
    ensures filtered == 0 ==> ScoreOf(matched, filtered) == 0.0
    ensures filtered > 0 ==> ScoreOf(matched, filtered) * filtered as real == 100.0 * matched as real
    ensures ScoreOf(matched, filtered) == 100.0 <==> filtered > 0 && matched == filtered
    ensures ScoreOf(matched, filtered) == 0.0 <==> filtered == 0 || matched == 0
  {
    if filtered > 0 {
      var q := matched as real / filtered as real;
      assert q * filtered as real == matched as real;
      if matched < filtered {
        assert q < 1.0;
      }
    }
  }

  /** For a fixed number of keywords, matching more never lowers the score. */
  lemma ScoreMonotone(m1: nat, m2: nat, filtered: nat)
    requires m1 <= m2
    ensures ScoreOf(m1, filtered) <= ScoreOf(m2, filtered)
  {
    if filtered > 0 {
      assert m1 as real / filtered as real <= m2 as real / filtered as real;
    }
  }

  lemma MostFrequentExists(s: set<string>, tokens: seq<string>)
    requires s != {}
    ensures exists x :: x in s && forall y :: y in s ==> Count(tokens, y) <= Count(tokens, x)
    decreases |s|
  {
    var z :| z in s;
    if s != {z} {
      MostFrequentExists(s - {z}, tokens);
      var x :| x in s - {z} && forall y :: y in s - {z} ==> Count(tokens, y) <= Count(tokens, x);
      if Count(tokens, z) > Count(tokens, x) {
        assert forall y :: y in s ==> Count(tokens, y) <= Count(tokens, z);
      } else {
        assert forall y :: y in s ==> Count(tokens, y) <= Count(tokens, x);
      }
    } else {
      assert forall y :: y in s ==> y == z;
    }
  }

  /** `set(sorted(s, key=resume_counter.get, reverse=True)[:n])`: the `n`
      elements of `s` most frequent in `tokens`. Python sorts the set in its
      own iteration order, so which of equally frequent elements survive is
      not determined; the model picks them by choice. */
  ghost function TopByCount(s: set<string>, tokens: seq<string>, n: int): (r: set<string>)
    ensures r <= s
    ensures |r| == if n <= 0 then 0 else if n < |s| then n else |s|
    ensures forall a, b :: a in r && b in s - r ==> Count(tokens, a) >= Count(tokens, b)
    decreases |s|
  {
    if n <= 0 || s == {} then {}
    else
      MostFrequentExists(s, tokens);
      var x :| x in s && forall y :: y in s ==> Count(tokens, y) <= Count(tokens, x);
      var rest := TopByCount(s - {x}, tokens, n - 1);
      assert |s - {x}| == |s| - 1;
      assert x !in rest;
      {x} + rest
  }

  /** `calculate_match_score(resume_tokens, jd_keywords, min_freq, top_n)`. */
  ghost function CalculateMatchScore(resumeTokens: seq<string>, jdKeywords: seq<string>,
                                     minFreq: int, topN: int): (r: MatchResult)
    ensures resumeTokens == [] || jdKeywords == [] ==> r == MatchResult(0.0, {}, {})
    ensures 0.0 <= r.score <= 100.0
    ensures r.matched !! r.missing
    ensures forall w :: w in r.matched ==>
              w in jdKeywords && Count(jdKeywords, w) >= minFreq && w in resumeTokens
    ensures forall w :: w in r.missing ==>
              w in jdKeywords && Count(jdKeywords, w) >= minFreq && w !in resumeTokens
    ensures topN > 0 ==> |r.matched| <= topN && |r.missing| <= topN
    ensures resumeTokens != [] && jdKeywords != [] && topN <= 0 ==>
              forall w :: w in jdKeywords && Count(jdKeywords, w) >= minFreq ==> w in r.matched + r.missing
  {
    if resumeTokens == [] || jdKeywords == [] then MatchResult(0.0, {}, {})
    else
      var filtered := FilteredKeywords(jdKeywords, minFreq);
      var matched := MatchedKeywords(resumeTokens, jdKeywords, minFreq);
      var missing := MissingKeywords(resumeTokens, jdKeywords, minFreq);
      assert matched <= filtered;
      SubsetCardinality(matched, filtered);
      var score := ScoreOf(|matched|, |filtered|);
      if topN > 0 then
        MatchResult(score, TopByCount(matched, resumeTokens, topN), TopByCount(missing, resumeTokens, topN))
      else
        MatchResult(score, matched, missing)
  }

  lemma SubsetCardinality(a: set<string>, b: set<string>)
    requires a <= b
    ensures |a| <= |b|
    ensures |a| == |b| ==> a == b
  {
    assert b == a + (b - a);
    assert |b| == |a| + |b - a|;
  }

  /** Before the top-N cut, matched and missing split the filtered keywords:
      disjoint, and together exactly the filtered set. */
  lemma MatchPartition(resumeTokens: seq<string>, jdKeywords: seq<string>, minFreq: int)
    ensures MatchedKeywords(resumeTokens, jdKeywords, minFreq) !! MissingKeywords(resumeTokens, jdKeywords, minFreq)
    ensures MatchedKeywords(resumeTokens, jdKeywords, minFreq) + MissingKeywords(resumeTokens, jdKeywords, minFreq)
            == FilteredKeywords(jdKeywords, minFreq)
    ensures forall w :: w in FilteredKeywords(jdKeywords, minFreq) <==> w in jdKeywords && Count(jdKeywords, w) >= minFreq
  {
  }

  /** The score is the percentage of the filtered keywords found in the
      resume: 0 when there are none, 100 exactly when none is missing, and 0
      exactly when none is matched. */
  lemma ScoreMeaning(resumeTokens: seq<string>, jdKeywords: seq<string>, minFreq: int, topN: int)
    requires resumeTokens != [] && jdKeywords != []
    ensures FilteredKeywords(jdKeywords, minFreq) == {} ==>
              CalculateMatchScore(resumeTokens, jdKeywords, minFreq, topN).score == 0.0
    ensures CalculateMatchScore(resumeTokens, jdKeywords, minFreq, topN).score == 100.0 <==>
              FilteredKeywords(jdKeywords, minFreq) != {} && MissingKeywords(resumeTokens, jdKeywords, minFreq) == {}
    ensures CalculateMatchScore(resumeTokens, jdKeywords, minFreq, topN).score == 0.0 <==>
              MatchedKeywords(resumeTokens, jdKeywords, minFreq) == {}
  {
    var filtered := FilteredKeywords(jdKeywords, minFreq);
    var matched := MatchedKeywords(resumeTokens, jdKeywords, minFreq);
    var missing := MissingKeywords(resumeTokens, jdKeywords, minFreq);
    var score := CalculateMatchScore(resumeTokens, jdKeywords, minFreq, topN).score;
    var percentage := ScoreOf(|matched|, |filtered|);
    assert score == percentage by {
      ScoreOfMatch(resumeTokens, jdKeywords, minFreq, topN);
    }
    assert matched <= filtered && missing == filtered - matched;
    PercentageOfSubset(matched, filtered);
  }

  /** The returned score is the percentage of the filtered keywords matched,
      computed before the top-N cut. */
  lemma ScoreOfMatch(resumeTokens: seq<string>, jdKeywords: seq<string>, minFreq: int, topN: int)
    requires resumeTokens != [] && jdKeywords != []
    ensures CalculateMatchScore(resumeTokens, jdKeywords, minFreq, topN).score
            == ScoreOf(|MatchedKeywords(resumeTokens, jdKeywords, minFreq)|, |FilteredKeywords(jdKeywords, minFreq)|)
  {
  }

  lemma PercentageOfSubset(matched: set<string>, filtered: set<string>)
    requires matched <= filtered
    ensures filtered == {} ==> ScoreOf(|matched|, |filtered|) == 0.0
    ensures ScoreOf(|matched|, |filtered|) * |filtered| as real == 100.0 * |matched| as real
    ensures ScoreOf(|matched|, |filtered|) == 100.0 <==> filtered != {} && filtered - matched == {}
    ensures ScoreOf(|matched|, |filtered|) == 0.0 <==> matched == {}
  {
    SubsetCardinality(matched, filtered);
    ScoreIsPercentage(|matched|, |filtered|);
    if filtered - matched == {} {
      assert forall x :: x in filtered ==> x in filtered - matched || x in matched;
      assert matched == filtered;
    }
    assert |filtered| == 0 ==> filtered == {};
    assert |matched| == 0 <==> matched == {};
  }

  /** The top-N cut: with `top_n > 0` each set keeps `min(top_n, size)` of its
      elements, the ones most frequent in the resume; otherwise both are
      returned whole. */
  lemma TopNCut(resumeTokens: seq<string>, jdKeywords: seq<string>, minFreq: int, topN: int)
    requires resumeTokens != [] && jdKeywords != []
    ensures var r := CalculateMatchScore(resumeTokens, jdKeywords, minFreq, topN);
      var matched := MatchedKeywords(resumeTokens, jdKeywords, minFreq);
      var missing := MissingKeywords(resumeTokens, jdKeywords, minFreq);
      && (topN <= 0 ==> r.matched == matched && r.missing == missing)
      && (topN > 0 ==>
            && r.matched <= matched && r.missing <= missing
            && |r.matched| == (if topN < |matched| then topN else |matched|)
            && |r.missing| == (if topN < |missing| then topN else |missing|)
            && (forall a, b :: a in r.matched && b in matched - r.matched ==>
                  Count(resumeTokens, a) >= Count(resumeTokens, b)))
  {
  }

  /** When no more than `top_n` keywords pass the frequency filter, the
      top-N cut drops nothing. */
  lemma SmallCutKeepsAll(resumeTokens: seq<string>, jdKeywords: seq<string>, minFreq: int, topN: int)
    requires resumeTokens != [] && jdKeywords != []
    requires |FilteredKeywords(jdKeywords, minFreq)| <= topN
    ensures CalculateMatchScore(resumeTokens, jdKeywords, minFreq, topN).matched
            == MatchedKeywords(resumeTokens, jdKeywords, minFreq)
    ensures CalculateMatchScore(resumeTokens, jdKeywords, minFreq, topN).missing
            == MissingKeywords(resumeTokens, jdKeywords, minFreq)
  {
    var r := CalculateMatchScore(resumeTokens, jdKeywords, minFreq, topN);
    var filtered := FilteredKeywords(jdKeywords, minFreq);
    var matched := MatchedKeywords(resumeTokens, jdKeywords, minFreq);
    var missing := MissingKeywords(resumeTokens, jdKeywords, minFreq);
    if topN > 0 {
      TopNCut(resumeTokens, jdKeywords, minFreq, topN);
      SubsetCardinality(matched, filtered);
      SubsetCardinality(missing, filtered);
      SubsetCardinality(r.matched, matched);
      SubsetCardinality(r.missing, missing);
    } else {
      TopNCut(resumeTokens, jdKeywords, minFreq, topN);
    }
  }
}
