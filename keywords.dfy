/** `get_keywords`: the most frequent tokens of a job description. */
module Keywords {
  import opened Collections
  import opened Text
  import opened Preprocessing

  /** `s` is ordered by frequency in `tokens`, most frequent first. */
  predicate RankedByCount(s: seq<string>, tokens: seq<string>) {
    forall i, j :: 0 <= i < j < |s| ==> Count(tokens, s[i]) >= Count(tokens, s[j])
  }

  /** Inserts `w` into a ranked sequence after every strictly more frequent
      word and before the first word that is not: of two equally frequent
      words, the one inserted later ends up first. */
  function InsertByCount(w: string, ranked: seq<string>, tokens: seq<string>): (r: seq<string>)
    ensures multiset(r) == multiset(ranked) + multiset{w}
  {
    if ranked == [] || Count(tokens, ranked[0]) <= Count(tokens, w) then
      [w] + ranked
    else
      assert ranked == [ranked[0]] + ranked[1..];
      [ranked[0]] + InsertByCount(w, ranked[1..], tokens)
  }

  lemma MembersOfInsert(w: string, ranked: seq<string>, tokens: seq<string>)
    ensures forall x :: x in InsertByCount(w, ranked, tokens) <==> x == w || x in ranked
  {
    var r := InsertByCount(w, ranked, tokens);
    forall x ensures x in r <==> x == w || x in ranked {
      assert x in r <==> x in multiset(r);
      assert x in ranked <==> x in multiset(ranked);
    }
  }

  lemma {:induction false} InsertKeepsRanking(w: string, ranked: seq<string>, tokens: seq<string>)
    requires RankedByCount(ranked, tokens)
    ensures RankedByCount(InsertByCount(w, ranked, tokens), tokens)
  {
    if ranked != [] && Count(tokens, ranked[0]) > Count(tokens, w) {
      var tail := ranked[1..];
      assert RankedByCount(tail, tokens) by {
        forall i, j | 0 <= i < j < |tail| ensures Count(tokens, tail[i]) >= Count(tokens, tail[j]) {
          assert tail[i] == ranked[i + 1] && tail[j] == ranked[j + 1];
        }
      }
      InsertKeepsRanking(w, tail, tokens);
      MembersOfInsert(w, tail, tokens);
      var rest := InsertByCount(w, tail, tokens);
      var r := [ranked[0]] + rest;
      forall i, j | 0 <= i < j < |r| ensures Count(tokens, r[i]) >= Count(tokens, r[j]) {
        assert r[j] == rest[j - 1] && rest[j - 1] in rest;
        if i > 0 {
          assert r[i] == rest[i - 1];
        } else if r[j] != w {
          var k :| 0 <= k < |tail| && tail[k] == r[j];
          assert ranked[k + 1] == r[j];
        }
      }
    }
  }

  lemma {:induction false} InsertKeepsNoDup(w: string, ranked: seq<string>, tokens: seq<string>)
    requires NoDup(ranked) && w !in ranked
    ensures NoDup(InsertByCount(w, ranked, tokens))
  {
    if ranked != [] && Count(tokens, ranked[0]) > Count(tokens, w) {
      var tail := ranked[1..];
      assert NoDup(tail) by {
        forall i, j | 0 <= i < j < |tail| ensures tail[i] != tail[j] {
          assert tail[i] == ranked[i + 1] && tail[j] == ranked[j + 1];
        }
      }
      assert ranked[0] !in tail by {
        forall k | 0 <= k < |tail| ensures tail[k] != ranked[0] {
          assert tail[k] == ranked[k + 1];
        }
      }
      assert w !in tail by {
        forall k | 0 <= k < |tail| ensures tail[k] != w {
          assert tail[k] == ranked[k + 1];
        }
      }
      InsertKeepsNoDup(w, tail, tokens);
      MembersOfInsert(w, tail, tokens);
      var rest := InsertByCount(w, tail, tokens);
      var r := [ranked[0]] + rest;
      forall i, j | 0 <= i < j < |r| ensures r[i] != r[j] {
        assert r[j] == rest[j - 1] && rest[j - 1] in rest;
        if i > 0 {
          assert r[i] == rest[i - 1];
        } else {
          assert r[j] == w || r[j] in tail;
          assert w != ranked[0] by { assert ranked[0] in ranked; }
        }
      }
    } else {
      var r := [w] + ranked;
      forall i, j | 0 <= i < j < |r| ensures r[i] != r[j] {
        assert r[j] == ranked[j - 1];
        if i > 0 {
          assert r[i] == ranked[i - 1];
        }
      }
    }
  }

  /** A stable sort of `words` by frequency in `tokens`, most frequent first:
      equally frequent words keep their relative order (the words are
      inserted last to first). */
  function RankByCount(words: seq<string>, tokens: seq<string>): (r: seq<string>)
    ensures multiset(r) == multiset(words)
  {
    if words == [] then []
    else
      assert words == [words[0]] + words[1..];
      InsertByCount(words[0], RankByCount(words[1..], tokens), tokens)
  }

  /** Sorting by count ranks the words, keeps exactly the same words, and
      keeps them duplicate-free. */
  lemma {:induction false} RankByCountSpec(words: seq<string>, tokens: seq<string>)
    ensures var r := RankByCount(words, tokens);
      && RankedByCount(r, tokens)
      && (forall x :: x in r <==> x in words)
      && |r| == |words|
      && (NoDup(words) ==> NoDup(r))
  {
    var r := RankByCount(words, tokens);
    assert |r| == |words| by {
      assert |multiset(r)| == |multiset(words)|;
    }
    assert forall x :: x in r <==> x in words by {
      forall x ensures x in r <==> x in words {
        assert x in r <==> x in multiset(r);
        assert x in words <==> x in multiset(words);
      }
    }
    if words != [] {
      var rest := RankByCount(words[1..], tokens);
      RankByCountSpec(words[1..], tokens);
      assert r == InsertByCount(words[0], rest, tokens);
      InsertKeepsRanking(words[0], rest, tokens);
      if NoDup(words) {
        NoDupTail(words);
        InsertKeepsNoDup(words[0], rest, tokens);
      }
    }
  }

  /** `[w for w, _ in Counter(tokens).most_common(n)]`: the distinct tokens in
      order of first occurrence, stably sorted by count, cut to `n`; nothing
      for `n <= 0`. */
  function MostCommon(tokens: seq<string>, n: int): seq<string>
  {
    if n <= 0 then [] else SliceTo(RankByCount(Distinct(tokens), tokens), n)
  }

  /** A prefix of a ranked, duplicate-free sequence is ranked, duplicate-free,
      and holds words at least as frequent as every word after it. */
  lemma RankedPrefix(ranked: seq<string>, k: nat, tokens: seq<string>)
    requires k <= |ranked|
    requires NoDup(ranked) && RankedByCount(ranked, tokens)
    ensures NoDup(ranked[..k]) && RankedByCount(ranked[..k], tokens)
    ensures forall x :: x in ranked[..k] ==> x in ranked
    ensures forall x, y :: x in ranked[..k] && y in ranked && y !in ranked[..k] ==>
              Count(tokens, x) >= Count(tokens, y)
  {
    var r := ranked[..k];
    assert forall x :: x in r ==> x in ranked by {
      forall x | x in r ensures x in ranked {
        var i :| 0 <= i < k && r[i] == x;
        assert ranked[i] == x;
      }
    }
    forall x, y | x in r && y in ranked && y !in r
      ensures Count(tokens, x) >= Count(tokens, y)
    {
      var i :| 0 <= i < k && r[i] == x;
      var j :| 0 <= j < |ranked| && ranked[j] == y;
      assert forall m :: 0 <= m < k ==> r[m] == ranked[m] && r[m] in r;
      assert k <= j;
      assert ranked[i] == x;
    }
  }

  /** `most_common(n)` gives the `min(n, #distinct)` most frequent distinct
      tokens, most frequent first: every token it leaves out is at most as
      frequent as every token it returns. */
  lemma MostCommonSpec(tokens: seq<string>, n: int)
    ensures n <= 0 ==> MostCommon(tokens, n) == []
    ensures n > 0 ==> |MostCommon(tokens, n)| == if n < |Distinct(tokens)| then n else |Distinct(tokens)|
    ensures NoDup(MostCommon(tokens, n)) && RankedByCount(MostCommon(tokens, n), tokens)
    ensures forall x :: x in MostCommon(tokens, n) ==> x in tokens
    ensures forall x, y :: x in MostCommon(tokens, n) && y in tokens && y !in MostCommon(tokens, n) ==>
              Count(tokens, x) >= Count(tokens, y)
  {
    if n > 0 {
      var ranked := RankByCount(Distinct(tokens), tokens);
      RankByCountSpec(Distinct(tokens), tokens);
      var r := MostCommon(tokens, n);
      assert r == ranked[..|r|];
      RankedPrefix(ranked, |r|, tokens);
    }
  }

  /** The test `count >= min_freq and not word.isdigit()` of `get_keywords`. */
  predicate Eligible(w: string, tokens: seq<string>, minFreq: int) {
    Count(tokens, w) >= minFreq && !IsDigits(w)
  }

  /** `get_keywords(text, min_freq, top_n)`: take the `2 * top_n` most common
      tokens, keep those frequent enough and not numeric, and return the first
      `top_n` of them. */
  function GetKeywords(text: Option<string>, nltk: Nltk, minFreq: int, topN: int): seq<string> {
    var tokens := Preprocess(text, nltk);
    if tokens == [] then []
    else
      var candidates := MostCommon(tokens, 2 * topN);
      SliceTo(Filter(w => Eligible(w, tokens, minFreq), candidates), topN)
  }

  /** The keywords are at most `top_n` distinct, non-numeric tokens of the
      text, each occurring at least `min_freq` times, most frequent first. */
  lemma GetKeywordsSpec(text: Option<string>, nltk: Nltk, minFreq: int, topN: int)
    ensures topN <= 0 ==> GetKeywords(text, nltk, minFreq, topN) == []
    ensures |GetKeywords(text, nltk, minFreq, topN)| <= if topN > 0 then topN else 0
    ensures NoDup(GetKeywords(text, nltk, minFreq, topN))
    ensures forall w :: w in GetKeywords(text, nltk, minFreq, topN) ==>
              var tokens := Preprocess(text, nltk);
              w in tokens && Count(tokens, w) >= minFreq && !IsDigits(w)
    ensures RankedByCount(GetKeywords(text, nltk, minFreq, topN), Preprocess(text, nltk))
    ensures forall w :: w in GetKeywords(text, nltk, minFreq, topN) ==>
              w in MostCommon(Preprocess(text, nltk), 2 * topN)
  {
    var tokens := Preprocess(text, nltk);
    if tokens != [] {
      var keep := w => Eligible(w, tokens, minFreq);
      var candidates := MostCommon(tokens, 2 * topN);
      MostCommonSpec(tokens, 2 * topN);
      var eligible := Filter(keep, candidates);
      FilterNoDup(keep, candidates);
      FilterOrdered(keep, candidates, w => Count(tokens, w));
      var keywords := GetKeywords(text, nltk, minFreq, topN);
      assert keywords == eligible[..|keywords|];
      RankedPrefix(eligible, |keywords|, tokens);
      assert forall w :: w in keywords ==> w in candidates;
    }
  }

  /** Nothing eligible among the `2 * top_n` most common tokens is dropped
      except by the final cut: either `top_n` keywords are returned, or every
      eligible candidate is one of them. */
  lemma GetKeywordsComplete(text: Option<string>, nltk: Nltk, minFreq: int, topN: int)
    ensures var tokens := Preprocess(text, nltk);
      var keywords := GetKeywords(text, nltk, minFreq, topN);
      tokens != [] && topN > 0 ==>
        || |keywords| == topN
        || forall w :: w in MostCommon(tokens, 2 * topN) && Eligible(w, tokens, minFreq) ==> w in keywords
  {
    var tokens := Preprocess(text, nltk);
    if tokens != [] && topN > 0 {
      var keep := w => Eligible(w, tokens, minFreq);
      var eligible := Filter(keep, MostCommon(tokens, 2 * topN));
      var keywords := GetKeywords(text, nltk, minFreq, topN);
      assert keywords == SliceTo(eligible, topN);
      if |keywords| != topN {
        assert keywords == eligible;
      }
    }
  }

  /** Nothing eligible is left out in favour of a less frequent token: every
      token that passes the frequency and numeric tests but is not returned
      occurs at most as often as every returned keyword. */
  lemma GetKeywordsMostFrequent(text: Option<string>, nltk: Nltk, minFreq: int, topN: int)
    ensures var tokens := Preprocess(text, nltk);
      var keywords := GetKeywords(text, nltk, minFreq, topN);
      forall w, k :: w in tokens && Eligible(w, tokens, minFreq) && w !in keywords && k in keywords ==>
        Count(tokens, k) >= Count(tokens, w)
  {
    var tokens := Preprocess(text, nltk);
    var keywords := GetKeywords(text, nltk, minFreq, topN);
    if tokens != [] && topN > 0 {
      var keep := w => Eligible(w, tokens, minFreq);
      var candidates := MostCommon(tokens, 2 * topN);
      MostCommonSpec(tokens, 2 * topN);
      var eligible := Filter(keep, candidates);
      FilterNoDup(keep, candidates);
      FilterOrdered(keep, candidates, w => Count(tokens, w));
      assert keywords == eligible[..|keywords|];
      RankedPrefix(eligible, |keywords|, tokens);
      forall w, k | w in tokens && Eligible(w, tokens, minFreq) && w !in keywords && k in keywords
        ensures Count(tokens, k) >= Count(tokens, w)
      {
        assert k in eligible && k in candidates;
        if w in candidates {
          assert w in eligible;
        }
      }
    }
  }
}
