# ATS resume checker: keyword core in Dafny

This project models the keyword-matching core of a small resume checker.
The checker is a single Streamlit page (`main.py`) that compares a job
description with a resume. It has three steps:

1. `preprocess_text` turns a document into tokens. It lower-cases the text,
   deletes every character that is neither a word character nor whitespace,
   and splits what is left. The split uses NLTK's `word_tokenize` when the
   NLTK resources are ready and `str.split()` otherwise. It then drops
   stopwords, and drops one-character tokens that are not digits.
2. `get_keywords` extracts the job description's keywords. It counts the
   tokens and takes the `2 * top_n` most common. It keeps those that occur at
   least `min_freq` times and are not numbers, and returns the first `top_n`.
3. `calculate_match_score` scores a resume's tokens against the keyword list.
   It filters the keywords by their frequency in the list itself. It splits
   them into matched (present in the resume) and missing. The score is the
   matched share in percent. Each set is then cut to the `top_n` keywords
   most frequent in the resume.

All three are pure, so the model is pure Dafny functions, one module per
step:

- `Collections` holds the list-comprehension filter, the key order of a
  `Counter`, and Python's `s[:n]`.
- `Text` holds the character classes, lower-casing, punctuation removal,
  `str.split()` and `" ".join`.
- `Preprocessing` holds `preprocess_text`.
- `Keywords` holds `Counter.most_common` as a stable sort by count, and
  `get_keywords`.
- `Scoring` holds `calculate_match_score`.
- `Pipeline` holds the composition that the "Analyze Resume" button runs
  (main.py:244-254).

The NLTK start-up state is the datatype `Preprocessing.Nltk`:

- `Ready(stopWords, wordTokenize)` carries the stopword set and the library
  tokenizer as parameters. A tokenizer answer of `None` stands for the
  exception that makes the source fall back to `str.split()`.
- `Unavailable` means an empty stopword set and `str.split()`.

The library tokenizer is not modelled. Where a property needs it, the
property assumes `SoundTokenizer`: every piece it returns is non-empty and
made of non-whitespace characters of its input.

## Model

| member | source | states |
|---|---|---|
| Collections.Filter | main.py:112-115 | a list comprehension keeps exactly the elements of the input that pass the test, and is no longer than the input |
| Collections.FilterCount | main.py:112-115 | the comprehension keeps every occurrence of a kept element, so it occurs as often in the result as in the input, and a dropped element not at all; this is what the later `Counter` sees |
| Collections.Distinct | main.py:161 | the keys of `Counter(tokens)`: duplicate-free, and exactly the elements of the token list |
| Collections.SliceTo | main.py:164 | `keywords[:top_n]` is the prefix of length `top_n`, or of length `len + top_n` for a negative `top_n`, clamped to the list |
| Text.Lower | main.py:103 | `str.lower()` keeps the length and replaces each upper-case letter by its lower-case letter, leaving every other character as it is |
| Text.Normalize | main.py:103-104 | after lower-casing and `re.sub(r'[^\w\s]', '', text)`, every character is a lower-case word character or whitespace, and every word or whitespace character of the input survives in its lower-case form |
| Text.NormalizeLowersKept | main.py:103-104 | normalising is the same as keeping the word and whitespace characters in their order and lower-casing them, so an upper-case letter is lower-cased and never deleted |
| Text.NormalizeIdempotent | main.py:95-96 | normalising normalised text changes nothing |
| Text.SplitPieces | main.py:97 | every piece `str.split()` (`SplitWhitespace`) returns is non-empty and made only of non-whitespace characters of the input |
| Text.SplitSlices | main.py:97 | every piece `str.split()` (`SplitWhitespace`) returns is a contiguous run of the input |
| Text.SplitLeadingSpace | main.py:97 | `str.split()` (`SplitWhitespace`) skips leading whitespace: a whitespace character in front of the text changes nothing |
| Text.SplitLeadingWord | main.py:97 | a non-empty whitespace-free word followed by whitespace or by the end of the text is split off as exactly one piece, ahead of the pieces of the rest; with the previous row, and `SplitJoin` on no words giving no pieces for the empty text, this fixes the split of every text |
| Text.SplitJoin | main.py:110 | `str.split()` (`SplitWhitespace`) inverts `" ".join` on words without whitespace: splitting the joined words gives the same words back |
| Preprocessing.Preprocess | main.py:89-116 | absent or empty text gives `[]`; the split (`Tokenize`) is `word_tokenize` when NLTK is ready, and `str.split()` when it raises or NLTK is unavailable; no token is a stopword; every token is longer than one character or all digits; with a sound tokenizer, or without NLTK, every token is non-empty and made of lower-case word characters only; that every word passing the filter is returned, and how often, is the next row |
| Preprocessing.PreprocessCounts | main.py:103-115 | for non-empty text, every piece the split makes of the lower-cased text with its non-word, non-whitespace characters deleted is returned exactly as often as the split made it when it is not a stopword and is longer than one character or all digits, and is absent otherwise; so no word of the text that passes the filter is lost |
| Preprocessing.ReprocessTokens | main.py:103-115 | tokens that pass the filter, joined by spaces and preprocessed again with a whitespace split, come back unchanged |
| Preprocessing.PreprocessIdempotent | main.py:92-100 | without the NLTK resources, preprocessing the space-joined output of preprocessing gives the same output |
| Keywords.RankByCount | main.py:161-162 | sorting by count returns a permutation of its input: the same words, each as often |
| Keywords.RankByCountSpec | main.py:161-162 | sorting the distinct tokens by count keeps exactly the same words, keeps them duplicate-free, and orders them by non-increasing count |
| Keywords.MostCommonSpec | main.py:162 | `most_common(n)` (`MostCommon`) returns `min(n, #distinct)` distinct tokens by non-increasing count, and nothing for `n <= 0`; every token it leaves out is at most as frequent as every token it returns |
| Keywords.GetKeywordsSpec | main.py:155-164 | `get_keywords` (`GetKeywords`) returns at most `top_n` keywords and none for `top_n <= 0`; no duplicates; each keyword is a token of the text, occurs at least `min_freq` times and is not all digits, and is one of the `2 * top_n` most common tokens (so fewer than `top_n`, even none, may come back while other eligible tokens exist); keywords come in non-increasing count order |
| Keywords.GetKeywordsComplete | main.py:162-164 | with tokens and `top_n > 0`, either `top_n` keywords are returned or every eligible token among the `2 * top_n` most common is returned |
| Keywords.GetKeywordsMostFrequent | main.py:161-164 | an eligible token (frequent enough, not numeric) that is not returned occurs at most as often as every returned keyword |
| Scoring.ScoreOf | main.py:146 | with no more matched than filtered keywords, the score lies in [0, 100] |
| Scoring.ScoreIsPercentage | main.py:146 | the score times the number of filtered keywords is 100 times the number matched; 0 with no keywords; 100 exactly when all of at least one keyword match; 0 exactly when none match |
| Scoring.ScoreMonotone | main.py:146 | for a fixed number of filtered keywords, matching more never lowers the score |
| Scoring.TopByCount | main.py:150-151 | the top-`n` cut of a set is a subset with `min(n, size)` elements, and each kept element is at least as frequent in the resume as each dropped one |
| Scoring.CalculateMatchScore | main.py:125-153 | empty resume or keyword list gives `(0, ∅, ∅)`; the score lies in [0, 100]; matched and missing are disjoint; every matched keyword is a frequent-enough keyword present in the resume and every missing one is a frequent-enough keyword absent from it; with `top_n > 0` both sets have at most `top_n` elements; with `top_n <= 0` every frequent-enough keyword is matched or missing |
| Scoring.MatchPartition | main.py:137-143 | the filtered set (`FilteredKeywords`) is the keywords counted at least `min_freq` times within the keyword list; before the cut, matched (`MatchedKeywords`) and missing (`MissingKeywords`) are disjoint and their union is the filtered set |
| Scoring.ScoreMeaning | main.py:146 | the returned score is 0 when the filtered set is empty, 100 exactly when it is non-empty and nothing is missing, and 0 exactly when nothing is matched |
| Scoring.ScoreOfMatch | main.py:140-146 | the returned score is the percentage computed from the sets before the top-N cut, so the cut never changes it |
| Scoring.TopNCut | main.py:149-151 | with `top_n > 0`, the returned sets are subsets of the uncut ones with `min(top_n, size)` elements, and matched keeps the keywords most frequent in the resume; with `top_n <= 0` both are returned uncut |
| Scoring.SmallCutKeepsAll | main.py:149-151 | when at most `top_n` keywords pass the frequency filter, the top-N cut returns matched and missing whole |
| Pipeline.FilteredOfDistinct | main.py:137 | for a duplicate-free keyword list, such as `get_keywords` returns, the frequency filter keeps every keyword at `min_freq <= 1` and none above |
| Pipeline.AnalysisKeepsAllKeywords | main.py:244-254 | with the page's parameters, the top-75 cut drops nothing: matched is exactly the keywords present in the resume, and missing exactly those absent from it |
| Pipeline.AnalysisScore | main.py:244-274 | the page's score is `100 * (keywords found in the resume) / (number of keywords)`, the same ratio as its "Found N matching keywords out of M" message |

## Left out

- The Streamlit page is not modelled: layout, inputs, buttons, messages and `st.stop()` (main.py:166-318). Only the composition the button runs is stated, in `Pipeline`.
- The NLTK start-up check and downloads are not modelled (main.py:7, 11-79). This is network and file-system I/O. Its outcome is the `Nltk` parameter.
- NLTK's `word_tokenize` is a foreign library and is not modelled. It is the `wordTokenize` parameter. The token-shape guarantee of `Preprocess` in the ready state holds under the hypothesis `SoundTokenizer`.
- PDF, DOCX and plain-text extraction (main.py:118-124, 210-221) is not modelled. These are thin wrappers over PyPDF2 and python-docx.
- Console `print` logging and the `st.error`/`st.warning` calls inside the core functions are not modelled.
- Text.Normalize: characters are ASCII-only. `\w` is `[A-Za-z0-9_]`, and whitespace is space, tab, line feed, vertical tab, form feed, carriage return and 0x1C-0x1F. `isdigit` is non-empty and `0`-`9` only. Python also lower-cases and keeps non-ASCII letters and digits; the model deletes every non-ASCII character. So two words separated only by non-ASCII whitespace (such as U+00A0) become one token in the model, where Python splits them.
- Scoring.CalculateMatchScore: the score is the exact rational `100 * |matched| / |filtered|`. Python computes it in floating point and applies `round(score, 2)`; neither is modelled. So the "100 exactly when nothing is missing" and "0 exactly when nothing is matched" of `ScoreMeaning` hold of the exact score only: after rounding, Python also reports 100 with one of 30000 filtered keywords missing, and 0 with one of 30000 matched. The page's own call, with at most 75 keywords, never reaches such a case.
- Scoring.TopByCount: Python sorts a set in its iteration order before cutting it, so it is not determined which of equally frequent keywords survive. For `missing` every resume count is 0, so any `top_n` of them may survive. The model picks them by choice and states only the subset, the size and the ranking by resume count.
- Keywords.RankByCountSpec: ties are ordered by first occurrence in the token list, which is how `Counter.most_common` breaks them. The model builds that order but does not prove it.
- No concrete input/output examples are stated as lemmas.
