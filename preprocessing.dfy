/** `preprocess_text`: normalise a document into its token stream. */
module Preprocessing {
  import opened Collections
  import opened Text

  /** What the one-time NLTK start-up check left behind. When the resources
      are ready, the English stopword list and `word_tokenize` are available;
      `word_tokenize` answers `None` where it raises. When they are not, the
      stopword set is empty and splitting is plain `str.split()`. */
  datatype Nltk =
    | Ready(stopWords: set<string>, wordTokenize: string -> Option<seq<string>>)
    | Unavailable

  function StopWords(nltk: Nltk): set<string> {
    match nltk
    case Ready(stopWords, _) => stopWords
    case Unavailable => {}
  }

  /** Step three: split the normalised text. A tokenizer that raises falls
      back to a whitespace split. */
  function Tokenize(nltk: Nltk, text: string): seq<string> {
    match nltk
    case Unavailable => SplitWhitespace(text)
    case Ready(_, wordTokenize) =>
      match wordTokenize(text)
      case Some(tokens) => tokens
      case None => SplitWhitespace(text)
  }

  /** Step four's test: not a stopword, and longer than one character unless
      it is a number. */
  predicate KeepToken(w: string, stopWords: set<string>) {
    w !in stopWords && (|w| > 1 || IsDigits(w))
  }

  /** What the model assumes of the library tokenizer: whatever pieces it
      returns are non-empty and made of non-whitespace characters of its
      input. */
  predicate PiecesOf(pieces: Option<seq<string>>, s: string) {
    pieces.None? || forall w :: w in pieces.value ==> IsPieceOf(w, s)
  }

  ghost predicate SoundTokenizer(wordTokenize: string -> Option<seq<string>>) {
    forall s :: PiecesOf(wordTokenize(s), s)
  }

  /** A normalised token: non-empty, lower-case word characters only. */
  predicate IsToken(w: string) {
    w != [] && forall c :: c in w ==> IsTokenChar(c)
  }

  /** `preprocess_text(text)`; `None` stands for an absent text. */
  function Preprocess(text: Option<string>, nltk: Nltk): (tokens: seq<string>)
    ensures text == None || text == Some([]) ==> tokens == []
    ensures forall w :: w in tokens ==> w !in StopWords(nltk) && (|w| > 1 || IsDigits(w))
    ensures (nltk.Ready? ==> SoundTokenizer(nltk.wordTokenize)) ==>
              forall w :: w in tokens ==> IsToken(w)
  {
    if text.None? || text.value == [] then []
    else
      var normalized := Normalize(text.value);
      var pieces := Tokenize(nltk, normalized);
      assert (nltk.Ready? ==> SoundTokenizer(nltk.wordTokenize)) ==>
               forall w :: w in pieces ==> IsPieceOf(w, normalized) by {
        SplitPieces(normalized);
        if nltk.Ready? && SoundTokenizer(nltk.wordTokenize) {
          assert PiecesOf(nltk.wordTokenize(normalized), normalized);
        }
      }
      var stopWords := StopWords(nltk);
      Filter(w => KeepToken(w, stopWords), pieces)
  }

  /** Completeness of `preprocess_text`: every piece the splitter makes of the
      lower-cased, punctuation-free text comes back as often as it was split
      off when it passes the filter, and not at all otherwise. */
  lemma PreprocessCounts(text: string, nltk: Nltk)
    requires text != []
    ensures forall w ::
              Count(Preprocess(Some(text), nltk), w) ==
              if KeepToken(w, StopWords(nltk)) then Count(Tokenize(nltk, Lower(Filter(Kept, text))), w) else 0
  {
    NormalizeLowersKept(text);
    var stopWords := StopWords(nltk);
    FilterCount(w => KeepToken(w, stopWords), Tokenize(nltk, Normalize(text)));
  }

  /** The characters of words joined by spaces are the words' characters and
      the separating spaces. */
  lemma {:induction false} JoinSpaceOfTokens(tokens: seq<string>)
    requires forall w :: w in tokens ==> IsToken(w)
    ensures forall c :: c in JoinSpace(tokens) ==> IsTokenChar(c) || IsSpace(c)
  {
    if |tokens| > 1 {
      assert tokens[0] in tokens;
      assert forall w :: w in tokens[1..] ==> w in tokens;
      JoinSpaceOfTokens(tokens[1..]);
    } else if |tokens| == 1 {
      assert tokens[0] in tokens;
    }
  }

  lemma TokensAreWords(tokens: seq<string>)
    requires forall w :: w in tokens ==> IsToken(w)
    ensures forall w :: w in tokens ==> IsWord(w)
  {
    forall w | w in tokens ensures IsWord(w) {
      assert IsToken(w);
    }
  }

  /** Tokens that would survive the filter, joined by spaces and
      preprocessed again with a whitespace splitter, come back unchanged. */
  lemma ReprocessTokens(tokens: seq<string>, nltk: Nltk)
    requires forall w :: w in tokens ==> IsToken(w) && KeepToken(w, StopWords(nltk))
    requires Tokenize(nltk, JoinSpace(tokens)) == SplitWhitespace(JoinSpace(tokens))
    ensures Preprocess(Some(JoinSpace(tokens)), nltk) == tokens
  {
    if tokens != [] {
      var text := JoinSpace(tokens);
      assert text != [] by { assert tokens[0] in tokens; }
      var stopWords := StopWords(nltk);
      var keep := w => KeepToken(w, stopWords);
      calc {
        Preprocess(Some(text), nltk);
        Filter(keep, Tokenize(nltk, Normalize(text)));
        { JoinSpaceOfTokens(tokens); NormalizeFixesNormalText(text); }
        Filter(keep, Tokenize(nltk, text));
        Filter(keep, SplitWhitespace(text));
        { TokensAreWords(tokens); SplitJoin(tokens); }
        Filter(keep, tokens);
        { FilterKeepsAll(keep, tokens); }
        tokens;
      }
    }
  }

  /** Without the NLTK resources, preprocessing is idempotent: re-processing
      the space-joined token stream gives the same stream. */
  lemma PreprocessIdempotent(text: Option<string>)
    ensures var tokens := Preprocess(text, Unavailable);
      Preprocess(Some(JoinSpace(tokens)), Unavailable) == tokens
  {
    ReprocessTokens(Preprocess(text, Unavailable), Unavailable);
  }
}
