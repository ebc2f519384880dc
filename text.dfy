/** Character classes and the string operations preprocessing is built from:
    `str.lower()`, `re.sub(r'[^\w\s]', '', text)`, `str.split()` and
    `" ".join(...)`, over the ASCII alphabet. */
module Text {
  import opened Collections

  /** The regular-expression class `\w`: letters, digits and underscore. */
  predicate IsWordChar(c: char) {
    'a' <= c <= 'z' || 'A' <= c <= 'Z' || '0' <= c <= '9' || c == '_'
  }

  /** Whitespace as both `\s` and `str.split()` see it: space, tab, line
      feed, vertical tab, form feed, carriage return and the four
      information separators 0x1C-0x1F. */
  predicate IsSpace(c: char) {
    c == ' ' || '\t' <= c <= '\r' || '\U{1C}' <= c <= '\U{1F}'
  }

  predicate IsUpper(c: char) {
    'A' <= c <= 'Z'
  }

  predicate IsDigit(c: char) {
    '0' <= c <= '9'
  }

  /** A character a normalised token may hold: a lower-case word character. */
  predicate IsTokenChar(c: char) {
    IsWordChar(c) && !IsUpper(c)
  }

  /** `str.isdigit()`: non-empty and made of digits only. */
  predicate IsDigits(w: string) {
    |w| > 0 && forall c :: c in w ==> IsDigit(c)
  }

  function LowerChar(c: char): (d: char)
    ensures !IsUpper(d)
    ensures IsUpper(c) ==> 'a' <= d <= 'z' && d as int == c as int + 32
    ensures !IsUpper(c) ==> d == c
  {
    if IsUpper(c) then (c as int + 32) as char else c
  }

  /** `str.lower()`. */
  function Lower(s: string): (r: string)
    ensures |r| == |s|
    ensures forall i :: 0 <= i < |s| ==> r[i] == LowerChar(s[i])
  {
    seq(|s|, i requires 0 <= i < |s| => LowerChar(s[i]))
  }

  /** A character that `re.sub(r'[^\w\s]', '', ...)` keeps. */
  predicate Kept(c: char) {
    IsWordChar(c) || IsSpace(c)
  }

  /** Steps one and two of preprocessing: lower-case the text, then delete
      every character that is neither a word character nor whitespace. */
  function Normalize(text: string): (r: string)
    ensures forall c :: c in r ==> IsTokenChar(c) || IsSpace(c)
    ensures forall c :: c in text && Kept(c) ==> LowerChar(c) in r
  {
    var lowered := Lower(text);
    assert forall c :: c in lowered ==> !IsUpper(c);
    assert forall c :: c in text ==> LowerChar(c) in lowered by {
      forall c | c in text ensures LowerChar(c) in lowered {
        var i :| 0 <= i < |text| && text[i] == c;
        assert lowered[i] == LowerChar(c);
      }
    }
    Filter(Kept, lowered)
  }

  /** Lower-casing keeps a character's class: it is kept exactly when its
      lower-case form is. */
  lemma LowerCharKept(c: char)
    ensures Kept(LowerChar(c)) == Kept(c)
  {
  }

  lemma LowerConcat(a: string, b: string)
    ensures Lower(a + b) == Lower(a) + Lower(b)
  {
    assert forall i :: 0 <= i < |a + b| ==> Lower(a + b)[i] == (Lower(a) + Lower(b))[i];
  }

  /** Deleting characters and lower-casing commute. */
  lemma {:induction false} FilterKeptLower(text: string)
    ensures Filter(Kept, Lower(text)) == Lower(Filter(Kept, text))
  {
    if text != [] {
      var lowered := Lower(text);
      assert lowered[0] == LowerChar(text[0]);
      assert lowered[1..] == Lower(text[1..]);
      LowerCharKept(text[0]);
      FilterKeptLower(text[1..]);
      if Kept(text[0]) {
        LowerConcat([text[0]], Filter(Kept, text[1..]));
        assert Lower([text[0]]) == [LowerChar(text[0])];
      }
    }
  }

  /** Normalising is lower-casing the characters `\w` or `\s` matches, in
      their order. */
  lemma NormalizeLowersKept(text: string)
    ensures Normalize(text) == Lower(Filter(Kept, text))
  {
    FilterKeptLower(text);
  }

  /** Text already made of lower-case word characters and whitespace is left
      as it is. */
  lemma NormalizeFixesNormalText(text: string)
    requires forall c :: c in text ==> IsTokenChar(c) || IsSpace(c)
    ensures Normalize(text) == text
  {
    forall i | 0 <= i < |text| ensures Lower(text)[i] == text[i] {
      assert text[i] in text;
    }
    assert Lower(text) == text;
    FilterKeepsAll(Kept, text);
  }

  /** Normalising twice is normalising once. */
  lemma NormalizeIdempotent(text: string)
    ensures Normalize(Normalize(text)) == Normalize(text)
  {
    NormalizeFixesNormalText(Normalize(text));
  }

  /** The text with its leading whitespace removed. */
  function TrimStart(s: string): (r: string)
    ensures |r| <= |s| && r == s[|s| - |r|..]
    ensures r == [] || !IsSpace(r[0])
  {
    if s != [] && IsSpace(s[0]) then TrimStart(s[1..]) else s
  }

  /** The length of the longest prefix of `s` without whitespace. */
  function WordLength(s: string): (n: nat)
    ensures n <= |s|
    ensures s != [] && !IsSpace(s[0]) ==> n > 0
    ensures n < |s| ==> IsSpace(s[n])
  {
    if s == [] || IsSpace(s[0]) then 0 else 1 + WordLength(s[1..])
  }

  /** No character before `WordLength(s)` is whitespace. */
  lemma {:induction false} WordLengthNoSpace(s: string)
    ensures forall i :: 0 <= i < WordLength(s) ==> !IsSpace(s[i])
  {
    if s != [] && !IsSpace(s[0]) {
      WordLengthNoSpace(s[1..]);
      assert forall i :: 1 <= i < WordLength(s) ==> s[i] == s[1..][i - 1];
    }
  }

  /** `w` is a non-empty piece of `s` without whitespace: every character of
      it is a non-whitespace character of `s`. */
  predicate IsPieceOf(w: string, s: string) {
    w != [] && forall c :: c in w ==> c in s && !IsSpace(c)
  }

  lemma SliceChars(s: string, i: nat, j: nat)
    requires i <= j <= |s|
    ensures forall c :: c in s[i..j] ==> c in s
  {
    forall c | c in s[i..j] ensures c in s {
      var k :| 0 <= k < j - i && s[i..j][k] == c;
      assert s[i + k] == c;
    }
  }

  /** `str.split()` with no separator: the maximal runs of non-whitespace
      characters, in order. */
  function SplitWhitespace(s: string): (r: seq<string>)
    ensures |r| <= |s|
    decreases |s|
  {
    var t := TrimStart(s);
    if t == [] then []
    else
      var n := WordLength(t);
      [t[..n]] + SplitWhitespace(t[n..])
  }

  /** A piece of a slice of `s` is a piece of `s`. */
  lemma PieceOfSlice(w: string, s: string, i: nat, j: nat)
    requires i <= j <= |s|
    requires IsPieceOf(w, s[i..j])
    ensures IsPieceOf(w, s)
  {
    SliceChars(s, i, j);
  }

  /** The longest whitespace-free prefix of text that starts with a
      non-whitespace character is a piece of that text. */
  lemma LeadingWord(t: string)
    requires t != [] && !IsSpace(t[0])
    ensures IsPieceOf(t[..WordLength(t)], t)
  {
    var n := WordLength(t);
    WordLengthNoSpace(t);
    forall c | c in t[..n] ensures !IsSpace(c) {
      var k :| 0 <= k < n && t[..n][k] == c;
      assert t[k] == c;
    }
    PieceOfSlice(t[..n], t, 0, n);
  }

  /** Pieces of a suffix of `s` are pieces of `s`. */
  lemma PiecesOfSuffix(ws: seq<string>, suffix: string, s: string)
    requires |suffix| <= |s| && suffix == s[|s| - |suffix|..]
    requires forall w :: w in ws ==> IsPieceOf(w, suffix)
    ensures forall w :: w in ws ==> IsPieceOf(w, s)
  {
    var k := |s| - |suffix|;
    assert suffix == s[k..|s|];
    forall w | w in ws ensures IsPieceOf(w, s) {
      PieceOfSlice(w, s, k, |s|);
    }
  }

  /** Every piece `str.split()` returns is a non-empty run of non-whitespace
      characters of its input. */
  lemma {:induction false} SplitPieces(s: string)
    ensures forall w :: w in SplitWhitespace(s) ==> IsPieceOf(w, s)
    decreases |s|
  {
    var t := TrimStart(s);
    if t != [] {
      var n := WordLength(t);
      var head, tail := t[..n], t[n..];
      LeadingWord(t);
      PiecesOfSuffix([head], t, s);
      SplitPieces(tail);
      assert tail == t[|t| - |tail|..];
      PiecesOfSuffix(SplitWhitespace(tail), tail, t);
      PiecesOfSuffix(SplitWhitespace(tail), t, s);
      assert SplitWhitespace(s) == [head] + SplitWhitespace(tail);
    }
  }

  /** `w` is a contiguous run of `s`. */
  predicate IsSliceOf(w: string, s: string) {
    exists i, j :: 0 <= i <= j <= |s| && w == s[i..j]
  }

  /** A run of a suffix of `s` is a run of `s`. */
  lemma SlicesOfSuffix(ws: seq<string>, suffix: string, s: string)
    requires |suffix| <= |s| && suffix == s[|s| - |suffix|..]
    requires forall w :: w in ws ==> IsSliceOf(w, suffix)
    ensures forall w :: w in ws ==> IsSliceOf(w, s)
  {
    var k := |s| - |suffix|;
    forall w | w in ws ensures IsSliceOf(w, s) {
      var i, j :| 0 <= i <= j <= |suffix| && w == suffix[i..j];
      assert w == s[k + i..k + j];
    }
  }

  /** Every piece `str.split()` returns is a contiguous run of its input. */
  lemma {:induction false} SplitSlices(s: string)
    ensures forall w :: w in SplitWhitespace(s) ==> IsSliceOf(w, s)
    decreases |s|
  {
    var t := TrimStart(s);
    if t != [] {
      var n := WordLength(t);
      var head, tail := t[..n], t[n..];
      assert IsSliceOf(head, t) by { assert head == t[0..n]; }
      SlicesOfSuffix([head], t, s);
      SplitSlices(tail);
      assert tail == t[|t| - |tail|..];
      SlicesOfSuffix(SplitWhitespace(tail), tail, t);
      SlicesOfSuffix(SplitWhitespace(tail), t, s);
      assert SplitWhitespace(s) == [head] + SplitWhitespace(tail);
    }
  }

  /** `" ".join(words)`. */
  function JoinSpace(words: seq<string>): (r: string)
    ensures words != [] && words[0] != [] ==> r != [] && r[0] == words[0][0]
  {
    if words == [] then []
    else if |words| == 1 then words[0]
    else words[0] + " " + JoinSpace(words[1..])
  }

  /** A word is a non-empty string without whitespace. */
  predicate IsWord(w: string) {
    w != [] && forall c :: c in w ==> !IsSpace(c)
  }

  lemma {:induction false} WordLengthOfWord(w: string, tail: string)
    requires forall c :: c in w ==> !IsSpace(c)
    requires tail == [] || IsSpace(tail[0])
    ensures WordLength(w + tail) == |w|
  {
    if w != [] {
      assert w[0] in w;
      assert (w + tail)[1..] == w[1..] + tail;
      WordLengthOfWord(w[1..], tail);
    } else {
      assert w + tail == tail;
    }
  }

  /** A word followed by nothing or by whitespace splits off as one piece. */
  lemma SplitLeadingWord(w: string, tail: string)
    requires IsWord(w)
    requires tail == [] || IsSpace(tail[0])
    ensures SplitWhitespace(w + tail) == [w] + SplitWhitespace(tail)
  {
    var s := w + tail;
    assert w[0] in w && s[0] == w[0];
    assert TrimStart(s) == s;
    WordLengthOfWord(w, tail);
    assert s[..|w|] == w && s[|w|..] == tail;
  }

  /** Leading whitespace does not change the split. */
  lemma SplitLeadingSpace(c: char, s: string)
    requires IsSpace(c)
    ensures SplitWhitespace([c] + s) == SplitWhitespace(s)
  {
    assert ([c] + s)[1..] == s;
    assert TrimStart([c] + s) == TrimStart(s);
  }

  /** A word followed by a space and more text splits off as one piece. */
  lemma SplitWordThenSpace(w: string, more: string)
    requires IsWord(w)
    ensures SplitWhitespace(w + " " + more) == [w] + SplitWhitespace(more)
  {
    assert w + " " + more == w + ([' '] + more);
    SplitLeadingWord(w, [' '] + more);
    SplitLeadingSpace(' ', more);
  }

  /** Splitting words joined by single spaces gives the words back. */
  lemma {:induction false} SplitJoin(words: seq<string>)
    requires forall w :: w in words ==> IsWord(w)
    ensures SplitWhitespace(JoinSpace(words)) == words
  {
    if |words| == 1 {
      var w := words[0];
      assert IsWord(w) by { assert w in words; }
      assert JoinSpace(words) == w + [];
      SplitLeadingWord(w, []);
    } else if |words| > 1 {
      var w, rest := words[0], words[1..];
      assert IsWord(w) by { assert w in words; }
      assert forall v :: v in rest ==> IsWord(v) by {
        forall v | v in rest ensures IsWord(v) { assert v in words; }
      }
      calc {
        SplitWhitespace(JoinSpace(words));
        SplitWhitespace(w + " " + JoinSpace(rest));
        { SplitWordThenSpace(w, JoinSpace(rest)); }
        [w] + SplitWhitespace(JoinSpace(rest));
        { SplitJoin(rest); }
        [w] + rest;
        words;
      }
    }
  }
}
