/** A word: a byte buffer together with the charset it is written in. */
module Word {
  import opened Exceptions
  import opened ParserHelpers
  import Charset

  datatype Word = Word(buffer: string, charset: Charset.Charset)

  /** `word()`: empty, in the locale charset (passed in: the locale
      provider is not part of this model). */
  function Empty(locale: Charset.Charset): (w: Word)
    ensures |w.buffer| == 0 && w.charset == locale
  {
    Word([], locale)
  }

  /** `word(const string&)`: the buffer, in the locale charset. */
  function FromBuffer(buffer: string, locale: Charset.Charset): (w: Word)
    ensures w == Make(buffer, locale)
  {
    Word(buffer, locale)
  }

  /** `word(const string&, const charset&)`: both stored unchanged. */
  function Make(buffer: string, charset: Charset.Charset): (w: Word)
    ensures w.buffer == buffer && w.charset == charset
    ensures Equal(w, Word(buffer, charset))
    ensures forall other: Word :: Equal(w, other) <==> Charset.Equal(charset, other.charset) && buffer == other.buffer
  {
    Word(buffer, charset)
  }

  /** `word::operator=(const string&)`: new buffer, same charset. */
  function AssignBuffer(w: Word, s: string): (r: Word)
    ensures r.buffer == s && r.charset == w.charset
    ensures Equal(r, w) <==> s == w.buffer
  {
    EqualIsReflexive(w);
    w.(buffer := s)
  }

  /** `word::operator==`. */
  predicate Equal(a: Word, b: Word) {
    Charset.Equal(a.charset, b.charset) && a.buffer == b.buffer
  }

  /** `word::operator!=`, written out as in the source. */
  predicate NotEqual(a: Word, b: Word) {
    Charset.NotEqual(a.charset, b.charset) || a.buffer != b.buffer
  }

  lemma EqualIsReflexive(w: Word)
    ensures Equal(w, w)
  {
    Charset.EqualIsEquivalence(w.charset, w.charset, w.charset);
  }

  /** `!=` is the exact negation of `==`, and `==` compares the bytes
      exactly and the charset names ignoring case. */
  lemma NotEqualIsNegation(a: Word, b: Word)
    ensures NotEqual(a, b) <==> !Equal(a, b)
    ensures Equal(a, b) <==> a.buffer == b.buffer && LowerString(a.charset.name) == LowerString(b.charset.name)
  {
    Charset.EqualIffSameLowerName(a.charset, b.charset);
  }

  lemma EqualIsEquivalence(a: Word, b: Word, c: Word)
    ensures Equal(a, a)
    ensures Equal(a, b) ==> Equal(b, a)
    ensures Equal(a, b) && Equal(b, c) ==> Equal(a, c)
  {
    Charset.EqualIsEquivalence(a.charset, b.charset, c.charset);
  }

  /** `word::getConvertedText`: the buffer converted from the word's own
      charset to `dest`. */
  function ConvertedText(w: Word, dest: Charset.Charset, open: Charset.Opener): (r: Result<string>)
    ensures r.Failure? <==> open(dest.name, w.charset.name).None?
    ensures r.Failure? ==> r.error == ConversionUnavailable
    ensures r.Success? ==> r.value == Charset.Transcode(open(dest.name, w.charset.name).value, w.buffer)
  {
    Charset.Convert(open, w.buffer, w.charset, dest)
  }
}
