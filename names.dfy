/** `CertificateGenerator.format_name`: reject an empty name, keep the first
    three whitespace-separated words, title-case each and join them with
    single spaces. */
module NameFormat {
  import opened PyStr
  import opened Results

  /** How many words of a name the certificate keeps. */
  const MaxNameWords := 3

  /** `words[:3]`. */
  function FirstWords(words: seq<string>): seq<string> {
    if |words| <= MaxNameWords then words else words[..MaxNameWords]
  }

  /** `[word.title() for word in words]`. */
  function TitleWords(words: seq<string>): seq<string> {
    seq(|words|, k requires 0 <= k < |words| => Title(words[k]))
  }

  /** `format_name(name)`, with its `ValueError` as `Failure(InvalidName)`.
      The argument is always a `str` here (the caller passes `str(...)`), so
      the `isinstance` test cannot fail. */
  function FormatName(name: string): Result<string> {
    if name == "" then Failure(InvalidName)
    else
      var formatted := JoinWords(FirstWords(Split(Strip(name))));
      Success(JoinWords(TitleWords(Split(formatted))))
  }

  lemma TitleWordsAreWords(words: seq<string>)
    requires AllWords(words)
    ensures AllWords(TitleWords(words))
  {
    forall k | 0 <= k < |words|
      ensures IsWord(TitleWords(words)[k])
    {
      assert IsWord(words[k]);
      TitleIdempotent(words[k]);
    }
  }

  /** The second `split()` of `format_name` gives back the words the first
      one kept, and `strip()` changes nothing, so the result is the
      title-cased first three words of the input joined by single spaces. */
  lemma FormatNameDirect(name: string)
    requires name != ""
    ensures FormatName(name) == Success(JoinWords(TitleWords(FirstWords(Split(name)))))
  {
    var words := Split(name);
    var first := FirstWords(words);
    assert Split(Strip(name)) == words by { SplitStrip(name); }
    assert Split(JoinWords(first)) == first by { SplitJoinWords(first); }
  }

  /** The words of a title-cased, truncated, re-joined word list. */
  lemma JoinedTitleWords(words: seq<string>, r: string)
    requires AllWords(words)
    requires r == JoinWords(TitleWords(FirstWords(words)))
    ensures |Split(r)| == (if |words| < MaxNameWords then |words| else MaxNameWords)
    ensures forall k :: 0 <= k < |Split(r)| ==> Split(r)[k] == Title(words[k])
    ensures r == JoinWords(Split(r))
    ensures SingleSpaced(r)
  {
    var first := FirstWords(words);
    var titled := TitleWords(first);
    assert AllWords(titled) by { TitleWordsAreWords(first); }
    assert Split(r) == titled by { SplitJoinWords(titled); }
    JoinWordsSingleSpaced(titled);
  }

  /** `format_name` raises exactly on the empty string: a non-empty name of
      whitespace only is accepted and formats to "". */
  lemma FormatNameFailsOnlyOnEmpty(name: string)
    ensures FormatName(name).Failure? <==> name == ""
    ensures FormatName(name).Failure? ==> FormatName(name).error == InvalidName
    ensures name != "" && (forall i :: 0 <= i < |name| ==> IsSpace(name[i])) ==>
      FormatName(name) == Success("")
  {
    if name != "" {
      FormatNameDirect(name);
      SplitEmptyIffBlank(name);
    }
  }

  /** A formatted name's words are the title-cased first three words of the
      input, in order; the result is single-spaced with nothing at either end. */
  lemma FormatNameWords(name: string, r: string)
    requires FormatName(name) == Success(r)
    ensures |Split(r)| == (if |Split(name)| < MaxNameWords then |Split(name)| else MaxNameWords)
    ensures forall k :: 0 <= k < |Split(r)| ==> Split(r)[k] == Title(Split(name)[k])
    ensures r == JoinWords(Split(r))
    ensures SingleSpaced(r)
  {
    FormatNameDirect(name);
    JoinedTitleWords(Split(name), r);
  }

  /** Formatting a formatted, non-empty name changes nothing. */
  lemma FormatNameIdempotent(name: string, r: string)
    requires FormatName(name) == Success(r) && r != ""
    ensures FormatName(r) == Success(r)
  {
    FormatNameWords(name, r);
    var t := Split(r);
    assert FirstWords(t) == t;
    forall k | 0 <= k < |t|
      ensures TitleWords(t)[k] == t[k]
    {
      TitleIdempotent(Split(name)[k]);
    }
    assert TitleWords(t) == t;
    FormatNameDirect(r);
  }
}
