/** The whole text-to-gloss translation of one sentence: lower-case it, tag
    it, count tenses, reduce the content, add the tense marker and resolve
    every word against the animation clips. The tagger, the lemmatizer and
    the clip lookup are the caller's. */
module Pipeline {
  import opened Lexical
  import opened Tense
  import opened Reducer
  import opened Resolver

  /** What the translator answers: the gloss tokens and the lower-cased
      sentence. */
  datatype Translation = Translation(words: seq<string>, text: string)

  /** The reduced words of a tagged sentence with the tense marker in front. */
  function Marked(tagged: seq<Token>, lemmatize: Lemmatizer): seq<string> {
    InsertMarker(AdjustPronoun(Reduced(tagged, lemmatize)), Classify(tagged))
  }

  /** The translation of a sentence, stage by stage. */
  function Gloss(sentence: string, tagger: Tagger, lemmatize: Lemmatizer, assetExists: AssetLookup): Translation {
    var text := Lower(sentence);
    Translation(Resolved(Marked(tagger(text), lemmatize), assetExists), text)
  }

  /** The translation body of the animation endpoint. */
  method AnimationView(sentence: string, tagger: Tagger, lemmatize: Lemmatizer, assetExists: AssetLookup)
    returns (r: Translation)
    ensures r == Gloss(sentence, tagger, lemmatize, assetExists)
    ensures r.text == Lower(sentence)
    ensures Concat(r.words) == Concat(Marked(tagger(r.text), lemmatize))
    ensures |r.words| == TotalWidth(Marked(tagger(r.text), lemmatize), assetExists)
  {
    var text := Lower(sentence);
    var tagged := tagger(text);
    var tense := Classify(tagged);

    var words := Reduce(tagged, lemmatize);
    words := AdjustPronoun(words);

    var probableTense := Dominant(tense);
    if probableTense == Past && tense.past >= 1 {
      words := ["Before"] + words;
    } else if probableTense == Future && tense.future >= 1 {
      if "Will" !in words {
        words := ["Will"] + words;
      }
    } else if probableTense == Present && tense.presentContinuous >= 1 {
      words := ["Now"] + words;
    }

    var finalWords := ResolveAssets(words, assetExists);
    ResolvedPreservesText(words, assetExists);
    ResolvedLength(words, assetExists);
    r := Translation(finalWords, text);
  }

  /** The marker-prefixed words are the rewritten reduced words with at most
      one marker in front, and that marker is one of the three. */
  lemma MarkedShape(tagged: seq<Token>, lemmatize: Lemmatizer)
    ensures var m, w := Marked(tagged, lemmatize), AdjustPronoun(Reduced(tagged, lemmatize));
      (m == w || (|m| == |w| + 1 && m[1..] == w && m[0] in {"Before", "Will", "Now"}))
  {
    var w := AdjustPronoun(Reduced(tagged, lemmatize));
    var m := Marked(tagged, lemmatize);
    if |m| == |w| + 1 {
      assert m[1..] == w;
    }
  }

  /** Stopwords still take part in tense counting, so a sentence made only
      of stopwords can get a marker: "was", tagged as a past verb, yields
      nothing but "Before". */
  lemma StopwordOnlyInputMarked(lemmatize: Lemmatizer)
    ensures Reduced([Token("was", "VBD")], lemmatize) == []
    ensures Marked([Token("was", "VBD")], lemmatize) == ["Before"]
  {
    var s := [Token("was", "VBD")];
    assert s[..0] == [];
    assert "was" in StopWords;
    var c := Classify(s);
    assert c.past == 1 && c.future == 0 && c.present == 0;
  }

  /** For every sentence made only of stopwords the content is empty, and
      whether a marker appears depends on the tense counts alone. */
  lemma StopwordOnlyInputMarker(s: seq<Token>, lemmatize: Lemmatizer)
    requires forall i :: 0 <= i < |s| ==> s[i].word in StopWords
    ensures Marked(s, lemmatize) == InsertMarker([], Classify(s))
  {
    AllStopwordsReduceToEmpty(s, lemmatize);
  }
}
