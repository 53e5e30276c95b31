/** The content reducer: drops stopwords, lemmatizes the remaining words in
    the mode their tag calls for, and rewrites the pronoun "i" as "Me". */
module Reducer {
  import opened Lexical

  /** The fixed stopword list of the translator, word for word. */
  const StopWords: set<string> := {
    "mightn't", "re", "wasn", "wouldn", "be", "has", "that", "does", "shouldn", "do", "you've",
    "off", "for", "didn't", "m", "ain", "haven", "weren't", "are", "she's", "wasn't", "its",
    "haven't", "wouldn't", "don", "weren", "s", "you'd", "don't", "doesn", "hadn't", "is",
    "was", "that'll", "should've", "a", "then", "the", "mustn", "i", "nor", "as", "it's",
    "needn't", "d", "am", "have", "hasn", "o", "aren't", "you'll", "couldn't", "you're",
    "mustn't", "didn", "doesn't", "ll", "an", "hadn", "whom", "y", "hasn't", "itself",
    "couldn", "needn", "shan't", "isn", "been", "such", "shan", "shouldn't", "aren",
    "being", "were", "did", "ma", "t", "having", "mightn", "ve", "isn't", "won't"
  }

  /** The part of speech a lemmatizer is asked to reduce a word as. */
  datatype Mode = Verb | Adjective | Default

  /** A lemmatizer: a word and a mode to the word's base form. */
  type Lemmatizer = (string, Mode) -> string

  /** Tags lemmatized as verbs; the plain noun tag NN is among them. */
  const VerbModeTags: set<string> := {"VBG", "VBD", "VBZ", "VBN", "NN"}
  /** Tags lemmatized as adjectives: adjectives and comparative or
      superlative adverbs. */
  const AdjectiveModeTags: set<string> := {"JJ", "JJR", "JJS", "RBR", "RBS"}

  /** The lemmatization mode for a tag. */
  function ModeFor(tag: string): (m: Mode)
    ensures m == Verb <==> tag in VerbModeTags
    ensures m == Adjective <==> tag in AdjectiveModeTags
  {
    if tag in VerbModeTags then Verb
    else if tag in AdjectiveModeTags then Adjective
    else Default
  }

  /** The base form a surviving token is reduced to. */
  function LemmaOf(t: Token, lemmatize: Lemmatizer): string {
    lemmatize(t.word, ModeFor(t.tag))
  }

  /** What one token adds to the reduced sequence. */
  function Contribution(t: Token, lemmatize: Lemmatizer): seq<string> {
    if t.word in StopWords then [] else [LemmaOf(t, lemmatize)]
  }

  /** The reduced sequence: each token's contribution, in order. */
  function Reduced(s: seq<Token>, lemmatize: Lemmatizer): seq<string>
    decreases |s|
  {
    if s == [] then []
    else Reduced(s[..|s| - 1], lemmatize) + Contribution(s[|s| - 1], lemmatize)
  }

  /** The filtering and lemmatizing loop. */
  method Reduce(tagged: seq<Token>, lemmatize: Lemmatizer) returns (filtered: seq<string>)
    ensures filtered == Reduced(tagged, lemmatize)
  {
    filtered := [];
    for i := 0 to |tagged|
      invariant filtered == Reduced(tagged[..i], lemmatize)
    {
      var w, pos := tagged[i].word, tagged[i].tag;
      if w !in StopWords {
        if pos in VerbModeTags {
          filtered := filtered + [lemmatize(w, Verb)];
        } else if pos in AdjectiveModeTags {
          filtered := filtered + [lemmatize(w, Adjective)];
        } else {
          filtered := filtered + [lemmatize(w, Default)];
        }
      }
      assert tagged[..i + 1][..i] == tagged[..i];
    }
    assert tagged[..|tagged|] == tagged;
  }

  /** Reduction works token by token: reducing a concatenation is
      concatenating the reductions. */
  lemma {:induction false} ReducedAppend(a: seq<Token>, b: seq<Token>, lemmatize: Lemmatizer)
    ensures Reduced(a + b, lemmatize) == Reduced(a, lemmatize) + Reduced(b, lemmatize)
    decreases |b|
  {
    if b == [] {
      assert a + b == a;
    } else {
      var b' := b[..|b| - 1];
      assert (a + b)[..|a + b| - 1] == a + b';
      ReducedAppend(a, b', lemmatize);
    }
  }

  /** The reduced sequence is never longer than the input, and is as long
      exactly when no input word is a stopword. */
  lemma {:induction false} ReducedLength(s: seq<Token>, lemmatize: Lemmatizer)
    ensures |Reduced(s, lemmatize)| <= |s|
    ensures |Reduced(s, lemmatize)| == |s| <==> forall i :: 0 <= i < |s| ==> s[i].word !in StopWords
    decreases |s|
  {
    if s != [] {
      var p := s[..|s| - 1];
      ReducedLength(p, lemmatize);
      assert forall i :: 0 <= i < |p| ==> p[i] == s[i];
    }
  }

  /** Positions of the non-stopword tokens, in increasing order. */
  function KeptIndices(s: seq<Token>): (k: seq<nat>)
    ensures forall j :: 0 <= j < |k| ==> k[j] < |s| && s[k[j]].word !in StopWords
    ensures forall j, j' :: 0 <= j < j' < |k| ==> k[j] < k[j']
    ensures forall i :: 0 <= i < |s| && s[i].word !in StopWords ==> i in k
    decreases |s|
  {
    if s == [] then []
    else
      var p := KeptIndices(s[..|s| - 1]);
      if s[|s| - 1].word in StopWords then p else p + [|s| - 1]
  }

  /** The reduced sequence is exactly the lemmas of the non-stopword tokens,
      in their original order: its j-th element is the lemma of the j-th
      kept token. */
  lemma {:induction false} ReducedSelects(s: seq<Token>, lemmatize: Lemmatizer)
    ensures |Reduced(s, lemmatize)| == |KeptIndices(s)|
    ensures forall j :: 0 <= j < |KeptIndices(s)| ==>
      Reduced(s, lemmatize)[j] == LemmaOf(s[KeptIndices(s)[j]], lemmatize)
    decreases |s|
  {
    if s != [] {
      var p := s[..|s| - 1];
      ReducedSelects(p, lemmatize);
      assert forall i :: 0 <= i < |p| ==> p[i] == s[i];
    }
  }

  /** A sentence made only of stopwords reduces to nothing. */
  lemma {:induction false} AllStopwordsReduceToEmpty(s: seq<Token>, lemmatize: Lemmatizer)
    requires forall i :: 0 <= i < |s| ==> s[i].word in StopWords
    ensures Reduced(s, lemmatize) == []
    decreases |s|
  {
    if s != [] {
      var p := s[..|s| - 1];
      assert forall i :: 0 <= i < |p| ==> p[i] == s[i];
      AllStopwordsReduceToEmpty(p, lemmatize);
    }
  }

  /** The pronoun rewrite: every "i" becomes "Me", everything else stays. */
  function AdjustPronoun(words: seq<string>): (r: seq<string>)
    ensures |r| == |words|
    ensures forall k :: 0 <= k < |words| ==>
      (words[k] == "i" ==> r[k] == "Me") && (words[k] != "i" ==> r[k] == words[k])
    ensures "i" !in r
    decreases |words|
  {
    if words == [] then []
    else [if words[0] == "i" then "Me" else words[0]] + AdjustPronoun(words[1..])
  }

  /** The rewrite never fires on a reduced sequence when the lemmatizer
      produces "i" only from "i" itself: "i" is a stopword and is dropped
      before it could be lemmatized. */
  lemma PronounRewriteInactive(s: seq<Token>, lemmatize: Lemmatizer)
    requires forall w, m :: lemmatize(w, m) == "i" ==> w == "i"
    ensures AdjustPronoun(Reduced(s, lemmatize)) == Reduced(s, lemmatize)
  {
    var r := Reduced(s, lemmatize);
    ReducedSelects(s, lemmatize);
    forall j | 0 <= j < |r|
      ensures r[j] != "i"
    {
      var t := s[KeptIndices(s)[j]];
      assert t.word !in StopWords;
      assert r[j] == lemmatize(t.word, ModeFor(t.tag));
    }
    assert AdjustPronoun(r) == r;
  }
}
