# Text-to-gloss translation of the audio-to-sign-language converter

This project models the translation step of the converter's animation endpoint. The endpoint takes an English sentence and produces the ordered list of tokens that drive a sign-language animation. Each token is either a word that has a prerecorded clip or a single letter that spells out a word without one. The step runs in four stages:

1. **Lexical analysis.** The sentence is lower-cased, then tokenized and tagged with Penn Treebank part-of-speech tags (module `Lexical`).
2. **Tense classification.** The stage counts modal verbs (future), present forms `VBP`/`VBZ`/`VBG`, past forms `VBD`/`VBN` and gerunds `VBG` (present continuous). A gerund therefore counts twice. The dominant tense is the first maximal count in the order future, present, past, present continuous (module `Tense`).
3. **Content reduction.** Words in the fixed stopword list are dropped. Each remaining word is lemmatized as a verb, an adjective or by default, depending on its tag. Note that `NN` is lemmatized as a verb. Finally every `"i"` is rewritten as `"Me"` (module `Reducer`).
4. **Markers and clips.** At most one tense marker is put in front: `"Before"`, `"Will"` or `"Now"`. Each word is then emitted whole if a clip exists for it, or otherwise as its characters (module `Resolver`).

Module `Pipeline` puts the stages together in `AnimationView`. It returns the gloss tokens and the lower-cased sentence.

The three foreign collaborators are parameters of the model:

- the tokenizer and tagger is a function `string -> seq<Token>`;
- the WordNet lemmatizer is a function `(string, Mode) -> string`;
- the static-file lookup of `word + ".mp4"` is a predicate `string -> bool`.

The source walks the words and their tags together. The tagger returns each input word paired with its tag, in order, so the model works on a single sequence of `Token(word, tag)`.

The two loops of the source are methods with loop invariants:

- `Reducer.Reduce` is proved equal to the specification function `Reducer.Reduced`;
- `Resolver.ResolveAssets` is proved equal to `Resolver.Resolved`.

The lemmas are then stated about those functions. The tag counts and the pronoun rewrite are comprehensions in the source, and the maximum is a call to the builtin `max`, so these three are modelled as functions.

A sentence made only of stopwords can still get a marker. Tenses are counted over all tagged tokens (A2SL/views.py:63-68), stopwords included, and several stopwords are verbs ("was", "has", "did", ...). So `"was"` tagged `VBD` reduces to nothing but still gets `"Before"`. `Pipeline.StopwordOnlyInputMarker` states the general case: for stopword-only input the marked sequence is the marker for the tense counts alone. `Pipeline.StopwordOnlyInputMarked` proves the `"was"` case. A sentence with no verb tag gets no marker (`Resolver.NoVerbNoMarker`).

## Model

| member | source | states |
|---|---|---|
| `Lexical.Lower` | A2SL/views.py:56 | the text keeps its length, every character is lower-cased one for one, and no upper-case ASCII letter is left |
| `Lexical.LowerIdempotent` | A2SL/views.py:56 | lower-casing the returned text again changes nothing |
| `Tense.CountTagged` | A2SL/views.py:64-67 | a tag count is at most the number of tokens, and it is zero exactly when no token carries one of the counted tags |
| `Tense.CountMonotone` | A2SL/views.py:65-67 | counting a superset of tags never gives a smaller count; this is why the gerund count is at most the present count |
| `Tense.CountDisjointUnion` | A2SL/views.py:64-66 | counts over disjoint tag sets add up to the count over their union |
| `Tense.Classify` | A2SL/views.py:63-68 | each count is at most the token count; present continuous is at most present; future + present + past is at most the token count; those three are all zero exactly when no token has a verb tag |
| `Tense.Dominant` | A2SL/views.py:99 | the chosen category has a maximal count, and every category declared before it has a strictly smaller count (first maximum wins) |
| `Tense.DominantUnique` | A2SL/views.py:99 | those two properties determine the dominant category uniquely |
| `Tense.AllZeroIsFuture` | A2SL/views.py:99 | all-zero counts select future |
| `Tense.NeverContinuous` | A2SL/views.py:63-68 | for any tagged sentence the dominant category is never present continuous |
| `Reducer.ModeFor` | A2SL/views.py:87-92 | verb mode exactly for VBG, VBD, VBZ, VBN and NN; adjective mode exactly for JJ, JJR, JJS, RBR and RBS; default mode otherwise |
| `Reducer.Reduce` | A2SL/views.py:83-93 | the filtering loop returns exactly the reduced sequence: per token, in order, nothing for a stopword and otherwise its lemma in its tag's mode |
| `Reducer.ReducedAppend` | A2SL/views.py:85-92 | reduction is token by token: the reduction of a concatenation is the concatenation of the reductions |
| `Reducer.ReducedLength` | A2SL/views.py:85-92 | the reduced sequence is never longer than the input, and it is as long exactly when the input holds no stopword |
| `Reducer.KeptIndices` | A2SL/views.py:86 | the kept positions are strictly increasing; each one holds a non-stopword; every non-stopword position is among them |
| `Reducer.ReducedSelects` | A2SL/views.py:85-92 | the j-th reduced word is the lemma of the j-th non-stopword token, so stopwords contribute nothing and order is preserved |
| `Reducer.AllStopwordsReduceToEmpty` | A2SL/views.py:71-86 | a sentence made only of stopwords reduces to the empty sequence |
| `Reducer.AdjustPronoun` | A2SL/views.py:96 | the length is unchanged; "i" becomes "Me"; every other word is untouched; no "i" remains |
| `Reducer.PronounRewriteInactive` | A2SL/views.py:86-96 | if the lemmatizer produces "i" only from "i", the rewrite changes nothing, because "i" is a stopword |
| `Resolver.InsertMarker` | A2SL/views.py:100-106 | at most one word is added, at the front, and the tail is the input words; "Before" is added iff past dominates with past ≥ 1; "Will" is added iff future dominates with future ≥ 1 and "Will" is absent; "Now" is added iff present dominates with present continuous ≥ 1; an added word is one of these three; the words are returned unchanged iff none of the three conditions holds |
| `Resolver.NoVerbNoMarker` | A2SL/views.py:100-106 | a sentence with no verb tag gets no marker |
| `Resolver.Spelled` | A2SL/views.py:115 | a word splits into one single-character string per character, left to right |
| `Resolver.ResolveAssets` | A2SL/views.py:109-117 | the resolution loop returns exactly the resolved sequence: per word, in order, the whole word when its clip exists and otherwise its characters |
| `Resolver.ConcatSpelled` | A2SL/views.py:115 | joining a word's characters gives the word back |
| `Resolver.ResolvedAppend` | A2SL/views.py:110-117 | resolution is word by word: the resolution of a concatenation is the concatenation of the resolutions |
| `Resolver.ResolvedPreservesText` | A2SL/views.py:110-117 | the resolved tokens joined together equal the input words joined together |
| `Resolver.ResolvedLength` | A2SL/views.py:110-117 | the output length is the sum, over words, of 1 when the clip exists and of the word's length otherwise |
| `Resolver.ResolvedTokens` | A2SL/views.py:110-117 | every output token is a whole input word that has a clip, or a one-character string made of a character of an input word that has no clip |
| `Resolver.ResolvedIdempotent` | A2SL/views.py:110-117 | resolving the output again with the same clip store gives the same output |
| `Pipeline.AnimationView` | A2SL/views.py:55-119 | the answer is the stage-by-stage gloss; its text is the lower-cased sentence; its tokens join up to the marker-prefixed words; its length is the clip/character width of those words |
| `Pipeline.MarkedShape` | A2SL/views.py:100-106 | the marker-prefixed words are the rewritten reduced words, possibly preceded by exactly one of "Before", "Will" or "Now" |
| `Pipeline.StopwordOnlyInputMarker` | A2SL/views.py:63-106 | for any sentence made only of stopwords, the marked sequence is the marker chosen by the tense counts in front of nothing |
| `Pipeline.StopwordOnlyInputMarked` | A2SL/views.py:63-106 | the stopword "was" tagged VBD reduces to nothing, yet its marked sequence is ["Before"] |

## Left out

- HTTP dispatch, JSON request parsing, the missing-sentence error and the response format (A2SL/views.py:14-53, 119-122) are transport plumbing.
- Speech-to-text through the speech recognition library and its error response (A2SL/views.py:34-43) is a foreign network call and audio I/O.
- The signup, login and logout views and the login requirement (A2SL/views.py:125-166) are authentication wrappers with no translation logic.
- NLTK tokenization, tagging and WordNet lemmatization are foreign library behaviour. They are arbitrary function parameters, so every property holds for any tagger and any lemmatizer. A failing tagger (an exception in the source) is not modelled.
- The static-file lookup is filesystem I/O. It is an arbitrary predicate on the word, standing for "a file named word + .mp4 is found".
- `Lexical.Lower`: only maps ASCII `A`-`Z`, because full Unicode lower-casing (multi-character results, locale rules) is outside the model.
