/** The lexical analyzer's side of the pipeline: the tagged tokens it hands
    to the later stages and the lower-casing applied to the sentence first.
    Tokenizing and part-of-speech tagging are done by a foreign library; the
    pipeline receives them as a function parameter (see module Pipeline). */
module Lexical {

  /** A surface word together with its Penn Treebank part-of-speech tag. */
  datatype Token = Token(word: string, tag: string)

  /** A tokenizer and tagger: a sentence to its tagged words, in order. */
  type Tagger = string -> seq<Token>

  predicate IsUpper(c: char) {
    'A' <= c <= 'Z'
  }

  /** Lower-cases one character; only ASCII letters are mapped. */
  function LowerChar(c: char): (d: char)
    ensures !IsUpper(d)
    ensures IsUpper(c) ==> d as int == c as int + 32
    ensures !IsUpper(c) ==> d == c
  {
    if IsUpper(c) then (c as int + 32) as char else c
  }

  /** The sentence in lower case, character by character. */
  function Lower(s: string): (r: string)
    ensures |r| == |s|
    ensures forall i :: 0 <= i < |s| ==> r[i] == LowerChar(s[i])
    ensures forall i :: 0 <= i < |r| ==> !IsUpper(r[i])
    decreases |s|
  {
    if s == [] then [] else [LowerChar(s[0])] + Lower(s[1..])
  }

  /** Lower-casing twice is lower-casing once. */
  lemma LowerIdempotent(s: string)
    ensures Lower(Lower(s)) == Lower(s)
  {
    var r := Lower(s);
    assert forall i :: 0 <= i < |r| ==> LowerChar(r[i]) == r[i];
  }
}
