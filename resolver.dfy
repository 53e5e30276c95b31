/** The marker and asset resolver: prepends at most one tense marker to the
    reduced words, then emits each word whole when an animation clip exists
    for it and spelled out character by character otherwise. */
module Resolver {
  import opened Tense

  /** Whether an animation clip exists for a word: the static-file lookup of
      the word followed by ".mp4". */
  type AssetLookup = string -> bool

  /** The words with the tense marker, if any, in front. The branches are
      tried in the order past, future, present; "Will" is not added when the
      words already hold it. */
  function InsertMarker(words: seq<string>, c: TenseCounts): (r: seq<string>)
    ensures |words| <= |r| <= |words| + 1
    ensures r[|r| - |words|..] == words
    ensures r == ["Before"] + words <==> Dominant(c) == Past && c.past >= 1
    ensures r == ["Will"] + words <==>
      Dominant(c) == Future && c.future >= 1 && "Will" !in words
    ensures r == ["Now"] + words <==> Dominant(c) == Present && c.presentContinuous >= 1
    ensures |r| == |words| + 1 ==> r[0] in {"Before", "Will", "Now"}
    ensures r == words <==>
      !(Dominant(c) == Past && c.past >= 1) &&
      !(Dominant(c) == Future && c.future >= 1 && "Will" !in words) &&
      !(Dominant(c) == Present && c.presentContinuous >= 1)
  {
    var t := Dominant(c);
    if t == Past && c.past >= 1 then ["Before"] + words
    else if t == Future && c.future >= 1 then
      if "Will" !in words then ["Will"] + words else words
    else if t == Present && c.presentContinuous >= 1 then ["Now"] + words
    else words
  }

  /** A sentence with no verb tag at all gets no marker. */
  lemma NoVerbNoMarker(s: seq<Lexical.Token>, words: seq<string>)
    requires forall i :: 0 <= i < |s| ==> s[i].tag !in VerbTags
    ensures InsertMarker(words, Classify(s)) == words
  {
    var c := Classify(s);
    assert c.future == 0 && c.present == 0 && c.past == 0;
    assert c.presentContinuous == 0;
  }

  /** A word as the sequence of its one-character strings, left to right. */
  function Spelled(w: string): (r: seq<string>)
    ensures |r| == |w|
    ensures forall i :: 0 <= i < |w| ==> r[i] == [w[i]]
    decreases |w|
  {
    if w == [] then [] else Spelled(w[..|w| - 1]) + [[w[|w| - 1]]]
  }

  /** What one word resolves to. */
  function Expansion(w: string, assetExists: AssetLookup): seq<string> {
    if assetExists(w) then [w] else Spelled(w)
  }

  /** The resolved sequence: each word's expansion, in order. */
  function Resolved(words: seq<string>, assetExists: AssetLookup): seq<string>
    decreases |words|
  {
    if words == [] then []
    else Resolved(words[..|words| - 1], assetExists) + Expansion(words[|words| - 1], assetExists)
  }

  /** The resolution loop. */
  method ResolveAssets(words: seq<string>, assetExists: AssetLookup) returns (finalWords: seq<string>)
    ensures finalWords == Resolved(words, assetExists)
  {
    finalWords := [];
    for i := 0 to |words|
      invariant finalWords == Resolved(words[..i], assetExists)
    {
      var w := words[i];
      if !assetExists(w) {
        finalWords := finalWords + Spelled(w);
      } else {
        finalWords := finalWords + [w];
      }
      assert words[..i + 1][..i] == words[..i];
    }
    assert words[..|words|] == words;
  }

  /** The strings of a sequence joined with nothing between them. */
  function Concat(words: seq<string>): string
    decreases |words|
  {
    if words == [] then "" else Concat(words[..|words| - 1]) + words[|words| - 1]
  }

  lemma {:induction false} ConcatAppend(a: seq<string>, b: seq<string>)
    ensures Concat(a + b) == Concat(a) + Concat(b)
    decreases |b|
  {
    if b == [] {
      AppendEmpty(a);
    } else {
      var b' := b[..|b| - 1];
      AppendPrefix(a, b);
      ConcatAppend(a, b');
      AppendAssociative(Concat(a), Concat(b'), b[|b| - 1]);
    }
  }

  /** Spelling a word out and joining the letters gives the word back. */
  lemma {:induction false} ConcatSpelled(w: string)
    ensures Concat(Spelled(w)) == w
    decreases |w|
  {
    if w != [] {
      var w' := w[..|w| - 1];
      assert Spelled(w)[..|w| - 1] == Spelled(w');
      ConcatSpelled(w');
    }
  }

  /** Dropping the last element of a concatenation drops it from the right
      operand. */
  lemma AppendPrefix<T>(a: seq<T>, b: seq<T>)
    requires b != []
    ensures (a + b)[..|a + b| - 1] == a + b[..|b| - 1]
    ensures (a + b)[|a + b| - 1] == b[|b| - 1]
  {
  }

  /** Resolution works word by word. */
  lemma {:induction false} ResolvedAppend(a: seq<string>, b: seq<string>, assetExists: AssetLookup)
    ensures Resolved(a + b, assetExists) == Resolved(a, assetExists) + Resolved(b, assetExists)
    decreases |b|
  {
    if b == [] {
      AppendEmpty(a);
    } else {
      var b', e := b[..|b| - 1], Expansion(b[|b| - 1], assetExists);
      AppendPrefix(a, b);
      ResolvedAppend(a, b', assetExists);
      AppendAssociative(Resolved(a, assetExists), Resolved(b', assetExists), e);
    }
  }

  lemma AppendAssociative<T>(x: seq<T>, y: seq<T>, z: seq<T>)
    ensures (x + y) + z == x + (y + z)
  {
  }

  lemma AppendEmpty<T>(a: seq<T>)
    ensures a + [] == a
  {
  }

  /** Resolution keeps the text: the resolved tokens joined together are the
      words joined together. */
  lemma {:induction false} ResolvedPreservesText(words: seq<string>, assetExists: AssetLookup)
    ensures Concat(Resolved(words, assetExists)) == Concat(words)
    decreases |words|
  {
    if words != [] {
      var p, w := words[..|words| - 1], words[|words| - 1];
      ResolvedPreservesText(p, assetExists);
      ConcatAppend(Resolved(p, assetExists), Expansion(w, assetExists));
      if !assetExists(w) {
        ConcatSpelled(w);
      } else {
        assert Concat([w]) == Concat([]) + w;
      }
    }
  }

  /** How many tokens a word resolves to. */
  function Width(w: string, assetExists: AssetLookup): nat {
    if assetExists(w) then 1 else |w|
  }

  function TotalWidth(words: seq<string>, assetExists: AssetLookup): nat
    decreases |words|
  {
    if words == [] then 0
    else TotalWidth(words[..|words| - 1], assetExists) + Width(words[|words| - 1], assetExists)
  }

  /** The output has one token per word with a clip and one per character of
      every other word. */
  lemma {:induction false} ResolvedLength(words: seq<string>, assetExists: AssetLookup)
    ensures |Resolved(words, assetExists)| == TotalWidth(words, assetExists)
    decreases |words|
  {
    if words != [] {
      ResolvedLength(words[..|words| - 1], assetExists);
    }
  }

  /** Every output token is a whole input word that has a clip, or a single
      character of an input word that has none. */
  lemma {:induction false} ResolvedTokens(words: seq<string>, assetExists: AssetLookup)
    ensures forall e :: e in Resolved(words, assetExists) ==>
      (e in words && assetExists(e)) ||
      exists w, i :: w in words && !assetExists(w) && 0 <= i < |w| && e == [w[i]]
    decreases |words|
  {
    if words != [] {
      var p, w := words[..|words| - 1], words[|words| - 1];
      ResolvedTokens(p, assetExists);
      assert forall x :: x in p ==> x in words;
      forall e | e in Expansion(w, assetExists)
        ensures (e in words && assetExists(e)) ||
          exists v, i :: v in words && !assetExists(v) && 0 <= i < |v| && e == [v[i]]
      {
        if !assetExists(w) {
          var i :| 0 <= i < |w| && Spelled(w)[i] == e;
          assert w in words && e == [w[i]];
        }
      }
    }
  }

  /** Resolving an already resolved sequence changes nothing: a whole word
      there has a clip, and a single character without one spells to
      itself. */
  lemma {:induction false} ResolvedIdempotent(words: seq<string>, assetExists: AssetLookup)
    ensures Resolved(Resolved(words, assetExists), assetExists) == Resolved(words, assetExists)
    decreases |words|
  {
    if words != [] {
      var p, w := words[..|words| - 1], words[|words| - 1];
      var e := Expansion(w, assetExists);
      ResolvedIdempotent(p, assetExists);
      ResolvedAppend(Resolved(p, assetExists), e, assetExists);
      ExpansionStable(w, assetExists);
    }
  }

  /** Resolving the expansion of one word gives that expansion again. */
  lemma {:induction false} ExpansionStable(w: string, assetExists: AssetLookup)
    ensures Resolved(Expansion(w, assetExists), assetExists) == Expansion(w, assetExists)
  {
    if assetExists(w) {
      assert Resolved([w], assetExists) == Resolved([], assetExists) + Expansion(w, assetExists);
    } else {
      SpelledStable(w, assetExists);
    }
  }

  lemma {:induction false} SpelledStable(w: string, assetExists: AssetLookup)
    ensures Resolved(Spelled(w), assetExists) == Spelled(w)
    decreases |w|
  {
    if w != [] {
      var w' := w[..|w| - 1];
      var ch := [w[|w| - 1]];
      assert Spelled(w) == Spelled(w') + [ch];
      SpelledStable(w', assetExists);
      assert ch[..0] == [];
      assert Expansion(ch, assetExists) == [ch];
      ResolvedAppend(Spelled(w'), [ch], assetExists);
      assert Resolved([ch], assetExists) == Resolved([], assetExists) + Expansion(ch, assetExists);
    }
  }
}
