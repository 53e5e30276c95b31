/** The tense classifier: counts of verb tags per tense category and the
    choice of the dominant category. */
module Tense {
  import opened Lexical

  /** Tags counted towards each category. A gerund (VBG) counts towards both
      present and present continuous. */
  const FutureTags: set<string> := {"MD"}
  const PresentTags: set<string> := {"VBP", "VBZ", "VBG"}
  const PastTags: set<string> := {"VBD", "VBN"}
  const ContinuousTags: set<string> := {"VBG"}

  /** Every tag that counts towards some category. */
  const VerbTags: set<string> := FutureTags + PresentTags + PastTags

  /** The four categories, in the order the count dictionary declares them. */
  datatype Category = Future | Present | Past | PresentContinuous

  /** Position of a category in the declaration order. */
  function Rank(t: Category): nat {
    match t
    case Future => 0
    case Present => 1
    case Past => 2
    case PresentContinuous => 3
  }

  datatype TenseCounts = TenseCounts(future: nat, present: nat, past: nat, presentContinuous: nat) {
    function Get(t: Category): nat {
      match t
      case Future => future
      case Present => present
      case Past => past
      case PresentContinuous => presentContinuous
    }
  }

  /** Number of tokens whose tag is one of `tags`. */
  function CountTagged(s: seq<Token>, tags: set<string>): (n: nat)
    ensures n <= |s|
    ensures n == 0 <==> forall i :: 0 <= i < |s| ==> s[i].tag !in tags
    decreases |s|
  {
    if s == [] then 0
    else (if s[0].tag in tags then 1 else 0) + CountTagged(s[1..], tags)
  }

  /** Counting more tags never counts fewer tokens. */
  lemma {:induction false} CountMonotone(s: seq<Token>, a: set<string>, b: set<string>)
    requires a <= b
    ensures CountTagged(s, a) <= CountTagged(s, b)
    decreases |s|
  {
    if s != [] {
      CountMonotone(s[1..], a, b);
    }
  }

  /** Counts over disjoint tag sets add up to the count over their union. */
  lemma {:induction false} CountDisjointUnion(s: seq<Token>, a: set<string>, b: set<string>)
    requires a !! b
    ensures CountTagged(s, a) + CountTagged(s, b) == CountTagged(s, a + b)
    decreases |s|
  {
    if s != [] {
      CountDisjointUnion(s[1..], a, b);
    }
  }

  /** The four counts of a tagged sentence. */
  function Classify(s: seq<Token>): (c: TenseCounts)
    ensures c.future <= |s| && c.present <= |s| && c.past <= |s| && c.presentContinuous <= |s|
    ensures c.presentContinuous <= c.present
    ensures c.future + c.present + c.past <= |s|
    ensures c.future + c.present + c.past == 0 <==> forall i :: 0 <= i < |s| ==> s[i].tag !in VerbTags
  {
    CountMonotone(s, ContinuousTags, PresentTags);
    CountDisjointUnion(s, FutureTags, PresentTags);
    CountDisjointUnion(s, FutureTags + PresentTags, PastTags);
    TenseCounts(
      CountTagged(s, FutureTags),
      CountTagged(s, PresentTags),
      CountTagged(s, PastTags),
      CountTagged(s, ContinuousTags))
  }

  /** The category with the largest count, the first such in declaration
      order. The candidate starts at the first category and is replaced only
      by a strictly larger count, as a left-to-right maximum scan does. */
  function Dominant(c: TenseCounts): (t: Category)
    ensures forall u :: c.Get(u) <= c.Get(t)
    ensures forall u :: Rank(u) < Rank(t) ==> c.Get(u) < c.Get(t)
  {
    var m0 := Future;
    var m1 := if c.present > c.Get(m0) then Present else m0;
    var m2 := if c.past > c.Get(m1) then Past else m1;
    if c.presentContinuous > c.Get(m2) then PresentContinuous else m2
  }

  /** The two properties of Dominant single out one category. */
  lemma DominantUnique(c: TenseCounts, t: Category)
    requires forall u :: c.Get(u) <= c.Get(t)
    requires forall u :: Rank(u) < Rank(t) ==> c.Get(u) < c.Get(t)
    ensures t == Dominant(c)
  {
  }

  /** With every count zero the first declared category wins. */
  lemma AllZeroIsFuture(c: TenseCounts)
    requires c == TenseCounts(0, 0, 0, 0)
    ensures Dominant(c) == Future
  {
  }

  /** Present continuous is never dominant for a real sentence: every gerund
      also counts as present, and present is declared earlier. */
  lemma NeverContinuous(s: seq<Token>)
    ensures Dominant(Classify(s)) != PresentContinuous
  {
    var c := Classify(s);
    assert c.Get(Present) >= c.Get(PresentContinuous);
  }
}
