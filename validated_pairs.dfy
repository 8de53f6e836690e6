/** Externally validated translation pairs: every pair is stored as
    (lang1 word, lang2 word), whichever way round it was supplied. */
module ValidatedPairs {
  import opened Embedding

  /** A word tagged with its language. */
  type TaggedWord = (Lang, Word)

  /** A pair as supplied: (source language, source word), (target language, target word). */
  type SuppliedPair = (TaggedWord, TaggedWord)

  /** What the translator accepts: both languages configured and different. */
  predicate ValidPair(e: Embeddings, p: SuppliedPair)
  {
    e.Configured(p.0.0) && e.Configured(p.1.0) && p.0.0 != p.1.0
  }

  /** Every pair of the run is accepted. */
  predicate AllValid(e: Embeddings, pairs: seq<SuppliedPair>)
  {
    forall i | 0 <= i < |pairs| :: ValidPair(e, pairs[i])
  }

  /** The word of `p` tagged with `lang` (the second one when the first is not). */
  function WordIn(p: SuppliedPair, lang: Lang): Word
  {
    if p.0.0 == lang then p.0.1 else p.1.1
  }

  function Swap(p: SuppliedPair): SuppliedPair
  {
    (p.1, p.0)
  }

  /** The stored orientation of a supplied pair. */
  function Orient(e: Embeddings, p: SuppliedPair): (r: (Word, Word))
    requires ValidPair(e, p)
    ensures r == (WordIn(p, e.lang1), WordIn(p, e.lang2))
    ensures r == (WordIn(Swap(p), e.lang1), WordIn(Swap(p), e.lang2))
  {
    if p.0.0 == e.lang1 then (p.0.1, p.1.1) else (p.1.1, p.0.1)
  }

  /** Index of the first pair the translator rejects, or the length when all are valid. */
  function FirstInvalid(e: Embeddings, pairs: seq<SuppliedPair>): (k: nat)
    ensures k <= |pairs|
    ensures k < |pairs| ==> !ValidPair(e, pairs[k])
    ensures AllValid(e, pairs[..k])
  {
    if pairs == [] || !ValidPair(e, pairs[0]) then 0 else 1 + FirstInvalid(e, pairs[1..])
  }

  /** The stored form of a run of valid pairs: one oriented pair per supplied pair, in order. */
  function Canonical(e: Embeddings, pairs: seq<SuppliedPair>): (r: seq<(Word, Word)>)
    requires AllValid(e, pairs)
    ensures |r| == |pairs|
  {
    if pairs == [] then [] else [Orient(e, pairs[0])] + Canonical(e, pairs[1..])
  }

  /** Each stored pair holds the lang1 word, then the lang2 word, of the supplied pair at the same position. */
  lemma {:induction false} CanonicalAt(e: Embeddings, pairs: seq<SuppliedPair>, i: nat)
    requires AllValid(e, pairs)
    requires i < |pairs|
    ensures Canonical(e, pairs)[i] == (WordIn(pairs[i], e.lang1), WordIn(pairs[i], e.lang2))
  {
    if i > 0 {
      CanonicalAt(e, pairs[1..], i - 1);
    }
  }

  /** The first rejected pair is at `i` when the pairs before it are accepted and
      the pair at `i`, if any, is not. */
  lemma FirstInvalidAt(e: Embeddings, pairs: seq<SuppliedPair>, i: nat)
    requires i <= |pairs| && AllValid(e, pairs[..i])
    requires i < |pairs| ==> !ValidPair(e, pairs[i])
    ensures FirstInvalid(e, pairs) == i
  {
  }

  /** Canonicalising one more accepted pair appends its oriented form. */
  lemma CanonicalSnoc(e: Embeddings, pairs: seq<SuppliedPair>, i: nat)
    requires i < |pairs| && AllValid(e, pairs[..i]) && ValidPair(e, pairs[i])
    ensures AllValid(e, pairs[..i + 1])
    ensures Canonical(e, pairs[..i + 1]) == Canonical(e, pairs[..i]) + [Orient(e, pairs[i])]
  {
    var before, after := pairs[..i], pairs[..i + 1];
    assert after == before + [pairs[i]];
    assert AllValid(e, after) by {
      forall j | 0 <= j < |after|
        ensures ValidPair(e, after[j])
      {
        if j < i {
          assert after[j] == before[j];
        }
      }
    }
    var lhs := Canonical(e, after);
    var rhs := Canonical(e, before) + [Orient(e, pairs[i])];
    forall j | 0 <= j < |lhs|
      ensures lhs[j] == rhs[j]
    {
      CanonicalAt(e, after, j);
      if j < i {
        CanonicalAt(e, before, j);
      }
    }
  }

  /** Reversing the orientation of any supplied pairs does not change what is stored. */
  lemma {:induction false} CanonicalIgnoresSupplyOrder(e: Embeddings, pairs: seq<SuppliedPair>, flipped: seq<SuppliedPair>)
    requires |flipped| == |pairs|
    requires AllValid(e, pairs)
    requires forall i | 0 <= i < |pairs| :: flipped[i] == pairs[i] || flipped[i] == Swap(pairs[i])
    ensures AllValid(e, flipped)
    ensures Canonical(e, flipped) == Canonical(e, pairs)
  {
    if pairs != [] {
      CanonicalIgnoresSupplyOrder(e, pairs[1..], flipped[1..]);
    }
  }
}
