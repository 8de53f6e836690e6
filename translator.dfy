/** The translator object: the configured embedding pair, the list of validated
    translation pairs it has been given, and the full translation table of each
    language, filled word by word. */
module Translator {
  import opened Embedding
  import opened Candidates
  import opened ValidatedPairs
  import opened Tsv

  /** Every vocabulary word of `src` with the (target, score) projection of its default translation. */
  function FullTable(e: Embeddings, src: Lang, tgt: Lang): (r: map<Word, seq<(Word, Score)>>)
    requires e.Configured(src) && e.Configured(tgt)
    ensures r.Keys == e.Model(src).vectors.Keys
  {
    map w | w in e.Model(src).vectors :: Targets(TranslateDefault(e, src, tgt, w).value)
  }

  /** The table entry of a word is the neighbour list of its vector, at most ten
      long when the search keeps its bound. */
  lemma FullTableEntry(e: Embeddings, src: Lang, tgt: Lang, w: Word)
    requires e.Configured(src) && e.Configured(tgt)
    requires w in e.Model(src).vectors
    ensures FullTable(e, src, tgt)[w] == e.Model(tgt).similarByVector(e.Model(src).vectors[w], DEFAULT_N)
    ensures TopNBounded(e.Model(tgt)) ==> |FullTable(e, src, tgt)[w]| <= DEFAULT_N
  {
    TranslateNaiveIsNeighbours(e, src, tgt, w, DEFAULT_N);
  }

  /** Languages a pair-list loader accepts: both configured and different. */
  predicate LoadableLangs(e: Embeddings, leftLang: Lang, rightLang: Lang)
  {
    e.Configured(leftLang) && e.Configured(rightLang) && leftLang != rightLang
  }

  /** The entries of `m` whose keys are in `keys`. */
  function Restrict(m: map<Word, seq<(Word, Score)>>, keys: set<Word>): map<Word, seq<(Word, Score)>>
    requires keys <= m.Keys
  {
    map w | w in keys :: m[w]
  }

  /** Before any row is written the table of `src` is unchanged. */
  lemma FillNone(tables: map<Lang, map<Word, seq<(Word, Score)>>>, src: Lang, full: map<Word, seq<(Word, Score)>>)
    requires src in tables
    ensures tables == tables[src := tables[src] + Restrict(full, full.Keys - full.Keys)]
  {
    assert full.Keys - full.Keys == {};
    assert tables[src] + Restrict(full, {}) == tables[src];
  }

  /** Writing the row of one more word `w` of `full` into the partly filled table of `src`. */
  lemma FillStep(tables: map<Lang, map<Word, seq<(Word, Score)>>>, src: Lang, base: map<Word, seq<(Word, Score)>>,
                 full: map<Word, seq<(Word, Score)>>, remaining: set<Word>, w: Word)
    requires remaining <= full.Keys && w in remaining
    ensures var before := tables[src := base + Restrict(full, full.Keys - remaining)];
            before[src := before[src][w := full[w]]] == tables[src := base + Restrict(full, full.Keys - (remaining - {w}))]
  {
    var filled := base + Restrict(full, full.Keys - remaining);
    assert full.Keys - (remaining - {w}) == (full.Keys - remaining) + {w};
    assert filled[w := full[w]] == base + Restrict(full, full.Keys - (remaining - {w}));
  }

  lemma RestrictAll(m: map<Word, seq<(Word, Score)>>, keys: set<Word>)
    requires keys == m.Keys
    ensures Restrict(m, keys) == m
  {
  }

  /** Filling two empty tables gives exactly the filled tables. */
  lemma FillEmptyTables(lang1: Lang, lang2: Lang, f1: map<Word, seq<(Word, Score)>>, f2: map<Word, seq<(Word, Score)>>)
    ensures var start: map<Lang, map<Word, seq<(Word, Score)>>> := map[lang1 := map[], lang2 := map[]];
            start[lang1 := start[lang1] + f1][lang2 := start[lang2] + f2] == map[lang1 := f1, lang2 := f2]
  {
    var empty: map<Word, seq<(Word, Score)>> := map[];
    assert empty + f1 == f1;
    assert empty + f2 == f2;
  }

  class BilangTranslator {
    const emb: Embeddings
    /** Validated pairs, each as (lang1 word, lang2 word). */
    var bestLang1ToLang2: seq<(Word, Word)>
    /** Per language: each vocabulary word with its (target, score) translations. */
    var translations: map<Lang, map<Word, seq<(Word, Score)>>>

    ghost predicate Valid()
      reads this
    {
      emb.lang1 in translations && emb.lang2 in translations
    }

    /** Stores both spaces and an empty table per language, then optionally fills both tables. */
    constructor(lang1: Lang, lang2: Lang, kv1: KeyedVectors, kv2: KeyedVectors, initializeTranslations: bool)
      ensures Valid()
      ensures emb == Embeddings(lang1, lang2, kv1, kv2)
      ensures bestLang1ToLang2 == []
      ensures initializeTranslations ==>
                translations == map[lang1 := FullTable(emb, lang1, lang2), lang2 := FullTable(emb, lang2, lang1)]
      ensures !initializeTranslations ==> translations == map[lang1 := map[], lang2 := map[]]
    {
      emb := Embeddings(lang1, lang2, kv1, kv2);
      bestLang1ToLang2 := [];
      translations := map[lang1 := map[], lang2 := map[]];
      new;
      if initializeTranslations {
        FillEmptyTables(lang1, lang2, FullTable(emb, lang1, lang2), FullTable(emb, lang2, lang1));
        InitializeTranslations();
      }
    }

    /** Appends the oriented form of each supplied pair, in order. A pair with a
        language outside the configured pair, or with equal languages, fails; the
        pairs before it stay appended. */
    method SetBestTranslationCandidates(cands: seq<SuppliedPair>) returns (outcome: Outcome)
      modifies this
      ensures outcome.Pass? <==> FirstInvalid(emb, cands) == |cands|
      ensures outcome.Fail? ==> outcome.error == InvalidLanguage
      ensures bestLang1ToLang2 == old(bestLang1ToLang2) + Canonical(emb, cands[..FirstInvalid(emb, cands)])
      ensures translations == old(translations)
    {
      var i := 0;
      while i < |cands|
        invariant 0 <= i <= |cands| && AllValid(emb, cands[..i])
        invariant bestLang1ToLang2 == old(bestLang1ToLang2) + Canonical(emb, cands[..i])
        invariant translations == old(translations)
      {
        var cand := cands[i];
        if !ValidPair(emb, cand) {
          FirstInvalidAt(emb, cands, i);
          return Fail(InvalidLanguage);
        }
        CanonicalSnoc(emb, cands, i);
        var (srcLang, srcWord) := cand.0;
        var (_, tgtWord) := cand.1;
        if srcLang == emb.lang1 {
          bestLang1ToLang2 := bestLang1ToLang2 + [(srcWord, tgtWord)];
        } else {
          bestLang1ToLang2 := bestLang1ToLang2 + [(tgtWord, srcWord)];
        }
        i := i + 1;
      }
      FirstInvalidAt(emb, cands, i);
      return Pass;
    }

    /** Loads pairs from tab-separated lines (left word, right word) and stores them.
        Languages that are not two different configured ones fail before any line is read. */
    method SetBestTranslationCandidatesFromTsv(leftLang: Lang, rightLang: Lang, lines: seq<string>) returns (outcome: Outcome)
      modifies this
      ensures outcome.Pass? <==> LoadableLangs(emb, leftLang, rightLang)
      ensures outcome.Fail? ==> outcome.error == InvalidLanguage && bestLang1ToLang2 == old(bestLang1ToLang2)
      ensures outcome.Pass? ==>
                bestLang1ToLang2 == old(bestLang1ToLang2) + Canonical(emb, ParsedPairs(leftLang, rightLang, lines))
      ensures outcome.Pass? ==> |bestLang1ToLang2| == |old(bestLang1ToLang2)| + CountWellFormed(lines)
      ensures translations == old(translations)
    {
      if !LoadableLangs(emb, leftLang, rightLang) {
        return Fail(InvalidLanguage);
      }
      var pairs := CollectPairs(leftLang, rightLang, lines);
      ParsedPairsValid(emb, leftLang, rightLang, lines);
      assert pairs[..|pairs|] == pairs;
      outcome := SetBestTranslationCandidates(pairs);
    }

    /** Fills the table of `src` with the translation of every vocabulary word into `tgt`. */
    method InitializeTranslationsFrom(src: Lang, tgt: Lang)
      requires Valid() && src in translations
      requires emb.Configured(src) && emb.Configured(tgt)
      modifies this
      ensures Valid()
      ensures translations == old(translations)[src := old(translations)[src] + FullTable(emb, src, tgt)]
      ensures bestLang1ToLang2 == old(bestLang1ToLang2)
    {
      ghost var full := FullTable(emb, src, tgt);
      ghost var start := translations;
      ghost var base := start[src];
      var remaining := emb.Model(src).vectors.Keys;
      FillNone(start, src, full);
      while remaining != {}
        invariant remaining <= full.Keys
        invariant translations == start[src := base + Restrict(full, full.Keys - remaining)]
        invariant bestLang1ToLang2 == old(bestLang1ToLang2)
        decreases remaining
      {
        var wf :| wf in remaining;
        var row := Targets(TranslateDefault(emb, src, tgt, wf).value);
        FillStep(start, src, base, full, remaining, wf);
        translations := translations[src := translations[src][wf := row]];
        remaining := remaining - {wf};
      }
      RestrictAll(full, full.Keys - remaining);
    }

    /** Fills the table of each language with its translations into the other one. */
    method InitializeTranslations()
      requires Valid()
      modifies this
      ensures Valid()
      ensures translations == old(translations)
                [emb.lang1 := old(translations)[emb.lang1] + FullTable(emb, emb.lang1, emb.lang2)]
                [emb.lang2 := old(translations)[emb.lang2] + FullTable(emb, emb.lang2, emb.lang1)]
      ensures bestLang1ToLang2 == old(bestLang1ToLang2)
    {
      InitializeTranslationsFrom(emb.lang1, emb.lang2);
      InitializeTranslationsFrom(emb.lang2, emb.lang1);
      if emb.lang1 == emb.lang2 {
        ghost var t := old(translations)[emb.lang1];
        ghost var f := FullTable(emb, emb.lang1, emb.lang2);
        assert t + f + f == t + f;
      }
    }
  }
}
