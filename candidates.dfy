/** Candidate generation: a word is looked up in its own space and its nearest
    neighbours in the other space become scored candidate translations. */
module Candidates {
  import opened Embedding

  /** (source word, candidate translation, score) */
  type Candidate = (Word, Word, Score)

  /** The neighbour count used by the default translation. */
  const DEFAULT_N: nat := 10

  /** Pairs each neighbour with the word it was found for. */
  function Wrap(srcWord: Word, neighbours: seq<(Word, Score)>): (r: seq<Candidate>)
    ensures |r| == |neighbours|
    ensures forall c | c in r :: c.0 == srcWord
  {
    if neighbours == [] then []
    else [(srcWord, neighbours[0].0, neighbours[0].1)] + Wrap(srcWord, neighbours[1..])
  }

  /** The (target, score) projection of candidates, dropping the source word. */
  function Targets(cands: seq<Candidate>): (r: seq<(Word, Score)>)
    ensures |r| == |cands|
    ensures forall i | 0 <= i < |r| :: r[i] == (cands[i].1, cands[i].2)
  {
    if cands == [] then [] else [(cands[0].1, cands[0].2)] + Targets(cands[1..])
  }

  /** Projecting the wrapped neighbours gives back exactly the neighbour list, in order. */
  lemma {:induction false} TargetsOfWrap(srcWord: Word, neighbours: seq<(Word, Score)>)
    ensures Targets(Wrap(srcWord, neighbours)) == neighbours
  {
    if neighbours != [] {
      TargetsOfWrap(srcWord, neighbours[1..]);
    }
  }

  /** Candidate translations of `srcWord` from `srcLang` into `tgtLang`. A language
      outside the configured pair fails; a word missing from the source vocabulary
      gives no candidates rather than an error. */
  function TranslateNaive(e: Embeddings, srcLang: Lang, tgtLang: Lang, srcWord: Word, n: nat): (r: Result<seq<Candidate>>)
    ensures r.Failure? <==> !(e.Configured(srcLang) && e.Configured(tgtLang))
    ensures r.Failure? ==> r.error == InvalidLanguage
    ensures r.Success? ==> forall c | c in r.value :: c.0 == srcWord
    ensures e.Configured(srcLang) && e.Configured(tgtLang) && srcWord !in e.Model(srcLang).vectors ==>
              r == Success([])
    ensures r.Success? && e.Configured(tgtLang) && TopNBounded(e.Model(tgtLang)) ==> |r.value| <= n
  {
    if !(e.Configured(srcLang) && e.Configured(tgtLang)) then Failure(InvalidLanguage)
    else
      match GetVecByWord(e, srcLang, srcWord)
      case None => Success([])
      case Some(vec) => Success(Wrap(srcWord, GetNearestNeighbors(e, tgtLang, vec, n)))
  }

  /** For a known word, the candidates are the neighbours of its vector, one per
      neighbour and in the order the search returned them. */
  lemma TranslateNaiveIsNeighbours(e: Embeddings, srcLang: Lang, tgtLang: Lang, srcWord: Word, n: nat)
    requires e.Configured(srcLang) && e.Configured(tgtLang)
    requires srcWord in e.Model(srcLang).vectors
    ensures TranslateNaive(e, srcLang, tgtLang, srcWord, n).Success?
    ensures Targets(TranslateNaive(e, srcLang, tgtLang, srcWord, n).value)
            == e.Model(tgtLang).similarByVector(e.Model(srcLang).vectors[srcWord], n)
  {
    TargetsOfWrap(srcWord, GetNearestNeighbors(e, tgtLang, e.Model(srcLang).vectors[srcWord], n));
  }

  /** Translation with the default neighbour count. */
  function TranslateDefault(e: Embeddings, srcLang: Lang, tgtLang: Lang, srcWord: Word): (r: Result<seq<Candidate>>)
    ensures r.Failure? <==> !(e.Configured(srcLang) && e.Configured(tgtLang))
    ensures r.Success? && e.Configured(tgtLang) && TopNBounded(e.Model(tgtLang)) ==> |r.value| <= DEFAULT_N
  {
    TranslateNaive(e, srcLang, tgtLang, srcWord, DEFAULT_N)
  }

  /** Concatenation of a sequence of lists, in order. */
  function Flatten<T>(lists: seq<seq<T>>): (r: seq<T>)
  {
    if lists == [] then [] else lists[0] + Flatten(lists[1..])
  }

  lemma {:induction false} FlattenAppend<T>(a: seq<seq<T>>, b: seq<seq<T>>)
    ensures Flatten(a + b) == Flatten(a) + Flatten(b)
  {
    if a == [] {
      assert a + b == b;
    } else {
      assert (a + b)[1..] == a[1..] + b;
      FlattenAppend(a[1..], b);
    }
  }

  /** Sum of the lengths of a sequence of lists. */
  function TotalLength<T>(lists: seq<seq<T>>): nat
  {
    if lists == [] then 0 else |lists[0]| + TotalLength(lists[1..])
  }

  lemma {:induction false} FlattenLength<T>(lists: seq<seq<T>>)
    ensures |Flatten(lists)| == TotalLength(lists)
  {
    if lists != [] {
      FlattenLength(lists[1..]);
    }
  }

  /** Every element of a flattened list comes from one of the lists. */
  lemma {:induction false} FlattenMember<T>(lists: seq<seq<T>>, x: T)
    requires x in Flatten(lists)
    ensures exists i :: 0 <= i < |lists| && x in lists[i]
  {
    if x in lists[0] {
    } else {
      FlattenMember(lists[1..], x);
      var i :| 0 <= i < |lists[1..]| && x in lists[1..][i];
      assert x in lists[i + 1];
    }
  }

  /** The default translations, one list per candidate, of each candidate's target word. */
  function BackTranslationLists(e: Embeddings, lang1: Lang, lang2: Lang, cands: seq<Candidate>): (r: seq<seq<Candidate>>)
    requires e.Configured(lang1) && e.Configured(lang2)
    ensures |r| == |cands|
  {
    seq(|cands|, i requires 0 <= i < |cands| => TranslateDefault(e, lang1, lang2, cands[i].1).value)
  }

  /** Fan-out: every candidate's target word is translated again and all the
      resulting lists are joined in order, duplicates kept. */
  function TranslationsOfTranslations(e: Embeddings, lang1: Lang, lang2: Lang, cands: seq<Candidate>): (r: Result<seq<Candidate>>)
    ensures r.Failure? <==> cands != [] && !(e.Configured(lang1) && e.Configured(lang2))
  {
    if cands == [] then Success([])
    else if !(e.Configured(lang1) && e.Configured(lang2)) then Failure(InvalidLanguage)
    else Success(Flatten(BackTranslationLists(e, lang1, lang2, cands)))
  }

  /** Length of the fan-out: the sum of the per-candidate translation lengths, so at
      most ten per candidate when the search keeps its bound. */
  lemma TranslationsOfTranslationsLength(e: Embeddings, lang1: Lang, lang2: Lang, cands: seq<Candidate>)
    requires e.Configured(lang1) && e.Configured(lang2)
    ensures |TranslationsOfTranslations(e, lang1, lang2, cands).value|
            == TotalLength(BackTranslationLists(e, lang1, lang2, cands))
    ensures TopNBounded(e.Model(lang2)) ==>
              |TranslationsOfTranslations(e, lang1, lang2, cands).value| <= DEFAULT_N * |cands|
  {
    var lists := BackTranslationLists(e, lang1, lang2, cands);
    FlattenLength(lists);
    if TopNBounded(e.Model(lang2)) {
      BoundedTotal(lists, DEFAULT_N);
    }
  }

  lemma {:induction false} BoundedTotal<T>(lists: seq<seq<T>>, n: nat)
    requires forall i | 0 <= i < |lists| :: |lists[i]| <= n
    ensures TotalLength(lists) <= n * |lists|
  {
    if lists != [] {
      BoundedTotal(lists[1..], n);
    }
  }

  /** Every back-translation was produced for the target word of some input candidate. */
  lemma TranslationsOfTranslationsSources(e: Embeddings, lang1: Lang, lang2: Lang, cands: seq<Candidate>, c: Candidate)
    requires e.Configured(lang1) && e.Configured(lang2)
    requires c in TranslationsOfTranslations(e, lang1, lang2, cands).value
    ensures exists i :: 0 <= i < |cands| && c.0 == cands[i].1
  {
    var lists := BackTranslationLists(e, lang1, lang2, cands);
    FlattenMember(lists, c);
    var i :| 0 <= i < |lists| && c in lists[i];
    assert c.0 == cands[i].1;
  }

  /** The fan-out of a single candidate is the default translation of its target word. */
  lemma TranslationsOfTranslationsSingle(e: Embeddings, lang1: Lang, lang2: Lang, c: Candidate)
    requires e.Configured(lang1) && e.Configured(lang2)
    ensures TranslationsOfTranslations(e, lang1, lang2, [c]).value == TranslateDefault(e, lang1, lang2, c.1).value
  {
    var lists := BackTranslationLists(e, lang1, lang2, [c]);
    assert lists == [TranslateDefault(e, lang1, lang2, c.1).value];
    assert Flatten(lists) == lists[0] + Flatten(lists[1..]);
    assert lists[0] + [] == lists[0];
  }

  /** The fan-out distributes over concatenation of its input, so a candidate list
      given twice yields its back-translations twice. */
  lemma TranslationsOfTranslationsAppend(e: Embeddings, lang1: Lang, lang2: Lang, a: seq<Candidate>, b: seq<Candidate>)
    requires e.Configured(lang1) && e.Configured(lang2)
    ensures TranslationsOfTranslations(e, lang1, lang2, a + b).value
            == TranslationsOfTranslations(e, lang1, lang2, a).value + TranslationsOfTranslations(e, lang1, lang2, b).value
  {
    var la := BackTranslationLists(e, lang1, lang2, a);
    var lb := BackTranslationLists(e, lang1, lang2, b);
    assert BackTranslationLists(e, lang1, lang2, a + b) == la + lb;
    FlattenAppend(la, lb);
    if a == [] {
      assert a + b == b;
    }
    if b == [] {
      assert a + b == a;
    }
  }
}
