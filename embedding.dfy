/** The two embedding spaces a translator is configured with, seen through the
    only two capabilities the translator uses: looking a word up and asking for
    the nearest words to a vector. Both are given as data (a vocabulary map and
    an uninterpreted neighbour function), so nothing here depends on how the
    embedding library stores or searches its vectors. */
module Embedding {

  type Word = string
  type Lang = string
  /** Similarity scores are only passed through or compared against a threshold. */
  type Score = real
  type Vector = seq<real>

  datatype Option<T> = None | Some(value: T)

  datatype Error =
    /** a language outside the configured pair, or two equal languages where distinct ones are demanded */
    | InvalidLanguage
    /** a language that is not a key of the hard-coded cluster table */
    | MissingClusterLanguage

  datatype Result<T> = Success(value: T) | Failure(error: Error)

  datatype Outcome = Pass | Fail(error: Error)

  /** One loaded embedding space: its vocabulary with the vector of each word, and
      the library's nearest-neighbour search (vector, n) -> ordered (word, score) list. */
  datatype KeyedVectors = KeyedVectors(
    vectors: map<Word, Vector>,
    similarByVector: (Vector, nat) -> seq<(Word, Score)>)

  /** The library's promise about its search: never more than n neighbours. */
  ghost predicate TopNBounded(kv: KeyedVectors)
  {
    forall v: Vector, n: nat :: |kv.similarByVector(v, n)| <= n
  }

  /** The configured language pair with the space loaded for each. */
  datatype Embeddings = Embeddings(lang1: Lang, lang2: Lang, kv1: KeyedVectors, kv2: KeyedVectors)
  {
    predicate Configured(lang: Lang)
    {
      lang == lang1 || lang == lang2
    }

    /** The language-to-space dictionary as the translator builds it: the space of
        `lang1` is written first, then the space of `lang2`. */
    function Stored(): map<Lang, KeyedVectors>
    {
      map[lang1 := kv1][lang2 := kv2]
    }

    /** The space found under `lang`: exactly what the two writes left there, so the
        space written last is the one found when both languages are the same. */
    function Model(lang: Lang): (kv: KeyedVectors)
      requires Configured(lang)
      ensures lang in Stored() && kv == Stored()[lang]
    {
      if lang == lang2 then kv2 else kv1
    }
  }

  /** Vector lookup; a word outside the vocabulary is `None` (the library raises a key error). */
  function GetVecByWord(e: Embeddings, lang: Lang, word: Word): Option<Vector>
    requires e.Configured(lang)
  {
    var kv := e.Model(lang);
    if word in kv.vectors then Some(kv.vectors[word]) else None
  }

  /** The n nearest words of `lang` to `vec`, with their scores, in the library's order. */
  function GetNearestNeighbors(e: Embeddings, lang: Lang, vec: Vector, n: nat): (r: seq<(Word, Score)>)
    requires e.Configured(lang)
    ensures TopNBounded(e.Model(lang)) ==> |r| <= n
  {
    e.Model(lang).similarByVector(vec, n)
  }
}
