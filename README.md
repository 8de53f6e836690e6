# BilangTranslator in Dafny

This project models the list-and-map logic of `BilangTranslator`, a bilingual word
translator built on two word-embedding spaces, one per language of a configured
pair (`lang1`, `lang2`). The embedding library is reached through two capabilities
only: looking a word up and searching for the nearest words to a vector. Both are
given as data (`Embedding.KeyedVectors`: a vocabulary map and an uninterpreted
neighbour function). Everything the translator builds on top of them is modelled:

- **Candidate generation** (`Candidates`). A word is looked up in its own space. Each
  of its nearest neighbours in the other space becomes a triple (source word,
  candidate, score). An unknown word gives no candidates rather than an error. A
  language outside the configured pair is an error. `TranslateDefault` uses ten
  neighbours; the public `translate_naive` wrapper is the same call. The
  back-translation fan-out translates every candidate's target again and
  concatenates the lists.
- **Validated pairs** (`ValidatedPairs`, `Tsv`). Supplied pairs are stored as
  (lang1 word, lang2 word), whichever way round they came. The tab-separated loader
  keeps a line exactly when, after trailing white space is removed, splitting at
  tabs gives two fields.
- **Intersection and clustering** (`Clustering`). Both word sets are translated into
  each other's language. Each side is then filtered to the candidates whose target
  is in the other set. The surviving pairs are numbered as clusters: one id per
  pair, the first list from 0 and the second after it. Only pairs above the
  threshold are recorded, in a per-language id table and in per-lang1-word sets.
- **The translator object** (`Translator.BilangTranslator`). It holds the stored
  pairs and, per language, a full translation table of every vocabulary word.
  Both are updated in place by its methods.

The source's `assert` statements become `Failure(InvalidLanguage)` / `Fail(InvalidLanguage)`
results. The key error raised by the cluster table for languages other than `kir`
and `kaz` becomes `Failure(MissingClusterLanguage)`. Loops over Python sets pick an
arbitrary element, so every result is proved for every visiting order.

## Model

| member | source | states |
|---|---|---|
| Embedding.Embeddings.Model | translator.py:32-35 | the space found under a configured language is what the dictionary holds after writing `lang1`'s space and then `lang2`'s, so the space written last wins when both languages are equal |
| Embedding.GetNearestNeighbors | translator.py:111-112 | at most `n` neighbours whenever the search keeps its own bound |
| Candidates.Wrap | translator.py:57-58 | one triple per neighbour, each carrying the source word |
| Candidates.Targets | translator.py:210-211 | one (target word, score) pair per candidate, in order; with TargetsOfWrap, the pairs are the neighbour list itself |
| Candidates.TargetsOfWrap | translator.py:57-58 | dropping the source word from the wrapped triples gives back the neighbour list exactly, in order |
| Candidates.TranslateNaive | translator.py:43-63 | fails exactly when a language is outside the configured pair, with the invalid-language error; every triple carries the source word; an unknown word gives the empty list; at most `n` triples when the search keeps its bound |
| Candidates.TranslateNaiveIsNeighbours | translator.py:52-58 | for a known word the candidates are exactly the neighbours of its vector in the target space, in search order |
| Candidates.TranslateDefault | translator.py:197-198 | fails exactly on a language outside the pair; at most ten candidates when the search keeps its bound |
| Candidates.FlattenLength | translator.py:194 | the flattened list is as long as all the lists together |
| Candidates.FlattenMember | translator.py:194 | every element of the flattened list comes from one of the lists |
| Candidates.TranslationsOfTranslations | translator.py:192-195 | fails exactly when there is a candidate and a language is outside the pair; otherwise its length is the sum of the per-candidate lengths |
| Candidates.TranslationsOfTranslationsSingle | translator.py:193-194 | the fan-out of one candidate is the default translation of its target word; with TranslationsOfTranslationsAppend, the output is every candidate's default translation concatenated in input order |
| Candidates.TranslationsOfTranslationsLength | translator.py:192-195 | the length is the sum of the per-candidate lengths, so at most ten per candidate when the search keeps its bound |
| Candidates.TranslationsOfTranslationsSources | translator.py:193 | every back-translation was produced for the target word of some input candidate |
| Candidates.TranslationsOfTranslationsAppend | translator.py:192-195 | the fan-out distributes over concatenation of its input, so duplicates in the input are kept in the output |
| ValidatedPairs.Orient | translator.py:85-89 | the stored pair is (word tagged lang1, word tagged lang2), and the same for the pair supplied the other way round |
| ValidatedPairs.FirstInvalid | translator.py:80-83 | every pair before the returned index is accepted and the pair at it, if any, is not |
| ValidatedPairs.FirstInvalidAt | translator.py:80-83 | the first rejected pair is at `i` when all pairs before it are accepted and the pair at `i` is not |
| ValidatedPairs.Canonical | translator.py:80-89 | one stored pair per supplied pair |
| ValidatedPairs.CanonicalAt | translator.py:85-89 | the stored pair at each position holds the lang1 word, then the lang2 word, of the supplied pair at that position |
| ValidatedPairs.CanonicalSnoc | translator.py:85-89 | storing one more accepted pair appends its oriented form and nothing else |
| ValidatedPairs.CanonicalIgnoresSupplyOrder | translator.py:85-89 | swapping the two sides of any supplied pairs does not change what is stored |
| Tsv.RStrip | translator.py:99 | the result is a prefix of the line, does not end in white space, and only white space was removed |
| Tsv.Split | translator.py:99 | there is at least one field and no field contains the separator |
| Tsv.JoinSplit | translator.py:99 | joining the fields with the separator restores the line, so splitting loses nothing |
| Tsv.SplitCount | translator.py:99-100 | there is one more field than there are separators |
| Tsv.WellFormedOneTab | translator.py:99-100 | a line is kept exactly when its stripped form holds exactly one tab |
| Tsv.ParsedPairs | translator.py:98-104 | at most one pair per line, each tagged (left language, right language), with no tab inside a word |
| Tsv.ParsedPairsLength | translator.py:98-104 | one pair per well-formed line; malformed lines add nothing |
| Tsv.ParsedPairsAppend | translator.py:98-104 | parsing works line by line: the pairs of concatenated lines are the concatenated pairs |
| Tsv.ParsedPairsValid | translator.py:92-106 | with two different configured languages, no parsed pair is rejected when stored |
| Tsv.CollectPairs | translator.py:96-104 | the collected list is the pairs of the well-formed lines, in line order, and its length is their number |
| Clustering.TranslateDefaultSet | translator.py:183-190 | fails exactly when the set is non-empty and a language is outside the pair; otherwise its keys are the words and each value is that word's default translation, so the map is the default-translation map of the set |
| Clustering.KeptExact | translator.py:177-179 | the kept triples of one word are exactly its candidates whose target is in the target set, re-keyed by that word |
| Clustering.IntersectOrderedExact | translator.py:173-181 | the intersection is sound (every output comes from a candidate of a visited word whose target is in the target set) and complete (every such candidate is in the output) |
| Clustering.IntersectTranslations | translator.py:173-181 | every output triple has a source word, a target in the target set and a score taken from one of that word's candidates (sound); every candidate of a source word whose target is in the target set is output (complete); the output is the intersection for the visiting order, which lists every source word once |
| Clustering.ClusterEntryAt | translator.py:129-167 | entry `i` of the first list has id `i`; entry `i` of the second list has id `|first| + i`, with its words the other way round |
| Clustering.ClusterIdsMembers | translator.py:133-163 | an id is recorded for a word exactly when the entry with that id is above the threshold and has that word on that language's side |
| Clustering.ClusterIdsSorted | translator.py:137-163 | every id list is in increasing order, strictly so when the two languages differ |
| Clustering.ClusterIdsSnoc | translator.py:137-143 | one more entry adds its id once for each side of it that is the word, and only when it is above the threshold |
| Clustering.PartnersMembers | translator.py:133-145 | a partner of a lang1 word is the lang2 word, tagged lang2, of an entry above the threshold that has that lang1 word |
| Clustering.RecordSkip | translator.py:133 | an entry at or below the threshold leaves the table and the sets as they are |
| Clustering.TableStep | translator.py:137-143 | appending the id under both words of an entry above the threshold keeps the table equal to the recorded ids |
| Clustering.SetsStep | translator.py:134-145 | adding the partner of an entry above the threshold keeps every set equal to its lang1 word plus its partners |
| Clustering.AppendIdCommutes | translator.py:157-163 | the two table updates of one entry may be done in either order, as the second pass does |
| Clustering.Advance | translator.py:130-167 | processing one more entry keeps the table and the sets recorded, in either update order, and tracks whether an entry above the threshold has been seen |
| Clustering.FirstPass | translator.py:128-147 | fails with the missing-language error exactly when an entry is above the threshold and a language is not `kir` or `kaz`; otherwise the table and sets record the first list with ids from 0 |
| Clustering.SecondPass | translator.py:149-167 | continuing from a recorded first list, fails exactly when an entry so far is above the threshold and a language is missing from the table; otherwise records both lists |
| Clustering.NumberClusters | translator.py:126-167 | fails exactly when some entry of either list is above the threshold and a language is not `kir` or `kaz`; otherwise the table holds every word's ids and each set holds its lang1 word and its partners |
| Clustering.SomeAboveEntries | translator.py:130-167 | both lists together have an entry above the threshold exactly when one of them does |
| Clustering.SomeAboveGivesAnyAbove | translator.py:118-133 | an intersected pair above the threshold is a translation above the threshold between the two word sets |
| Clustering.AnyAboveGivesSomeAbove | translator.py:118-133 | a translation above the threshold between the two word sets is an intersected pair |
| Clustering.InflectTranslationPairs | translator.py:114-169 | fails exactly on a language outside the pair (with non-empty input) or on a translation above the threshold between languages other than `kir`/`kaz`; otherwise each pair list is exactly the intersection of the default translations of one word set with the other set, for some enumeration of the first (one triple per kept candidate, grouped by source word), both lists are empty when a language is not configured, and the table and sets record the numbered pairs |
| Translator.FullTable | translator.py:204-212 | the table of a language has exactly its vocabulary as keys |
| Translator.FullTableEntry | translator.py:210-211 | a word's entry is the neighbour list of its vector, at most ten long when the search keeps its bound |
| Translator.FillStep | translator.py:210-211 | writing one more word's row into the partly filled table gives the table filled for one more word |
| Translator.BilangTranslator.constructor | translator.py:26-41 | stores the two spaces, no pairs, and either both full tables or two empty tables |
| Translator.BilangTranslator.SetBestTranslationCandidates | translator.py:79-89 | appends the oriented form of every pair before the first rejected one, keeps the earlier pairs, and passes exactly when no pair is rejected |
| Translator.BilangTranslator.SetBestTranslationCandidatesFromTsv | translator.py:91-106 | fails before reading when the languages are not two different configured ones; otherwise appends the oriented pair of every well-formed line, one per line |
| Translator.BilangTranslator.InitializeTranslationsFrom | translator.py:204-212 | the table of the source language gains the full table, every other table is unchanged |
| Translator.BilangTranslator.InitializeTranslations | translator.py:200-202 | both languages' tables gain their full tables |

## Left out

- Loading the embedding files and the nearest-neighbour search (translator.py:32, 35, 112) are library calls. The spaces are given as values and the search is an uninterpreted function.
- Candidates.TranslateNaive: the bound of `n` candidates is proved only under `TopNBounded`, the library's own promise about its search, which the model cannot check. The same holds for TranslateDefault, GetNearestNeighbors, TranslationsOfTranslationsLength and FullTableEntry.
- Reading the tab-separated file (translator.py:97): the loader takes the file's lines as a sequence of strings.
- Logging and progress printing, including the counters used only for it (translator.py:19-24, 61, 101, 131-132, 150-151, 188-189, 205-206, 208-209, 212).
- `translate_morfessor_boosted` (translator.py:69-71) always raises `NotImplementedError`.
- `get_word_by_vec` (translator.py:108-109) and the getter `get_best_translation_candidates` (translator.py:76-77) are not modelled; the getter returns the public field `bestLang1ToLang2`.
- The class-level attributes that Python shares between instances (translator.py:9-17) are fields of one object; leakage between instances is not modelled.
- Scores are real numbers; floating-point rounding is not modelled. Scores are only compared with the threshold.
- Python's set iteration order is not modelled. The methods pick any element, and the ghost `order` of IntersectTranslations records the order used.
- Translator.BilangTranslator.InitializeTranslationsFrom requires two configured languages. Its only caller passes the configured pair. With an unconfigured source the source fails on the model lookup; with an unconfigured target the assertion in translate_default (translator.py:45) fails, but only when the source vocabulary is non-empty, and the model does not cover that case.
- Candidates.TranslateDefault fixes the neighbour count at the source's default of ten (translator.py:197). No caller in the core passes another count; other counts go through TranslateNaive.
- Clustering.IntersectTranslations requires every source word to have an entry in the translation map, as the source's lookup does; its only caller builds that map from the same word set.
- The `meaning_clustering` and `share_meaning` methods called by the tests are not part of this model.
