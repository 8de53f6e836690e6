/** Pairing up two word lists by their mutual translations and numbering the
    resulting translation pairs as clusters. */
module Clustering {
  import opened Embedding
  import opened Candidates

  /** The languages the cluster table is created with; no other language can be recorded. */
  const CLUSTER_LANGS: set<Lang> := {"kir", "kaz"}

  /** The default translation of every word of `words`, keyed by the word. */
  ghost function DefaultTranslations(e: Embeddings, srcLang: Lang, tgtLang: Lang, words: set<Word>): map<Word, seq<Candidate>>
    requires e.Configured(srcLang) && e.Configured(tgtLang)
  {
    map w | w in words :: TranslateDefault(e, srcLang, tgtLang, w).value
  }

  /** The default translations of every word of `words`, keyed by the word. Fails
      (on the first word) when a language is outside the configured pair; an empty
      word set never fails. */
  method TranslateDefaultSet(e: Embeddings, srcLang: Lang, tgtLang: Lang, words: set<Word>)
    returns (r: Result<map<Word, seq<Candidate>>>)
    ensures r.Failure? <==> words != {} && !(e.Configured(srcLang) && e.Configured(tgtLang))
    ensures r.Failure? ==> r.error == InvalidLanguage
    ensures r.Success? ==> r.value.Keys == words
    ensures r.Success? ==> forall w | w in words :: TranslateDefault(e, srcLang, tgtLang, w) == Success(r.value[w])
    ensures r.Success? && e.Configured(srcLang) && e.Configured(tgtLang) ==>
              r.value == DefaultTranslations(e, srcLang, tgtLang, words)
  {
    var translations: map<Word, seq<Candidate>> := map[];
    var remaining := words;
    while remaining != {}
      invariant remaining <= words
      invariant translations.Keys == words - remaining
      invariant forall w | w in translations :: TranslateDefault(e, srcLang, tgtLang, w) == Success(translations[w])
      invariant (e.Configured(srcLang) && e.Configured(tgtLang)) || remaining == words
      decreases remaining
    {
      var word :| word in remaining;
      var t := TranslateDefault(e, srcLang, tgtLang, word);
      if t.Failure? {
        return Failure(t.error);
      }
      translations := translations[word := t.value];
      remaining := remaining - {word};
    }
    if e.Configured(srcLang) && e.Configured(tgtLang) {
      assert translations == DefaultTranslations(e, srcLang, tgtLang, words);
    }
    return Success(translations);
  }

  /** The candidates of `w` whose target word is in `wordsTgt`, re-keyed by `w`. */
  function Kept(w: Word, translations: seq<Candidate>, wordsTgt: set<Word>): (r: seq<Candidate>)
    ensures |r| <= |translations|
    decreases |translations|
  {
    if translations == [] then []
    else
      var n := |translations| - 1;
      var t := translations[n];
      Kept(w, translations[..n], wordsTgt) + (if t.1 in wordsTgt then [(w, t.1, t.2)] else [])
  }

  /** `Kept` keeps exactly the candidates whose target is in `wordsTgt`, re-keyed by `w`. */
  lemma {:induction false} KeptExact(w: Word, translations: seq<Candidate>, wordsTgt: set<Word>)
    ensures forall c | c in Kept(w, translations, wordsTgt) ::
              c.0 == w && c.1 in wordsTgt && exists t | t in translations :: t.1 == c.1 && t.2 == c.2
    ensures forall t | t in translations && t.1 in wordsTgt :: (w, t.1, t.2) in Kept(w, translations, wordsTgt)
    decreases |translations|
  {
    if translations != [] {
      var n := |translations| - 1;
      KeptExact(w, translations[..n], wordsTgt);
      assert translations == translations[..n] + [translations[n]];
    }
  }

  /** The intersection for the source words visited in the order `order`. */
  function IntersectOrdered(translationsSrc: map<Word, seq<Candidate>>, order: seq<Word>, wordsTgt: set<Word>): seq<Candidate>
    requires forall w | w in order :: w in translationsSrc
    decreases |order|
  {
    if order == [] then []
    else
      var n := |order| - 1;
      IntersectOrdered(translationsSrc, order[..n], wordsTgt) + Kept(order[n], translationsSrc[order[n]], wordsTgt)
  }

  /** The intersection keeps exactly the candidates, re-keyed by their source word,
      whose target is in `wordsTgt`: nothing else (sound) and all of them (complete). */
  lemma {:induction false} IntersectOrderedExact(translationsSrc: map<Word, seq<Candidate>>, order: seq<Word>, wordsTgt: set<Word>)
    requires forall w | w in order :: w in translationsSrc
    ensures forall c | c in IntersectOrdered(translationsSrc, order, wordsTgt) ::
              c.0 in order && c.1 in wordsTgt && exists t | t in translationsSrc[c.0] :: t.1 == c.1 && t.2 == c.2
    ensures forall w, t | w in order && t in translationsSrc[w] && t.1 in wordsTgt ::
              (w, t.1, t.2) in IntersectOrdered(translationsSrc, order, wordsTgt)
    decreases |order|
  {
    if order != [] {
      var n := |order| - 1;
      IntersectOrderedExact(translationsSrc, order[..n], wordsTgt);
      KeptExact(order[n], translationsSrc[order[n]], wordsTgt);
      assert order == order[..n] + [order[n]];
    }
  }

  lemma IntersectOrderedSnoc(translationsSrc: map<Word, seq<Candidate>>, order: seq<Word>, w: Word, wordsTgt: set<Word>)
    requires forall u | u in order :: u in translationsSrc
    requires w in translationsSrc
    ensures forall u | u in order + [w] :: u in translationsSrc
    ensures IntersectOrdered(translationsSrc, order + [w], wordsTgt)
            == IntersectOrdered(translationsSrc, order, wordsTgt) + Kept(w, translationsSrc[w], wordsTgt)
  {
    assert (order + [w])[..|order|] == order;
  }

  /** `order` lists every element of `s` exactly once. */
  ghost predicate Enumerates(order: seq<Word>, s: set<Word>)
  {
    (forall w :: w in order <==> w in s) &&
    (forall i, j | 0 <= i < j < |order| :: order[i] != order[j])
  }

  /** Only the empty order enumerates the empty set. */
  lemma EnumeratesEmpty(order: seq<Word>)
    requires Enumerates(order, {})
    ensures order == []
  {
    if order != [] {
      NonEmptyHasMember(order);
      assert false;
    }
  }

  lemma NonEmptyHasMember(order: seq<Word>)
    requires order != []
    ensures exists w :: w in order
  {
    assert order[0] in order;
  }

  /** For every source word (in set order) and every one of its candidates, keeps
      (word, target, score) when the target is one of `wordsTgt`. The order the set
      is visited in is returned as `order`. */
  method IntersectTranslations(translationsSrc: map<Word, seq<Candidate>>, wordsSrc: set<Word>, wordsTgt: set<Word>)
    returns (pairs: seq<Candidate>, ghost order: seq<Word>)
    requires wordsSrc <= translationsSrc.Keys
    ensures Enumerates(order, wordsSrc)
    ensures pairs == IntersectOrdered(translationsSrc, order, wordsTgt)
    ensures forall c | c in pairs ::
              c.0 in wordsSrc && c.1 in wordsTgt && exists t | t in translationsSrc[c.0] :: t.1 == c.1 && t.2 == c.2
    ensures forall w, t | w in wordsSrc && t in translationsSrc[w] && t.1 in wordsTgt :: (w, t.1, t.2) in pairs
  {
    pairs, order := [], [];
    var remaining := wordsSrc;
    while remaining != {}
      invariant remaining <= wordsSrc
      invariant forall w | w in order :: w in wordsSrc && w !in remaining
      invariant forall w | w in wordsSrc && w !in remaining :: w in order
      invariant forall i, j | 0 <= i < j < |order| :: order[i] != order[j]
      invariant pairs == IntersectOrdered(translationsSrc, order, wordsTgt)
      decreases remaining
    {
      var word :| word in remaining;
      var candidates := translationsSrc[word];
      ghost var before := pairs;
      var j := 0;
      while j < |candidates|
        invariant 0 <= j <= |candidates|
        invariant pairs == before + Kept(word, candidates[..j], wordsTgt)
      {
        assert candidates[..j + 1][..j] == candidates[..j];
        if candidates[j].1 in wordsTgt {
          pairs := pairs + [(word, candidates[j].1, candidates[j].2)];
        }
        j := j + 1;
      }
      assert candidates[..j] == candidates;
      IntersectOrderedSnoc(translationsSrc, order, word, wordsTgt);
      order := order + [word];
      remaining := remaining - {word};
    }
    IntersectOrderedExact(translationsSrc, order, wordsTgt);
  }

  /** `pairs` holds, for the words of `wordsSrc` translated from `srcLang` into
      `tgtLang`, exactly the candidates whose target is one of `wordsTgt`. */
  ghost predicate IsIntersection(e: Embeddings, srcLang: Lang, tgtLang: Lang, wordsSrc: set<Word>, wordsTgt: set<Word>, pairs: seq<Candidate>)
    requires e.Configured(srcLang) && e.Configured(tgtLang)
  {
    (forall c | c in pairs ::
       c.0 in wordsSrc && c.1 in wordsTgt &&
       exists t | t in TranslateDefault(e, srcLang, tgtLang, c.0).value :: t.1 == c.1 && t.2 == c.2) &&
    (forall w, t | w in wordsSrc && t in TranslateDefault(e, srcLang, tgtLang, w).value && t.1 in wordsTgt ::
       (w, t.1, t.2) in pairs)
  }

  /** A candidate seen from the other side: (w2, w1, s) becomes (w1, w2, s). */
  function Flip(pairs: seq<Candidate>): seq<Candidate>
  {
    seq(|pairs|, i requires 0 <= i < |pairs| => (pairs[i].1, pairs[i].0, pairs[i].2))
  }

  /** The entries of both passes in cluster-id order, each as (lang1 word, lang2 word, score):
      entry i of the first list has id i, entry i of the second list has id |first| + i. */
  function ClusterEntries(pairs1: seq<Candidate>, pairs2: seq<Candidate>): (r: seq<Candidate>)
    ensures |r| == |pairs1| + |pairs2|
  {
    pairs1 + Flip(pairs2)
  }

  /** The entry with cluster id `id`. */
  lemma ClusterEntryAt(pairs1: seq<Candidate>, pairs2: seq<Candidate>, id: nat)
    requires id < |pairs1| + |pairs2|
    ensures id < |pairs1| ==> ClusterEntries(pairs1, pairs2)[id] == pairs1[id]
    ensures id >= |pairs1| ==>
              var c := pairs2[id - |pairs1|];
              ClusterEntries(pairs1, pairs2)[id] == (c.1, c.0, c.2)
  {
  }

  /** The ids recorded for `w` in the table of language `lang` after the entries have
      been processed: an entry above the threshold adds its id once for its lang1 word
      (in the table of lang1) and once for its lang2 word (in the table of lang2). */
  function ClusterIds(entries: seq<Candidate>, threshold: Score, lang1: Lang, lang2: Lang, lang: Lang, w: Word): seq<nat>
    decreases |entries|
  {
    if entries == [] then []
    else
      var k := |entries| - 1;
      var c := entries[k];
      ClusterIds(entries[..k], threshold, lang1, lang2, lang, w) +
      (if c.2 > threshold then
         (if lang == lang1 && c.0 == w then [k] else []) + (if lang == lang2 && c.1 == w then [k] else [])
       else [])
  }

  /** An id is recorded for `w` exactly when the entry with that id is above the
      threshold and has `w` as its word in `lang`. */
  lemma {:induction false} ClusterIdsMembers(entries: seq<Candidate>, threshold: Score, lang1: Lang, lang2: Lang, lang: Lang, w: Word, id: int)
    ensures id in ClusterIds(entries, threshold, lang1, lang2, lang, w) <==>
              0 <= id < |entries| && entries[id].2 > threshold &&
              ((lang == lang1 && entries[id].0 == w) || (lang == lang2 && entries[id].1 == w))
    decreases |entries|
  {
    if entries != [] {
      var k := |entries| - 1;
      ClusterIdsMembers(entries[..k], threshold, lang1, lang2, lang, w, id);
    }
  }

  /** Every id list is in increasing order, strictly so when the two languages differ. */
  lemma {:induction false} ClusterIdsSorted(entries: seq<Candidate>, threshold: Score, lang1: Lang, lang2: Lang, lang: Lang, w: Word)
    ensures var ids := ClusterIds(entries, threshold, lang1, lang2, lang, w);
            forall i, j | 0 <= i < j < |ids| :: ids[i] <= ids[j] && (lang1 != lang2 ==> ids[i] < ids[j])
    decreases |entries|
  {
    if entries != [] {
      var k := |entries| - 1;
      var ids := ClusterIds(entries, threshold, lang1, lang2, lang, w);
      var prefix := ClusterIds(entries[..k], threshold, lang1, lang2, lang, w);
      ClusterIdsSorted(entries[..k], threshold, lang1, lang2, lang, w);
      forall i | 0 <= i < |prefix|
        ensures prefix[i] < k
      {
        ClusterIdsMembers(entries[..k], threshold, lang1, lang2, lang, w, prefix[i]);
      }
      assert forall i | |prefix| <= i < |ids| :: ids[i] == k;
    }
  }

  /** The (word, lang2) members added to the set named by the lang1 word `w`. */
  function Partners(entries: seq<Candidate>, threshold: Score, lang2: Lang, w: Word): (r: set<(Word, Lang)>)
    ensures forall x | x in r :: x.1 == lang2
    decreases |entries|
  {
    if entries == [] then {}
    else
      var k := |entries| - 1;
      var c := entries[k];
      Partners(entries[..k], threshold, lang2, w) + (if c.2 > threshold && c.0 == w then {(c.1, lang2)} else {})
  }

  /** A partner of `w` is the lang2 word of an entry above the threshold whose lang1 word is `w`. */
  lemma {:induction false} PartnersMembers(entries: seq<Candidate>, threshold: Score, lang2: Lang, w: Word, x: (Word, Lang))
    ensures x in Partners(entries, threshold, lang2, w) <==>
              exists id | 0 <= id < |entries| :: entries[id].2 > threshold && entries[id].0 == w && x == (entries[id].1, lang2)
    decreases |entries|
  {
    if entries != [] {
      var k := |entries| - 1;
      PartnersMembers(entries[..k], threshold, lang2, w, x);
      if x in Partners(entries[..k], threshold, lang2, w) {
        var id :| 0 <= id < k && entries[..k][id].2 > threshold && entries[..k][id].0 == w && x == (entries[..k][id].1, lang2);
        assert entries[id] == entries[..k][id];
      }
      if exists id | 0 <= id < |entries| :: entries[id].2 > threshold && entries[id].0 == w && x == (entries[id].1, lang2) {
        var id :| 0 <= id < |entries| && entries[id].2 > threshold && entries[id].0 == w && x == (entries[id].1, lang2);
        if id < k {
          assert entries[..k][id] == entries[id];
        }
      }
    }
  }

  type ClusterTable = map<Lang, map<Word, seq<nat>>>
  type ClusterSets = map<Word, set<(Word, Lang)>>

  /** `table` is what processing `entries` records: per language, each word maps to
      its cluster ids, and only words with at least one id are present. */
  ghost predicate TableRecorded(table: ClusterTable, entries: seq<Candidate>, threshold: Score, lang1: Lang, lang2: Lang)
  {
    table.Keys == CLUSTER_LANGS &&
    (forall lang, w | lang in table :: w in table[lang] <==> ClusterIds(entries, threshold, lang1, lang2, lang, w) != []) &&
    (forall lang, w | lang in table && w in table[lang] :: table[lang][w] == ClusterIds(entries, threshold, lang1, lang2, lang, w))
  }

  /** `sets` is what processing `entries` records: each lang1 word of an entry above
      the threshold names the set of itself (tagged lang1) and its partners. */
  ghost predicate SetsRecorded(sets: ClusterSets, entries: seq<Candidate>, threshold: Score, lang1: Lang, lang2: Lang)
  {
    (forall w :: w in sets <==> Partners(entries, threshold, lang2, w) != {}) &&
    (forall w | w in sets :: sets[w] == {(w, lang1)} + Partners(entries, threshold, lang2, w))
  }

  ghost predicate Recorded(table: ClusterTable, sets: ClusterSets, entries: seq<Candidate>, threshold: Score, lang1: Lang, lang2: Lang)
  {
    TableRecorded(table, entries, threshold, lang1, lang2) && SetsRecorded(sets, entries, threshold, lang1, lang2)
  }

  function AppendId(table: ClusterTable, lang: Lang, w: Word, id: nat): ClusterTable
    requires lang in table
  {
    table[lang := table[lang][w := (if w in table[lang] then table[lang][w] else []) + [id]]]
  }

  function AddPartner(sets: ClusterSets, w: Word, lang1: Lang, x: (Word, Lang)): ClusterSets
  {
    sets[w := (if w in sets then sets[w] else {(w, lang1)}) + {x}]
  }

  /** An entry at or below the threshold changes nothing. */
  lemma RecordSkip(table: ClusterTable, sets: ClusterSets, entries: seq<Candidate>, c: Candidate, threshold: Score, lang1: Lang, lang2: Lang)
    requires Recorded(table, sets, entries, threshold, lang1, lang2)
    requires !(c.2 > threshold)
    ensures Recorded(table, sets, entries + [c], threshold, lang1, lang2)
  {
    assert (entries + [c])[..|entries|] == entries;
  }

  /** The ids stored for `w` under `lang`, or none. */
  function IdsOf(table: ClusterTable, lang: Lang, w: Word): seq<nat>
  {
    if lang in table && w in table[lang] then table[lang][w] else []
  }

  lemma AppendIdEffect(table: ClusterTable, target: Lang, x: Word, id: nat)
    requires target in table
    ensures AppendId(table, target, x, id).Keys == table.Keys
    ensures forall lang, w | lang in table ::
              (w in AppendId(table, target, x, id)[lang] <==> w in table[lang] || (lang == target && w == x))
    ensures forall lang, w ::
              IdsOf(AppendId(table, target, x, id), lang, w)
              == IdsOf(table, lang, w) + (if lang == target && w == x then [id] else [])
  {
  }

  /** The ids of `w` after one more entry: the earlier ids, then the new id once for
      each side of the entry that is `w` in `lang`, when the entry is above the threshold. */
  lemma ClusterIdsSnoc(entries: seq<Candidate>, c: Candidate, threshold: Score, lang1: Lang, lang2: Lang, lang: Lang, w: Word)
    ensures ClusterIds(entries + [c], threshold, lang1, lang2, lang, w)
            == ClusterIds(entries, threshold, lang1, lang2, lang, w)
               + (if c.2 > threshold && lang == lang1 && c.0 == w then [|entries|] else [])
               + (if c.2 > threshold && lang == lang2 && c.1 == w then [|entries|] else [])
  {
    assert (entries + [c])[..|entries|] == entries;
    var ids := ClusterIds(entries, threshold, lang1, lang2, lang, w);
    var a := if c.2 > threshold && lang == lang1 && c.0 == w then [|entries|] else [];
    var b := if c.2 > threshold && lang == lang2 && c.1 == w then [|entries|] else [];
    assert ids + (a + b) == ids + a + b;
  }

  /** A recorded table gives each word exactly its ids. */
  lemma IdsOfRecorded(table: ClusterTable, entries: seq<Candidate>, threshold: Score, lang1: Lang, lang2: Lang, lang: Lang, w: Word)
    requires TableRecorded(table, entries, threshold, lang1, lang2)
    requires lang in table
    ensures IdsOf(table, lang, w) == ClusterIds(entries, threshold, lang1, lang2, lang, w)
  {
  }

  lemma TableStep(table: ClusterTable, entries: seq<Candidate>, c: Candidate, threshold: Score, lang1: Lang, lang2: Lang)
    requires TableRecorded(table, entries, threshold, lang1, lang2)
    requires c.2 > threshold && lang1 in table && lang2 in table
    ensures TableRecorded(AppendId(AppendId(table, lang1, c.0, |entries|), lang2, c.1, |entries|),
                          entries + [c], threshold, lang1, lang2)
  {
    var k := |entries|;
    var t1 := AppendId(table, lang1, c.0, k);
    AppendIdEffect(table, lang1, c.0, k);
    var t2 := AppendId(t1, lang2, c.1, k);
    AppendIdEffect(t1, lang2, c.1, k);
    forall lang, w | lang in t2
      ensures w in t2[lang] <==> ClusterIds(entries + [c], threshold, lang1, lang2, lang, w) != []
      ensures w in t2[lang] ==> t2[lang][w] == ClusterIds(entries + [c], threshold, lang1, lang2, lang, w)
    {
      ClusterIdsSnoc(entries, c, threshold, lang1, lang2, lang, w);
      IdsOfRecorded(table, entries, threshold, lang1, lang2, lang, w);
      assert IdsOf(t2, lang, w) == ClusterIds(entries + [c], threshold, lang1, lang2, lang, w);
    }
  }

  lemma SetsStep(sets: ClusterSets, entries: seq<Candidate>, c: Candidate, threshold: Score, lang1: Lang, lang2: Lang)
    requires SetsRecorded(sets, entries, threshold, lang1, lang2)
    requires c.2 > threshold
    ensures SetsRecorded(AddPartner(sets, c.0, lang1, (c.1, lang2)), entries + [c], threshold, lang1, lang2)
  {
    assert (entries + [c])[..|entries|] == entries;
  }

  lemma ConcatSwap(x: seq<nat>, a: seq<nat>, b: seq<nat>)
    requires a == [] || b == [] || a == b
    ensures x + a + b == x + b + a
  {
    if a == [] {
      assert x + a == x;
      assert x + b + a == x + b;
    } else if b == [] {
      assert x + b == x;
      assert x + a + b == x + a;
    }
  }

  /** The two table updates of one entry commute. */
  lemma AppendIdCommutes(table: ClusterTable, lang1: Lang, w1: Word, lang2: Lang, w2: Word, id: nat)
    requires lang1 in table && lang2 in table
    ensures AppendId(AppendId(table, lang1, w1, id), lang2, w2, id)
            == AppendId(AppendId(table, lang2, w2, id), lang1, w1, id)
  {
    var t1 := AppendId(table, lang1, w1, id);
    AppendIdEffect(table, lang1, w1, id);
    var t2 := AppendId(t1, lang2, w2, id);
    AppendIdEffect(t1, lang2, w2, id);
    var u1 := AppendId(table, lang2, w2, id);
    AppendIdEffect(table, lang2, w2, id);
    var u2 := AppendId(u1, lang1, w1, id);
    AppendIdEffect(u1, lang1, w1, id);
    assert t2.Keys == u2.Keys;
    forall lang | lang in t2
      ensures t2[lang] == u2[lang]
    {
      assert t2[lang].Keys == u2[lang].Keys;
      forall w | w in t2[lang]
        ensures t2[lang][w] == u2[lang][w]
      {
        var a: seq<nat> := if lang == lang1 && w == w1 then [id] else [];
        var b: seq<nat> := if lang == lang2 && w == w2 then [id] else [];
        ConcatSwap(IdsOf(table, lang, w), a, b);
        assert IdsOf(t2, lang, w) == IdsOf(u2, lang, w);
      }
    }
  }

  /** Recording an entry above the threshold. */
  lemma RecordStep(table: ClusterTable, sets: ClusterSets, entries: seq<Candidate>, c: Candidate, threshold: Score, lang1: Lang, lang2: Lang)
    requires Recorded(table, sets, entries, threshold, lang1, lang2)
    requires c.2 > threshold && lang1 in table && lang2 in table
    ensures Recorded(AppendId(AppendId(table, lang1, c.0, |entries|), lang2, c.1, |entries|),
                     AddPartner(sets, c.0, lang1, (c.1, lang2)), entries + [c], threshold, lang1, lang2)
  {
    TableStep(table, entries, c, threshold, lang1, lang2);
    SetsStep(sets, entries, c, threshold, lang1, lang2);
  }

  /** What `InflectTranslationPairs` returns: both intersections, the named sets and the cluster table. */
  datatype Clusters = Clusters(
    pairs1: seq<Candidate>,
    pairs2: seq<Candidate>,
    sets: ClusterSets,
    table: ClusterTable)

  /** Some intersected translation, in either direction, is above the threshold. */
  ghost predicate AnyAbove(e: Embeddings, lang1: Lang, words1: set<Word>, lang2: Lang, words2: set<Word>, threshold: Score)
    requires e.Configured(lang1) && e.Configured(lang2)
  {
    (exists w, t | w in words1 && t in TranslateDefault(e, lang1, lang2, w).value :: t.1 in words2 && t.2 > threshold) ||
    (exists w, t | w in words2 && t in TranslateDefault(e, lang2, lang1, w).value :: t.1 in words1 && t.2 > threshold)
  }

  /** Some entry is above the threshold. */
  predicate SomeAbove(entries: seq<Candidate>, threshold: Score)
  {
    exists id | 0 <= id < |entries| :: entries[id].2 > threshold
  }

  lemma PrefixSnoc(entries: seq<Candidate>, k: nat)
    requires k < |entries|
    ensures entries[..k + 1] == entries[..k] + [entries[k]]
  {
  }

  lemma SomeAboveSnoc(entries: seq<Candidate>, c: Candidate, threshold: Score)
    ensures SomeAbove(entries + [c], threshold) <==> SomeAbove(entries, threshold) || c.2 > threshold
  {
    if SomeAbove(entries + [c], threshold) {
      var id :| 0 <= id < |entries| + 1 && (entries + [c])[id].2 > threshold;
      if id < |entries| {
        assert entries[id].2 > threshold;
      }
    }
    if SomeAbove(entries, threshold) {
      var id :| 0 <= id < |entries| && entries[id].2 > threshold;
      assert (entries + [c])[id].2 > threshold;
    }
    if c.2 > threshold {
      assert (entries + [c])[|entries|].2 > threshold;
    }
  }

  /** Processing one more entry `c`, with the table updates in either order. */
  lemma Advance(table: ClusterTable, sets: ClusterSets, done: seq<Candidate>, c: Candidate, threshold: Score, lang1: Lang, lang2: Lang)
    requires Recorded(table, sets, done, threshold, lang1, lang2)
    ensures SomeAbove(done + [c], threshold) <==> SomeAbove(done, threshold) || c.2 > threshold
    ensures !(c.2 > threshold) ==> Recorded(table, sets, done + [c], threshold, lang1, lang2)
    ensures c.2 > threshold && lang1 in table && lang2 in table ==>
              var k := |done|;
              var sets' := AddPartner(sets, c.0, lang1, (c.1, lang2));
              Recorded(AppendId(AppendId(table, lang1, c.0, k), lang2, c.1, k), sets', done + [c], threshold, lang1, lang2) &&
              Recorded(AppendId(AppendId(table, lang2, c.1, k), lang1, c.0, k), sets', done + [c], threshold, lang1, lang2)
  {
    SomeAboveSnoc(done, c, threshold);
    if c.2 > threshold {
      if lang1 in table && lang2 in table {
        RecordStep(table, sets, done, c, threshold, lang1, lang2);
        AppendIdCommutes(table, lang1, c.0, lang2, c.1, |done|);
      }
    } else {
      RecordSkip(table, sets, done, c, threshold, lang1, lang2);
    }
  }

  /** The two numbering passes: one cluster id per intersected pair, the first list
      from 0 and the second list after it; a pair above the threshold is recorded
      under its lang1 word and its lang2 word (the table only knows "kir" and "kaz"). */
  method NumberClusters(pairs1: seq<Candidate>, pairs2: seq<Candidate>, lang1: Lang, lang2: Lang, threshold: Score)
    returns (r: Result<(ClusterSets, ClusterTable)>)
    ensures r.Failure? <==> SomeAbove(ClusterEntries(pairs1, pairs2), threshold) && !(lang1 in CLUSTER_LANGS && lang2 in CLUSTER_LANGS)
    ensures r.Failure? ==> r.error == MissingClusterLanguage
    ensures r.Success? ==> Recorded(r.value.1, r.value.0, ClusterEntries(pairs1, pairs2), threshold, lang1, lang2)
  {
    var first := FirstPass(pairs1, lang1, lang2, threshold);
    if first.Failure? {
      SomeAbovePrefix(pairs1, pairs1 + Flip(pairs2), threshold);
      return Failure(first.error);
    }
    r := SecondPass(first.value.0, first.value.1, pairs1, |pairs1|, pairs2, lang1, lang2, threshold);
  }

  /** The first pass: pairs of the first list get ids 0, 1, ... */
  method FirstPass(pairs1: seq<Candidate>, lang1: Lang, lang2: Lang, threshold: Score)
    returns (r: Result<(ClusterSets, ClusterTable)>)
    ensures r.Failure? <==> SomeAbove(pairs1, threshold) && !(lang1 in CLUSTER_LANGS && lang2 in CLUSTER_LANGS)
    ensures r.Failure? ==> r.error == MissingClusterLanguage
    ensures r.Success? ==> Recorded(r.value.1, r.value.0, pairs1, threshold, lang1, lang2)
  {
    ghost var known := lang1 in CLUSTER_LANGS && lang2 in CLUSTER_LANGS;
    ghost var done: seq<Candidate> := [];
    var sets: ClusterSets := map[];
    var table: ClusterTable := map["kir" := map[], "kaz" := map[]];
    var clusterId := 0;
    while clusterId < |pairs1|
      invariant 0 <= clusterId <= |pairs1|
      invariant done == pairs1[..clusterId]
      invariant Recorded(table, sets, done, threshold, lang1, lang2)
      invariant !known ==> !SomeAbove(done, threshold)
    {
      var entry := pairs1[clusterId];
      PrefixSnoc(pairs1, clusterId);
      Advance(table, sets, done, entry, threshold, lang1, lang2);
      if entry.2 > threshold {
        if !(lang1 in table && lang2 in table) {
          SomeAbovePrefix(done + [entry], pairs1, threshold);
          return Failure(MissingClusterLanguage);
        }
        sets := AddPartner(sets, entry.0, lang1, (entry.1, lang2));
        table := AppendId(table, lang1, entry.0, clusterId);
        table := AppendId(table, lang2, entry.1, clusterId);
      }
      done := done + [entry];
      clusterId := clusterId + 1;
    }
    assert pairs1[..clusterId] == pairs1;
    return Success((sets, table));
  }

  /** The second pass: pairs of the second list, whose words are the other way round,
      continue the ids after the first list. */
  method SecondPass(sets0: ClusterSets, table0: ClusterTable, ghost before: seq<Candidate>, firstId: nat,
                    pairs2: seq<Candidate>, lang1: Lang, lang2: Lang, threshold: Score)
    returns (r: Result<(ClusterSets, ClusterTable)>)
    requires firstId == |before|
    requires Recorded(table0, sets0, before, threshold, lang1, lang2)
    requires !(lang1 in CLUSTER_LANGS && lang2 in CLUSTER_LANGS) ==> !SomeAbove(before, threshold)
    ensures r.Failure? <==> SomeAbove(before + Flip(pairs2), threshold) && !(lang1 in CLUSTER_LANGS && lang2 in CLUSTER_LANGS)
    ensures r.Failure? ==> r.error == MissingClusterLanguage
    ensures r.Success? ==> Recorded(r.value.1, r.value.0, before + Flip(pairs2), threshold, lang1, lang2)
  {
    ghost var known := lang1 in CLUSTER_LANGS && lang2 in CLUSTER_LANGS;
    ghost var flipped := Flip(pairs2);
    ghost var done := before;
    var sets, table := sets0, table0;
    var clusterId := firstId;
    var idx := 0;
    while idx < |pairs2|
      invariant 0 <= idx <= |pairs2| && clusterId == firstId + idx
      invariant done == before + flipped[..idx] && |done| == clusterId
      invariant Recorded(table, sets, done, threshold, lang1, lang2)
      invariant !known ==> !SomeAbove(done, threshold)
    {
      var entry := pairs2[idx];
      ghost var c := (entry.1, entry.0, entry.2);
      assert flipped[idx] == c;
      Advance(table, sets, done, c, threshold, lang1, lang2);
      ConcatSnoc(before, flipped, idx);
      if entry.2 > threshold {
        if !(lang1 in table && lang2 in table) {
          SomeAbovePrefix(done + [c], before + flipped, threshold);
          return Failure(MissingClusterLanguage);
        }
        sets := AddPartner(sets, entry.1, lang1, (entry.0, lang2));
        table := AppendId(table, lang2, entry.0, clusterId);
        table := AppendId(table, lang1, entry.1, clusterId);
      }
      done := done + [c];
      clusterId := clusterId + 1;
      idx := idx + 1;
    }
    assert flipped[..idx] == flipped;
    return Success((sets, table));
  }

  lemma ConcatSnoc(a: seq<Candidate>, b: seq<Candidate>, i: nat)
    requires i < |b|
    ensures a + b[..i + 1] == (a + b[..i]) + [b[i]]
  {
    assert b[..i + 1] == b[..i] + [b[i]];
  }

  lemma SomeAbovePrefix(prefix: seq<Candidate>, entries: seq<Candidate>, threshold: Score)
    requires prefix <= entries
    requires SomeAbove(prefix, threshold)
    ensures SomeAbove(entries, threshold)
  {
    var id :| 0 <= id < |prefix| && prefix[id].2 > threshold;
    assert entries[id] == prefix[id];
  }

  /** An intersected pair above the threshold is a translation above the threshold. */
  lemma SomeAboveGivesAnyAbove(e: Embeddings, lang1: Lang, lang2: Lang, ws1: set<Word>, ws2: set<Word>,
                               pairs1: seq<Candidate>, pairs2: seq<Candidate>, threshold: Score)
    requires e.Configured(lang1) && e.Configured(lang2)
    requires IsIntersection(e, lang1, lang2, ws1, ws2, pairs1)
    requires IsIntersection(e, lang2, lang1, ws2, ws1, pairs2)
    requires SomeAbove(ClusterEntries(pairs1, pairs2), threshold)
    ensures AnyAbove(e, lang1, ws1, lang2, ws2, threshold)
  {
    var entries := ClusterEntries(pairs1, pairs2);
    var id :| 0 <= id < |entries| && entries[id].2 > threshold;
    if id < |pairs1| {
      var c := pairs1[id];
      assert c in pairs1;
      var t :| t in TranslateDefault(e, lang1, lang2, c.0).value && t.1 == c.1 && t.2 == c.2;
    } else {
      var c := pairs2[id - |pairs1|];
      assert c in pairs2;
      var t :| t in TranslateDefault(e, lang2, lang1, c.0).value && t.1 == c.1 && t.2 == c.2;
    }
  }

  /** A translation above the threshold between the two word sets is an intersected pair. */
  lemma AnyAboveGivesSomeAbove(e: Embeddings, lang1: Lang, lang2: Lang, ws1: set<Word>, ws2: set<Word>,
                               pairs1: seq<Candidate>, pairs2: seq<Candidate>, threshold: Score)
    requires e.Configured(lang1) && e.Configured(lang2)
    requires IsIntersection(e, lang1, lang2, ws1, ws2, pairs1)
    requires IsIntersection(e, lang2, lang1, ws2, ws1, pairs2)
    requires AnyAbove(e, lang1, ws1, lang2, ws2, threshold)
    ensures SomeAbove(ClusterEntries(pairs1, pairs2), threshold)
  {
    if exists w, t | w in ws1 && t in TranslateDefault(e, lang1, lang2, w).value :: t.1 in ws2 && t.2 > threshold {
      var w, t :| w in ws1 && t in TranslateDefault(e, lang1, lang2, w).value && t.1 in ws2 && t.2 > threshold;
      IntersectionAbove(e, lang1, lang2, ws1, ws2, pairs1, w, t, threshold);
    } else {
      var w, t :| w in ws2 && t in TranslateDefault(e, lang2, lang1, w).value && t.1 in ws1 && t.2 > threshold;
      IntersectionAbove(e, lang2, lang1, ws2, ws1, pairs2, w, t, threshold);
    }
    SomeAboveEntries(pairs1, pairs2, threshold);
  }

  lemma IntersectionAbove(e: Embeddings, srcLang: Lang, tgtLang: Lang, wordsSrc: set<Word>, wordsTgt: set<Word>,
                          pairs: seq<Candidate>, w: Word, t: Candidate, threshold: Score)
    requires e.Configured(srcLang) && e.Configured(tgtLang)
    requires IsIntersection(e, srcLang, tgtLang, wordsSrc, wordsTgt, pairs)
    requires w in wordsSrc && t in TranslateDefault(e, srcLang, tgtLang, w).value && t.1 in wordsTgt && t.2 > threshold
    ensures SomeAbove(pairs, threshold)
  {
    assert (w, t.1, t.2) in pairs;
    var i :| 0 <= i < |pairs| && pairs[i] == (w, t.1, t.2);
  }

  /** Both passes together have an entry above the threshold exactly when one of them does. */
  lemma SomeAboveEntries(pairs1: seq<Candidate>, pairs2: seq<Candidate>, threshold: Score)
    ensures SomeAbove(ClusterEntries(pairs1, pairs2), threshold) <==> SomeAbove(pairs1, threshold) || SomeAbove(pairs2, threshold)
  {
    var entries := ClusterEntries(pairs1, pairs2);
    if SomeAbove(entries, threshold) {
      var id :| 0 <= id < |entries| && entries[id].2 > threshold;
      ClusterEntryAt(pairs1, pairs2, id);
      if id < |pairs1| {
        assert pairs1[id].2 > threshold;
      } else {
        assert pairs2[id - |pairs1|].2 > threshold;
      }
    }
    if SomeAbove(pairs1, threshold) {
      var id :| 0 <= id < |pairs1| && pairs1[id].2 > threshold;
      ClusterEntryAt(pairs1, pairs2, id);
      assert entries[id].2 > threshold;
    }
    if SomeAbove(pairs2, threshold) {
      var id :| 0 <= id < |pairs2| && pairs2[id].2 > threshold;
      ClusterEntryAt(pairs1, pairs2, |pairs1| + id);
      assert entries[|pairs1| + id].2 > threshold;
    }
  }

  /** Translates both word sets into each other's language, intersects each side with
      the other word set, and numbers the intersected pairs as clusters: one id per
      pair, first pass then second pass, recording only pairs above the threshold. */
  method InflectTranslationPairs(e: Embeddings, lang1: Lang, words1: seq<Word>, lang2: Lang, words2: seq<Word>, threshold: Score)
    returns (r: Result<Clusters>)
    ensures var ws1, ws2 := set w | w in words1, set w | w in words2;
            var langsOk := e.Configured(lang1) && e.Configured(lang2);
            r.Failure? <==>
              ((ws1 != {} || ws2 != {}) && !langsOk) ||
              (langsOk && AnyAbove(e, lang1, ws1, lang2, ws2, threshold) && !(lang1 in CLUSTER_LANGS && lang2 in CLUSTER_LANGS))
    ensures r.Failure? && e.Configured(lang1) && e.Configured(lang2) ==> r.error == MissingClusterLanguage
    ensures r.Failure? && !(e.Configured(lang1) && e.Configured(lang2)) ==> r.error == InvalidLanguage
    ensures r.Success? && e.Configured(lang1) && e.Configured(lang2) ==>
              var ws1, ws2 := set w | w in words1, set w | w in words2;
              IsIntersection(e, lang1, lang2, ws1, ws2, r.value.pairs1) &&
              IsIntersection(e, lang2, lang1, ws2, ws1, r.value.pairs2)
    ensures r.Success? && e.Configured(lang1) && e.Configured(lang2) ==>
              var ws1, ws2 := set w | w in words1, set w | w in words2;
              (exists order1 :: Enumerates(order1, ws1) &&
                 r.value.pairs1 == IntersectOrdered(DefaultTranslations(e, lang1, lang2, ws1), order1, ws2)) &&
              (exists order2 :: Enumerates(order2, ws2) &&
                 r.value.pairs2 == IntersectOrdered(DefaultTranslations(e, lang2, lang1, ws2), order2, ws1))
    ensures r.Success? && !(e.Configured(lang1) && e.Configured(lang2)) ==> r.value.pairs1 == [] && r.value.pairs2 == []
    ensures r.Success? ==>
              Recorded(r.value.table, r.value.sets, ClusterEntries(r.value.pairs1, r.value.pairs2), threshold, lang1, lang2)
  {
    var ws1, ws2 := set w | w in words1, set w | w in words2;
    var tr1 := TranslateDefaultSet(e, lang1, lang2, ws1);
    if tr1.Failure? {
      return Failure(tr1.error);
    }
    var tr2 := TranslateDefaultSet(e, lang2, lang1, ws2);
    if tr2.Failure? {
      return Failure(tr2.error);
    }
    var pairs1, order1 := IntersectTranslations(tr1.value, ws1, ws2);
    var pairs2, order2 := IntersectTranslations(tr2.value, ws2, ws1);
    if !(e.Configured(lang1) && e.Configured(lang2)) {
      EnumeratesEmpty(order1);
      EnumeratesEmpty(order2);
    }
    if e.Configured(lang1) && e.Configured(lang2) {
      assert IsIntersection(e, lang1, lang2, ws1, ws2, pairs1);
      assert IsIntersection(e, lang2, lang1, ws2, ws1, pairs2);
      if SomeAbove(ClusterEntries(pairs1, pairs2), threshold) {
        SomeAboveGivesAnyAbove(e, lang1, lang2, ws1, ws2, pairs1, pairs2, threshold);
      }
      if AnyAbove(e, lang1, ws1, lang2, ws2, threshold) {
        AnyAboveGivesSomeAbove(e, lang1, lang2, ws1, ws2, pairs1, pairs2, threshold);
      }
    }
    var numbered := NumberClusters(pairs1, pairs2, lang1, lang2, threshold);
    if numbered.Failure? {
      return Failure(numbered.error);
    }
    return Success(Clusters(pairs1, pairs2, numbered.value.0, numbered.value.1));
  }
}
