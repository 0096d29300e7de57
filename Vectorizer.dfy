/**
  * Model of TFIDFVectorizer: a vocabulary and a document-frequency table
  * built once from a tokenized corpus, and the embedding of any tokenized
  * document over that vocabulary.
  *
  * Counts are Java Integers and the embedding divides one Integer by
  * another, so every coordinate is a floor quotient of naturals.
  */
module Vectorizer {

  // ---------------------------------------------------------------------
  // Counting
  // ---------------------------------------------------------------------

  /** Number of occurrences of `w` in the document `d`. */
  function Count(w: string, d: seq<string>): nat {
    if d == [] then 0
    else Count(w, d[..|d| - 1]) + (if d[|d| - 1] == w then 1 else 0)
  }

  /** No element occurs twice. */
  predicate Distinct(s: seq<string>) {
    forall i, j :: 0 <= i < j < |s| ==> s[i] != s[j]
  }

  /** The terms of `d` that occur in it more than `minOccurence` times. */
  function Survivors(d: seq<string>, minOccurence: int): set<string> {
    set w | w in d && Count(w, d) > minOccurence
  }

  /** Number of documents of `docs` in which `t` survives the per-document pruning. */
  function DocCount(t: string, docs: seq<seq<string>>, minOccurence: int): nat {
    if docs == [] then 0
    else
      DocCount(t, docs[..|docs| - 1], minOccurence)
      + (if t in Survivors(docs[|docs| - 1], minOccurence) then 1 else 0)
  }

  /** Every term that survives the pruning of at least one document. */
  function SurvivingTerms(docs: seq<seq<string>>, minOccurence: int): set<string> {
    if docs == [] then {}
    else SurvivingTerms(docs[..|docs| - 1], minOccurence) + Survivors(docs[|docs| - 1], minOccurence)
  }

  /** The document-frequency table before terms present in every document are removed. */
  function RawDocFreq(docs: seq<seq<string>>, minOccurence: int): (raw: map<string, nat>)
    ensures forall t :: t in raw ==> 1 <= raw[t] <= |docs|
  {
    DocCountPositive(docs, minOccurence);
    DocCountsAtMost(docs, minOccurence);
    map t | t in SurvivingTerms(docs, minOccurence) :: DocCount(t, docs, minOccurence)
  }

  /** The document-frequency table that the vectorizer keeps. */
  function DocFreq(docs: seq<seq<string>>, minOccurence: int): (df: map<string, nat>)
    ensures forall t :: t in df ==> 1 <= df[t] < |docs|
  {
    DocCountPositive(docs, minOccurence);
    DocCountsAtMost(docs, minOccurence);
    map t | t in SurvivingTerms(docs, minOccurence) && DocCount(t, docs, minOccurence) != |docs|
      :: DocCount(t, docs, minOccurence)
  }

  /** Sum of `m[k]` over the keys listed in `keys`. */
  function SumOver(keys: seq<string>, m: map<string, nat>): nat
    requires forall k :: k in keys ==> k in m
  {
    if keys == [] then 0 else m[keys[0]] + SumOver(keys[1..], m)
  }

  /** The embedding of `d`: the floor quotient of each vocabulary term's count
    * by its document frequency. */
  function Embedding(vocab: seq<string>, idf: map<string, nat>, d: seq<string>): (e: seq<nat>)
    requires forall t :: t in vocab ==> t in idf && idf[t] >= 1
    ensures |e| == |vocab|
    ensures forall i :: 0 <= i < |vocab| ==> e[i] <= Count(vocab[i], d)
  {
    QuotientsAtMost(vocab, idf, d);
    seq(|vocab|, i requires 0 <= i < |vocab| => Count(vocab[i], d) / idf[vocab[i]])
  }

  class TFIDFVectorizer {
    var vocab: seq<string>
    var idf: map<string, nat>

    /** The vocabulary lists each key of the table exactly once, and every
      * frequency in the table is at least one. */
    ghost predicate Valid()
      reads this
    {
      && Distinct(vocab)
      && (forall t :: t in vocab <==> t in idf)
      && (forall t :: t in idf ==> idf[t] >= 1)
    }

    constructor (documents: seq<seq<string>>, minOccurence: int)
      ensures Valid()
      ensures idf == DocFreq(documents, minOccurence)
      ensures documents == [] ==> vocab == []
    {
      new;
      idf := map[];
      var n := 0;
      while n < |documents|
        invariant 0 <= n <= |documents|
        invariant idf == RawDocFreq(documents[..n], minOccurence)
      {
        CountDocument(documents[n], documents[..n], minOccurence);
        assert documents[..n + 1] == documents[..n] + [documents[n]];
        n := n + 1;
      }
      assert documents[..n] == documents;
      idf := map t | t in idf && idf[t] != |documents| :: idf[t];
      DocFreqIsPrunedRaw(documents, minOccurence);
      assert idf == DocFreq(documents, minOccurence);
      DocCountPositive(documents, minOccurence);
      vocab := KeysOf(idf);
      DistinctCardinality(vocab, idf);
    }

    /** One pass of the constructor's outer loop: the document's term counts,
      * pruned to the terms occurring more than `minOccurence` times, each
      * add one document to the table. */
    method CountDocument(document: seq<string>, ghost done: seq<seq<string>>, minOccurence: int)
      requires idf == RawDocFreq(done, minOccurence)
      modifies this`idf
      ensures idf == RawDocFreq(done + [document], minOccurence)
    {
      var tf := GetTermFreq(document);
      tf := map t | t in tf && tf[t] > minOccurence :: tf[t];
      PrunedTermFreq(tf, document, minOccurence);
      DocCountPositive(done, minOccurence);
      AddDocument(tf.Keys, done, minOccurence);
      RawDocFreqStep(idf, done, document, minOccurence);
    }

    /** The inner loop of the constructor: one more document for each term
      * that survives in the current document. */
    method AddDocument(survivors: set<string>, ghost done: seq<seq<string>>, ghost minOccurence: int)
      requires forall t :: t in idf <==> t in SurvivingTerms(done, minOccurence)
      requires forall t :: t in idf ==> idf[t] == DocCount(t, done, minOccurence)
      modifies this`idf
      ensures forall t :: t in idf <==> t in old(idf) || t in survivors
      ensures forall t :: t in idf ==>
        idf[t] == DocCount(t, done, minOccurence) + (if t in survivors then 1 else 0)
    {
      DocCountPositive(done, minOccurence);
      var pending := survivors;
      while pending != {}
        invariant pending <= survivors
        invariant forall t :: t in idf <==> t in old(idf) || t in survivors - pending
        invariant forall t :: t in idf ==>
          idf[t] == DocCount(t, done, minOccurence) + (if t in survivors - pending then 1 else 0)
        decreases |pending|
      {
        var term :| term in pending;
        if term in idf {
          idf := idf[term := idf[term] + 1];
        } else {
          idf := idf[term := 1];
        }
        pending := pending - {term};
      }
    }

    /** `keySet().toArray()`: every key once, in an order the table chooses. */
    static method KeysOf(m: map<string, nat>) returns (keys: seq<string>)
      ensures Distinct(keys)
      ensures forall t :: t in keys <==> t in m
    {
      keys := [];
      var rest := m.Keys;
      while rest != {}
        invariant rest <= m.Keys
        invariant Distinct(keys)
        invariant forall t :: t in keys ==> t in m && t !in rest
        invariant forall t :: t in m ==> t in keys || t in rest
        decreases |rest|
      {
        var term :| term in rest;
        keys := keys + [term];
        rest := rest - {term};
      }
    }

    /** The term counts of one document: its distinct words, each with the
      * number of times it occurs. */
    static method GetTermFreq(document: seq<string>) returns (termFreq: map<string, nat>)
      ensures forall w :: w in termFreq <==> w in document
      ensures forall w :: w in termFreq ==> termFreq[w] == Count(w, document)
    {
      termFreq := map[];
      var n := 0;
      while n < |document|
        invariant 0 <= n <= |document|
        invariant forall w :: w in termFreq <==> w in document[..n]
        invariant forall w :: w in termFreq ==> termFreq[w] == Count(w, document[..n])
      {
        var word := document[n];
        if word in termFreq {
          termFreq := termFreq[word := termFreq[word] + 1];
        } else {
          CountAbsent(word, document[..n]);
          termFreq := termFreq[word := 1];
        }
        CountSnoc(document[..n], word);
        assert document[..n + 1] == document[..n] + [word];
        n := n + 1;
      }
      assert document[..n] == document;
    }

    /** One coordinate per vocabulary term: the term's count in `document`
      * divided, rounding down, by its document frequency. */
    method Embed(document: seq<string>) returns (embedding: seq<nat>)
      requires Valid()
      ensures embedding == Embedding(vocab, idf, document)
      ensures |embedding| == |vocab|
      ensures forall i :: 0 <= i < |vocab| ==> embedding[i] == Count(vocab[i], document) / idf[vocab[i]]
    {
      var res := new nat[|vocab|];
      var tf := GetTermFreq(document);
      for i := 0 to |vocab|
        invariant forall j :: 0 <= j < i ==> res[j] == Count(vocab[j], document) / idf[vocab[j]]
      {
        res[i] := 0;
        var term := vocab[i];
        assert term in idf && idf[term] >= 1;
        if term in tf {
          res[i] := tf[term] / idf[term];
        } else {
          CountAbsent(term, document);
          assert 0 / idf[term] == 0;
        }
      }
      embedding := res[..];
    }

    /** The dimension of every embedding: one per entry of the table. */
    function GetDimension(): (n: nat)
      reads this
      requires Valid()
      ensures n == |idf|
    {
      DistinctCardinality(vocab, idf);
      |vocab|
    }

    /** The vocabulary: each key of the table exactly once. */
    function GetVocab(): (v: seq<string>)
      reads this
      requires Valid()
      ensures Distinct(v)
      ensures forall t :: t in v <==> t in idf
      ensures |v| == |idf|
    {
      DistinctCardinality(vocab, idf);
      vocab
    }
  }

  // ---------------------------------------------------------------------
  // Lemmas: counts and term frequencies
  // ---------------------------------------------------------------------

  lemma CountSnoc(d: seq<string>, x: string)
    ensures forall w :: Count(w, d + [x]) == Count(w, d) + (if x == w then 1 else 0)
  {
    assert (d + [x])[..|d|] == d;
  }

  lemma {:induction false} CountAbsent(w: string, d: seq<string>)
    requires w !in d
    ensures Count(w, d) == 0
  {
    if d != [] {
      assert forall x :: x in d[..|d| - 1] ==> x in d;
      CountAbsent(w, d[..|d| - 1]);
    }
  }

  lemma {:induction false} CountPresent(w: string, d: seq<string>)
    requires w in d
    ensures Count(w, d) >= 1
  {
    if d[|d| - 1] != w {
      var i :| 0 <= i < |d| && d[i] == w;
      assert d[..|d| - 1][i] == w;
      CountPresent(w, d[..|d| - 1]);
    }
  }

  lemma {:induction false} CountOfConcat(w: string, a: seq<string>, b: seq<string>)
    ensures Count(w, a + b) == Count(w, a) + Count(w, b)
    decreases |b|
  {
    if b == [] {
      assert a + b == a;
    } else {
      assert (a + b)[..|a + b| - 1] == a + b[..|b| - 1];
      CountOfConcat(w, a, b[..|b| - 1]);
    }
  }

  /** A duplicate-free list of terms occurs exactly once per element. */
  lemma {:induction false} CountInDistinct(w: string, keys: seq<string>)
    requires Distinct(keys)
    ensures Count(w, keys) == if w in keys then 1 else 0
  {
    if keys != [] {
      var init := keys[..|keys| - 1];
      assert Distinct(init);
      CountInDistinct(w, init);
      if w == keys[|keys| - 1] {
        assert w !in init;
        CountAbsent(w, init);
      } else {
        assert w in keys <==> w in init;
      }
    }
  }

  /** Summing the counts of a document over its distinct words. */
  function SumOfCounts(keys: seq<string>, d: seq<string>): nat {
    if keys == [] then 0 else Count(keys[0], d) + SumOfCounts(keys[1..], d)
  }

  lemma {:induction false} SumOfCountsStep(keys: seq<string>, d: seq<string>, x: string)
    ensures SumOfCounts(keys, d + [x]) == SumOfCounts(keys, d) + Count(x, keys)
  {
    if keys != [] {
      SumOfCountsStep(keys[1..], d, x);
      assert (d + [x])[..|d + [x]| - 1] == d;
      assert keys == [keys[0]] + keys[1..];
      CountOfConcat(x, [keys[0]], keys[1..]);
      assert [keys[0]][..0] == [];
    }
  }

  lemma {:induction false} SumOfCountsIsLength(keys: seq<string>, d: seq<string>)
    requires Distinct(keys)
    requires forall w :: w in d ==> w in keys
    ensures SumOfCounts(keys, d) == |d|
  {
    if d == [] {
      SumOfCountsOfEmpty(keys);
    } else {
      var init, x := d[..|d| - 1], d[|d| - 1];
      assert d == init + [x];
      SumOfCountsIsLength(keys, init);
      SumOfCountsStep(keys, init, x);
      CountInDistinct(x, keys);
    }
  }

  lemma {:induction false} SumOfCountsOfEmpty(keys: seq<string>)
    ensures SumOfCounts(keys, []) == 0
  {
    if keys != [] {
      SumOfCountsOfEmpty(keys[1..]);
    }
  }

  lemma {:induction false} SumOverIsSumOfCounts(keys: seq<string>, m: map<string, nat>, d: seq<string>)
    requires forall k :: k in keys ==> k in m && m[k] == Count(k, d)
    ensures SumOver(keys, m) == SumOfCounts(keys, d)
  {
    if keys != [] {
      SumOverIsSumOfCounts(keys[1..], m, d);
    }
  }

  /** The values of a term-count table of `d` add up to the length of `d`,
    * whatever order its keys are listed in. */
  lemma TermFreqSumsToLength(termFreq: map<string, nat>, d: seq<string>, keys: seq<string>)
    requires forall w :: w in termFreq <==> w in d
    requires forall w :: w in termFreq ==> termFreq[w] == Count(w, d)
    requires Distinct(keys) && forall w :: w in keys <==> w in termFreq
    ensures SumOver(keys, termFreq) == |d|
  {
    SumOverIsSumOfCounts(keys, termFreq, d);
    SumOfCountsIsLength(keys, d);
  }

  // ---------------------------------------------------------------------
  // Lemmas: document frequencies and the vocabulary
  // ---------------------------------------------------------------------

  /** The pruned term-count table of `d` has exactly the surviving terms as keys. */
  lemma PrunedTermFreq(tf: map<string, nat>, d: seq<string>, minOccurence: int)
    requires forall w :: w in tf <==> w in d && Count(w, d) > minOccurence
    ensures tf.Keys == Survivors(d, minOccurence)
  {
  }

  /** Adding one document to the corpus adds one to the count of each term
    * that survives in it. */
  lemma RawDocFreqStep(idf: map<string, nat>, docs: seq<seq<string>>, d: seq<string>, minOccurence: int)
    requires forall t :: t in idf <==> t in SurvivingTerms(docs, minOccurence) || t in Survivors(d, minOccurence)
    requires forall t :: t in idf ==>
      idf[t] == DocCount(t, docs, minOccurence) + (if t in Survivors(d, minOccurence) then 1 else 0)
    ensures idf == RawDocFreq(docs + [d], minOccurence)
  {
    var all := docs + [d];
    assert all[..|all| - 1] == docs;
    assert SurvivingTerms(all, minOccurence) == SurvivingTerms(docs, minOccurence) + Survivors(d, minOccurence);
    forall t | t in idf ensures idf[t] == DocCount(t, all, minOccurence) {
    }
  }

  lemma DocFreqIsPrunedRaw(docs: seq<seq<string>>, minOccurence: int)
    ensures var raw := RawDocFreq(docs, minOccurence);
      DocFreq(docs, minOccurence) == map t | t in raw && raw[t] != |docs| :: raw[t]
  {
  }

  /** A term is counted in some document exactly when it survives in one. */
  lemma {:induction false} DocCountPositive(docs: seq<seq<string>>, minOccurence: int)
    ensures forall t :: t in SurvivingTerms(docs, minOccurence) <==> DocCount(t, docs, minOccurence) >= 1
  {
    if docs != [] {
      DocCountPositive(docs[..|docs| - 1], minOccurence);
    }
  }

  /** A term cannot be counted in more documents than there are. */
  lemma {:induction false} DocCountAtMost(t: string, docs: seq<seq<string>>, minOccurence: int)
    ensures DocCount(t, docs, minOccurence) <= |docs|
  {
    if docs != [] {
      DocCountAtMost(t, docs[..|docs| - 1], minOccurence);
    }
  }

  lemma DocCountsAtMost(docs: seq<seq<string>>, minOccurence: int)
    ensures forall t :: DocCount(t, docs, minOccurence) <= |docs|
  {
    forall t ensures DocCount(t, docs, minOccurence) <= |docs| {
      DocCountAtMost(t, docs, minOccurence);
    }
  }

  /** The count reaches the number of documents exactly when the term survives in every one. */
  lemma {:induction false} DocCountAll(t: string, docs: seq<seq<string>>, minOccurence: int)
    ensures DocCount(t, docs, minOccurence) == |docs|
        <==> forall i :: 0 <= i < |docs| ==> t in Survivors(docs[i], minOccurence)
  {
    if docs != [] {
      var init := docs[..|docs| - 1];
      DocCountAll(t, init, minOccurence);
      DocCountAtMost(t, init, minOccurence);
      assert forall i :: 0 <= i < |init| ==> init[i] == docs[i];
    }
  }

  /** What the table holds after construction: exactly the terms that survive
    * in at least one document but not in all of them, each with its count. */
  lemma DocFreqMeaning(docs: seq<seq<string>>, minOccurence: int, t: string)
    ensures t in DocFreq(docs, minOccurence) <==> 1 <= DocCount(t, docs, minOccurence) < |docs|
    ensures t in DocFreq(docs, minOccurence) ==> DocFreq(docs, minOccurence)[t] == DocCount(t, docs, minOccurence)
  {
    DocCountPositive(docs, minOccurence);
    DocCountAtMost(t, docs, minOccurence);
  }

  /** No term that survives in every document belongs to the vocabulary. */
  lemma UniversalTermsPruned(docs: seq<seq<string>>, minOccurence: int, t: string)
    requires forall i :: 0 <= i < |docs| ==> t in Survivors(docs[i], minOccurence)
    ensures t !in DocFreq(docs, minOccurence)
  {
    DocCountAll(t, docs, minOccurence);
  }

  /** An empty corpus gives an empty table. */
  lemma EmptyCorpus(minOccurence: int)
    ensures DocFreq([], minOccurence) == map[]
  {
  }

  /** A duplicate-free list of the keys of a map has as many elements as the map. */
  lemma {:induction false} DistinctCardinality(s: seq<string>, m: map<string, nat>)
    requires Distinct(s)
    requires forall t :: t in s <==> t in m
    ensures |s| == |m|
  {
    if s == [] {
      assert m.Keys == {};
    } else {
      var last := s[|s| - 1];
      var init := s[..|s| - 1];
      assert Distinct(init);
      assert last !in init;
      var m' := m - {last};
      forall t ensures t in init <==> t in m' {
        if t in init {
          assert t in s;
        }
        if t in m' {
          assert t in s && t != last;
          var i :| 0 <= i < |s| && s[i] == t;
          assert i < |s| - 1;
          assert init[i] == t;
        }
      }
      DistinctCardinality(init, m');
      assert m'.Keys == m.Keys - {last};
    }
  }

  // ---------------------------------------------------------------------
  // Lemmas: embeddings
  // ---------------------------------------------------------------------

  /** A term missing from the document gets the coordinate 0, and no coordinate
    * exceeds the term's count. */
  lemma EmbeddingCoordinates(vocab: seq<string>, idf: map<string, nat>, d: seq<string>, i: nat)
    requires forall t :: t in vocab ==> t in idf && idf[t] >= 1
    requires i < |vocab|
    ensures vocab[i] !in d ==> Embedding(vocab, idf, d)[i] == 0
    ensures Embedding(vocab, idf, d)[i] <= Count(vocab[i], d)
  {
    if vocab[i] !in d {
      CountAbsent(vocab[i], d);
    }
  }

  /** Dividing a count by a document frequency of at least one never increases it. */
  lemma QuotientsAtMost(vocab: seq<string>, idf: map<string, nat>, d: seq<string>)
    requires forall t :: t in vocab ==> t in idf && idf[t] >= 1
    ensures forall i :: 0 <= i < |vocab| ==> Count(vocab[i], d) / idf[vocab[i]] <= Count(vocab[i], d)
  {
  }

  /** A document made only of out-of-vocabulary words embeds to all zeros. */
  lemma OutOfVocabularyIsZero(vocab: seq<string>, idf: map<string, nat>, d: seq<string>)
    requires forall t :: t in vocab ==> t in idf && idf[t] >= 1
    requires forall w :: w in d ==> w !in vocab
    ensures Embedding(vocab, idf, d) == seq(|vocab|, _ => 0)
  {
    forall i | 0 <= i < |vocab| ensures Embedding(vocab, idf, d)[i] == 0 {
      EmbeddingCoordinates(vocab, idf, d, i);
    }
  }

  /** With a threshold below one, every word of a document survives. */
  lemma SurvivorsBelowOne(d: seq<string>, minOccurence: int)
    requires minOccurence < 1
    ensures Survivors(d, minOccurence) == set w | w in d
  {
    forall w | w in d ensures Count(w, d) > minOccurence {
      CountPresent(w, d);
    }
  }

  // ---------------------------------------------------------------------
  // A worked example
  // ---------------------------------------------------------------------

  /** Three documents over the terms "a", "b" and "c". */
  const Corpus: seq<seq<string>> := [["a", "b", "b"], ["a", "c", "c"], ["b", "b", "c"]]

  lemma CorpusSurvivors()
    ensures Survivors(["a", "b", "b"], 0) == {"a", "b"}
    ensures Survivors(["a", "c", "c"], 0) == {"a", "c"}
    ensures Survivors(["b", "b", "c"], 0) == {"b", "c"}
  {
    SurvivorsBelowOne(["a", "b", "b"], 0);
    SurvivorsBelowOne(["a", "c", "c"], 0);
    SurvivorsBelowOne(["b", "b", "c"], 0);
  }

  /** Each term survives in two of the three documents, so none is removed. */
  lemma CorpusDocFreq()
    ensures DocFreq(Corpus, 0) == map["a" := 2, "b" := 2, "c" := 2]
  {
    var docs := Corpus;
    CorpusSurvivors();
    assert docs[..2] == [["a", "b", "b"], ["a", "c", "c"]];
    assert docs[..2][..1] == [["a", "b", "b"]];
    assert docs[..2][..1][..0] == [];
    var one, two := docs[..1], docs[..2];
    assert SurvivingTerms(one, 0) == {"a", "b"};
    assert SurvivingTerms(two, 0) == {"a", "b", "c"};
    assert SurvivingTerms(docs, 0) == {"a", "b", "c"};
    assert DocCount("a", one, 0) == 1 && DocCount("b", one, 0) == 1 && DocCount("c", one, 0) == 0;
    assert DocCount("a", two, 0) == 2 && DocCount("b", two, 0) == 1 && DocCount("c", two, 0) == 1;
    assert DocCount("a", docs, 0) == 2 && DocCount("b", docs, 0) == 2 && DocCount("c", docs, 0) == 2;
  }

  lemma CorpusCounts()
    ensures Count("a", ["a", "b", "b"]) == 1 && Count("b", ["a", "b", "b"]) == 2 && Count("c", ["a", "b", "b"]) == 0
  {
    var d := ["a", "b", "b"];
    assert d[..2] == ["a", "b"] && d[..2][..1] == ["a"] && d[..2][..1][..0] == [];
    assert Count("a", ["a"]) == 1 && Count("b", ["a"]) == 0 && Count("c", ["a"]) == 0;
    assert Count("a", ["a", "b"]) == 1 && Count("b", ["a", "b"]) == 1 && Count("c", ["a", "b"]) == 0;
  }

  /** Whatever order the vocabulary takes, embedding the first document gives
    * 1 for "b" and 0 for "a" and "c": the counts 1, 2, 0 are divided, rounding
    * down, by the document frequency 2. */
  lemma CorpusEmbedding(vocab: seq<string>)
    requires Distinct(vocab)
    requires forall t :: t in vocab <==> t in DocFreq(Corpus, 0)
    ensures forall t :: t in vocab ==> t in DocFreq(Corpus, 0) && DocFreq(Corpus, 0)[t] == 2
    ensures |vocab| == 3
    ensures forall i :: 0 <= i < |vocab| ==>
      Embedding(vocab, DocFreq(Corpus, 0), ["a", "b", "b"])[i]
        == if vocab[i] == "b" then 1 else 0
  {
    CorpusDocFreq();
    EmbeddingOverTwos(vocab, DocFreq(Corpus, 0));
  }

  /** The embedding of `["a", "b", "b"]` over the table `a:2, b:2, c:2`. */
  lemma EmbeddingOverTwos(vocab: seq<string>, idf: map<string, nat>)
    requires idf == map["a" := 2, "b" := 2, "c" := 2]
    requires Distinct(vocab)
    requires forall t :: t in vocab <==> t in idf
    ensures forall t :: t in vocab ==> t in idf && idf[t] == 2
    ensures |vocab| == 3
    ensures forall i :: 0 <= i < |vocab| ==>
      Embedding(vocab, idf, ["a", "b", "b"])[i] == if vocab[i] == "b" then 1 else 0
  {
    CorpusCounts();
    DistinctCardinality(vocab, idf);
  }
}
