/**
  A three-document corpus, already tokenized: "cat dog", "dog bird", "fish".
  Its vocabulary, its incidence matrix, the answers of both engines, and a
  query on which the two engines disagree.
 */
module Scenario {
  import opened Lexicographic
  import opened Sorting
  import opened Indexing
  import opened Retrieval

  // The scenario is stated element by element rather than as sequence
  // literals, so that the verifier reasons from the contracts instead of
  // unfolding every definition on a literal argument.

  predicate IsCorpus(docs: seq<Doc>)
  {
    |docs| == 3 && docs[0] == ["cat", "dog"] && docs[1] == ["dog", "bird"] && docs[2] == ["fish"]
  }

  predicate IsVocabulary(vocabulary: seq<string>)
  {
    |vocabulary| == 4 &&
    vocabulary[0] == "bird" && vocabulary[1] == "cat" && vocabulary[2] == "dog" && vocabulary[3] == "fish"
  }

  predicate IsMatrix(matrix: seq<seq<int>>)
  {
    |matrix| == 4 &&
    matrix[0] == [0, 1, 0] && matrix[1] == [1, 0, 0] && matrix[2] == [1, 1, 0] && matrix[3] == [0, 0, 1]
  }

  lemma VocabularyIsSorted(vocabulary: seq<string>)
    requires IsVocabulary(vocabulary)
    ensures StrictlySorted(vocabulary)
  {
    assert Less("bird", "cat") && Less("cat", "dog") && Less("dog", "fish");
    forall i, j | 0 <= i < j < 4 ensures Less(vocabulary[i], vocabulary[j]) {
      if j > i + 1 {
        LessTransitive(vocabulary[i], vocabulary[i + 1], vocabulary[j]) by {
          if j > i + 2 {
            LessTransitive(vocabulary[i + 1], vocabulary[i + 2], vocabulary[j]);
          }
        }
      }
    }
  }

  /** Whatever order the set of terms is iterated in, building the vocabulary
      of the corpus gives bird, cat, dog, fish. */
  lemma CorpusVocabulary(docs: seq<Doc>, built: seq<string>, vocabulary: seq<string>)
    requires IsCorpus(docs) && IsVocabulary(vocabulary)
    requires StrictlySorted(built) && forall t :: t in built <==> Occurs(docs, t)
    ensures built == vocabulary
  {
    VocabularyIsSorted(vocabulary);
    CorpusVocabularyOccurs(docs, vocabulary);
    StrictlySortedUnique(built, vocabulary);
  }

  /** The incidence matrix of the corpus, one row per vocabulary term. */
  lemma CorpusMatrix(docs: seq<Doc>, vocabulary: seq<string>, matrix: seq<seq<int>>)
    requires IsCorpus(docs) && IsVocabulary(vocabulary) && IsMatrix(matrix)
    ensures IsIncidenceMatrix(matrix, docs, vocabulary)
  {
    VocabularyIsSorted(vocabulary);
    StrictlySortedDistinct(vocabulary);
    forall i, d | 0 <= i < 4 && 0 <= d < 3
      ensures matrix[i][d] == IncidenceCell(docs, vocabulary, i, d)
    {
      assert i == 0 || i == 1 || i == 2 || i == 3;
      assert d == 0 || d == 1 || d == 2;
      assert IncidenceCell(docs, vocabulary, i, d) == 1 <==> vocabulary[i] in docs[d];
    }
  }

  /** The index engine on the corpus: "dog" is in documents 0 and 1. */
  lemma CorpusIndexDog(docs: seq<Doc>)
    requires IsCorpus(docs)
    ensures SearchInvertedIndex(["dog"], InvertedIndexOf(docs)) == [0, 1]
  {
    DogDocuments(docs);
    forall d: nat ensures d in [0, 1] <==> d < |docs| && forall t :: t in ["dog"] ==> t in docs[d] {
      if d < |docs| {
        assert "dog" in ["dog"];
      }
    }
    SearchInvertedIndexEquals(docs, ["dog"], [0, 1]);
  }

  /** "dog" is in the first two documents only, "cat" in the first only. */
  lemma DogDocuments(docs: seq<Doc>)
    requires IsCorpus(docs)
    ensures forall d: nat :: d < |docs| ==> ("dog" in docs[d] <==> d < 2)
    ensures forall d: nat :: d < |docs| ==> ("cat" in docs[d] <==> d == 0)
  {
    forall d: nat | d < |docs|
      ensures ("dog" in docs[d] <==> d < 2) && ("cat" in docs[d] <==> d == 0)
    {
      assert d == 0 || d == 1 || d == 2;
    }
  }

  /** The index engine on the corpus: "cat" and "dog" are together only in
      document 0. */
  lemma CorpusIndexCatDog(docs: seq<Doc>)
    requires IsCorpus(docs)
    ensures SearchInvertedIndex(["cat", "dog"], InvertedIndexOf(docs)) == [0]
  {
    DogDocuments(docs);
    forall d: nat ensures d in [0] <==> d < |docs| && forall t :: t in ["cat", "dog"] ==> t in docs[d] {
      if d < |docs| {
        assert "cat" in ["cat", "dog"] && "dog" in ["cat", "dog"];
      }
    }
    SearchInvertedIndexEquals(docs, ["cat", "dog"], [0]);
  }

  /** Both engines give the same answers on queries whose terms are all known,
      or all unknown ("zebra" occurs nowhere). */
  lemma CorpusQueries(docs: seq<Doc>, vocabulary: seq<string>, matrix: seq<seq<int>>)
    requires IsCorpus(docs) && IsVocabulary(vocabulary) && IsMatrix(matrix)
    ensures SearchTermDocIncidence(["dog"], matrix, vocabulary) == [0, 1]
    ensures SearchTermDocIncidence(["cat", "dog"], matrix, vocabulary) == [0]
    ensures SearchTermDocIncidence(["zebra"], matrix, vocabulary) == []
    ensures SearchInvertedIndex(["zebra"], InvertedIndexOf(docs)) == []
  {
    CorpusMatrix(docs, vocabulary, matrix);
    VocabularyIsSorted(vocabulary);
    CorpusVocabularyOccurs(docs, vocabulary);
    CorpusIndexDog(docs);
    CorpusIndexCatDog(docs);
    EnginesAgree(docs, vocabulary, matrix, ["dog"]);
    EnginesAgree(docs, vocabulary, matrix, ["cat", "dog"]);
    ZebraIsUnknown(docs, vocabulary);
    assert forall t :: t in ["zebra"] ==> t !in vocabulary;
    ZebraEmptiesIndexSearch(docs, vocabulary, ["zebra"]);
  }

  /** Any query containing "zebra" finds nothing in the inverted index. */
  lemma ZebraEmptiesIndexSearch(docs: seq<Doc>, vocabulary: seq<string>, query: seq<string>)
    requires IsCorpus(docs) && IsVocabulary(vocabulary) && "zebra" in query
    ensures SearchInvertedIndex(query, InvertedIndexOf(docs)) == []
  {
    ZebraIsUnknown(docs, vocabulary);
  }

  lemma ZebraIsUnknown(docs: seq<Doc>, vocabulary: seq<string>)
    requires IsCorpus(docs) && IsVocabulary(vocabulary)
    ensures "zebra" !in vocabulary && !Occurs(docs, "zebra")
  {
    forall d | 0 <= d < |docs| ensures "zebra" !in docs[d] {
      assert d == 0 || d == 1 || d == 2;
    }
  }

  lemma CorpusVocabularyOccurs(docs: seq<Doc>, vocabulary: seq<string>)
    requires IsCorpus(docs) && IsVocabulary(vocabulary)
    ensures forall t :: t in vocabulary <==> Occurs(docs, t)
  {
    assert "cat" in docs[0] && "dog" in docs[0] && "bird" in docs[1] && "fish" in docs[2];
    forall t, d | 0 <= d < |docs| && t in docs[d] ensures t in vocabulary {
      assert d == 0 || d == 1 || d == 2;
    }
  }

  /** The query "dog zebra" mixes a known and an unknown term: the matrix engine
      drops "zebra" and answers documents 0 and 1, while the index engine gets
      an empty posting set for "zebra" and answers nothing. */
  lemma EnginesDisagreeOnMixedQuery(docs: seq<Doc>, vocabulary: seq<string>, matrix: seq<seq<int>>)
    requires IsCorpus(docs) && IsVocabulary(vocabulary) && IsMatrix(matrix)
    ensures SearchTermDocIncidence(["dog", "zebra"], matrix, vocabulary) == [0, 1]
    ensures SearchInvertedIndex(["dog", "zebra"], InvertedIndexOf(docs)) == []
  {
    CorpusMatrix(docs, vocabulary, matrix);
    VocabularyIsSorted(vocabulary);
    StrictlySortedDistinct(vocabulary);
    DogDocuments(docs);
    ZebraIsUnknown(docs, vocabulary);
    var query := ["dog", "zebra"];
    assert "dog" in query && "dog" in vocabulary;
    forall d: nat ensures d in [0, 1] <==>
      HasKnownTerm(query, vocabulary) && d < |docs| && forall t :: t in query && t in vocabulary ==> t in docs[d]
    {
      if d < |docs| {
        assert forall t :: t in query && t in vocabulary ==> t == "dog";
      }
    }
    SearchTermDocIncidenceEquals(docs, vocabulary, matrix, query, [0, 1]);
    ZebraEmptiesIndexSearch(docs, vocabulary, ["dog", "zebra"]);
  }

  /** Runs the three builders on the corpus and checks what they produce:
      the vocabulary, the incidence matrix row by row, and the index engine's
      answer to "dog" over the built index. */
  method BuildCorpus() returns (vocabulary: seq<string>, matrix: array2<int>, index: map<string, seq<nat>>)
    ensures vocabulary == ["bird", "cat", "dog", "fish"]
    ensures Rows(matrix) == [[0, 1, 0], [1, 0, 0], [1, 1, 0], [0, 0, 1]]
    ensures SearchInvertedIndex(["dog"], index) == [0, 1]
  {
    var docs: seq<Doc> := [["cat", "dog"], ["dog", "bird"], ["fish"]];
    var expected := ["bird", "cat", "dog", "fish"];
    var rows := [[0, 1, 0], [1, 0, 0], [1, 1, 0], [0, 0, 1]];
    vocabulary := BuildVocabulary(docs);
    CorpusVocabulary(docs, vocabulary, expected);
    matrix := BuildTermDocMatrix(docs, vocabulary);
    CorpusMatrix(docs, vocabulary, rows);
    assert Rows(matrix) == rows by {
      forall i | 0 <= i < 4 ensures Rows(matrix)[i] == rows[i] {
        assert forall d :: 0 <= d < 3 ==> Rows(matrix)[i][d] == rows[i][d];
      }
    }
    index := BuildInvertedIndex(docs);
    CorpusIndexDog(docs);
  }
}
