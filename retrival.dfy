/**
  The two boolean query engines (retrival.py): conjunctive search over the
  incidence matrix and over the inverted index. Both return document indices
  in increasing order. They treat a query term missing from the vocabulary
  differently: the matrix engine drops it, the index engine lets it empty the
  result.
 */
module Retrieval {
  import opened Sorting
  import opened Indexing

  /** Every row of the matrix has the same number of columns. */
  predicate Rectangular(matrix: seq<seq<int>>)
  {
    forall i, j :: 0 <= i < |matrix| && 0 <= j < |matrix| ==> |matrix[i]| == |matrix[j]|
  }

  /** The number of document columns of a rectangular matrix. */
  function Columns(matrix: seq<seq<int>>): nat
  {
    if matrix == [] then 0 else |matrix[0]|
  }

  /** The rows selected by the query: the rows of the query terms the
      dictionary knows, none for the others. */
  function QueryRows(query: seq<string>, lookup: map<string, nat>): (rows: seq<nat>)
    ensures forall k :: 0 <= k < |rows| ==> exists t :: t in query && t in lookup && rows[k] == lookup[t]
    ensures forall t :: t in query && t in lookup ==> lookup[t] in rows
    ensures rows == [] <==> forall t :: t in query ==> t !in lookup
  {
    if query == [] then []
    else
      var rest := QueryRows(query[1..], lookup);
      assert forall t :: t in query <==> t == query[0] || t in query[1..];
      (if query[0] in lookup then [lookup[query[0]]] else []) + rest
  }

  /** Column `d` holds a 1 in every selected row. */
  predicate AllOnes(matrix: seq<seq<int>>, rows: seq<nat>, d: nat)
    requires forall k :: 0 <= k < |rows| ==> rows[k] < |matrix| && d < |matrix[rows[k]]|
  {
    forall k :: 0 <= k < |rows| ==> matrix[rows[k]][d] == 1
  }

  /** The indices below `n` of the columns that hold a 1 in every selected row,
      in increasing order. */
  function MatchingColumns(matrix: seq<seq<int>>, rows: seq<nat>, n: nat): (r: seq<nat>)
    requires forall k :: 0 <= k < |rows| ==> rows[k] < |matrix| && n <= |matrix[rows[k]]|
    ensures StrictlyIncreasing(r)
    ensures forall d: nat :: d in r <==> d < n && AllOnes(matrix, rows, d)
  {
    if n == 0 then []
    else
      var before := MatchingColumns(matrix, rows, n - 1);
      assert forall k :: 0 <= k < |before| ==> before[k] < n - 1 by {
        forall k | 0 <= k < |before| ensures before[k] < n - 1 {
          assert before[k] in before;
        }
      }
      before + if AllOnes(matrix, rows, n - 1) then [n - 1] else []
  }

  /** Some query term is in the vocabulary, so the query selects at least one row. */
  predicate HasKnownTerm(query: seq<string>, vocabulary: seq<string>)
  {
    exists t :: t in query && t in vocabulary
  }

  /** Column `d` holds a 1 in the row of every query term found in the vocabulary. */
  predicate ColumnMatches(query: seq<string>, matrix: seq<seq<int>>, vocabulary: seq<string>, d: nat)
    requires |matrix| == |vocabulary| && Rectangular(matrix) && d < Columns(matrix)
  {
    forall t :: t in query && t in vocabulary ==> matrix[TermToIndex(vocabulary)[t]][d] == 1
  }

  /** search_term_doc_incidence: the documents whose column holds a 1 in the
      row of every query term found in the vocabulary; no usable row means no
      result. */
  function SearchTermDocIncidence(query: seq<string>, matrix: seq<seq<int>>, vocabulary: seq<string>): (r: seq<nat>)
    requires |matrix| == |vocabulary| && Rectangular(matrix)
    ensures StrictlyIncreasing(r)
    ensures !HasKnownTerm(query, vocabulary) ==> r == []
    ensures forall d: nat :: d in r <==>
      HasKnownTerm(query, vocabulary) && d < Columns(matrix) && ColumnMatches(query, matrix, vocabulary, d)
  {
    var rows := QueryRows(query, TermToIndex(vocabulary));
    if rows == [] then []
    else
      ConjunctionOfRows(query, matrix, vocabulary);
      MatchingColumns(matrix, rows, |matrix[rows[0]]|)
  }

  /** When the query selects at least one row, the columns matching every
      selected row are those with a 1 in the row of each query term found in
      the vocabulary. */
  lemma ConjunctionOfRows(query: seq<string>, matrix: seq<seq<int>>, vocabulary: seq<string>)
    requires |matrix| == |vocabulary| && Rectangular(matrix)
    requires QueryRows(query, TermToIndex(vocabulary)) != []
    ensures var rows := QueryRows(query, TermToIndex(vocabulary));
      && HasKnownTerm(query, vocabulary)
      && |matrix[rows[0]]| == Columns(matrix)
      && forall d: nat :: d in MatchingColumns(matrix, rows, |matrix[rows[0]]|) <==>
           d < Columns(matrix) && ColumnMatches(query, matrix, vocabulary, d)
  {
    var lookup := TermToIndex(vocabulary);
    var rows := QueryRows(query, lookup);
    var n := |matrix[rows[0]]|;
    forall d: nat | d < n {
      SelectedColumn(query, matrix, lookup, d);
    }
  }

  /** A column holds a 1 in every selected row exactly when it holds a 1 in
      the row of every query term the dictionary knows. */
  lemma SelectedColumn(query: seq<string>, matrix: seq<seq<int>>, lookup: map<string, nat>, d: nat)
    requires forall t :: t in lookup ==> lookup[t] < |matrix| && d < |matrix[lookup[t]]|
    ensures var rows := QueryRows(query, lookup);
      forall k :: 0 <= k < |rows| ==> rows[k] < |matrix| && d < |matrix[rows[k]]|
    ensures AllOnes(matrix, QueryRows(query, lookup), d) <==>
      forall t :: t in query && t in lookup ==> matrix[lookup[t]][d] == 1
  {
    var rows := QueryRows(query, lookup);
    if AllOnes(matrix, rows, d) {
      forall t | t in query && t in lookup ensures matrix[lookup[t]][d] == 1 {
        var k :| 0 <= k < |rows| && rows[k] == lookup[t];
      }
    }
  }

  /** `set(inverted_index.get(t, []))`. */
  function Posting(index: map<string, seq<nat>>, t: string): (p: set<nat>)
    ensures forall d :: d in p <==> t in index && d in index[t]
  {
    if t in index then set d | d in index[t] else {}
  }

  /** The intersection of the posting sets of all query terms. */
  function IntersectPostings(query: seq<string>, index: map<string, seq<nat>>): (s: set<nat>)
    requires query != []
    ensures forall d :: d in s <==> forall t :: t in query ==> t in index && d in index[t]
  {
    if |query| == 1 then Posting(index, query[0])
    else
      assert forall t :: t in query <==> t == query[0] || t in query[1..];
      Posting(index, query[0]) * IntersectPostings(query[1..], index)
  }

  /** search_inverted_index: the sorted intersection of the posting sets of the
      query terms; an empty query gives no result, and a term without an entry
      contributes an empty set. */
  function SearchInvertedIndex(query: seq<string>, index: map<string, seq<nat>>): (r: seq<nat>)
    ensures StrictlyIncreasing(r)
    ensures query == [] ==> r == []
    ensures (exists t :: t in query && t !in index) ==> r == []
    ensures forall d: nat :: d in r <==>
      query != [] && forall t :: t in query ==> t in index && d in index[t]
  {
    if query == [] then []
    else SortedNats(IntersectPostings(query, index))
  }

  /** Only the set of query terms matters to the matrix engine: repeating or
      reordering terms does not change the result. */
  lemma SearchTermDocIncidenceUsesTermSet(q1: seq<string>, q2: seq<string>, matrix: seq<seq<int>>, vocabulary: seq<string>)
    requires |matrix| == |vocabulary| && Rectangular(matrix)
    requires forall t :: t in q1 <==> t in q2
    ensures SearchTermDocIncidence(q1, matrix, vocabulary) == SearchTermDocIncidence(q2, matrix, vocabulary)
  {
    StrictlyIncreasingUnique(SearchTermDocIncidence(q1, matrix, vocabulary), SearchTermDocIncidence(q2, matrix, vocabulary));
  }

  /** Only the set of query terms matters to the index engine: repeating or
      reordering terms does not change the result. */
  lemma SearchInvertedIndexUsesTermSet(q1: seq<string>, q2: seq<string>, index: map<string, seq<nat>>)
    requires forall t :: t in q1 <==> t in q2
    ensures SearchInvertedIndex(q1, index) == SearchInvertedIndex(q2, index)
  {
    assert q1 == [] <==> q2 == [] by {
      if q1 != [] { HeadIsMember(q1); }
      if q2 != [] { HeadIsMember(q2); }
    }
    StrictlyIncreasingUnique(SearchInvertedIndex(q1, index), SearchInvertedIndex(q2, index));
  }

  /** Over the inverted index of `docs`, the index engine returns exactly the
      documents containing every query term, and nothing for an empty query. */
  lemma SearchInvertedIndexIsConjunctive(docs: seq<Doc>, query: seq<string>, d: nat)
    ensures d in SearchInvertedIndex(query, InvertedIndexOf(docs)) <==>
      query != [] && d < |docs| && forall t :: t in query ==> t in docs[d]
  {
    var index := InvertedIndexOf(docs);
    if query != [] && d < |docs| && forall t :: t in query ==> t in docs[d] {
      forall t | t in query ensures t in index && d in index[t] {
        assert Occurs(docs, t);
      }
    }
    if d in SearchInvertedIndex(query, index) {
      HeadIsMember(query);
      assert query[0] in index && d in index[query[0]];
    }
  }

  /** The index engine's answer over the inverted index of `docs` is the
      increasing list of the documents that contain every query term. */
  lemma SearchInvertedIndexEquals(docs: seq<Doc>, query: seq<string>, expected: seq<nat>)
    requires StrictlyIncreasing(expected)
    requires forall d: nat :: d in expected <==>
      query != [] && d < |docs| && forall t :: t in query ==> t in docs[d]
    ensures SearchInvertedIndex(query, InvertedIndexOf(docs)) == expected
  {
    var r := SearchInvertedIndex(query, InvertedIndexOf(docs));
    forall d: nat ensures d in r <==> d in expected {
      SearchInvertedIndexIsConjunctive(docs, query, d);
    }
    StrictlyIncreasingUnique(r, expected);
  }

  /** Over a duplicate-free vocabulary and the incidence matrix of `docs`, the
      matrix engine returns exactly the documents containing every query term
      that is in the vocabulary, provided at least one is. */
  lemma SearchTermDocIncidenceIsConjunctive(docs: seq<Doc>, vocabulary: seq<string>, matrix: seq<seq<int>>, query: seq<string>, d: nat)
    requires Distinct(vocabulary) && IsIncidenceMatrix(matrix, docs, vocabulary)
    ensures Rectangular(matrix)
    ensures d in SearchTermDocIncidence(query, matrix, vocabulary) <==>
      HasKnownTerm(query, vocabulary) && d < |docs| && forall t :: t in query && t in vocabulary ==> t in docs[d]
  {
    if HasKnownTerm(query, vocabulary) && d < |docs| {
      ColumnMeansOccurrence(docs, vocabulary, matrix, query, d);
    }
  }

  /** In the incidence matrix of `docs`, column `d` matches the query exactly
      when document `d` contains every query term found in the vocabulary. */
  lemma ColumnMeansOccurrence(docs: seq<Doc>, vocabulary: seq<string>, matrix: seq<seq<int>>, query: seq<string>, d: nat)
    requires Distinct(vocabulary) && IsIncidenceMatrix(matrix, docs, vocabulary)
    requires vocabulary != [] && d < |docs|
    ensures Rectangular(matrix) && Columns(matrix) == |docs|
    ensures ColumnMatches(query, matrix, vocabulary, d) <==>
      forall t :: t in query && t in vocabulary ==> t in docs[d]
  {
    forall t | t in query && t in vocabulary
      ensures matrix[TermToIndex(vocabulary)[t]][d] == 1 <==> t in docs[d]
    {
      var i := TermToIndex(vocabulary)[t];
      assert IncidenceCell(docs, vocabulary, i, d) == 1 <==> t in docs[d];
    }
  }

  /** The matrix engine's answer over the incidence matrix of `docs` is the
      increasing list of the documents that contain every query term found in
      the vocabulary, or nothing when no query term is found. */
  lemma SearchTermDocIncidenceEquals(docs: seq<Doc>, vocabulary: seq<string>, matrix: seq<seq<int>>, query: seq<string>, expected: seq<nat>)
    requires Distinct(vocabulary) && IsIncidenceMatrix(matrix, docs, vocabulary)
    requires StrictlyIncreasing(expected)
    requires forall d: nat :: d in expected <==>
      HasKnownTerm(query, vocabulary) && d < |docs| && forall t :: t in query && t in vocabulary ==> t in docs[d]
    ensures Rectangular(matrix)
    ensures SearchTermDocIncidence(query, matrix, vocabulary) == expected
  {
    SearchTermDocIncidenceIsConjunctive(docs, vocabulary, matrix, query, 0);
    var r := SearchTermDocIncidence(query, matrix, vocabulary);
    forall d: nat ensures d in r <==> d in expected {
      SearchTermDocIncidenceIsConjunctive(docs, vocabulary, matrix, query, d);
    }
    StrictlyIncreasingUnique(r, expected);
  }

  /** With the vocabulary, matrix and inverted index all built from the same
      documents, the two engines return the same list for every query whose
      terms are either all in the vocabulary or all outside it. */
  lemma EnginesAgree(docs: seq<Doc>, vocabulary: seq<string>, matrix: seq<seq<int>>, query: seq<string>)
    requires StrictlySorted(vocabulary) && forall t :: t in vocabulary <==> Occurs(docs, t)
    requires IsIncidenceMatrix(matrix, docs, vocabulary)
    requires (forall t :: t in query ==> t in vocabulary) || (forall t :: t in query ==> t !in vocabulary)
    ensures SearchTermDocIncidence(query, matrix, vocabulary) == SearchInvertedIndex(query, InvertedIndexOf(docs))
  {
    StrictlySortedDistinct(vocabulary);
    SearchTermDocIncidenceIsConjunctive(docs, vocabulary, matrix, query, 0);
    var byMatrix := SearchTermDocIncidence(query, matrix, vocabulary);
    var byIndex := SearchInvertedIndex(query, InvertedIndexOf(docs));
    forall d: nat ensures d in byMatrix <==> d in byIndex {
      SearchTermDocIncidenceIsConjunctive(docs, vocabulary, matrix, query, d);
      SearchInvertedIndexIsConjunctive(docs, query, d);
      if query != [] && d in byIndex {
        HeadIsMember(query);
        assert query[0] in docs[d];
      }
    }
    StrictlyIncreasingUnique(byMatrix, byIndex);
  }

  /** On a query mixing terms in the vocabulary with terms outside it, the
      index engine returns nothing, while the matrix engine returns the
      documents containing every known term. So the two differ exactly when
      some document contains all the known query terms. */
  lemma EnginesOnMixedQuery(docs: seq<Doc>, vocabulary: seq<string>, matrix: seq<seq<int>>, query: seq<string>, d: nat)
    requires StrictlySorted(vocabulary) && forall t :: t in vocabulary <==> Occurs(docs, t)
    requires IsIncidenceMatrix(matrix, docs, vocabulary)
    requires (exists t :: t in query && t in vocabulary) && (exists t :: t in query && t !in vocabulary)
    ensures SearchInvertedIndex(query, InvertedIndexOf(docs)) == []
    ensures Rectangular(matrix)
    ensures d in SearchTermDocIncidence(query, matrix, vocabulary) <==>
      d < |docs| && forall t :: t in query && t in vocabulary ==> t in docs[d]
  {
    StrictlySortedDistinct(vocabulary);
    SearchTermDocIncidenceIsConjunctive(docs, vocabulary, matrix, query, d);
  }
}
