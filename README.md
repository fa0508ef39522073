# Boolean indexing and retrieval, modelled in Dafny

This project models the boolean core of a small document retrieval engine. The engine takes a corpus of already-preprocessed documents, where each document is a list of tokens. It builds three structures from them:

- the sorted **vocabulary** of distinct terms;
- the 0/1 **term-document incidence matrix**, with one row per vocabulary term and one column per document;
- the **inverted index**, which maps each term to the increasing list of the documents that contain it.

It answers conjunctive ("all terms must occur") queries with two engines, one over the matrix and one over the index.

Files:

- `lexicographic.dfy` (`Lexicographic`): the order Python's `sorted` uses on `str`, which is lexicographic by code point. It is proved a strict total order. Dafny's `<` on sequences means "proper prefix", so it cannot be used here.
- `sorting.dfy` (`Sorting`): `sorted` applied to a set of strings and to a set of document indices. A strictly increasing sequence is proved to be determined by its elements. This makes the result unique whatever order the set is iterated in.
- `indexing.dfy` (`Indexing`): the three builders from `indexing.py` as methods, with the loops and in-place updates of the source:
  - the vocabulary set grows document by document;
  - cells of a preallocated `array2<int>` are set to 1;
  - document indices are appended to the per-term lists of a map.

  Each method is proved against a specification function: `AllTerms`, `IncidenceCell` and `InvertedIndexOf`/`Postings`.
- `retrival.dfy` (`Retrieval`): the two query engines from `retrival.py` as functions. Lemmas state their conjunctive meaning over structures built from the same documents, and when the two engines agree.
- `scenario.dfy` (`Scenario`): the three-document corpus `cat dog` / `dog bird` / `fish`, with:
  - its vocabulary and matrix, also as produced by running the builders;
  - the answers of both engines to `dog`, `cat dog` and `zebra`;
  - a query on which the engines disagree.

The matrix engine reads the matrix as a sequence of rows. `Indexing.Rows` turns the array built by `BuildTermDocMatrix` into that form.

Both engines' docstrings promise the documents containing all the query terms: "return doc indices where ALL query_terms appear" (`retrival.py:8`) and "return doc indices containing ALL query terms" (`retrival.py:31`). The model follows the code. The index engine keeps the promise for every non-empty query (`Retrieval.SearchInvertedIndexIsConjunctive`): a term missing from an index built from the documents occurs in no document, so its empty posting set correctly empties the result (`retrival.py:41,45`). The code departs from the promise in two places:

- The matrix engine breaks the promise on a query that mixes known and unknown terms, because it drops the unknown ones (`retrival.py:21`).
- Both engines return `[]` for an empty query, although every document would vacuously qualify (`retrival.py:22-23`, `retrival.py:42-43`).

Over structures built from the same documents, the two engines agree whenever the query's terms are all in the vocabulary or none are (`Retrieval.EnginesAgree`). On a mixed query the index engine returns `[]`, and the matrix engine returns the documents containing every known term (`Retrieval.EnginesOnMixedQuery`). So they differ exactly when some document contains all the known query terms. `Scenario.EnginesDisagreeOnMixedQuery` shows one such query, `dog zebra`: the matrix engine answers `[0, 1]` and the index engine answers `[]`.

## Model

| member | source | states |
|---|---|---|
| Lexicographic.Less | indexing.py:18 | the code-point order `sorted` uses on strings: a proper prefix sorts before its extensions, and otherwise the first differing character decides |
| Lexicographic.LessIrreflexive | indexing.py:18 | no string sorts before itself |
| Lexicographic.LessAsymmetric | indexing.py:18 | if a sorts before b, b does not sort before a |
| Lexicographic.LessTransitive | indexing.py:18 | the string order is transitive |
| Lexicographic.LessTotal | indexing.py:18 | any two different strings are ordered one way or the other |
| Sorting.StrictlySortedDistinct | indexing.py:18 | a strictly sorted list of strings has no duplicates |
| Sorting.SortedTerms | indexing.py:18 | `sorted` of a set of terms is strictly increasing and holds exactly the set's elements |
| Sorting.StrictlySortedUnique | indexing.py:18 | two strictly sorted lists with the same elements are equal, so `sorted(set)` does not depend on set order |
| Sorting.SortedNats | retrival.py:46 | `sorted` of a set of document indices is strictly increasing and holds exactly the set's elements |
| Sorting.StrictlyIncreasingUnique | retrival.py:46 | two strictly increasing index lists with the same elements are equal |
| Indexing.AllTerms | indexing.py:15-17 | the union of the documents' tokens contains a term exactly when some document contains it |
| Indexing.BuildVocabulary | indexing.py:5-18 | the vocabulary is strictly increasing (sorted, duplicate-free), contains a term iff some document contains it, and is empty when every document is empty |
| Indexing.TermToIndex | indexing.py:32 | the term-to-row dictionary has exactly the vocabulary's terms as keys, and maps each to a position holding that term with no later position holding it (the last one wins) |
| Indexing.IncidenceCell | indexing.py:34-37 | a cell is 0 or 1; it is 1 only if the row's term is in the document; over a duplicate-free vocabulary it is 1 exactly when the term is in the document |
| Indexing.BuildTermDocMatrix | indexing.py:21-38 | a fresh array with one row per vocabulary term and one column per document, whose every cell equals the incidence value, whatever order each document's distinct tokens are visited in |
| Indexing.Postings | indexing.py:53-55 | a posting list is strictly increasing and contains d exactly when document d contains the term |
| Indexing.PostingsAppend | indexing.py:53-55 | processing one more document appends its index to a term's list exactly when it contains the term |
| Indexing.PostingsOfAbsent | indexing.py:52 | a term that occurs nowhere has an empty posting list |
| Indexing.InvertedIndexOf | indexing.py:52-56 | the index has a key exactly for each term that occurs in some document |
| Indexing.BuildInvertedIndex | indexing.py:41-56 | the built dictionary is exactly the inverted index of the documents |
| Indexing.AddDocument | indexing.py:53-55 | one outer pass turns the index of the first d documents into the index of the first d + 1 |
| Indexing.AddTerm | indexing.py:54-55 | appending d to one pending token's list (created empty if missing) keeps the per-document loop invariant |
| Indexing.NextIndex | indexing.py:53-55 | once every token of document d is appended, the map is the inverted index of the first d + 1 documents |
| Indexing.InvertedIndexEntries | indexing.py:52-56 | every entry of the index is non-empty, strictly increasing and lists exactly the documents containing the term |
| Indexing.MatrixAgreesWithIndex | indexing.py:32-37 | over a duplicate-free vocabulary, matrix cell (i, d) is 1 exactly when d is in the index entry of term i |
| Retrieval.QueryRows | retrival.py:19-21 | the selected rows are the rows of the query terms the dictionary knows; there are none exactly when no query term is known |
| Retrieval.MatchingColumns | retrival.py:25-26 | the matching columns are strictly increasing and are exactly the columns below the width with a 1 in every selected row |
| Retrieval.SearchTermDocIncidence | retrival.py:6-26 | the result is strictly increasing; it is empty when no query term is in the vocabulary; otherwise it holds exactly the columns with a 1 in the row of every known query term |
| Retrieval.ConjunctionOfRows | retrival.py:21-26 | with at least one selected row, the columns where all selected rows are 1 are the columns matching every known query term |
| Retrieval.SelectedColumn | retrival.py:21-25 | a column is 1 in all selected rows exactly when it is 1 in the row of each known query term |
| Retrieval.IntersectPostings | retrival.py:45 | the intersection holds d exactly when every query term has an entry containing d |
| Retrieval.SearchInvertedIndex | retrival.py:29-46 | the result is strictly increasing; it is empty for an empty query and for a query with a term missing from the index; otherwise it holds exactly the documents in every query term's entry |
| Retrieval.SearchTermDocIncidenceUsesTermSet | retrival.py:19-26 | repeating or reordering query terms does not change the matrix engine's result |
| Retrieval.SearchInvertedIndexUsesTermSet | retrival.py:41-46 | repeating or reordering query terms does not change the index engine's result |
| Retrieval.SearchInvertedIndexIsConjunctive | retrival.py:41-46 | over the inverted index of a corpus, d is returned exactly when the query is non-empty and document d contains every query term |
| Retrieval.SearchInvertedIndexEquals | retrival.py:41-46 | the index engine returns the increasing list of documents containing every query term |
| Retrieval.SearchTermDocIncidenceIsConjunctive | retrival.py:19-26 | over the incidence matrix of a corpus, d is returned exactly when some query term is in the vocabulary and document d contains every query term that is |
| Retrieval.ColumnMeansOccurrence | retrival.py:25 | in the incidence matrix, a column matches the query exactly when the document contains every known query term |
| Retrieval.SearchTermDocIncidenceEquals | retrival.py:19-26 | the matrix engine returns the increasing list of documents containing every known query term, or nothing when no term is known |
| Retrieval.EnginesAgree | retrival.py:21 | over structures built from the same documents, the two engines return the same list when the query's terms are all in the vocabulary or all outside it |
| Retrieval.EnginesOnMixedQuery | retrival.py:21-45 | over structures built from the same documents, a query with both known and unknown terms gets [] from the index engine and, from the matrix engine, exactly the documents containing every known term |
| Scenario.BuildCorpus | indexing.py:5-56 | running the three builders on the corpus gives the vocabulary bird, cat, dog, fish, the matrix rows 010, 100, 110, 001, and an index over which `dog` is answered with [0, 1] |
| Scenario.CorpusVocabulary | indexing.py:15-18 | the vocabulary of the corpus is bird, cat, dog, fish |
| Scenario.CorpusMatrix | indexing.py:32-37 | the incidence matrix of the corpus is rows 010, 100, 110, 001 |
| Scenario.CorpusIndexDog | retrival.py:41-46 | the index engine answers `dog` with documents 0 and 1 |
| Scenario.CorpusIndexCatDog | retrival.py:41-46 | the index engine answers `cat dog` with document 0 |
| Scenario.CorpusQueries | retrival.py:19-26 | the matrix engine answers `dog`, `cat dog` and `zebra` with [0, 1], [0] and []; the index engine answers `zebra` with [] |
| Scenario.ZebraEmptiesIndexSearch | retrival.py:41-45 | any query containing a term absent from the corpus gets no result from the index engine |
| Scenario.EnginesDisagreeOnMixedQuery | retrival.py:21-45 | for `dog zebra` the matrix engine answers [0, 1] and the index engine answers [] |

## Left out

- `search_tfidf` (`retrival.py:49-69`): TF-IDF ranking calls a library vectorizer and cosine similarity and works on floating-point scores; it is not part of this model.
- `preprocess.py`: tokenization, stop-word removal and lemmatization are library calls. Documents and queries enter the model already tokenized, as sequences of strings.
- `app.py`: the user interface, corpus loading from disk, caching and snippet rendering are not part of this model.
- numpy: `np.zeros`, `np.vstack`, `np.all` and `np.nonzero` are modelled by what they compute: a zero-filled `array2`, the selected rows, and the increasing list of columns whose selected cells are all 1. Integer dtype width is not modelled, because the cells only hold 0 and 1.
- The order in which `set(tokens)` is iterated is unspecified in Python. The model lets the loop pick any remaining token, so every proof holds for every order.
- Retrieval.SearchTermDocIncidence: requires a rectangular matrix with exactly one row per vocabulary term, which is the shape `build_term_doc_matrix` produces. The source raises an error on a shorter matrix when a query term's row is missing. It also accepts a taller matrix and ignores the extra rows. The model covers neither case.
