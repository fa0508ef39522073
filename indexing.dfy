/**
  Index construction over preprocessed documents (indexing.py): the sorted
  vocabulary, the 0/1 term-document incidence matrix and the inverted index.
  A document is its token sequence; its index is its position in the corpus.
 */
module Indexing {
  import opened Lexicographic
  import opened Sorting

  type Doc = seq<string>

  /** Term `t` occurs in some document of `docs`. */
  ghost predicate Occurs(docs: seq<Doc>, t: string)
  {
    exists d :: 0 <= d < |docs| && t in docs[d]
  }

  /** The union of the tokens of all documents. */
  function AllTerms(docs: seq<Doc>): (terms: set<string>)
    ensures forall t :: t in terms <==> Occurs(docs, t)
  {
    if docs == [] then {}
    else
      var n := |docs| - 1;
      var before := AllTerms(docs[..n]);
      assert forall t :: Occurs(docs, t) <==> Occurs(docs[..n], t) || t in docs[n] by {
        forall t | Occurs(docs, t) ensures Occurs(docs[..n], t) || t in docs[n] {
          var d :| 0 <= d < |docs| && t in docs[d];
          if d < n { assert docs[..n][d] == docs[d]; }
        }
        forall t | Occurs(docs[..n], t) ensures Occurs(docs, t) {
          var d :| 0 <= d < n && t in docs[..n][d];
          assert docs[d] == docs[..n][d];
        }
      }
      before + set t | t in docs[n]
  }

  /** build_vocabulary: collect the terms of every document into a set, then
      sort it. */
  method BuildVocabulary(docs: seq<Doc>) returns (vocabulary: seq<string>)
    ensures StrictlySorted(vocabulary)
    ensures forall t :: t in vocabulary <==> Occurs(docs, t)
    ensures (forall d :: 0 <= d < |docs| ==> docs[d] == []) ==> vocabulary == []
  {
    var vocab: set<string> := {};
    for i := 0 to |docs|
      invariant vocab == AllTerms(docs[..i])
    {
      assert docs[..i + 1][..i] == docs[..i];
      vocab := vocab + set t | t in docs[i];
    }
    assert docs[..|docs|] == docs;
    vocabulary := SortedTerms(vocab);
    if vocabulary != [] {
      assert Occurs(docs, vocabulary[0]);
    }
  }

  /** The term-to-row dictionary `{term: i for i, term in enumerate(vocabulary)}`:
      every vocabulary term is a key, and a term listed more than once maps to
      its last position. */
  function TermToIndex(vocabulary: seq<string>): (lookup: map<string, nat>)
    ensures forall t :: t in lookup <==> t in vocabulary
    ensures forall t :: t in lookup ==>
      lookup[t] < |vocabulary| && vocabulary[lookup[t]] == t &&
      forall j :: lookup[t] < j < |vocabulary| ==> vocabulary[j] != t
  {
    if vocabulary == [] then map[]
    else
      var n := |vocabulary| - 1;
      assert forall t :: t in vocabulary <==> t in vocabulary[..n] || t == vocabulary[n];
      TermToIndex(vocabulary[..n])[vocabulary[n] := n]
  }

  /** The value written at row `i`, column `d`: 1 when the row's term is in the
      document and the dictionary sends that term to row `i`. */
  function IncidenceCell(docs: seq<Doc>, vocabulary: seq<string>, i: nat, d: nat): (c: int)
    requires i < |vocabulary| && d < |docs|
    ensures c == 0 || c == 1
    ensures c == 1 ==> vocabulary[i] in docs[d]
    ensures Distinct(vocabulary) ==> (c == 1 <==> vocabulary[i] in docs[d])
  {
    if vocabulary[i] in docs[d] && TermToIndex(vocabulary)[vocabulary[i]] == i then 1 else 0
  }

  /** `matrix` is the incidence matrix of `docs` over `vocabulary`, row by row. */
  ghost predicate IsIncidenceMatrix(matrix: seq<seq<int>>, docs: seq<Doc>, vocabulary: seq<string>)
  {
    && |matrix| == |vocabulary|
    && (forall i :: 0 <= i < |matrix| ==> |matrix[i]| == |docs|)
    && forall i, d :: 0 <= i < |vocabulary| && 0 <= d < |docs| ==>
         matrix[i][d] == IncidenceCell(docs, vocabulary, i, d)
  }

  /** The rows of a two-dimensional array, as the search reads them. */
  function Rows(m: array2<int>): (rows: seq<seq<int>>)
    reads m
    ensures |rows| == m.Length0
    ensures forall i :: 0 <= i < m.Length0 ==> |rows[i]| == m.Length1
    ensures forall i, j :: 0 <= i < m.Length0 && 0 <= j < m.Length1 ==> rows[i][j] == m[i, j]
  {
    seq(m.Length0, i requires 0 <= i < m.Length0 reads m =>
      seq(m.Length1, j requires 0 <= j < m.Length1 reads m => m[i, j]))
  }

  /** build_term_doc_matrix: start from an all-zero |vocabulary| x |docs| array
      and, for every document and every distinct token of it that the
      dictionary knows, set the cell of that token's row to 1. */
  method BuildTermDocMatrix(docs: seq<Doc>, vocabulary: seq<string>) returns (matrix: array2<int>)
    ensures fresh(matrix)
    ensures matrix.Length0 == |vocabulary| && matrix.Length1 == |docs|
    ensures forall i, d :: 0 <= i < |vocabulary| && 0 <= d < |docs| ==>
      matrix[i, d] == IncidenceCell(docs, vocabulary, i, d)
    ensures IsIncidenceMatrix(Rows(matrix), docs, vocabulary)
  {
    var termToIndex := TermToIndex(vocabulary);
    matrix := new int[|vocabulary|, |docs|]((_, _) => 0);
    for d := 0 to |docs|
      invariant forall i, e :: 0 <= i < |vocabulary| && 0 <= e < |docs| ==>
        matrix[i, e] == if e < d then IncidenceCell(docs, vocabulary, i, e) else 0
    {
      var terms := set t | t in docs[d];
      while terms != {}
        invariant forall t :: t in terms ==> t in docs[d]
        invariant forall i, e :: 0 <= i < |vocabulary| && 0 <= e < |docs| ==>
          matrix[i, e] ==
            if e < d || (e == d && vocabulary[i] !in terms) then IncidenceCell(docs, vocabulary, i, e) else 0
        decreases |terms|
      {
        var term :| term in terms;
        if term in termToIndex {
          matrix[termToIndex[term], d] := 1;
        }
        terms := terms - {term};
      }
    }
  }

  /** The posting list of `t`: the indices of the documents containing `t`, in
      corpus order. */
  function Postings(docs: seq<Doc>, t: string): (p: seq<nat>)
    ensures StrictlyIncreasing(p)
    ensures forall d: nat :: d in p <==> d < |docs| && t in docs[d]
  {
    if docs == [] then []
    else
      var n := |docs| - 1;
      var before := Postings(docs[..n], t);
      assert forall k :: 0 <= k < |before| ==> before[k] < n by {
        forall k | 0 <= k < |before| ensures before[k] < n {
          assert before[k] in before;
        }
      }
      assert forall d: nat :: d < n ==> docs[..n][d] == docs[d];
      before + if t in docs[n] then [n] else []
  }

  /** Adding a document extends each posting list by at most that document's index. */
  lemma PostingsAppend(docs: seq<Doc>, d: nat, t: string)
    requires d < |docs|
    ensures Postings(docs[..d + 1], t) == Postings(docs[..d], t) + if t in docs[d] then [d] else []
  {
    assert docs[..d + 1][..d] == docs[..d];
  }

  /** A term that occurs nowhere has an empty posting list. */
  lemma PostingsOfAbsent(docs: seq<Doc>, t: string)
    requires !Occurs(docs, t)
    ensures Postings(docs, t) == []
  {
    var p := Postings(docs, t);
    if p != [] {
      HeadIsMember(p);
      assert false;
    }
  }

  /** The inverted index of `docs`: each term that occurs maps to its posting list. */
  function InvertedIndexOf(docs: seq<Doc>): (index: map<string, seq<nat>>)
    ensures forall t :: t in index <==> Occurs(docs, t)
  {
    map t | t in AllTerms(docs) :: Postings(docs, t)
  }

  /** build_inverted_index: for every document and every distinct token of it,
      append the document's index to that token's list (created empty on first use). */
  method BuildInvertedIndex(docs: seq<Doc>) returns (index: map<string, seq<nat>>)
    ensures index == InvertedIndexOf(docs)
  {
    index := map[];
    for d := 0 to |docs|
      invariant index == InvertedIndexOf(docs[..d])
    {
      index := AddDocument(index, docs, d);
    }
    assert docs[..|docs|] == docs;
  }

  /** One pass of the outer loop of build_inverted_index: document `d` appends
      its index once to the list of each of its distinct tokens. */
  method AddDocument(index: map<string, seq<nat>>, docs: seq<Doc>, d: nat) returns (next: map<string, seq<nat>>)
    requires d < |docs| && index == InvertedIndexOf(docs[..d])
    ensures next == InvertedIndexOf(docs[..d + 1])
  {
    next := index;
    var terms := set t | t in docs[d];
    while terms != {}
      invariant forall t :: t in terms ==> t in docs[d]
      invariant PartlyAdded(next, index, docs[d], d, terms)
      decreases |terms|
    {
      var term :| term in terms;
      var list := if term in next then next[term] else [];
      AddTerm(next, index, docs[d], d, terms, term);
      next := next[term := list + [d]];
      terms := terms - {term};
    }
    NextIndex(docs, d, next);
  }

  /** `next` is `index` with `d` appended to the list of every token of `doc`
      that is no longer `pending`, a missing list counting as empty. */
  ghost predicate PartlyAdded(next: map<string, seq<nat>>, index: map<string, seq<nat>>, doc: Doc, d: nat, pending: set<string>)
  {
    && (forall t :: t in next <==> t in index || (t in doc && t !in pending))
    && forall t :: t in next ==>
         next[t] == (if t in index then index[t] else []) + if t in doc && t !in pending then [d] else []
  }

  /** Appending `d` to the list of one pending token keeps the loop's invariant. */
  lemma AddTerm(next: map<string, seq<nat>>, index: map<string, seq<nat>>, doc: Doc, d: nat, pending: set<string>, term: string)
    requires term in pending && term in doc
    requires PartlyAdded(next, index, doc, d, pending)
    ensures PartlyAdded(next[term := (if term in next then next[term] else []) + [d]], index, doc, d, pending - {term})
  {
    var after := next[term := (if term in next then next[term] else []) + [d]];
    forall t | t != term ensures (t in doc && t !in pending - {term}) == (t in doc && t !in pending) {
    }
    assert after[term] == (if term in index then index[term] else []) + [d];
  }

  /** The index after document `d` is processed is the inverted index of the
      first `d + 1` documents. */
  lemma NextIndex(docs: seq<Doc>, d: nat, next: map<string, seq<nat>>)
    requires d < |docs| && PartlyAdded(next, InvertedIndexOf(docs[..d]), docs[d], d, {})
    ensures next == InvertedIndexOf(docs[..d + 1])
  {
    assert docs[..d + 1][..d] == docs[..d];
    forall t | t in next ensures next[t] == Postings(docs[..d + 1], t) {
      PostingsAppend(docs, d, t);
      if t !in InvertedIndexOf(docs[..d]) {
        PostingsOfAbsent(docs[..d], t);
      }
    }
  }

  /** The inverted index has an entry exactly for the terms that occur; each
      entry is non-empty, strictly increasing and lists exactly the documents
      containing the term. */
  lemma InvertedIndexEntries(docs: seq<Doc>, t: string)
    requires t in InvertedIndexOf(docs)
    ensures InvertedIndexOf(docs)[t] != []
    ensures StrictlyIncreasing(InvertedIndexOf(docs)[t])
    ensures forall d: nat :: d in InvertedIndexOf(docs)[t] <==> d < |docs| && t in docs[d]
  {
    var d :| 0 <= d < |docs| && t in docs[d];
    assert d in InvertedIndexOf(docs)[t];
  }

  /** The two structures built from the same documents agree on every
      (term, document) pair: over a vocabulary without duplicates, a cell of the
      matrix is 1 exactly when the document is in the term's posting list. */
  lemma MatrixAgreesWithIndex(docs: seq<Doc>, vocabulary: seq<string>, matrix: seq<seq<int>>, i: nat, d: nat)
    requires Distinct(vocabulary) && IsIncidenceMatrix(matrix, docs, vocabulary)
    requires i < |vocabulary| && d < |docs|
    ensures matrix[i][d] == 1 <==>
      vocabulary[i] in InvertedIndexOf(docs) && d in InvertedIndexOf(docs)[vocabulary[i]]
  {
    if vocabulary[i] in docs[d] {
      assert Occurs(docs, vocabulary[i]);
    }
  }
}
