/**
 * The corpus side of plsa.py: the vocabulary built by `build_vocabulary`,
 * the occurrence count `list.count` and the term-document count matrix that
 * `build_term_doc_matrix` fills in.
 */
module Vocabulary {
  import opened Sums

  /** Every token of every document, document by document. */
  function Tokens(docs: seq<seq<string>>): (r: seq<string>)
    ensures forall x :: x in r <==> exists d :: 0 <= d < |docs| && x in docs[d]
  {
    if docs == [] then []
    else
      var n := |docs| - 1;
      assert forall d :: 0 <= d < n ==> docs[..n][d] == docs[d];
      Tokens(docs[..n]) + docs[n]
  }

  predicate NoDuplicates(s: seq<string>)
  {
    forall i, j :: 0 <= i < j < |s| ==> s[i] != s[j]
  }

  /** The distinct elements of s, each at its first occurrence. */
  function Dedup(s: seq<string>): (r: seq<string>)
    ensures NoDuplicates(r)
    ensures forall x :: x in r <==> x in s
  {
    if s == [] then []
    else
      var n := |s| - 1;
      assert s == s[..n] + [s[n]];
      var r := Dedup(s[..n]);
      if s[n] in r then r else r + [s[n]]
  }

  /** A vocabulary of docs: no term twice, and exactly the tokens occurring in some document. */
  ghost predicate IsVocabularyOf(vocab: seq<string>, docs: seq<seq<string>>)
  {
    && NoDuplicates(vocab)
    && forall x :: x in vocab <==> exists d :: 0 <= d < |docs| && x in docs[d]
  }

  /** `build_vocabulary`, in first-occurrence order. */
  function BuildVocabulary(docs: seq<seq<string>>): (vocab: seq<string>)
    ensures IsVocabularyOf(vocab, docs)
  {
    Dedup(Tokens(docs))
  }

  /** In a sequence without duplicates every element occurs once. */
  lemma {:induction false} DistinctMultiplicity(s: seq<string>)
    requires NoDuplicates(s)
    ensures forall x :: multiset(s)[x] == if x in s then 1 else 0
  {
    if s != [] {
      var n := |s| - 1;
      assert s == s[..n] + [s[n]];
      DistinctMultiplicity(s[..n]);
      assert s[n] !in s[..n];
    }
  }

  /**
   * The vocabulary is determined up to order: any two vocabularies of the
   * same documents are permutations of each other and have the same size.
   */
  lemma VocabularyUniqueUpToOrder(a: seq<string>, b: seq<string>, docs: seq<seq<string>>)
    requires IsVocabularyOf(a, docs) && IsVocabularyOf(b, docs)
    ensures multiset(a) == multiset(b)
    ensures |a| == |b|
  {
    DistinctMultiplicity(a);
    DistinctMultiplicity(b);
    assert forall x :: multiset(a)[x] == multiset(b)[x];
    assert multiset(a) == multiset(b);
    assert |a| == |multiset(a)| && |b| == |multiset(b)|;
  }

  /** `doc.count(term)`: the number of occurrences of term in doc. */
  function Count(doc: seq<string>, term: string): nat
  {
    if doc == [] then 0
    else Count(doc[..|doc| - 1], term) + (if doc[|doc| - 1] == term then 1 else 0)
  }

  /** Count agrees with the multiplicity of the term in the document's multiset of tokens. */
  lemma {:induction false} CountIsMultiplicity(doc: seq<string>, term: string)
    ensures Count(doc, term) == multiset(doc)[term]
    ensures Count(doc, term) > 0 <==> term in doc
  {
    if doc != [] {
      var n := |doc| - 1;
      assert doc == doc[..n] + [doc[n]];
      CountIsMultiplicity(doc[..n], term);
    }
  }

  /** The D x V count matrix: entry [i][j] is the count of vocab[j] in docs[i]. */
  function CountMatrix(docs: seq<seq<string>>, vocab: seq<string>): (m: seq<seq<nat>>)
    ensures |m| == |docs| && forall i :: 0 <= i < |docs| ==> |m[i]| == |vocab|
  {
    seq(|docs|, i requires 0 <= i < |docs| =>
      seq(|vocab|, j requires 0 <= j < |vocab| => Count(docs[i], vocab[j])))
  }

  /** 1 where the vocabulary holds t, 0 elsewhere. */
  function Indicator(vocab: seq<string>, t: string): (r: seq<real>)
    ensures |r| == |vocab|
  {
    seq(|vocab|, j requires 0 <= j < |vocab| => if vocab[j] == t then 1.0 else 0.0)
  }

  /** A term occurs at most once in a vocabulary, so its indicator sums to 0 or 1. */
  lemma {:induction false} IndicatorSum(vocab: seq<string>, t: string)
    requires NoDuplicates(vocab)
    ensures Sum(Indicator(vocab, t)) == if t in vocab then 1.0 else 0.0
  {
    if vocab != [] {
      var n := |vocab| - 1;
      assert Indicator(vocab, t)[..n] == Indicator(vocab[..n], t);
      assert vocab == vocab[..n] + [vocab[n]];
      IndicatorSum(vocab[..n], t);
    }
  }

  /** The counts of every vocabulary term in a document, as reals. */
  function CountRow(doc: seq<string>, vocab: seq<string>): (r: seq<real>)
    ensures |r| == |vocab|
  {
    seq(|vocab|, j requires 0 <= j < |vocab| => Count(doc, vocab[j]) as real)
  }

  /**
   * When the vocabulary covers a document's tokens, the document's row of
   * the count matrix adds up to the document's length.
   */
  lemma {:induction false} CountRowSum(doc: seq<string>, vocab: seq<string>)
    requires NoDuplicates(vocab)
    requires forall x :: x in doc ==> x in vocab
    ensures Sum(CountRow(doc, vocab)) == |doc| as real
  {
    if doc == [] {
      SumConst(CountRow(doc, vocab), 0.0);
    } else {
      var n := |doc| - 1;
      var t := doc[n];
      assert doc == doc[..n] + [t];
      CountRowSum(doc[..n], vocab);
      IndicatorSum(vocab, t);
      SumAdd(CountRow(doc[..n], vocab), Indicator(vocab, t), CountRow(doc, vocab));
    }
  }

  /** The counts of one term in every document, as reals. */
  function CountColumn(docs: seq<seq<string>>, term: string): (r: seq<real>)
    ensures |r| == |docs|
  {
    seq(|docs|, d requires 0 <= d < |docs| => Count(docs[d], term) as real)
  }

  /** Every term of the vocabulary occurs in some document: its column has a positive total. */
  lemma CountColumnPositive(docs: seq<seq<string>>, vocab: seq<string>, j: nat)
    requires IsVocabularyOf(vocab, docs) && j < |vocab|
    ensures Sum(CountColumn(docs, vocab[j])) > 0.0
  {
    assert vocab[j] in vocab;
    var d :| 0 <= d < |docs| && vocab[j] in docs[d];
    CountIsMultiplicity(docs[d], vocab[j]);
    SumPositive(CountColumn(docs, vocab[j]), d);
  }
}
