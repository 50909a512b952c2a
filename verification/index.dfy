/**
 The inverted index of `HW_1/inverted_index.py`: a map from each term to the
 set of identifiers of the documents containing it, the constructor that
 normalises any collection of ids into a set, the AND-query, and the builder.
 */
module Index {
  import opened Strings

  type Term = string
  type DocId = string

  /** term -> posting set */
  type Mapping = map<Term, set<DocId>>

  /** What a caller may hand to the constructor for one term: a list (as read
      back from storage) or a set (as produced by the builder). */
  datatype Collection = ListOf(items: seq<DocId>) | SetOf(members: set<DocId>)
  {
    /** Python's `set(doc_ids)`. */
    function Elements(): set<DocId>
    {
      match this
      case ListOf(xs) => set d | d in xs
      case SetOf(s) => s
    }
  }

  datatype InvertedIndex = InvertedIndex(wordToDocs: Mapping)

  /** `InvertedIndex(word_to_docs_mapping)`: keeps every word and maps it to the
      set of the ids listed for it. */
  function New(source: map<Term, Collection>): (idx: InvertedIndex)
    ensures idx.wordToDocs.Keys == source.Keys
    ensures forall w, d :: w in source && source[w].ListOf? ==>
              (d in idx.wordToDocs[w] <==> d in source[w].items)
    ensures forall w :: w in source && source[w].SetOf? ==> idx.wordToDocs[w] == source[w].members
  {
    InvertedIndex(map w | w in source :: source[w].Elements())
  }

  /** The AND semantics of a query: `d` matches when the query has at least one
      word and every word is indexed with `d` in its posting set. */
  ghost predicate Matches(m: Mapping, words: seq<Term>, d: DocId)
  {
    |words| > 0 && forall i :: 0 <= i < |words| ==> words[i] in m && d in m[words[i]]
  }

  /** The loop of `query` over `words[1:]`, starting from the ids `acc`
      collected so far; an absent word or an empty intersection returns the
      empty set at once. */
  function QueryRest(m: Mapping, rest: seq<Term>, acc: set<DocId>): (r: set<DocId>)
    ensures forall d :: d in r <==>
              d in acc && forall i :: 0 <= i < |rest| ==> rest[i] in m && d in m[rest[i]]
    decreases |rest|
  {
    if |rest| == 0 then acc
    else if rest[0] !in m then {}
    else
      var next := acc * m[rest[0]];
      if |next| == 0 then {} else QueryRest(m, rest[1..], next)
  }

  /** `InvertedIndex.query(words)`: an empty query and a query with an absent
      word give the empty set; otherwise the intersection of the posting sets. */
  function Query(idx: InvertedIndex, words: seq<Term>): (r: set<DocId>)
    ensures forall d :: d in r <==> Matches(idx.wordToDocs, words, d)
    ensures |words| == 0 ==> r == {}
    ensures (exists i :: 0 <= i < |words| && words[i] !in idx.wordToDocs) ==> r == {}
  {
    var m := idx.wordToDocs;
    if |words| == 0 then {}
    else
      var start := if words[0] in m then m[words[0]] else {};
      var r := QueryRest(m, words[1..], start);
      assert forall d :: d in r <==> Matches(m, words, d) by {
        forall d
          ensures d in r <==> Matches(m, words, d)
        {
          if Matches(m, words, d) {
            assert words[0] in m && d in m[words[0]];
            assert forall i :: 0 <= i < |words[1..]| ==> words[1..][i] == words[i + 1];
          }
          if d in r {
            assert d in start;
            forall i | 0 <= i < |words|
              ensures words[i] in m && d in m[words[i]]
            {
              if i > 0 {
                assert words[1..][i - 1] == words[i];
              }
            }
          }
        }
      }
      r
  }

  /** The answer lies inside the posting set of every queried word. */
  lemma QueryWithinPostings(idx: InvertedIndex, words: seq<Term>, i: nat)
    requires i < |words|
    ensures Query(idx, words) <= (if words[i] in idx.wordToDocs then idx.wordToDocs[words[i]] else {})
  {
  }

  /** Queries with the same set of words (reordered or repeated) give the same answer. */
  lemma QueryIgnoresOrderAndRepeats(idx: InvertedIndex, a: seq<Term>, b: seq<Term>)
    requires |a| > 0 && |b| > 0
    requires forall w :: w in a <==> w in b
    ensures Query(idx, a) == Query(idx, b)
  {
    var m := idx.wordToDocs;
    forall d
      ensures d in Query(idx, a) <==> d in Query(idx, b)
    {
      if Matches(m, a, d) {
        forall i | 0 <= i < |b|
          ensures b[i] in m && d in m[b[i]]
        {
          assert b[i] in a;
        }
      }
      if Matches(m, b, d) {
        forall i | 0 <= i < |a|
          ensures a[i] in m && d in m[a[i]]
        {
          assert a[i] in b;
        }
      }
    }
  }

  /** AND of two words is the intersection of the one-word answers, and a
      repeated word changes nothing. */
  lemma QueryPairIsIntersection(idx: InvertedIndex, a: Term, b: Term)
    ensures Query(idx, [a, b]) == Query(idx, [a]) * Query(idx, [b])
    ensures Query(idx, [a, a]) == Query(idx, [a])
  {
    QueryIgnoresOrderAndRepeats(idx, [a, a], [a]);
  }

  /** The facts a term -> posting map holds about the documents it was built from. */
  ghost predicate Occurs(documents: map<DocId, string>, d: DocId, w: Term)
  {
    d in documents && w in Split(documents[d])
  }

  /** Every posting of `m` is an occurrence in a document of `done`. */
  ghost predicate Sound(m: Mapping, documents: map<DocId, string>, done: set<DocId>)
  {
    forall w, d :: w in m && d in m[w] ==> d in done && Occurs(documents, d, w)
  }

  /** Every occurrence in a document of `done` is a posting of `m`. */
  ghost predicate Complete(m: Mapping, documents: map<DocId, string>, done: set<DocId>)
  {
    forall w, d :: d in done && Occurs(documents, d, w) ==> w in m && d in m[w]
  }

  /** No term is kept with an empty posting set. */
  predicate NoEmptyPostings(m: Mapping)
  {
    forall w :: w in m ==> m[w] != {}
  }

  /** `m` is exactly the index of `documents`. */
  ghost predicate IndexOf(m: Mapping, documents: map<DocId, string>)
  {
    Sound(m, documents, documents.Keys) && Complete(m, documents, documents.Keys) && NoEmptyPostings(m)
  }

  /** `build_inverted_index(documents)`: `d` is in the posting set of `w`
      exactly when `w` is one of the whitespace tokens of document `d`. The
      documents are visited in an arbitrary order. */
  method Build(documents: map<DocId, string>) returns (idx: InvertedIndex)
    ensures forall w, d :: w in idx.wordToDocs && d in idx.wordToDocs[w] ==> Occurs(documents, d, w)
    ensures forall w, d :: Occurs(documents, d, w) ==> w in idx.wordToDocs && d in idx.wordToDocs[w]
    ensures forall w :: w in idx.wordToDocs ==> idx.wordToDocs[w] != {}
    ensures |documents| == 0 ==> idx.wordToDocs == map[]
  {
    var m: Mapping := map[];
    if |documents| == 0 {
      return New(map[]);
    }
    var remaining := documents.Keys;
    while remaining != {}
      invariant remaining <= documents.Keys
      invariant Sound(m, documents, documents.Keys - remaining)
      invariant Complete(m, documents, documents.Keys - remaining)
      invariant NoEmptyPostings(m)
      decreases remaining
    {
      var d :| d in remaining;
      ghost var done := documents.Keys - remaining;
      var words := Split(documents[d]);
      var j := 0;
      while j < |words|
        invariant j <= |words|
        invariant Sound(m, documents, done + {d})
        invariant Complete(m, documents, done)
        invariant forall i :: 0 <= i < j ==> words[i] in m && d in m[words[i]]
        invariant NoEmptyPostings(m)
      {
        var w := words[j];
        m := m[w := (if w in m then m[w] else {}) + {d}];
        j := j + 1;
      }
      remaining := remaining - {d};
      assert documents.Keys - remaining == done + {d};
    }
    idx := New(map w | w in m :: SetOf(m[w]));
  }

  /** The properties `Build` ensures pin the index down: whatever order the
      documents are visited in, the mapping is the same. */
  lemma {:induction false} IndexIsUnique(m1: Mapping, m2: Mapping, documents: map<DocId, string>)
    requires IndexOf(m1, documents) && IndexOf(m2, documents)
    ensures m1 == m2
  {
    forall w | w in m1
      ensures w in m2
    {
      var d :| d in m1[w];
      assert Occurs(documents, d, w);
    }
    forall w | w in m2
      ensures w in m1
    {
      var d :| d in m2[w];
      assert Occurs(documents, d, w);
    }
    forall w | w in m1
      ensures m1[w] == m2[w]
    {
      forall d
        ensures d in m1[w] <==> d in m2[w]
      {
        if d in m1[w] {
          assert Occurs(documents, d, w);
        }
        if d in m2[w] {
          assert Occurs(documents, d, w);
        }
      }
    }
  }

  /** Querying a built index: `d` is returned exactly when the query is
      non-empty and every query word is a token of document `d`. */
  lemma QueryOfBuiltIndex(idx: InvertedIndex, documents: map<DocId, string>, words: seq<Term>, d: DocId)
    requires IndexOf(idx.wordToDocs, documents)
    ensures d in Query(idx, words) <==>
              |words| > 0 && d in documents && forall i :: 0 <= i < |words| ==> words[i] in Split(documents[d])
  {
    if |words| > 0 && d in documents && forall i :: 0 <= i < |words| ==> words[i] in Split(documents[d]) {
      forall i | 0 <= i < |words|
        ensures words[i] in idx.wordToDocs && d in idx.wordToDocs[words[i]]
      {
        assert Occurs(documents, d, words[i]);
      }
    }
  }

  /** An index built from no documents answers every query with the empty set. */
  lemma EmptyCorpusAnswersNothing(idx: InvertedIndex, words: seq<Term>)
    requires IndexOf(idx.wordToDocs, map[])
    ensures idx.wordToDocs == map[]
    ensures Query(idx, words) == {}
  {
    forall w | w in idx.wordToDocs
      ensures exists d :: d in idx.wordToDocs[w] && Occurs(map[], d, w)
    {
      var d :| d in idx.wordToDocs[w];
    }
  }

  /** Three documents over three words, each word shared by two of them,
      and the index they give. */
  lemma ThreeDocumentsIndex(cat: Term, dog: Term, bird: Term, d1: DocId, d2: DocId, d3: DocId,
                            documents: map<DocId, string>, m: Mapping)
    requires IsToken(cat) && IsToken(dog) && IsToken(bird)
    requires cat != dog && dog != bird && cat != bird
    requires d1 != d2 && d2 != d3 && d1 != d3
    requires documents == map[d1 := cat + " " + dog, d2 := dog + " " + bird, d3 := cat + " " + bird]
    requires m == map[cat := {d1, d3}, dog := {d1, d2}, bird := {d2, d3}]
    ensures IndexOf(m, documents)
  {
    SplitOfTwo(cat, dog);
    SplitOfTwo(dog, bird);
    SplitOfTwo(cat, bird);
    ThreeTokenLists(cat, dog, bird, d1, d2, d3, documents, m);
  }

  /** The index of three documents, given by their token lists. */
  lemma ThreeTokenLists(cat: Term, dog: Term, bird: Term, d1: DocId, d2: DocId, d3: DocId,
                        documents: map<DocId, string>, m: Mapping)
    requires cat != dog && dog != bird && cat != bird
    requires documents.Keys == {d1, d2, d3}
    requires Split(documents[d1]) == [cat, dog]
    requires Split(documents[d2]) == [dog, bird]
    requires Split(documents[d3]) == [cat, bird]
    requires m == map[cat := {d1, d3}, dog := {d1, d2}, bird := {d2, d3}]
    ensures IndexOf(m, documents)
  {
    ThreeTokenListsSound(cat, dog, bird, d1, d2, d3, documents, m);
    ThreeTokenListsComplete(cat, dog, bird, d1, d2, d3, documents, m);
  }

  /** Each posting of that index is an occurrence. */
  lemma ThreeTokenListsSound(cat: Term, dog: Term, bird: Term, d1: DocId, d2: DocId, d3: DocId,
                        documents: map<DocId, string>, m: Mapping)
    requires cat != dog && dog != bird && cat != bird
    requires documents.Keys == {d1, d2, d3}
    requires Split(documents[d1]) == [cat, dog]
    requires Split(documents[d2]) == [dog, bird]
    requires Split(documents[d3]) == [cat, bird]
    requires m == map[cat := {d1, d3}, dog := {d1, d2}, bird := {d2, d3}]
    ensures Sound(m, documents, documents.Keys)
  {
    forall w, d | w in m && d in m[w]
      ensures d in documents && w in Split(documents[d])
    {
      if w == cat {
        assert d == d1 || d == d3;
      } else if w == dog {
        assert d == d1 || d == d2;
      } else {
        assert d == d2 || d == d3;
      }
    }
  }

  /** Each occurrence is a posting of that index. */
  lemma ThreeTokenListsComplete(cat: Term, dog: Term, bird: Term, d1: DocId, d2: DocId, d3: DocId,
                        documents: map<DocId, string>, m: Mapping)
    requires cat != dog && dog != bird && cat != bird
    requires documents.Keys == {d1, d2, d3}
    requires Split(documents[d1]) == [cat, dog]
    requires Split(documents[d2]) == [dog, bird]
    requires Split(documents[d3]) == [cat, bird]
    requires m == map[cat := {d1, d3}, dog := {d1, d2}, bird := {d2, d3}]
    ensures Complete(m, documents, documents.Keys)
  {
    forall w, d | d in documents && w in Split(documents[d])
      ensures w in m && d in m[w]
    {
      if d == d1 {
        assert w == cat || w == dog;
      } else if d == d2 {
        assert w == dog || w == bird;
      } else {
        assert w == cat || w == bird;
      }
    }
  }

  /** On that index, an AND-query answers the documents holding every word:
      each pair of words shares exactly one document, and one word has two. */
  lemma ThreeDocumentsQueries(cat: Term, dog: Term, bird: Term, d1: DocId, d2: DocId, d3: DocId, m: Mapping)
    requires cat != dog && dog != bird && cat != bird
    requires d1 != d2 && d2 != d3 && d1 != d3
    requires m == map[cat := {d1, d3}, dog := {d1, d2}, bird := {d2, d3}]
    ensures Query(InvertedIndex(m), [cat, dog]) == {d1}
    ensures Query(InvertedIndex(m), [dog, bird]) == {d2}
    ensures Query(InvertedIndex(m), [cat, bird]) == {d3}
    ensures Query(InvertedIndex(m), [cat]) == {d1, d3}
  {
    QueryOfTwo(m, cat, dog);
    QueryOfTwo(m, dog, bird);
    QueryOfTwo(m, cat, bird);
    assert {d1, d3} * {d1, d2} == {d1};
    assert {d1, d2} * {d2, d3} == {d2};
    assert {d1, d3} * {d2, d3} == {d3};
    QueryPairIsIntersection(InvertedIndex(m), cat, cat);
    QueryOfTwo(m, cat, cat);
  }

  /** A two-word query on indexed words is the intersection of their posting sets. */
  lemma QueryOfTwo(m: Mapping, a: Term, b: Term)
    requires a in m && b in m
    ensures Query(InvertedIndex(m), [a, b]) == m[a] * m[b]
  {
    var q := Query(InvertedIndex(m), [a, b]);
    forall d
      ensures d in q <==> d in m[a] * m[b]
    {
      assert Matches(m, [a, b], d) <==> d in m[a] && d in m[b] by {
        assert [a, b][0] == a && [a, b][1] == b;
      }
    }
  }

  /** A document of two space-separated words has exactly those two tokens. */
  lemma SplitOfTwo(a: string, b: string)
    requires IsToken(a) && IsToken(b)
    ensures Split(a + " " + b) == [a, b]
  {
    SplitJoinSpaces([a, b]);
    assert JoinSpaces([a, b]) == a + " " + JoinSpaces([b]);
  }

}
