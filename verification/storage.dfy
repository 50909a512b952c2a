/**
 The storage policies of `HW_1/inverted_index.py`. Both the pickle and the
 JSON policy write the mapping in its list form, each posting set turned into
 a list by `list(doc_ids)`, and load that list form back unchanged; the
 constructor then turns every list into a set again.
 */
module Storage {
  import opened Wrappers
  import opened Index

  /** `PickleStoragePolicy` and `JsonStoragePolicy`. */
  datatype Policy = Pickle | Json

  /** `storage_policy or PickleStoragePolicy()`: pickle unless one is given. */
  function Chosen(policy: Option<Policy>): Policy
  {
    match policy
    case None => Pickle
    case Some(p) => p
  }

  /** The word -> list form both policies serialise. */
  type Stored = map<Term, seq<DocId>>

  /** `xs` lists every element of `s` once. Python's set iteration order is
      not specified, so any such list is a possible `list(s)`. */
  ghost predicate Lists(xs: seq<DocId>, s: set<DocId>)
  {
    && (forall i, j :: 0 <= i < j < |xs| ==> xs[i] != xs[j])
    && (forall d :: d in xs <==> d in s)
  }

  /** `list(doc_ids)` for one posting set, in an arbitrary order. */
  method ToList(s: set<DocId>) returns (xs: seq<DocId>)
    ensures Lists(xs, s)
    ensures |xs| == |s|
  {
    xs := [];
    var left := s;
    while left != {}
      invariant left <= s
      invariant forall i, j :: 0 <= i < j < |xs| ==> xs[i] != xs[j]
      invariant forall d :: d in xs <==> d in s - left
      invariant |xs| + |left| == |s|
      decreases left
    {
      var d :| d in left;
      assert d !in xs;
      xs := xs + [d];
      left := left - {d};
    }
  }

  /** `{word: list(doc_ids) for word, doc_ids in ...}` in `dump`. */
  method DumpForm(m: Mapping) returns (form: Stored)
    ensures form.Keys == m.Keys
    ensures forall w :: w in form ==> Lists(form[w], m[w])
  {
    form := map[];
    var left := m.Keys;
    while left != {}
      invariant left <= m.Keys
      invariant form.Keys == m.Keys - left
      invariant forall w :: w in form ==> Lists(form[w], m[w])
      decreases left
    {
      var w :| w in left;
      var xs := ToList(m[w]);
      form := form[w := xs];
      left := left - {w};
    }
  }

  /** `InvertedIndex.load`: the policy reads the list form back and the
      constructor turns each list into a set. */
  function Load(form: Stored): InvertedIndex
  {
    New(map w | w in form :: ListOf(form[w]))
  }

  /** Loading what `dump` wrote gives back the mapping, word for word and
      id for id, whatever order the lists were written in. */
  lemma LoadAfterDump(m: Mapping, form: Stored)
    requires form.Keys == m.Keys
    requires forall w :: w in form ==> Lists(form[w], m[w])
    ensures Load(form).wordToDocs == m
  {
    var r := Load(form).wordToDocs;
    forall w | w in m
      ensures r[w] == m[w]
    {
      assert forall d :: d in r[w] <==> d in form[w];
    }
  }

  /** `dump` followed by `load` with the same policy, either policy: the
      loaded index equals the dumped one. */
  method DumpThenLoad(idx: InvertedIndex, policy: Option<Policy>) returns (loaded: InvertedIndex, used: Policy)
    ensures loaded == idx
    ensures used == (if policy.Some? then policy.value else Pickle)
  {
    used := Chosen(policy);
    var form := DumpForm(idx.wordToDocs);
    LoadAfterDump(idx.wordToDocs, form);
    loaded := Load(form);
  }

}
