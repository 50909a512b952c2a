/**
 The query loop of `process_query_arguments` in `HW_1/inverted_index.py`:
 each query line is tokenized with the same `split()` as document content,
 answered by `InvertedIndex.query`, and printed as comma-joined ids.
 */
module QueryEngine {
  import opened Strings
  import opened Index
  import opened Storage

  /** `query_line.rstrip("\n").split()`. */
  function QueryWords(line: string): (words: seq<Term>)
    ensures words == Split(line)
  {
    SplitAfterRStrip(line);
    Split(RStripNewlines(line))
  }

  /** A query line built by joining terms with spaces is read back as those
      terms: queries and documents share one tokenizer. */
  lemma QueryWordsOfJoinedTerms(words: seq<Term>)
    requires forall i :: 0 <= i < |words| ==> IsToken(words[i])
    ensures QueryWords(JoinSpaces(words) + "\n") == words
  {
    var line := JoinSpaces(words) + "\n";
    assert line == JoinSpaces(words) + ['\n'];
    SplitIgnoresTrailingSpace(JoinSpaces(words), '\n');
    SplitJoinSpaces(words);
  }

  /** `','.join([str(doc_id) for doc_id in document_ids])`, the ids in the
      arbitrary order in which the set is iterated. */
  method FormatIds(ids: set<DocId>) returns (line: string, order: seq<DocId>)
    ensures Lists(order, ids)
    ensures line == JoinWith(',', order)
    ensures ids == {} ==> line == ""
  {
    order := ToList(ids);
    line := JoinWith(',', order);
  }

  /** `line` is a possible printed answer for `ids`. */
  ghost predicate PrintsAs(line: string, ids: set<DocId>)
  {
    exists order :: Lists(order, ids) && line == JoinWith(',', order)
  }

  /** Reading a printed line back: the empty line is the empty set,
      otherwise the comma-separated fields. */
  function ParseAnswer(line: string): set<DocId>
  {
    if line == "" then {} else set d | d in SplitOn(line, ',')
  }

  /** A printed answer is read back as the same set of ids when no id is
      empty or holds a comma. */
  lemma AnswerReadsBack(line: string, ids: set<DocId>)
    requires PrintsAs(line, ids)
    requires forall d :: d in ids ==> d != "" && ',' !in d
    ensures ParseAnswer(line) == ids
  {
    var order :| Lists(order, ids) && line == JoinWith(',', order);
    if |order| == 0 {
      assert ids == {};
    } else {
      assert order[0] in ids;
      assert line != "" by {
        assert |JoinWith(',', order)| >= |order[0]| by {
          if |order| > 1 {
            assert JoinWith(',', order) == order[0] + ([','] + JoinWith(',', order[1..]));
          }
        }
      }
      SplitOnJoinWith(',', order);
    }
  }

  /** The batch query: one printed line per query line, in the same order,
      each an answer for the AND-query of that line's words. */
  method AnswerQueries(idx: InvertedIndex, lines: seq<string>) returns (out: seq<string>)
    ensures |out| == |lines|
    ensures forall i :: 0 <= i < |lines| ==> PrintsAs(out[i], Query(idx, Split(lines[i])))
  {
    out := [];
    var k := 0;
    while k < |lines|
      invariant k <= |lines| && |out| == k
      invariant forall i :: 0 <= i < k ==> PrintsAs(out[i], Query(idx, Split(lines[i])))
    {
      var ids := Query(idx, QueryWords(lines[k]));
      var line, order := FormatIds(ids);
      assert PrintsAs(line, ids);
      out := out + [line];
      k := k + 1;
    }
  }

}
