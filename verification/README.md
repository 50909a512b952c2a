# Inverted index and word-score top-N, modelled in Dafny

This project models the two algorithmic cores of a pair of Python course
assignments. The Python code itself is not part of this project.

1. **The inverted index** (`HW_1/inverted_index.py`). It covers:
   - loading documents from `id<TAB>content` lines;
   - tokenizing content with `str.split()`;
   - building the map from each term to the set of ids of the documents that contain it;
   - the constructor that turns any word → collection map into word → set;
   - the set → list conversion that both storage policies (pickle and JSON) perform before serialising;
   - the AND-query;
   - the batch query loop, which tokenizes each query line with the same `split()` and prints the ids joined by commas.
2. **Score aggregation and top-N selection** (`HW_2/main.py`). It covers:
   - scoring each non-stop title word of a question post with the post's score;
   - the sum-merge of word → score dicts, per creation year and across a range of years;
   - `get_top_n`, which repeatedly takes the largest value, breaks ties by the smallest key and deletes that key.

Files (one module each):

| file | module | what |
|---|---|---|
| `wrappers.dfy` | `Wrappers` | `Option`, `Result` |
| `strings.dfy` | `Strings` | `split()`, `" ".join`, `rstrip("\n")`, `split(",")`/`",".join`, Python string order |
| `index.dfy` | `Index` | `InvertedIndex`, constructor, `query`, `build_inverted_index` |
| `storage.dfy` | `Storage` | pickle / JSON policies, set → list dump, load |
| `documents.dfy` | `Documents` | the per-line rule of `load_documents` and its fold over lines |
| `queries.dfy` | `QueryEngine` | the query loop of `process_query_arguments` |
| `scores.dfy` | `Scores` | `get_count_values_words`, dict sum-merge, per-year and year-range folds |
| `topn.dfy` | `TopN` | `get_top_n` |

Modelling choices:
- Document ids and terms are strings, because `load_documents` produces string ids.
- Python's integers are unbounded, as Dafny's `int` is, so no wrap-around arises.
- Python iterates a set in an unspecified order and a dict in insertion order. The methods that iterate (`Build`, `ToList`, `DumpForm`, `MaxValue`, `SmallestKey`) pick the next element with `:|`. This covers every order, insertion order included, so their contracts hold whatever order the documents or words arrived in.
- `InvertedIndex.query` never modifies the mapping. In the model this holds by construction, because the index is an immutable value.
- The whitespace set of `split()` is Python's `str.isspace` set, written out in `Strings.IsSpace`.
- Python orders strings by comparing code points; this is `Strings.StrLess`.

Points of the code the model follows closely:
- Both storage policies write the word → list form: `pickle` for `PickleStoragePolicy` (`HW_1/inverted_index.py:89-93`) and `json` for `JsonStoragePolicy` (`:102-109`). Each serialiser is modelled as the identity on that form.
- A non-empty line without a tab raises `ValueError` while unpacking `line.split("\t", 1)` (`HW_1/inverted_index.py:131`). The model returns `Failure(NotEnoughValuesToUnpack)` (`Documents.LoadFailsOnMissingTab`, `Documents.DocumentsFailOnMissingTab`).
- The constructor accepts any mapping, including words with empty lists (`HW_1/inverted_index.py:48-51`). Only `Index.Build` guarantees non-empty postings.
- `max()` of an empty dict raises `ValueError` (`HW_2/main.py:71`), so `get_top_n` fails when `top_n` exceeds the number of keys. `TopN.GetTopNOrError` returns `Failure(MaxOfEmpty)` exactly then.

## Model

| member | source | states |
|---|---|---|
| `Strings.Split` | HW_1/inverted_index.py:142 | every term `split()` yields is non-empty and free of whitespace |
| `Strings.SplitJoinSpaces` | HW_1/inverted_index.py:142 | `split()` of a single-space join of valid terms gives back exactly those terms, in order |
| `Strings.SplitIsStable` | HW_1/inverted_index.py:142 | splitting, re-joining and splitting again yields the same terms |
| `Strings.SplitIgnoresTrailingSpace` | HW_1/inverted_index.py:208 | a trailing whitespace character never changes the terms |
| `Strings.RStripNewlines` | HW_1/inverted_index.py:129 | `rstrip("\n")` keeps a prefix, removes only newlines, and leaves no trailing newline |
| `Strings.SplitAfterRStrip` | HW_1/inverted_index.py:208 | on a query line, `rstrip("\n")` before `split()` changes no term |
| `Strings.SplitOnJoinWith` | HW_1/inverted_index.py:210 | `split(",")` undoes `",".join` of parts that contain no comma |
| `Strings.StrLessIrreflexive` | HW_2/main.py:73 | no string sorts before itself |
| `Strings.StrLessTransitive` | HW_2/main.py:73 | Python's string order is transitive |
| `Strings.StrLessTotal` | HW_2/main.py:73 | of two distinct strings, one sorts before the other |
| `Index.New` | HW_1/inverted_index.py:46-51 | the constructor keeps exactly the given words and maps each one to the set of its listed ids |
| `Index.Query` | HW_1/inverted_index.py:53-66 | `d` is answered iff the query is non-empty and every word is indexed with `d`; an empty query or an absent word gives the empty set |
| `Index.QueryWithinPostings` | HW_1/inverted_index.py:57-66 | the answer lies inside the posting set of each queried word |
| `Index.QueryIgnoresOrderAndRepeats` | HW_1/inverted_index.py:57-66 | two non-empty queries with the same set of words (reordered or repeated) get the same answer |
| `Index.QueryPairIsIntersection` | HW_1/inverted_index.py:57-66 | `query([a, b])` is `query([a])` ∩ `query([b])`, and `query([a, a])` is `query([a])` |
| `Index.Build` | HW_1/inverted_index.py:136-145 | `d` is in the posting set of `w` iff `w` is a whitespace token of document `d`; every posting set is non-empty; zero documents give the empty mapping |
| `Index.IndexIsUnique` | HW_1/inverted_index.py:141-145 | the build contract admits exactly one mapping, so the document order cannot matter |
| `Index.QueryOfBuiltIndex` | HW_1/inverted_index.py:136-145 | on a built index, `d` is answered iff the query is non-empty and every query word is a token of document `d` |
| `Index.EmptyCorpusAnswersNothing` | HW_1/inverted_index.py:138-139 | the index of no documents is empty and answers every query with the empty set |
| `Index.SplitOfTwo` | HW_1/inverted_index.py:142 | a content of two valid words separated by one space tokenizes to exactly those two words |
| `Index.ThreeDocumentsIndex` | HW_1/inverted_index.py:136-145 | three documents of two words each, every word shared by two documents, index to the map sending each word to exactly its two documents |
| `Index.QueryOfTwo` | HW_1/inverted_index.py:57-66 | a two-word query on indexed words answers the intersection of their posting sets |
| `Index.ThreeDocumentsQueries` | HW_1/inverted_index.py:53-66 | on that index, each of the three pairs of words is answered with the one document holding both, and a single word with its two documents |
| `Storage.ToList` | HW_1/inverted_index.py:92 | `list(doc_ids)` lists every id of the set exactly once |
| `Storage.DumpForm` | HW_1/inverted_index.py:89-93 | dumping keeps every word and writes each posting set as a duplicate-free list of exactly its ids |
| `Storage.LoadAfterDump` | HW_1/inverted_index.py:74-77 | loading any list form written by `dump` gives back the original word → set mapping |
| `Storage.DumpThenLoad` | HW_1/inverted_index.py:70-77 | with either policy, or with the default pickle policy, `load(dump(index))` equals the index |
| `Documents.ParseLine` | HW_1/inverted_index.py:129-132 | a line is skipped iff it is empty after `rstrip("\n")`; it raises iff it is non-empty and has no tab; otherwise the id is the text before the first tab and the content is the rest |
| `Documents.ParseWrittenLine` | HW_1/inverted_index.py:131 | `id<TAB>content<NL>` parses back to the same id and content when the id has no tab, even if the content has tabs |
| `Documents.LoadFailsOnMissingTab` | HW_1/inverted_index.py:128-132 | over parsed lines: loading fails iff some parsed line is a non-empty line without a tab |
| `Documents.LoadKeepsRecordIds` | HW_1/inverted_index.py:128-132 | over parsed lines: after a successful load, the ids are exactly the ids of the record lines |
| `Documents.LoadKeepsLastRecord` | HW_1/inverted_index.py:132 | over parsed lines: each id holds the content of its last record: a later record with the same id overwrites an earlier one |
| `Documents.ParseLineRecord` | HW_1/inverted_index.py:129-131 | a line parses as the record `(id, content)` iff after `rstrip("\n")` it reads `id<TAB>content` with no tab in `id` |
| `Documents.DocumentsFailOnMissingTab` | HW_1/inverted_index.py:128-132 | on raw file lines: `load_documents` fails iff some line is non-empty after `rstrip("\n")` and has no tab |
| `Documents.DocumentsKeepRecordIds` | HW_1/inverted_index.py:128-132 | on raw file lines: after a successful load, `d` is an id iff some line reads `d<TAB>content` |
| `Documents.DocumentsKeepLastRecord` | HW_1/inverted_index.py:131-132 | on raw file lines: if the load succeeds, `d` maps to the content of the last line that reads `d<TAB>content` |
| `QueryEngine.QueryWords` | HW_1/inverted_index.py:208 | the words of a query line are exactly the `split()` tokens, the same tokenizer as for documents |
| `QueryEngine.QueryWordsOfJoinedTerms` | HW_1/inverted_index.py:208 | a line of space-joined terms plus a newline is read as exactly those terms |
| `QueryEngine.FormatIds` | HW_1/inverted_index.py:210 | the printed line is the comma join of a duplicate-free listing of the answer; the empty answer prints as the empty line |
| `QueryEngine.AnswerReadsBack` | HW_1/inverted_index.py:210 | if no id is empty or contains a comma, splitting a printed line at commas gives back the answer set |
| `QueryEngine.AnswerQueries` | HW_1/inverted_index.py:204-211 | one printed line per query line, in input order, each a printing of the AND-query of that line's tokens |
| `Scores.CountValuesWords` | HW_2/main.py:57-62 | the keys are exactly the words that are not stop words, and every value is the post's score |
| `Scores.SumMerge` | HW_2/main.py:108-109 | the keys are the union of both inputs' keys, and each word gets `a.get(k,0) + b.get(k,0)` |
| `Scores.SumMergeCommutes` | HW_2/main.py:115-116 | the merge does not depend on the order of its arguments |
| `Scores.SumMergeAssociates` | HW_2/main.py:113-116 | the merge is associative, so a left fold over years is a plain sum |
| `Scores.SumMergeEmpty` | HW_2/main.py:115-116 | merging with the empty dict of a missing year changes nothing |
| `Scores.AccumulateSumsScores` | HW_2/main.py:96-109 | after the posts loop, a word's count in a year is the total score of that year's question posts whose title has the word, stop words excluded |
| `Scores.AccumulateKeys` | HW_2/main.py:96-109 | a word is a key of a year iff some question post of that year has it in its title and it is not a stop word |
| `Scores.RangeMergeSumsYears` | HW_2/main.py:112-116 | a request's count of a word is the sum over the years `init..final` (missing years count 0); when `final < init` only year `init` counts |
| `Scores.RangeMergeKeys` | HW_2/main.py:113-116 | a request's keys are the words of any year in its range |
| `TopN.MaxValue` | HW_2/main.py:71 | the result is a value of the dict and no value exceeds it |
| `TopN.SmallestKey` | HW_2/main.py:72-75 | the result is a candidate key and sorts before every other candidate |
| `TopN.SelectBest` | HW_2/main.py:71-75 | one round picks a key of largest value, and the smallest such key |
| `TopN.SelectStep` | HW_2/main.py:71-76 | appending that pair and deleting its key keeps the selection invariant |
| `TopN.Round` | HW_2/main.py:71-76 | one round adds one pair and removes one key |
| `TopN.GetTopNOrError` | HW_2/main.py:65-77 | `get_top_n` raises (from `max` of an empty dict) iff `top_n` exceeds the number of keys; otherwise it answers `max(top_n, 0)` pairs selected by largest value, then smallest key |
| `TopN.GetTopN` | HW_2/main.py:65-77 | exactly `top_n` pairs (none for negative `top_n`); each pair is an original key with its original value; keys are distinct; values never increase and are at least every remaining value; equal values come out in ascending key order, before any remaining key with that value; exactly the returned keys are deleted and all other entries are unchanged |

## Left out

- Argument parsing, `main`, `setup_parser`, logging set-up and the default paths (`HW_1/inverted_index.py:148-246`, `HW_2/main.py:20-43, 81-90`). These are command-line glue.
- Opening, reading and writing files, the `pickle` and `json` calls, and `codecs` cp1251 decoding. These are foreign library I/O. Each serialiser is the identity on the word → list form. Failures to read or write a file are not modelled.
- Loading with a policy other than the one that dumped. What `pickle.load` or `json.load` then does depends on the libraries, so it is not modelled.
- `StoragePolicy` and `StructStoragePolicy`. They are empty stubs with no behaviour.
- Splitting a file into lines (`for line in fin`, `readlines()`). The model starts from the sequence of lines.
- `print` of each query answer and of each request's result dict. The model returns the printed lines instead.
- `str(doc_id)` is the identity, because ids are already strings.
- XML parsing with `xmltodict`, year extraction with `datetime.strptime`, and the lower-cased Unicode `\w+` title tokenizer (`HW_2/main.py:97-106`). These are foreign libraries and Unicode character classes. A post is given as its type id, year, set of title words and score.
- `read_queries`, `read_stop_words` and the CSV reader. These are I/O.
- The request loop's final call of `get_top_n` and the print of `{'start', 'end', 'top'}` (`HW_2/main.py:119-121`). These only compose `RangeMerge` and `GetTopN`.
- Empty dict entries that reading `cons_dict[i]` creates for a missing year. They are not observable in any result. `YearCounts` reads a missing year as empty instead.
- TopN.GetTopN: requires `top_n` to be at most the number of keys. A larger `top_n` makes `max()` of the emptied dict raise `ValueError` (`HW_2/main.py:71`). That error path is modelled by `TopN.GetTopNOrError` instead, which returns `Failure(MaxOfEmpty)` exactly then. Neither member models the keys already deleted from the caller's dict when the exception is raised.
