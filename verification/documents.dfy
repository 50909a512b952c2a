/**
 The per-line rule of `load_documents` in `HW_1/inverted_index.py`, and the
 fold of that rule over the lines of a document file.
 */
module Documents {
  import opened Wrappers
  import opened Strings
  import opened Index

  /** What one line of the document file contributes. */
  datatype Line =
    | Blank                                  // empty once trailing newlines are gone: skipped
    | Record(id: DocId, content: string)     // split at the first tab
    | NoTab                                  // `doc_id, content = line.split("\t", 1)` raises

  /** The `ValueError` raised by unpacking a line that has no tab. */
  datatype LoadError = NotEnoughValuesToUnpack

  /** One line of `load_documents`: strip trailing newlines, skip an empty
      line, otherwise split at the first tab only, so the content keeps any
      later tabs. */
  function ParseLine(line: string): (r: Line)
    ensures r.Blank? <==> RStripNewlines(line) == []
    ensures r.NoTab? <==> RStripNewlines(line) != [] && '\t' !in RStripNewlines(line)
    ensures r.Record? ==> '\t' !in r.id && RStripNewlines(line) == r.id + "\t" + r.content
  {
    var stripped := RStripNewlines(line);
    if stripped == [] then Blank
    else
      match FindChar(stripped, '\t')
      case None => NoTab
      case Some(i) =>
        assert stripped == stripped[..i] + "\t" + stripped[i + 1..];
        Record(stripped[..i], stripped[i + 1..])
  }

  /** A record written as `id <tab> content <newline>` parses back to the
      same id and content, even when the content holds tabs. */
  lemma ParseWrittenLine(id: DocId, content: string)
    requires '\t' !in id
    requires content == [] || content[|content| - 1] != '\n'
    ensures ParseLine(id + "\t" + content + "\n") == Record(id, content)
  {
    var line := id + "\t" + content + "\n";
    var body := id + "\t" + content;
    assert line[..|line| - 1] == body;
    assert RStripNewlines(body) == body;
    assert body[|id|] == '\t' && body[..|id|] == id;
    assert FindChar(body, '\t') == Some(|id|);
    assert body[|id| + 1..] == content;
  }

  /** One iteration of the loop of `load_documents`, on an already parsed line. */
  function Step(loaded: Result<map<DocId, string>, LoadError>, line: Line): Result<map<DocId, string>, LoadError>
  {
    match loaded
    case Failure(e) => Failure(e)
    case Success(documents) =>
      match line
      case Blank => Success(documents)
      case Record(id, content) => Success(documents[id := content])
      case NoTab => Failure(NotEnoughValuesToUnpack)
  }

  /** The loop of `load_documents` over the parsed lines, in file order. */
  function LoadParsed(parsed: seq<Line>): Result<map<DocId, string>, LoadError>
    decreases |parsed|
  {
    if |parsed| == 0 then Success(map[])
    else Step(LoadParsed(parsed[..|parsed| - 1]), parsed[|parsed| - 1])
  }

  /** Each line of a file, parsed. */
  function ParseLines(lines: seq<string>): (parsed: seq<Line>)
    ensures |parsed| == |lines|
    ensures forall i :: 0 <= i < |lines| ==> parsed[i] == ParseLine(lines[i])
  {
    seq(|lines|, i requires 0 <= i < |lines| => ParseLine(lines[i]))
  }

  /** `load_documents` on the lines of a file. */
  function LoadDocuments(lines: seq<string>): Result<map<DocId, string>, LoadError>
  {
    LoadParsed(ParseLines(lines))
  }

  /** Parsed line `i` is a record for id `d`. */
  ghost predicate RecordFor(parsed: seq<Line>, i: int, d: DocId)
  {
    0 <= i < |parsed| && parsed[i].Record? && parsed[i].id == d
  }

  /** Parsed line `i` had no tab. */
  ghost predicate Malformed(parsed: seq<Line>, i: int)
  {
    0 <= i < |parsed| && parsed[i].NoTab?
  }

  /** Loading fails exactly when some line is non-empty and has no tab. */
  lemma {:induction false} LoadFailsOnMissingTab(parsed: seq<Line>)
    ensures LoadParsed(parsed).Failure? <==> exists i :: Malformed(parsed, i)
    decreases |parsed|
  {
    if |parsed| > 0 {
      var last := |parsed| - 1;
      var init := parsed[..last];
      LoadFailsOnMissingTab(init);
      assert forall i :: Malformed(init, i) <==> Malformed(parsed, i) && i < last;
      if LoadParsed(init).Failure? {
        var i :| Malformed(init, i);
        assert Malformed(parsed, i);
      } else if Malformed(parsed, last) {
      } else {
        assert LoadParsed(parsed).Success?;
      }
    }
  }

  /** After a successful load the ids are exactly those of the record lines. */
  lemma {:induction false} LoadKeepsRecordIds(parsed: seq<Line>, d: DocId)
    requires LoadParsed(parsed).Success?
    ensures d in LoadParsed(parsed).value <==> exists i :: RecordFor(parsed, i, d)
    decreases |parsed|
  {
    if |parsed| > 0 {
      var last := |parsed| - 1;
      var init := parsed[..last];
      var before := LoadParsed(init);
      assert before.Success?;
      LoadKeepsRecordIds(init, d);
      assert forall i :: RecordFor(init, i, d) <==> RecordFor(parsed, i, d) && i < last;
      if RecordFor(parsed, last, d) {
      } else {
        assert d in LoadParsed(parsed).value <==> d in before.value;
      }
    }
  }

  /** After a successful load each id holds the content of its last record:
      a later line with the same id overwrites an earlier one. */
  lemma {:induction false} LoadKeepsLastRecord(parsed: seq<Line>, d: DocId, i: int)
    requires LoadParsed(parsed).Success?
    requires RecordFor(parsed, i, d)
    requires forall j :: i < j < |parsed| ==> !RecordFor(parsed, j, d)
    ensures d in LoadParsed(parsed).value
    ensures LoadParsed(parsed).value[d] == parsed[i].content
    decreases |parsed|
  {
    var last := |parsed| - 1;
    var init := parsed[..last];
    var before := LoadParsed(init);
    assert before.Success?;
    if i < last {
      assert RecordFor(init, i, d);
      assert forall j :: RecordFor(init, j, d) ==> RecordFor(parsed, j, d);
      LoadKeepsLastRecord(init, d, i);
      assert !RecordFor(parsed, last, d);
    }
  }

  /** After `rstrip("\n")`, `line` reads `id <tab> content` with no tab in `id`. */
  ghost predicate RecordLine(line: string, id: DocId, content: string)
  {
    '\t' !in id && RStripNewlines(line) == id + "\t" + content
  }

  /** The first tab of a line fixes where the id ends. */
  lemma FirstTabUnique(id1: DocId, c1: string, id2: DocId, c2: string)
    requires '\t' !in id1 && '\t' !in id2
    requires id1 + "\t" + c1 == id2 + "\t" + c2
    ensures id1 == id2 && c1 == c2
  {
    var s := id1 + "\t" + c1;
    assert forall k :: 0 <= k < |id1| ==> s[k] == id1[k];
    assert forall k :: 0 <= k < |id2| ==> s[k] == id2[k];
    assert s[|id1|] == '\t' && s[|id2|] == '\t';
    assert |id1| == |id2|;
    assert id1 == s[..|id1|] == id2;
    assert c1 == s[|id1| + 1..] == c2;
  }

  /** A line parses as a record exactly when it reads `id <tab> content`. */
  lemma ParseLineRecord(line: string, id: DocId, content: string)
    ensures ParseLine(line) == Record(id, content) <==> RecordLine(line, id, content)
  {
    var r := ParseLine(line);
    if RecordLine(line, id, content) {
      var stripped := RStripNewlines(line);
      assert stripped[|id|] == '\t';
      assert r.Record?;
      FirstTabUnique(r.id, r.content, id, content);
    }
  }

  /** Loading the lines of a file fails exactly when some line is non-empty
      after `rstrip("\n")` and holds no tab. */
  lemma DocumentsFailOnMissingTab(lines: seq<string>)
    ensures LoadDocuments(lines).Failure? <==>
              exists i :: 0 <= i < |lines| && RStripNewlines(lines[i]) != [] && '\t' !in RStripNewlines(lines[i])
  {
    var parsed := ParseLines(lines);
    LoadFailsOnMissingTab(parsed);
    assert forall i :: Malformed(parsed, i) <==>
      0 <= i < |lines| && RStripNewlines(lines[i]) != [] && '\t' !in RStripNewlines(lines[i]);
  }

  /** After a successful load, `d` is an id exactly when some line reads
      `d <tab> content`. */
  lemma DocumentsKeepRecordIds(lines: seq<string>, d: DocId)
    requires LoadDocuments(lines).Success?
    ensures d in LoadDocuments(lines).value <==>
              exists i, content :: 0 <= i < |lines| && RecordLine(lines[i], d, content)
  {
    var parsed := ParseLines(lines);
    LoadKeepsRecordIds(parsed, d);
    if d in LoadDocuments(lines).value {
      var i :| RecordFor(parsed, i, d);
      ParseLineRecord(lines[i], d, parsed[i].content);
    }
    if exists i, content :: 0 <= i < |lines| && RecordLine(lines[i], d, content) {
      var i, content :| 0 <= i < |lines| && RecordLine(lines[i], d, content);
      ParseLineRecord(lines[i], d, content);
      assert RecordFor(parsed, i, d);
    }
  }

  /** After a successful load, `d` holds the content of the last line that
      reads `d <tab> content`. */
  lemma DocumentsKeepLastRecord(lines: seq<string>, d: DocId, i: int, content: string)
    requires 0 <= i < |lines| && RecordLine(lines[i], d, content)
    requires forall j, c :: i < j < |lines| ==> !RecordLine(lines[j], d, c)
    ensures LoadDocuments(lines).Success? ==>
              d in LoadDocuments(lines).value && LoadDocuments(lines).value[d] == content
  {
    if LoadDocuments(lines).Failure? {
      return;
    }
    var parsed := ParseLines(lines);
    ParseLineRecord(lines[i], d, content);
    assert RecordFor(parsed, i, d) && parsed[i].content == content;
    NoLaterRecord(lines, d, i);
    LoadKeepsLastRecord(parsed, d, i);
  }

  /** No parsed line after `i` is a record for `d` when no raw line after
      `i` reads `d <tab> content`. */
  lemma NoLaterRecord(lines: seq<string>, d: DocId, i: nat)
    requires forall j, c :: i < j < |lines| ==> !RecordLine(lines[j], d, c)
    ensures forall j :: i < j < |lines| ==> !RecordFor(ParseLines(lines), j, d)
  {
    var parsed := ParseLines(lines);
    forall j | i < j < |lines|
      ensures !RecordFor(parsed, j, d)
    {
      var r := ParseLine(lines[j]);
      assert parsed[j] == r;
      if r.Record? {
        assert !RecordLine(lines[j], d, r.content);
      }
    }
  }

}
