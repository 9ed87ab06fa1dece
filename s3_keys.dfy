/**
 * `get_canonical_corpus_id` (evaluation/services/evaluation.py): a document
 * id without its one trailing ".txt".
 */
module CorpusId {
  import opened TextUtil

  function CanonicalCorpusId(documentId: string): (r: string)
    ensures EndsWith(documentId, ".txt") ==> r + ".txt" == documentId
    ensures !EndsWith(documentId, ".txt") ==> r == documentId
  {
    if EndsWith(documentId, ".txt") then
      var r := documentId[..|documentId| - 4];
      assert r + ".txt" == documentId;
      r
    else documentId
  }

  /** The examples of the doc comment. */
  lemma DocExamples()
    ensures CanonicalCorpusId("my_doc") == "my_doc"
    ensures CanonicalCorpusId("my_doc.txt") == "my_doc"
  {
    assert !EndsWith("my_doc", ".txt") by { assert "my_doc"[2..] != ".txt"; }
    assert "my_doc.txt"[6..] == ".txt";
  }

  /** The id is a prefix of the input, either all of it or all but four characters. */
  lemma CanonicalIsPrefix(documentId: string)
    ensures StartsWith(documentId, CanonicalCorpusId(documentId))
    ensures |CanonicalCorpusId(documentId)| == |documentId|
         || |CanonicalCorpusId(documentId)| + 4 == |documentId|
  {
  }

  /** The id is unchanged exactly when the input does not end in ".txt". */
  lemma CanonicalFixedPoints(documentId: string)
    ensures CanonicalCorpusId(documentId) == documentId <==> !EndsWith(documentId, ".txt")
  {
  }

  /** Only one suffix is removed, so the function is not idempotent. */
  lemma NotIdempotent()
    ensures CanonicalCorpusId("a.txt.txt") == "a.txt"
    ensures CanonicalCorpusId(CanonicalCorpusId("a.txt.txt")) == "a"
  {
    assert "a.txt.txt"[5..] == ".txt";
    assert "a.txt.txt"[..5] == "a.txt";
    assert "a.txt"[1..] == ".txt";
  }
}

/**
 * The S3 key builders of the evaluation service
 * (evaluation/services/s3_utils.py).
 */
module S3Keys {
  import opened TextUtil
  import CorpusId

  function DocumentKey(documentId: string): (r: string)
    ensures r == "documents/" + CorpusId.CanonicalCorpusId(documentId) + ".txt"
  {
    var id := if EndsWith(documentId, ".txt") then documentId[..|documentId| - 4] else documentId;
    "documents/" + id + ".txt"
  }

  function QueriesKey(documentId: string): (r: string)
    ensures r == "queries/" + CorpusId.CanonicalCorpusId(documentId) + "/llm_queries_"
                 + CorpusId.CanonicalCorpusId(documentId) + ".csv"
  {
    var id := if EndsWith(documentId, ".txt") then documentId[..|documentId| - 4] else documentId;
    "queries/" + id + "/llm_queries_" + id + ".csv"
  }

  /** An id without the extension and the same id with it name the same objects. */
  lemma ExtensionIrrelevant(documentId: string)
    requires !EndsWith(documentId, ".txt")
    ensures DocumentKey(documentId + ".txt") == DocumentKey(documentId)
    ensures QueriesKey(documentId + ".txt") == QueriesKey(documentId)
  {
    var withExt := documentId + ".txt";
    assert withExt[|withExt| - 4..] == ".txt";
    assert withExt[..|withExt| - 4] == documentId;
  }

  /** Only one ".txt" is removed: "a.txt.txt" keeps the inner one. */
  lemma OneSuffixOnly()
    ensures DocumentKey("a.txt.txt") == "documents/a.txt.txt"
  {
    CorpusId.NotIdempotent();
  }
}

/**
 * The older copies of the key builders (evaluation/s3_utils.py), written
 * here branch by branch.
 */
module LegacyS3Keys {
  import opened TextUtil
  import S3Keys

  function DocumentKey(documentId: string): string
  {
    if EndsWith(documentId, ".txt") then "documents/" + documentId[..|documentId| - 4] + ".txt"
    else "documents/" + documentId + ".txt"
  }

  function QueriesKey(documentId: string): string
  {
    if EndsWith(documentId, ".txt") then
      var id := documentId[..|documentId| - 4];
      "queries/" + id + "/llm_queries_" + id + ".csv"
    else "queries/" + documentId + "/llm_queries_" + documentId + ".csv"
  }

  /** Both copies agree on every input. */
  lemma CopiesAgree(documentId: string)
    ensures DocumentKey(documentId) == S3Keys.DocumentKey(documentId)
    ensures QueriesKey(documentId) == S3Keys.QueriesKey(documentId)
  {
  }

  /** Adding ".txt" to an id without it changes neither key. */
  lemma ExtensionIrrelevant(documentId: string)
    requires !EndsWith(documentId, ".txt")
    ensures DocumentKey(documentId + ".txt") == DocumentKey(documentId)
    ensures QueriesKey(documentId + ".txt") == QueriesKey(documentId)
  {
    CopiesAgree(documentId);
    CopiesAgree(documentId + ".txt");
    S3Keys.ExtensionIrrelevant(documentId);
  }
}
