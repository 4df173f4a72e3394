/**
 * Merging: `merge_docx_files` (src/main.rs). The text of every document is
 * extracted in order; each is followed by a blank line (two newlines); the
 * first document that fails ends the merge with its error; the whole is
 * trimmed.
 */
module Merging {
  import opened Strings
  import opened Extraction

  /** What follows every document's text. */
  const Separator: string := "\n\n"

  /** Extraction of one document with the merge's options. */
  function Extractor(strip: bool, unescape: string -> Result<string>): (r: DocumentPart -> Result<string>)
    ensures forall d: DocumentPart :: r(d).Success? ==> Trimmed(r(d).value)
    ensures forall d: DocumentPart :: d.Failure? ==> r(d) == Failure(d.error)
  {
    d => Extract(d, strip, unescape)
  }

  /** What `merge_docx_files` returns for the documents `docs` (one per path, in order). */
  function Merged(docs: seq<DocumentPart>, strip: bool, unescape: string -> Result<string>): (r: Result<string>)
    ensures r.Success? ==> Trimmed(r.value)
  {
    match Collect(docs, Extractor(strip, unescape))
    case Failure(e) => Failure(e)
    case Success(texts) => Success(Trim(JoinTerminated(texts, Separator)))
  }

  /** `merge_docx_files`: the loop over the paths, with `ExtractText` for each one. */
  method MergeDocuments(docs: seq<DocumentPart>, strip: bool, unescape: string -> Result<string>) returns (r: Result<string>)
    ensures r == Merged(docs, strip, unescape)
  {
    var merged := "";
    ghost var texts: seq<string> := [];
    ghost var f := Extractor(strip, unescape);
    for i := 0 to |docs|
      invariant Collect(docs[..i], f) == Success(texts)
      invariant merged == JoinTerminated(texts, Separator)
    {
      var text := ExtractText(docs[i], strip, unescape);
      assert f(docs[i]) == text;
      MergeStep(docs, i, f);
      if text.Failure? {
        return Failure(text.error);
      }
      JoinSnoc(texts, text.value, Separator);
      merged := merged + text.value;
      merged := merged + Separator;
      texts := texts + [text.value];
    }
    assert docs[..|docs|] == docs;
    r := Success(Trim(merged));
  }

  /** One document more: the collected texts grow by its text, or the merge stops with its error. */
  lemma MergeStep(docs: seq<DocumentPart>, i: int, f: DocumentPart -> Result<string>)
    requires 0 <= i < |docs| && Collect(docs[..i], f).Success?
    ensures f(docs[i]).Failure? ==> Collect(docs, f) == Failure(f(docs[i]).error)
    ensures f(docs[i]).Success? ==> Collect(docs[..i + 1], f) == Success(Collect(docs[..i], f).value + [f(docs[i]).value])
  {
    assert docs[..i + 1] == docs[..i] + [docs[i]];
    SnocCollect(docs[..i], docs[i], f);
    if f(docs[i]).Failure? {
      assert docs == docs[..i + 1] + docs[i + 1..];
      CollectPrefixFailure(docs[..i + 1], docs[i + 1..], f);
    }
  }

  lemma SeparatorIsWhitespace()
    ensures AllWhitespace(Separator)
  {
  }

  /** The merge fails exactly when some document fails. */
  lemma MergeFailsIffSomeFails(docs: seq<DocumentPart>, strip: bool, unescape: string -> Result<string>)
    ensures Merged(docs, strip, unescape).Failure? <==> exists k :: 0 <= k < |docs| && Extract(docs[k], strip, unescape).Failure?
  {
    CollectSucceeds(docs, Extractor(strip, unescape));
  }

  /** The first document that fails decides the merge's error; the documents after it are not looked at. */
  lemma MergeFailsFast(docs: seq<DocumentPart>, k: int, strip: bool, unescape: string -> Result<string>)
    requires 0 <= k < |docs| && Extract(docs[k], strip, unescape).Failure?
    requires forall j :: 0 <= j < k ==> Extract(docs[j], strip, unescape).Success?
    ensures Merged(docs, strip, unescape) == Failure(Extract(docs[k], strip, unescape).error)
  {
    var f := Extractor(strip, unescape);
    assert forall j :: 0 <= j <= k ==> f(docs[j]) == Extract(docs[j], strip, unescape);
    assert FirstFailure(docs, f, k);
    CollectFirstFailure(docs, f, k);
  }

  /** A successful merge is the trimmed join of the documents' texts, each of which extracted successfully. */
  lemma MergedTexts(docs: seq<DocumentPart>, strip: bool, unescape: string -> Result<string>) returns (texts: seq<string>)
    requires Merged(docs, strip, unescape).Success?
    ensures |texts| == |docs|
    ensures forall k :: 0 <= k < |docs| ==> Extract(docs[k], strip, unescape) == Success(texts[k])
    ensures Merged(docs, strip, unescape) == Success(Trim(JoinTerminated(texts, Separator)))
  {
    var f := Extractor(strip, unescape);
    CollectSucceeds(docs, f);
    texts := Collect(docs, f).value;
    forall k | 0 <= k < |docs|
      ensures Extract(docs[k], strip, unescape) == Success(texts[k])
    {
      assert f(docs[k]) == Success(texts[k]);
    }
  }

  /** A successful merge contains the text of every document. */
  lemma MergeContainsEach(docs: seq<DocumentPart>, k: int, strip: bool, unescape: string -> Result<string>)
    requires 0 <= k < |docs| && Merged(docs, strip, unescape).Success?
    ensures Extract(docs[k], strip, unescape).Success?
    ensures Contains(Merged(docs, strip, unescape).value, Extract(docs[k], strip, unescape).value)
  {
    var texts := MergedTexts(docs, strip, unescape);
    SeparatorIsWhitespace();
    PartSurvivesTrim(texts, k, Separator);
    TrimTrimmed(texts[k]);
  }

  /** In a successful merge, the texts of two neighbouring non-empty documents are separated by exactly a blank line. */
  lemma MergeSeparatesDocuments(docs: seq<DocumentPart>, k: int, strip: bool, unescape: string -> Result<string>)
    requires 0 <= k && k + 1 < |docs| && Merged(docs, strip, unescape).Success?
    requires Extract(docs[k], strip, unescape) != Success([]) && Extract(docs[k + 1], strip, unescape) != Success([])
    ensures Extract(docs[k], strip, unescape).Success? && Extract(docs[k + 1], strip, unescape).Success?
    ensures Contains(Merged(docs, strip, unescape).value,
                     Extract(docs[k], strip, unescape).value + Separator + Extract(docs[k + 1], strip, unescape).value)
  {
    var texts := MergedTexts(docs, strip, unescape);
    assert Extract(docs[k], strip, unescape) == Success(texts[k]);
    assert Extract(docs[k + 1], strip, unescape) == Success(texts[k + 1]);
    SeparatorIsWhitespace();
    AdjacentPartsSurviveTrim(texts, k, Separator);
  }

  /**
   * In a successful merge, the text of a non-empty document is followed by a
   * blank line whenever some later document is non-empty too, whatever
   * documents (empty ones included) lie between them. So a merge of two or
   * more non-empty documents contains a blank line.
   */
  lemma MergeSeparatesNonEmpty(docs: seq<DocumentPart>, i: int, j: int, strip: bool, unescape: string -> Result<string>)
    requires 0 <= i < j < |docs| && Merged(docs, strip, unescape).Success?
    requires Extract(docs[i], strip, unescape) != Success([]) && Extract(docs[j], strip, unescape) != Success([])
    ensures Extract(docs[i], strip, unescape).Success?
    ensures Contains(Merged(docs, strip, unescape).value, Extract(docs[i], strip, unescape).value + Separator)
    ensures Contains(Merged(docs, strip, unescape).value, Separator)
  {
    var texts := MergedTexts(docs, strip, unescape);
    assert Extract(docs[i], strip, unescape) == Success(texts[i]);
    assert Extract(docs[j], strip, unescape) == Success(texts[j]);
    SeparatorIsWhitespace();
    SeparatedPartSurvivesTrim(texts, i, j, Separator);
    ContainsSuffix(Merged(docs, strip, unescape).value, texts[i], Separator);
  }

  /** Merging one document gives exactly its text: the trailing blank line is trimmed away. */
  lemma MergeSingle(d: DocumentPart, strip: bool, unescape: string -> Result<string>)
    ensures Merged([d], strip, unescape) == Extract(d, strip, unescape)
  {
    var f := Extractor(strip, unescape);
    CollectOne(d, f);
    assert f(d) == Extract(d, strip, unescape);
    if f(d).Success? {
      SeparatorIsWhitespace();
      TrimJoinSingle(f(d).value, Separator);
    }
  }

  /** Merging two documents: their texts joined by a blank line, then trimmed; a failure of either is passed on, the first one first. */
  lemma MergeTwo(d1: DocumentPart, d2: DocumentPart, strip: bool, unescape: string -> Result<string>)
    ensures Merged([d1, d2], strip, unescape) ==
      match Extract(d1, strip, unescape)
      case Failure(e) => Failure(e)
      case Success(t1) =>
        match Extract(d2, strip, unescape)
        case Failure(e) => Failure(e)
        case Success(t2) => Success(Trim(t1 + Separator + t2))
  {
    var f := Extractor(strip, unescape);
    CollectTwo(d1, d2, f);
    assert f(d1) == Extract(d1, strip, unescape) && f(d2) == Extract(d2, strip, unescape);
    if f(d1).Success? && f(d2).Success? {
      var t1, t2 := f(d1).value, f(d2).value;
      JoinTwo(t1, t2, Separator);
      SeparatorIsWhitespace();
      TrimAppendWhitespace(t1 + Separator + t2, Separator);
    }
  }
}
