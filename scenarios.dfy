/**
 * The documents of the repository's own unit tests (src/main.rs), as event
 * streams, and what extraction and merging give for them. The markup reader
 * is configured to drop whitespace-only text, so the indentation between
 * tags produces no text events.
 */
module Scenarios {
  import opened Strings
  import opened Extraction
  import opened ExtractionProperties
  import opened Merging

  // ---------------------------------------------------------------------------
  // Pieces of documents

  /** Tags and empty elements that neither stop the loop, nor carry text, nor move the flag. */
  predicate Inert(evs: seq<Event>)
    decreases |evs|
  {
    evs == [] || (InertEvent(evs[0]) && Inert(evs[1..]))
  }

  predicate InertEvent(e: Event) {
    (e.Start? || e.End? || e.Other?) && e != Start(InstrText) && e != End(InstrText)
  }

  lemma {:induction false} InertKeepsNothing(evs: seq<Event>, strip: bool, inInstr: bool)
    requires Inert(evs)
    ensures NoStop(evs) && Kept(evs, strip, inInstr) == [] && FlagAfter(evs, inInstr) == inInstr
    decreases |evs|
  {
    if evs != [] {
      assert Transition(inInstr, evs[0]) == inInstr;
      InertKeepsNothing(evs[1..], strip, inInstr);
      assert forall k :: 1 <= k < |evs| ==> evs[k] == evs[1..][k - 1];
    }
  }

  /** The end of a document: closing tags, then the end of the markup. */
  lemma ClosingKeepsNothing(close: seq<Event>, strip: bool, inInstr: bool)
    requires Inert(close)
    ensures Kept(close + [Eof], strip, inInstr) == [] && EndingOf(close + [Eof]) == Completed
  {
    InertKeepsNothing(close, strip, inInstr);
    KeptConcat(close, [Eof], strip, inInstr);
    EndingConcat(close, [Eof]);
  }

  /** One text event between inert tags keeps exactly that text, with or without stripping. */
  lemma TextBetweenTags(open: seq<Event>, text: string, close: seq<Event>, strip: bool)
    requires Inert(open) && Inert(close)
    ensures Kept(open + [Text(text)] + (close + [Eof]), strip, false) == [text]
    ensures EndingOf(open + [Text(text)] + (close + [Eof])) == Completed
  {
    InertKeepsNothing(open, strip, false);
    ClosingKeepsNothing(close, strip, false);
    SplitAt(open, Text(text), close + [Eof], strip);
  }

  /** The XML declaration and the tags before the text of a one-paragraph document. */
  const ParagraphOpen: seq<Event> := [Other, Start("w:document"), Start("w:body"), Start("w:p"), Start("w:r"), Start("w:t")]
  const ParagraphClose: seq<Event> := [End("w:t"), End("w:r"), End("w:p"), End("w:body"), End("w:document")]

  /** The document the tests build around one piece of text. */
  function ParagraphDocument(text: string): seq<Event> {
    ParagraphOpen + [Text(text)] + (ParagraphClose + [Eof])
  }

  lemma ParagraphOpenInert()
    ensures Inert(ParagraphOpen)
  {
  }

  lemma ParagraphCloseInert()
    ensures Inert(ParagraphClose)
  {
  }

  /** A one-paragraph document keeps exactly its text, with or without stripping. */
  lemma ParagraphKept(text: string, strip: bool)
    ensures Kept(ParagraphDocument(text), strip, false) == [text]
    ensures EndingOf(ParagraphDocument(text)) == Completed
  {
    ParagraphOpenInert();
    ParagraphCloseInert();
    TextBetweenTags(ParagraphOpen, text, ParagraphClose, strip);
  }

  /** Extracting a one-paragraph document gives back its text, when that text has no outer whitespace and no entities. */
  lemma ParagraphExtracts(text: string, strip: bool, unescape: string -> Result<string>)
    requires Trimmed(text) && unescape(text) == Success(text)
    ensures ExtractEvents(ParagraphDocument(text), strip, unescape) == Success(text)
  {
    ParagraphKept(text, strip);
    CollectOne(text, unescape);
    ChunkSeparatorIsWhitespace();
    TrimJoinSingle(text, ChunkSeparator);
  }

  /** Merging two one-paragraph documents: the two texts with a blank line between them. */
  lemma ParagraphsMerge(t1: string, t2: string, unescape: string -> Result<string>)
    requires t1 != [] && t2 != [] && Trimmed(t1) && Trimmed(t2)
    requires unescape(t1) == Success(t1) && unescape(t2) == Success(t2)
    ensures Merged([Success(ParagraphDocument(t1)), Success(ParagraphDocument(t2))], false, unescape)
      == Success(t1 + Separator + t2)
  {
    ParagraphExtracts(t1, false, unescape);
    ParagraphExtracts(t2, false, unescape);
    MergeTwo(Success(ParagraphDocument(t1)), Success(ParagraphDocument(t2)), false, unescape);
    var w := t1 + Separator + t2;
    assert w[0] == t1[0] && w[|w| - 1] == t2[|t2| - 1];
    TrimTrimmed(w);
  }

  // ---------------------------------------------------------------------------
  // The tests

  /** `test_extract_text_from_docx_without_strip`. */
  lemma HelloWorld(unescape: string -> Result<string>)
    requires unescape("Hello, world!") == Success("Hello, world!")
    ensures ExtractEvents(ParagraphDocument("Hello, world!"), false, unescape) == Success("Hello, world!")
  {
    ParagraphExtracts("Hello, world!", false, unescape);
  }

  /** `test_merge_docx_files_without_strip`: the two texts, a blank line between them. */
  lemma MergeOfTwoParagraphs(unescape: string -> Result<string>)
    requires unescape("First document text.") == Success("First document text.")
    requires unescape("Second document text.") == Success("Second document text.")
    ensures Merged([Success(ParagraphDocument("First document text.")), Success(ParagraphDocument("Second document text."))], false, unescape)
      == Success("First document text." + "\n\n" + "Second document text.")
    ensures Contains("First document text." + "\n\n" + "Second document text.", "First document text.")
    ensures Contains("First document text." + "\n\n" + "Second document text.", "Second document text.")
    ensures Contains("First document text." + "\n\n" + "Second document text.", "\n\n")
  {
    ParagraphsMerge("First document text.", "Second document text.", unescape);
    ContainsEachOfThree("First document text.", "\n\n", "Second document text.");
  }

  /** `test_invalid_docx_file`: a file that is not a ZIP archive fails, and so does a merge that includes it. */
  lemma InvalidArchive(unescape: string -> Result<string>, docs: seq<DocumentPart>)
    ensures Extract(Failure(ArchiveError("invalid Zip archive")), false, unescape).Failure?
    ensures Merged([Failure(ArchiveError("invalid Zip archive"))] + docs, false, unescape)
      == Failure(ArchiveError("invalid Zip archive"))
  {
    var bad: DocumentPart := Failure(ArchiveError("invalid Zip archive"));
    MergeFailsFast([bad] + docs, 0, false, unescape);
  }

  // The hyperlink field of `test_strip_hyperlink_instr_text`: a begin field
  // character, the instruction, a separate field character, the visible
  // text, an end field character.

  const HyperlinkOpen: seq<Event> :=
    [Other, Start("w:document"), Start("w:body"), Start("w:p"), Start("w:r"), Other, End("w:r"), Start("w:r")]
  const HyperlinkMiddle: seq<Event> := [End("w:r"), Start("w:r"), Other, End("w:r"), Start("w:r"), Start("w:t")]
  const HyperlinkClose: seq<Event> :=
    [End("w:t"), End("w:r"), Start("w:r"), Other, End("w:r"), End("w:p"), End("w:body"), End("w:document")]

  function Field(instruction: string): seq<Event> {
    [Start(InstrText), Text(instruction), End(InstrText)]
  }

  function HyperlinkDocument(instruction: string, visible: string): seq<Event> {
    (HyperlinkOpen + Field(instruction) + HyperlinkMiddle) + [Text(visible)] + (HyperlinkClose + [Eof])
  }

  /** A field keeps its instruction unless stripping, and leaves the flag cleared. */
  lemma FieldKept(instruction: string, strip: bool)
    ensures NoStop(Field(instruction))
    ensures Kept(Field(instruction), strip, false) == if strip then [] else [instruction]
    ensures FlagAfter(Field(instruction), false) == false
  {
    var f := Field(instruction);
    var f1, f2 := [Text(instruction), End(InstrText)], [End(InstrText)];
    assert f[1..] == f1 && f1[1..] == f2 && f2[1..] == [];
    assert Kept(f2, strip, true) == [];
    assert Kept(f1, strip, true) == KeptOne(Text(instruction), strip, true) + [];
    assert Kept(f, strip, false) == [] + Kept(f1, strip, true);
    assert FlagAfter(f2, true) == false;
  }

  /** A field between inert tags keeps its instruction unless stripping, and leaves the flag cleared. */
  lemma FieldBetweenTags(open: seq<Event>, instruction: string, middle: seq<Event>, strip: bool)
    requires Inert(open) && Inert(middle)
    ensures NoStop(open + Field(instruction) + middle)
    ensures Kept(open + Field(instruction) + middle, strip, false) == if strip then [] else [instruction]
    ensures FlagAfter(open + Field(instruction) + middle, false) == false
  {
    var o, f, m := open, Field(instruction), middle;
    InertKeepsNothing(o, strip, false);
    InertKeepsNothing(m, strip, false);
    FieldKept(instruction, strip);
    SplitAfter(o, f, strip);
    FlagAfterConcat(o, f, false);
    NoStopConcat(o, f);
    SplitAfter(o + f, m, strip);
    FlagAfterConcat(o + f, m, false);
    NoStopConcat(o + f, m);
  }

  /** A field between inert tags, then a text event, then inert tags: the instruction unless stripping, then the text. */
  lemma FieldThenText(open: seq<Event>, instruction: string, middle: seq<Event>, visible: string, close: seq<Event>, strip: bool)
    requires Inert(open) && Inert(middle) && Inert(close)
    ensures Kept((open + Field(instruction) + middle) + [Text(visible)] + (close + [Eof]), strip, false)
      == (if strip then [] else [instruction]) + [visible]
    ensures EndingOf((open + Field(instruction) + middle) + [Text(visible)] + (close + [Eof])) == Completed
  {
    FieldBetweenTags(open, instruction, middle, strip);
    ClosingKeepsNothing(close, strip, false);
    SplitAt(open + Field(instruction) + middle, Text(visible), close + [Eof], strip);
  }

  lemma NoStopConcat(a: seq<Event>, b: seq<Event>)
    requires NoStop(a) && NoStop(b)
    ensures NoStop(a + b)
  {
    assert forall k :: 0 <= k < |a + b| ==> (a + b)[k] == if k < |a| then a[k] else b[k - |a|];
  }

  lemma HyperlinkOpenInert()
    ensures Inert(HyperlinkOpen)
  {
  }

  lemma HyperlinkMiddleInert()
    ensures Inert(HyperlinkMiddle)
  {
  }

  lemma HyperlinkCloseInert()
    ensures Inert(HyperlinkClose)
  {
  }

  lemma HyperlinkKept(instruction: string, visible: string, strip: bool)
    ensures Kept(HyperlinkDocument(instruction, visible), strip, false) == (if strip then [] else [instruction]) + [visible]
    ensures EndingOf(HyperlinkDocument(instruction, visible)) == Completed
  {
    HyperlinkOpenInert();
    HyperlinkMiddleInert();
    HyperlinkCloseInert();
    FieldThenText(HyperlinkOpen, instruction, HyperlinkMiddle, visible, HyperlinkClose, strip);
  }

  /** With stripping, only the visible text of the hyperlink is left. */
  lemma HyperlinkStripped(instruction: string, visible: string, unescape: string -> Result<string>)
    requires Trimmed(visible) && unescape(visible) == Success(visible)
    ensures ExtractEvents(HyperlinkDocument(instruction, visible), true, unescape) == Success(visible)
  {
    HyperlinkKept(instruction, visible, true);
    assert [] + [visible] == [visible];
    CollectOne(visible, unescape);
    ChunkSeparatorIsWhitespace();
    TrimJoinSingle(visible, ChunkSeparator);
  }

  /** Without stripping, the instruction and the visible text both appear, one space apart. */
  lemma HyperlinkWhole(instruction: string, visible: string, unescape: string -> Result<string>)
    requires instruction != [] && visible != [] && Trimmed(instruction) && Trimmed(visible)
    requires unescape(instruction) == Success(instruction) && unescape(visible) == Success(visible)
    ensures ExtractEvents(HyperlinkDocument(instruction, visible), false, unescape) == Success(instruction + " " + visible)
  {
    HyperlinkKept(instruction, visible, false);
    assert [instruction] + [visible] == [instruction, visible];
    CollectTwo(instruction, visible, unescape);
    JoinTwo(instruction, visible, ChunkSeparator);
    var w := instruction + " " + visible;
    ChunkSeparatorIsWhitespace();
    TrimAppendWhitespace(w, ChunkSeparator);
    assert w[0] == instruction[0] && w[|w| - 1] == visible[|visible| - 1];
    TrimTrimmed(w);
  }

  const Keyword: string := "HYPERLINK"
  const InstructionTail: string := " \"https://example.com\" \\t \"_blank\""
  const Instruction: string := Keyword + InstructionTail
  const VisibleText: string := "Visible Link Text"

  lemma InstructionTrimmed()
    ensures Instruction != [] && Trimmed(Instruction)
  {
    assert Instruction[0] == Keyword[0];
    assert Instruction[|Instruction| - 1] == InstructionTail[|InstructionTail| - 1];
  }

  /** `test_strip_hyperlink_instr_text`, with stripping: the instruction is gone, the visible text is kept. */
  lemma HyperlinkTestStripped(unescape: string -> Result<string>)
    requires unescape(VisibleText) == Success(VisibleText)
    ensures ExtractEvents(HyperlinkDocument(Instruction, VisibleText), true, unescape) == Success(VisibleText)
  {
    HyperlinkStripped(Instruction, VisibleText, unescape);
  }

  /** ... and that result does not contain the keyword of the instruction. */
  lemma HyperlinkTestStrippedLacksKeyword()
    ensures !Contains(VisibleText, Keyword)
  {
    assert Keyword[0] == 'H';
    assert 'H' !in VisibleText;
    NotContainedWithoutFirstChar(VisibleText, Keyword);
  }

  /** `test_strip_hyperlink_instr_text`, without stripping: the instruction, one space, the visible text. */
  lemma HyperlinkTestWhole(unescape: string -> Result<string>)
    requires unescape(Instruction) == Success(Instruction) && unescape(VisibleText) == Success(VisibleText)
    ensures ExtractEvents(HyperlinkDocument(Instruction, VisibleText), false, unescape) == Success(Instruction + " " + VisibleText)
  {
    InstructionTrimmed();
    HyperlinkWhole(Instruction, VisibleText, unescape);
  }

  /** ... and that result contains both the keyword of the instruction and the visible text. */
  lemma HyperlinkTestWholeContains()
    ensures Contains(Instruction + " " + VisibleText, Keyword)
    ensures Contains(Instruction + " " + VisibleText, VisibleText)
  {
    ContainsEachOfThree(Keyword, InstructionTail + " ", VisibleText);
    assert Keyword + (InstructionTail + " ") + VisibleText == Instruction + " " + VisibleText;
  }

  /** A string in which the first character of `w` never occurs does not contain `w`. */
  lemma NotContainedWithoutFirstChar(s: string, w: string)
    requires w != [] && w[0] !in s
    ensures !Contains(s, w)
  {
    forall i | 0 <= i <= |s| - |w|
      ensures !OccursAt(s, w, i)
    {
      if OccursAt(s, w, i) {
        OccursAtChar(s, w, i, 0);
      }
    }
  }
}
