# mddocmrg text extraction and merging, in Dafny

mddocmrg is a command-line tool. It reads Word (`.docx`) files, pulls the
plain text out of each one's main part (`word/document.xml`), and can merge
the texts of several files into one string with a blank line between
documents. This project models the two functions that do the work and
proves what they promise:

- `extract_text_from_docx` walks the markup events of the main part. It
  tracks one flag: whether it is inside a `w:instrText` element (a Word
  field instruction, e.g. the `HYPERLINK "url"` code behind a link).
  - With the strip option on, text while the flag is set is dropped.
  - All other text is unescaped and appended, followed by one space.
  - At the end of the markup, the result is trimmed (Rust's `str::trim`).
  - A reader error or an unescaping error ends the function with that error.
- `merge_docx_files` extracts every file in order. It appends each text
  followed by `"\n\n"`, stops at the first file that fails, and trims the
  whole.

Both loops are Dafny methods with loop invariants:
`Extraction.ExtractText` and `Merging.MergeDocuments`. Each is proved equal to
a specification function, `Extraction.Extract` and `Merging.Merged`. Those
are built from independent pieces:

- which raw chunks are kept (`Kept`, driven by the flag machine `FlagAfter`);
- how the stream ends (`EndingOf`);
- unescaping with the first error winning (`Collect`);
- joining, with every part followed by a separator (`JoinTerminated`);
- `Trim`, defined by Rust's whitespace set, the Unicode White_Space property.

The properties are lemmas about those functions:

- how the flag moves;
- what stripping removes and what it cannot change;
- that kept text appears in the result;
- that nothing after the end of the markup or after an error matters;
- that a merge contains every document's text, separated by a blank line, and
  fails at the first failing document.

`Scenarios` replays the repository's own unit tests on the documents they
build.

Files:

| file | contents |
|---|---|
| `strings.dfy` | `Strings`: whitespace, `Trim`, `Contains`, `JoinTerminated` and their lemmas |
| `extraction.dfy` | `Extraction`: events, the specification of the extraction loop, the loop itself, the lemmas that connect the two |
| `extraction_properties.dfy` | `ExtractionProperties`: what extraction promises |
| `merging.dfy` | `Merging`: the merge loop, its specification and its properties |
| `scenarios.dfy` | `Scenarios`: the unit tests' documents and their results |

The model follows the code, not the doc comment. The doc comment at
src/main.rs:9-12 says that only instructions starting with "HYPERLINK" are
skipped. The code (src/main.rs:48) skips every text inside `w:instrText`, for
any field (PAGE, TOC, ...), whenever the strip option is on. The model does
the same.

## Model

The recursive definitions `FlagAfter` (the flag after some events), `Kept`
(the raw chunks kept), `EndingOf` (how the stream ends) and `JoinTerminated`
(the joined text) carry no contract of their own. Their rows are the lemmas
that characterize them: `FlagCharacterization`, `KeptFromText` with
`KeptConcat`, `EndingCharacterization`, and `JoinSnoc` with `JoinContains`.

| member | source | states |
|---|---|---|
| Strings.IsWhitespace | src/main.rs:61 | the whitespace set of `str::trim` (Unicode White_Space): space, tab, line feed and carriage return are in it; ASCII letters and digits are not; nothing above U+3000 is |
| Strings.Leading | src/main.rs:61 | the count of whitespace characters at the start: all of them whitespace, and the next one not |
| Strings.ContentEnd | src/main.rs:61 | the end index of the string without its whitespace suffix: everything from it on is whitespace, the character just before it is not |
| Strings.Trim | src/main.rs:61 | the result has no whitespace at either end, and it is the input with only whitespace cut away before and after it |
| Strings.FramedTrim | src/main.rs:61 | trimming is determined: any trimmed middle framed by whitespace is the trim |
| Strings.TrimTrimmed | src/main.rs:61 | a string without outer whitespace is its own trim |
| Strings.TrimIdempotent | src/main.rs:61 | trimming twice is trimming once |
| Strings.TrimAppendWhitespace | src/main.rs:52 | whitespace appended after the last chunk does not change the trimmed result |
| Strings.ContainsTrim | src/main.rs:61 | a piece of a string, without its own outer whitespace, survives trimming |
| Strings.JoinSnoc | src/main.rs:51-52 | `JoinTerminated`, the string built by pushing each part and then the separator: one more part extends it by exactly that part and the separator |
| Strings.JoinTwo | src/main.rs:73-74 | two parts join as first, separator, second, separator |
| Strings.JoinConcat | src/main.rs:51-52 | joining distributes over concatenation of the part lists |
| Strings.JoinContains | src/main.rs:51-52 | every part appears in the join immediately followed by the separator, after all earlier parts |
| Strings.JoinContainsAdjacent | src/main.rs:73-74 | two neighbouring parts appear in the join with exactly one separator between them |
| Strings.PartSurvivesTrim | src/main.rs:73-76 | with a whitespace separator, every trimmed part is contained in the trimmed join |
| Strings.AdjacentPartsSurviveTrim | src/main.rs:73-76 | with a whitespace separator, two neighbouring non-empty trimmed parts and the separator between them survive trimming |
| Strings.TrimJoinSingle | src/main.rs:73-76 | the trimmed join of one trimmed part is that part |
| Strings.ContainsEachOfThree | src/main.rs:73-74 | each of three concatenated pieces is contained in the concatenation |
| Strings.OccursInMiddle | src/main.rs:73 | a piece appended between two others occurs right after the first |
| Strings.ContainsSuffix | src/main.rs:218 | a string containing `x + y` contains `y` |
| Strings.JoinOffsetsOrdered | src/main.rs:73-74 | in the join, an earlier part and its separator end no later than where a later part starts |
| Strings.PieceBeforeContentSurvivesTrim | src/main.rs:76 | a piece that starts with a non-whitespace character and has a non-whitespace character somewhere after it survives trimming whole, trailing whitespace included |
| Strings.SeparatedPartSurvivesTrim | src/main.rs:73-76 | with a whitespace separator, a non-empty trimmed part followed by any later non-empty trimmed part keeps its separator after it through the trim |
| Extraction.Transition | src/main.rs:33-44 | the flag machine: a `w:instrText` start tag sets the flag, a `w:instrText` end tag clears it, every other event leaves it as it is |
| Extraction.Suppressed | src/main.rs:48 | a text is suppressed only when the strip option is on, and then exactly when the flag is set |
| Extraction.KeptOne | src/main.rs:45-53 | one event contributes at most one chunk; it contributes one exactly when it is a text that is not suppressed, and that chunk is its raw contents |
| Extraction.Collect | src/main.rs:51 | unescaping every kept chunk with `?`: a success holds one value per chunk |
| Extraction.ChunkSeparatorIsWhitespace | src/main.rs:52 | the single space appended after each chunk is whitespace |
| Extraction.CollectSucceeds | src/main.rs:51 | `Collect` succeeds exactly when every element succeeds, and then holds their values pointwise |
| Extraction.CollectFails | src/main.rs:51 | when `Collect` fails, its error is that of the first failing element |
| Extraction.CollectFirstFailure | src/main.rs:51 | the first failing element decides `Collect`'s error |
| Extraction.CollectPrefixFailure | src/main.rs:51 | once a prefix fails, what follows does not matter |
| Extraction.SnocCollect | src/main.rs:51 | one more element either extends the collected values or fails with its error |
| Extraction.CollectOne | src/main.rs:51 | `Collect` of one element is that element's result |
| Extraction.CollectTwo | src/main.rs:72 | `Collect` of two elements is both values, or the first error in order |
| Extraction.ExtractEvents | src/main.rs:23-61 | a successful result has no outer whitespace; a stream that ends in a reader error never yields text |
| Extraction.Extract | src/main.rs:13-21 | an archive error is returned as it is; a successful result is trimmed |
| Extraction.ExtractText | src/main.rs:13-62 | the event loop returns exactly `Extract`: the trimmed join of the unescaped kept chunks, the first unescaping error, or the reader's error |
| Extraction.FlagAfterConcat | src/main.rs:33-44 | the flag after `a + b` is the flag after `b` started from the flag after `a` |
| Extraction.KeptConcat | src/main.rs:45-53 | before any stopping event, the chunks kept from `a + b` are those of `a` followed by those of `b` under the flag after `a` |
| Extraction.EndingConcat | src/main.rs:55-56 | events before the first stop do not change how the stream ends |
| Extraction.FlagStep | src/main.rs:33-44 | one event moves the flag by the start/end rule for `w:instrText` |
| Extraction.KeptStep | src/main.rs:45-53 | one event that does not stop the loop adds its own chunk, if any |
| Extraction.SkipStep | src/main.rs:33-44 | a tag, an ignored event or a suppressed text adds nothing |
| Extraction.TextStep | src/main.rs:48-52 | a text that is not suppressed adds its raw contents |
| Extraction.KeepChunk | src/main.rs:51-52 | a kept text that unescapes adds its unescaped contents to the collected chunks |
| Extraction.StopsAt | src/main.rs:55-56 | at the end of the markup or a reader error, nothing after is kept, and the ending is the one of that event |
| Extraction.EscapeFailureStops | src/main.rs:51 | a kept text that fails to unescape ends extraction with that error |
| ExtractionProperties.FlagCharacterization | src/main.rs:29-44 | `FlagAfter`, the flag after a sequence of events starting cleared, is set exactly when some `w:instrText` start tag has no `w:instrText` end tag after it |
| ExtractionProperties.FlagUnmovedWithoutMarkers | src/main.rs:33-44 | events that are not `w:instrText` tags never move the flag |
| ExtractionProperties.SplitAt | src/main.rs:31-60 | the chunks and the ending of a stream split around one event |
| ExtractionProperties.SplitAfter | src/main.rs:31-60 | the chunks and the ending of a stream split after a prefix without stops |
| ExtractionProperties.KeptFromText | src/main.rs:45-53 | every chunk `Kept` returns is the contents of a text event that the loop reaches before stopping and does not suppress |
| ExtractionProperties.SuppressedTextKeepsNothing | src/main.rs:48-49 | with stripping on, a text while the flag is set is not kept, and the stream ends as it would without it |
| ExtractionProperties.InstrTextIrrelevantWhenStripping | src/main.rs:45-49 | with stripping on, a text while inside `w:instrText` can be removed without changing the result |
| ExtractionProperties.KeptWithoutMarkers | src/main.rs:33-53 | without a `w:instrText` start tag, stripping keeps the same chunks as not stripping |
| ExtractionProperties.StripIrrelevantWithoutMarkers | src/main.rs:33-53 | without a `w:instrText` start tag, the result is the same with and without stripping |
| ExtractionProperties.StrippedIsSubsequence | src/main.rs:45-53 | the chunks kept when stripping are, in order, a subsequence of those kept without stripping |
| ExtractionProperties.KeptTextAppears | src/main.rs:45-61 | in a successful extraction, a text that is not suppressed unescaped successfully and its contents (up to outer whitespace) are in the result |
| ExtractionProperties.ReaderErrorFails | src/main.rs:56 | a reader error fails extraction with no text: the error of an earlier unescaping failure, else the reader's error; what follows is never read |
| ExtractionProperties.EndingCharacterization | src/main.rs:55-56 | `EndingOf` is `Broken(detail)` exactly when the first event at which the loop stops is a reader error with that detail; otherwise the stream completes |
| ExtractionProperties.EventsAfterEofIgnored | src/main.rs:55 | anything after the end of the markup does not change the result |
| Merging.Extractor | src/main.rs:72 | the per-document extraction of the merge: it passes an archive error on as it is, and every text it returns is trimmed |
| Merging.Merged | src/main.rs:66-77 | a successful merge has no outer whitespace |
| Merging.MergeDocuments | src/main.rs:66-77 | the merge loop returns exactly `Merged`: the trimmed join of the documents' texts, each followed by a blank line, or the first document's error |
| Merging.MergeStep | src/main.rs:71-75 | one more document extends the collected texts, or ends the merge with its error |
| Merging.SeparatorIsWhitespace | src/main.rs:74 | the blank line between documents is whitespace |
| Merging.MergeFailsIffSomeFails | src/main.rs:72 | the merge fails exactly when some document fails |
| Merging.MergeFailsFast | src/main.rs:72 | the first failing document's error is the merge's error; later documents do not matter |
| Merging.MergedTexts | src/main.rs:71-76 | a successful merge is the trimmed join of the texts of all documents, each extracted successfully |
| Merging.MergeContainsEach | src/main.rs:71-76 | a successful merge contains the text of every document |
| Merging.MergeSeparatesDocuments | src/main.rs:64-65 | the texts of two neighbouring non-empty documents appear with exactly a blank line between them |
| Merging.MergeSeparatesNonEmpty | src/main.rs:64-65 | a non-empty document's text is followed by a blank line whenever some later document is non-empty, whatever (empty) documents lie between; so the merge of two non-empty documents contains a blank line |
| Merging.MergeSingle | src/main.rs:71-76 | merging one document gives exactly that document's extraction result |
| Merging.MergeTwo | src/main.rs:71-76 | merging two documents gives their texts joined by a blank line and trimmed, or the first error in order |
| Scenarios.InertKeepsNothing | src/main.rs:33-44 | tags other than `w:instrText` and ignored events keep nothing and leave the flag alone |
| Scenarios.ClosingKeepsNothing | src/main.rs:55 | closing tags and then the end of the markup keep nothing and end the stream normally |
| Scenarios.TextBetweenTags | src/main.rs:165-174 | one text between inert tags is kept exactly, with or without stripping |
| Scenarios.ParagraphOpenInert | src/main.rs:165-170 | the opening tags of the one-paragraph test document are inert |
| Scenarios.ParagraphCloseInert | src/main.rs:170-174 | the closing tags of the one-paragraph test document are inert |
| Scenarios.ParagraphKept | src/main.rs:164-174 | the one-paragraph test document keeps exactly its text |
| Scenarios.ParagraphExtracts | src/main.rs:200-206 | extracting the one-paragraph test document gives back its text |
| Scenarios.ParagraphsMerge | src/main.rs:208-219 | merging two one-paragraph documents gives the two texts with a blank line between them |
| Scenarios.HelloWorld | src/main.rs:200-206 | the "Hello, world!" document extracts to exactly "Hello, world!" |
| Scenarios.MergeOfTwoParagraphs | src/main.rs:208-219 | the two test documents merge to their texts with a blank line between, and the result contains both and the blank line |
| Scenarios.InvalidArchive | src/main.rs:221-229 | a file that is not an archive fails extraction, and any merge that starts with it |
| Scenarios.FieldKept | src/main.rs:245 | a `w:instrText` element keeps its instruction unless stripping, and leaves the flag cleared |
| Scenarios.FieldBetweenTags | src/main.rs:242-248 | a field between inert tags keeps its instruction unless stripping, and leaves the flag cleared |
| Scenarios.FieldThenText | src/main.rs:236-258 | a field followed by visible text keeps the instruction (unless stripping) and then the text |
| Scenarios.NoStopConcat | src/main.rs:31-60 | two stretches without stopping events concatenate to one |
| Scenarios.HyperlinkOpenInert | src/main.rs:236-244 | the tags before the field instruction in the hyperlink test document are inert |
| Scenarios.HyperlinkMiddleInert | src/main.rs:246-251 | the tags between the instruction and the visible text are inert |
| Scenarios.HyperlinkCloseInert | src/main.rs:251-258 | the tags after the visible text are inert |
| Scenarios.HyperlinkKept | src/main.rs:236-258 | the hyperlink test document keeps the instruction unless stripping, then the visible text |
| Scenarios.HyperlinkStripped | src/main.rs:262 | with stripping, the hyperlink document extracts to its visible text alone |
| Scenarios.HyperlinkWhole | src/main.rs:264 | without stripping, it extracts to the instruction, one space, the visible text |
| Scenarios.InstructionTrimmed | src/main.rs:245 | the test's instruction has no outer whitespace |
| Scenarios.HyperlinkTestStripped | src/main.rs:262 | the test's document with stripping extracts to "Visible Link Text" |
| Scenarios.HyperlinkTestStrippedLacksKeyword | src/main.rs:266-267 | the stripped result, "Visible Link Text", does not contain "HYPERLINK" |
| Scenarios.HyperlinkTestWhole | src/main.rs:264 | the test's document without stripping extracts to the instruction, a space and "Visible Link Text" |
| Scenarios.HyperlinkTestWholeContains | src/main.rs:268-269 | that result contains "HYPERLINK" and "Visible Link Text" |
| Scenarios.NotContainedWithoutFirstChar | src/main.rs:266 | a string in which the first character of a word never occurs does not contain the word |

## Left out

- Opening the file, reading the ZIP archive and its `word/document.xml` entry (src/main.rs:17-21): file and archive I/O. A document is given as `DocumentPart`: the part's events, or the `ArchiveError` that reading it produced.
- Tokenising the XML and `trim_text(true)` (src/main.rs:23-24): the markup reader is a library. Its output is the model's input, a sequence of `Event`s. In the scenarios, the indentation between tags produces no text events, as `trim_text(true)` ensures.
- Self-closing elements: an empty element such as `<w:instrText/>` reaches the loop as the reader's Empty event, which the loop ignores. It is therefore `Other`, not `Start`.
- Entity unescaping (`e.unescape()`, src/main.rs:51): a library call. It is the parameter `unescape`, which may fail. The scenarios require it to leave their entity-free texts unchanged.
- A stream that runs out without an `Eof` event is treated as if it ended with `Eof`. The reader never does this.
- The reader's buffer reuse (`buf.clear()`, src/main.rs:59) has no effect on the result.
- Error values are the three kinds of `Error` with a detail string. The messages of the boxed Rust errors are not modelled.
- `print_usage` and `main` (src/main.rs:80-143): argument parsing, glob expansion, writing the merged file and printing. These are command-line I/O.
- The test helpers that build ZIP files in temporary directories (src/main.rs:154-198). Only the documents they build are modelled, as event lists.
- Strings are sequences of Unicode scalar values (`char`). UTF-8 encoding is not modelled. `str::trim` uses Unicode White_Space, and that set is modelled character by character.
