/**
 * Extraction: the event loop of `extract_text_from_docx` (src/main.rs).
 *
 * The main part of a package (`word/document.xml`) arrives as a forward-only
 * stream of markup events. The loop keeps one flag, "inside `w:instrText`"
 * (the WordprocessingML field-instruction element, ECMA-376 Part 1,
 * section 17.16.23), and a growing string: every text event that is not
 * suppressed is unescaped and appended with one space after it; at the end
 * of the stream the string is trimmed.
 *
 * The loop is the method `ExtractText`; `Extract` is its specification,
 * built from independent pieces: which raw chunks are kept (`Kept`), how the
 * stream ends (`EndingOf`), unescaping with the first failure winning
 * (`Collect`) and joining (`JoinTerminated`).
 */
module Extraction {
  import opened Strings

  /** The error kinds the extractor and the merger can report. */
  datatype Error =
    | ArchiveError(detail: string)  // the file, the ZIP archive or its `word/document.xml` entry could not be read
    | XmlError(detail: string)      // the markup reader reported an error
    | EscapeError(detail: string)   // an entity in a text chunk could not be unescaped

  datatype Result<T> = Success(value: T) | Failure(error: Error)

  /** One event of the markup reader. */
  datatype Event =
    | Start(name: string)  // an opening tag `<name ...>`
    | End(name: string)    // a closing tag `</name>`
    | Text(raw: string)    // character data, still escaped
    | Eof                  // the end of the markup
    | Other                // any other event: declarations, empty elements `<name/>`, comments, ...
    | Err(detail: string)  // the reader failed
  {
    /** The loop stops at this event. */
    predicate Stops() {
      Eof? || Err?
    }
  }

  /** What reading `word/document.xml` out of the package produced: its events, or the archive error. */
  type DocumentPart = Result<seq<Event>>

  /** The qualified name of the field-instruction element. */
  const InstrText: string := "w:instrText"

  /** What the loop appends after every kept chunk. */
  const ChunkSeparator: string := " "

  predicate NoStop(evs: seq<Event>) {
    forall k :: 0 <= k < |evs| ==> !evs[k].Stops()
  }

  /** The two-state machine: a start tag of `w:instrText` enters it, an end tag leaves it. */
  function Transition(inInstr: bool, e: Event): (r: bool)
    ensures e == Start(InstrText) ==> r
    ensures e == End(InstrText) ==> !r
    ensures e != Start(InstrText) && e != End(InstrText) ==> r == inInstr
  {
    match e
    case Start(name) => if name == InstrText then true else inInstr
    case End(name) => if name == InstrText then false else inInstr
    case _ => inInstr
  }

  /** The flag after the events `evs`, starting from `inInstr`. */
  function FlagAfter(evs: seq<Event>, inInstr: bool): (r: bool)
    decreases |evs|
  {
    if evs == [] then inInstr else FlagAfter(evs[1..], Transition(inInstr, evs[0]))
  }

  /** A text event is dropped only when stripping is on and the flag is set. */
  predicate Suppressed(strip: bool, inInstr: bool): (r: bool)
    ensures r ==> strip
    ensures strip ==> (r <==> inInstr)
  {
    strip && inInstr
  }

  /** The raw contents of the text events kept before the stream stops, in order. */
  function Kept(evs: seq<Event>, strip: bool, inInstr: bool): (r: seq<string>)
    decreases |evs|
  {
    if evs == [] || evs[0].Stops() then
      []
    else
      KeptOne(evs[0], strip, inInstr) + Kept(evs[1..], strip, Transition(inInstr, evs[0]))
  }

  /** The raw chunk one event contributes: its text, unless it is not text or is suppressed. */
  function KeptOne(e: Event, strip: bool, inInstr: bool): (r: seq<string>)
    ensures |r| <= 1
    ensures r != [] <==> e.Text? && !Suppressed(strip, inInstr)
    ensures r != [] ==> r[0] == e.raw
  {
    if e.Text? && !Suppressed(strip, inInstr) then [e.raw] else []
  }

  /** How a stream ends: at `Eof` (or by running out), or at a reader error. */
  datatype Ending = Completed | Broken(detail: string)

  function EndingOf(evs: seq<Event>): (end: Ending)
    decreases |evs|
  {
    if evs == [] then Completed
    else match evs[0]
      case Eof => Completed
      case Err(detail) => Broken(detail)
      case _ => EndingOf(evs[1..])
  }

  /** `f` fails on `xs[k]` and succeeds on every element before it. */
  predicate FirstFailure<X>(xs: seq<X>, f: X -> Result<string>, k: int) {
    0 <= k < |xs| && f(xs[k]).Failure? && forall j :: 0 <= j < k ==> f(xs[j]).Success?
  }

  /**
   * Apply `f` to every element in order and stop at the first failure, as a
   * loop with `?` does: either all results, or the first error.
   * `CollectSucceeds` and `CollectFails` state what it computes.
   */
  function Collect<X>(xs: seq<X>, f: X -> Result<string>): (r: Result<seq<string>>)
    ensures r.Success? ==> |r.value| == |xs|
    decreases |xs|
  {
    if xs == [] then
      Success([])
    else
      match Collect(xs[..|xs| - 1], f)
      case Failure(e) => Failure(e)
      case Success(vs) =>
        match f(xs[|xs| - 1])
        case Failure(e) => Failure(e)
        case Success(v) => Success(vs + [v])
  }

  lemma ChunkSeparatorIsWhitespace()
    ensures AllWhitespace(ChunkSeparator)
  {
  }

  /** What the event loop returns for the events `evs`. */
  function ExtractEvents(evs: seq<Event>, strip: bool, unescape: string -> Result<string>): (r: Result<string>)
    ensures r.Success? ==> Trimmed(r.value)
    ensures EndingOf(evs).Broken? ==> r.Failure?
  {
    match Collect(Kept(evs, strip, false), unescape)
    case Failure(e) => Failure(e)
    case Success(chunks) =>
      match EndingOf(evs)
      case Broken(detail) => Failure(XmlError(detail))
      case Completed => Success(Trim(JoinTerminated(chunks, ChunkSeparator)))
  }

  /** What `extract_text_from_docx` returns: the archive error, or the loop's result. */
  function Extract(part: DocumentPart, strip: bool, unescape: string -> Result<string>): (r: Result<string>)
    ensures r.Success? ==> Trimmed(r.value)
    ensures part.Failure? ==> r == Failure(part.error)
  {
    match part
    case Failure(e) => Failure(e)
    case Success(evs) => ExtractEvents(evs, strip, unescape)
  }

  // ---------------------------------------------------------------------------
  // The event loop

  /**
   * `extract_text_from_docx`: `part` stands for opening the file and reading
   * `word/document.xml` (an archive error is passed on as it is); `unescape`
   * is the reader's entity unescaping, which may fail.
   */
  method ExtractText(part: DocumentPart, strip: bool, unescape: string -> Result<string>) returns (r: Result<string>)
    ensures r == Extract(part, strip, unescape)
  {
    if part.Failure? {
      return Failure(part.error);
    }
    var events := part.value;
    var text := "";
    var inInstr := false;
    ghost var chunks: seq<string> := [];
    var i := 0;
    while i < |events|
      invariant 0 <= i <= |events|
      invariant NoStop(events[..i])
      invariant inInstr == FlagAfter(events[..i], false)
      invariant Collect(Kept(events[..i], strip, false), unescape) == Success(chunks)
      invariant text == JoinTerminated(chunks, ChunkSeparator)
    {
      FlagStep(events, i, false);
      match events[i] {
        case Start(name) =>
          SkipStep(events, i, strip);
          if name == InstrText {
            inInstr := true;
          }
        case End(name) =>
          SkipStep(events, i, strip);
          if name == InstrText {
            inInstr := false;
          }
        case Text(raw) =>
          if strip && inInstr {
            // field-instruction text is skipped
            SkipStep(events, i, strip);
          } else {
            var u := unescape(raw);
            if u.Failure? {
              EscapeFailureStops(events, i, strip, unescape);
              return Failure(u.error);
            }
            KeepChunk(events, i, strip, unescape, chunks);
            JoinSnoc(chunks, u.value, ChunkSeparator);
            text := text + u.value;
            text := text + ChunkSeparator;
            chunks := chunks + [u.value];
          }
        case Eof =>
          break;
        case Err(detail) =>
          StopsAt(events, i, strip);
          return Failure(XmlError(detail));
        case Other =>
          SkipStep(events, i, strip);
      }
      i := i + 1;
    }
    StopsAt(events, i, strip);
    r := Success(Trim(text));
  }

  // ---------------------------------------------------------------------------
  // Lemmas that connect the loop to its specification

  lemma {:induction false} FlagAfterConcat(a: seq<Event>, b: seq<Event>, inInstr: bool)
    ensures FlagAfter(a + b, inInstr) == FlagAfter(b, FlagAfter(a, inInstr))
    decreases |a|
  {
    if a == [] {
      assert a + b == b;
    } else {
      assert (a + b)[0] == a[0];
      assert (a + b)[1..] == a[1..] + b;
      FlagAfterConcat(a[1..], b, Transition(inInstr, a[0]));
    }
  }

  /** Up to the first stopping event, the kept chunks of `a + b` are those of `a` followed by those of `b`. */
  lemma {:induction false} KeptConcat(a: seq<Event>, b: seq<Event>, strip: bool, inInstr: bool)
    requires NoStop(a)
    ensures Kept(a + b, strip, inInstr) == Kept(a, strip, inInstr) + Kept(b, strip, FlagAfter(a, inInstr))
    decreases |a|
  {
    if a == [] {
      assert a + b == b;
    } else {
      var e, t := a[0], Transition(inInstr, a[0]);
      assert (a + b)[0] == e && !e.Stops();
      assert (a + b)[1..] == a[1..] + b;
      KeptConcat(a[1..], b, strip, t);
      calc {
        Kept(a + b, strip, inInstr);
        KeptOne(e, strip, inInstr) + Kept(a[1..] + b, strip, t);
        KeptOne(e, strip, inInstr) + (Kept(a[1..], strip, t) + Kept(b, strip, FlagAfter(a[1..], t)));
        (KeptOne(e, strip, inInstr) + Kept(a[1..], strip, t)) + Kept(b, strip, FlagAfter(a[1..], t));
      }
    }
  }

  lemma {:induction false} EndingConcat(a: seq<Event>, b: seq<Event>)
    requires NoStop(a)
    ensures EndingOf(a + b) == EndingOf(b)
    decreases |a|
  {
    if a == [] {
      assert a + b == b;
    } else {
      assert (a + b)[0] == a[0];
      assert (a + b)[1..] == a[1..] + b;
      assert !a[0].Stops();
      EndingConcat(a[1..], b);
    }
  }

  /** One step of the loop moves the flag by `Transition`. */
  lemma FlagStep(evs: seq<Event>, i: int, inInstr: bool)
    requires 0 <= i < |evs|
    ensures FlagAfter(evs[..i + 1], inInstr) == Transition(FlagAfter(evs[..i], inInstr), evs[i])
  {
    assert evs[..i + 1] == evs[..i] + [evs[i]];
    FlagAfterConcat(evs[..i], [evs[i]], inInstr);
    assert [evs[i]][1..] == [];
  }

  /** One step of the loop over an event that does not stop it adds that event's chunk, if any. */
  lemma KeptStep(evs: seq<Event>, i: int, strip: bool)
    requires 0 <= i < |evs| && NoStop(evs[..i]) && !evs[i].Stops()
    ensures NoStop(evs[..i + 1])
    ensures Kept(evs[..i + 1], strip, false) == Kept(evs[..i], strip, false) + KeptOne(evs[i], strip, FlagAfter(evs[..i], false))
  {
    var a, e := evs[..i], evs[i];
    assert evs[..i + 1] == a + [e];
    KeptConcat(a, [e], strip, false);
    assert [e][1..] == [];
  }

  /** A step over an event that neither stops the loop nor contributes text leaves the kept chunks as they were. */
  lemma SkipStep(evs: seq<Event>, i: int, strip: bool)
    requires 0 <= i < |evs| && NoStop(evs[..i]) && !evs[i].Stops()
    requires !(evs[i].Text? && !Suppressed(strip, FlagAfter(evs[..i], false)))
    ensures NoStop(evs[..i + 1])
    ensures Kept(evs[..i + 1], strip, false) == Kept(evs[..i], strip, false)
  {
    KeptStep(evs, i, strip);
    assert Kept(evs[..i], strip, false) + [] == Kept(evs[..i], strip, false);
  }

  /** A step over a text event that is not suppressed keeps its raw contents. */
  lemma TextStep(evs: seq<Event>, i: int, strip: bool)
    requires 0 <= i < |evs| && NoStop(evs[..i]) && evs[i].Text?
    requires !Suppressed(strip, FlagAfter(evs[..i], false))
    ensures NoStop(evs[..i + 1])
    ensures Kept(evs[..i + 1], strip, false) == Kept(evs[..i], strip, false) + [evs[i].raw]
  {
    KeptStep(evs, i, strip);
  }

  /** A step over a text event that is kept and unescapes: its unescaped contents join the collected chunks. */
  lemma KeepChunk(evs: seq<Event>, i: int, strip: bool, unescape: string -> Result<string>, chunks: seq<string>)
    requires 0 <= i < |evs| && NoStop(evs[..i]) && evs[i].Text?
    requires !Suppressed(strip, FlagAfter(evs[..i], false))
    requires Collect(Kept(evs[..i], strip, false), unescape) == Success(chunks)
    requires unescape(evs[i].raw).Success?
    ensures NoStop(evs[..i + 1])
    ensures Collect(Kept(evs[..i + 1], strip, false), unescape) == Success(chunks + [unescape(evs[i].raw).value])
  {
    TextStep(evs, i, strip);
    SnocCollect(Kept(evs[..i], strip, false), evs[i].raw, unescape);
  }

  /** When the loop leaves at index `i` (by running out or at a stopping event), nothing after `i` is kept. */
  lemma StopsAt(evs: seq<Event>, i: int, strip: bool)
    requires 0 <= i <= |evs| && NoStop(evs[..i])
    requires i < |evs| ==> evs[i].Stops()
    ensures Kept(evs, strip, false) == Kept(evs[..i], strip, false)
    ensures EndingOf(evs) == if i < |evs| && evs[i].Err? then Broken(evs[i].detail) else Completed
  {
    var a, b := evs[..i], evs[i..];
    assert evs == a + b;
    KeptConcat(a, b, strip, false);
    EndingConcat(a, b);
  }

  /** A text chunk that fails to unescape ends the whole extraction with that error. */
  lemma EscapeFailureStops(evs: seq<Event>, i: int, strip: bool, unescape: string -> Result<string>)
    requires 0 <= i < |evs| && NoStop(evs[..i]) && evs[i].Text?
    requires !Suppressed(strip, FlagAfter(evs[..i], false))
    requires Collect(Kept(evs[..i], strip, false), unescape).Success?
    requires unescape(evs[i].raw).Failure?
    ensures ExtractEvents(evs, strip, unescape) == Failure(unescape(evs[i].raw).error)
  {
    var a, b := evs[..i + 1], evs[i + 1..];
    KeptStep(evs, i, strip);
    SnocCollect(Kept(evs[..i], strip, false), evs[i].raw, unescape);
    assert evs == a + b;
    KeptConcat(a, b, strip, false);
    CollectPrefixFailure(Kept(a, strip, false), Kept(b, strip, FlagAfter(a, false)), unescape);
  }

  /** One more element: `Collect` of `xs + [x]` extends `Collect` of `xs`. */
  lemma SnocCollect<X>(xs: seq<X>, x: X, f: X -> Result<string>)
    ensures Collect(xs + [x], f) == match Collect(xs, f)
      case Failure(e) => Failure(e)
      case Success(vs) => (match f(x) case Failure(e) => Failure(e) case Success(v) => Success(vs + [v]))
  {
    assert (xs + [x])[..|xs|] == xs;
  }

  /** `Collect` succeeds exactly when `f` succeeds on every element, and then it holds their values in order. */
  lemma {:induction false} CollectSucceeds<X>(xs: seq<X>, f: X -> Result<string>)
    ensures Collect(xs, f).Success? <==> forall k :: 0 <= k < |xs| ==> f(xs[k]).Success?
    ensures Collect(xs, f).Success? ==>
      |Collect(xs, f).value| == |xs| && forall k :: 0 <= k < |xs| ==> f(xs[k]) == Success(Collect(xs, f).value[k])
    decreases |xs|
  {
    if xs != [] {
      var init := xs[..|xs| - 1];
      CollectSucceeds(init, f);
      assert forall k :: 0 <= k < |init| ==> init[k] == xs[k];
    }
  }

  /** When `Collect` fails, its error is that of the first element on which `f` fails. */
  lemma {:induction false} CollectFails<X>(xs: seq<X>, f: X -> Result<string>)
    requires Collect(xs, f).Failure?
    ensures exists k :: FirstFailure(xs, f, k) && f(xs[k]).error == Collect(xs, f).error
    decreases |xs|
  {
    var init := xs[..|xs| - 1];
    assert forall k :: 0 <= k < |init| ==> init[k] == xs[k];
    if Collect(init, f).Failure? {
      CollectFails(init, f);
      var k :| FirstFailure(init, f, k) && f(init[k]).error == Collect(init, f).error;
      assert FirstFailure(xs, f, k);
    } else {
      CollectSucceeds(init, f);
      assert FirstFailure(xs, f, |xs| - 1);
    }
  }

  /** The first element on which `f` fails decides the error of `Collect`. */
  lemma CollectFirstFailure<X>(xs: seq<X>, f: X -> Result<string>, k: int)
    requires FirstFailure(xs, f, k)
    ensures Collect(xs, f) == Failure(f(xs[k]).error)
  {
    var before := xs[..k];
    assert forall j :: 0 <= j < k ==> before[j] == xs[j];
    CollectSucceeds(before, f);
    assert Collect(before, f).Success?;
    SnocCollect(before, xs[k], f);
    assert xs[..k + 1] == before + [xs[k]];
    assert xs == xs[..k + 1] + xs[k + 1..];
    assert Collect(xs[..k + 1], f) == Failure(f(xs[k]).error);
    CollectPrefixFailure(xs[..k + 1], xs[k + 1..], f);
  }

  lemma CollectOne<X>(x: X, f: X -> Result<string>)
    ensures Collect([x], f) == match f(x) case Failure(e) => Failure(e) case Success(v) => Success([v])
  {
    assert [x][..0] == [];
    if f(x).Success? {
      assert [] + [f(x).value] == [f(x).value];
    }
  }

  lemma CollectTwo<X>(x: X, y: X, f: X -> Result<string>)
    ensures Collect([x, y], f) == match f(x)
      case Failure(e) => Failure(e)
      case Success(v) => (match f(y) case Failure(e) => Failure(e) case Success(w) => Success([v, w]))
  {
    assert [x, y][..1] == [x];
    CollectOne(x, f);
    if f(x).Success? && f(y).Success? {
      assert [f(x).value] + [f(y).value] == [f(x).value, f(y).value];
    }
  }

  /** Once `Collect` fails on a prefix, nothing after it matters: the first error wins. */
  lemma {:induction false} CollectPrefixFailure<X>(xs: seq<X>, ys: seq<X>, f: X -> Result<string>)
    requires Collect(xs, f).Failure?
    ensures Collect(xs + ys, f) == Collect(xs, f)
    decreases |ys|
  {
    if ys == [] {
      assert xs + ys == xs;
    } else {
      var init := ys[..|ys| - 1];
      CollectPrefixFailure(xs, init, f);
      assert (xs + ys)[..|xs + ys| - 1] == xs + init;
    }
  }
}
