/**
 * What the extraction loop promises, stated over its specification
 * `ExtractEvents` (which `ExtractText` is proved to compute).
 */
module ExtractionProperties {
  import opened Strings
  import opened Extraction

  // ---------------------------------------------------------------------------
  // The `w:instrText` flag

  /** The event at `j` opens `w:instrText` and no later event closes it. */
  predicate OpenedAt(evs: seq<Event>, j: int) {
    && 0 <= j < |evs|
    && evs[j] == Start(InstrText)
    && forall k :: j < k < |evs| ==> evs[k] != End(InstrText)
  }

  /**
   * Starting from false, the flag is set after `evs` exactly when some start
   * tag of `w:instrText` has not been followed by an end tag of it: only
   * those two events move it, a start sets it and an end clears it.
   */
  lemma {:induction false} FlagCharacterization(evs: seq<Event>)
    ensures FlagAfter(evs, false) <==> exists j :: OpenedAt(evs, j)
    decreases |evs|
  {
    if evs != [] {
      var n := |evs|;
      var a, e := evs[..n - 1], evs[n - 1];
      FlagCharacterization(a);
      FlagStep(evs, n - 1, false);
      assert evs[..n] == evs;
      if e == Start(InstrText) {
        assert OpenedAt(evs, n - 1);
      } else if e == End(InstrText) {
        forall j | 0 <= j < n
          ensures !OpenedAt(evs, j)
        {
          assert evs[n - 1] == End(InstrText);
        }
      } else {
        assert Transition(FlagAfter(a, false), e) == FlagAfter(a, false);
        forall j | OpenedAt(evs, j)
          ensures OpenedAt(a, j)
        {
          assert j != n - 1;
        }
        forall j | OpenedAt(a, j)
          ensures OpenedAt(evs, j)
        {
        }
      }
    }
  }

  /** Events other than the two `w:instrText` tags leave the flag as it is. */
  lemma {:induction false} FlagUnmovedWithoutMarkers(evs: seq<Event>, inInstr: bool)
    requires forall k :: 0 <= k < |evs| ==> evs[k] != Start(InstrText) && evs[k] != End(InstrText)
    ensures FlagAfter(evs, inInstr) == inInstr
    decreases |evs|
  {
    if evs != [] {
      assert evs[0] != Start(InstrText) && evs[0] != End(InstrText);
      assert Transition(inInstr, evs[0]) == inInstr;
      FlagUnmovedWithoutMarkers(evs[1..], inInstr);
    }
  }

  // ---------------------------------------------------------------------------
  // Stripping

  /** Two streams that keep the same chunks and end the same way extract to the same result. */
  lemma SameKeptSameResult(x: seq<Event>, y: seq<Event>, strip: bool, unescape: string -> Result<string>)
    requires Kept(x, strip, false) == Kept(y, strip, false) && EndingOf(x) == EndingOf(y)
    ensures ExtractEvents(x, strip, unescape) == ExtractEvents(y, strip, unescape)
  {
  }

  /** A stream split into `a` (no stopping event) and `[e] + b`: the chunks and the ending, event `e` made explicit. */
  lemma SplitAt(a: seq<Event>, e: Event, b: seq<Event>, strip: bool)
    requires NoStop(a)
    ensures Kept(a + [e] + b, strip, false)
      == Kept(a, strip, false) + (if e.Stops() then [] else KeptOne(e, strip, FlagAfter(a, false)) + Kept(b, strip, Transition(FlagAfter(a, false), e)))
    ensures EndingOf(a + [e] + b) == match e case Eof => Completed case Err(d) => Broken(d) case _ => EndingOf(b)
  {
    var eb := [e] + b;
    assert a + [e] + b == a + eb;
    assert eb[0] == e && eb[1..] == b;
    KeptConcat(a, eb, strip, false);
    EndingConcat(a, eb);
  }

  /** A stream with no stopping event in `a`, split after `a`. */
  lemma SplitAfter(a: seq<Event>, b: seq<Event>, strip: bool)
    requires NoStop(a)
    ensures Kept(a + b, strip, false) == Kept(a, strip, false) + Kept(b, strip, FlagAfter(a, false))
    ensures EndingOf(a + b) == EndingOf(b)
  {
    KeptConcat(a, b, strip, false);
    EndingConcat(a, b);
  }

  /** The event at `j` is a text with contents `c` that the loop reaches and does not suppress. */
  predicate KeptFrom(evs: seq<Event>, j: int, strip: bool, inInstr: bool, c: string) {
    && 0 <= j < |evs|
    && evs[j] == Text(c)
    && NoStop(evs[..j])
    && !Suppressed(strip, FlagAfter(evs[..j], inInstr))
  }

  /** Every kept chunk is the contents of a text event that the loop reaches and does not suppress. */
  lemma {:induction false} KeptFromText(evs: seq<Event>, strip: bool, inInstr: bool, i: int)
    requires 0 <= i < |Kept(evs, strip, inInstr)|
    ensures exists j :: KeptFrom(evs, j, strip, inInstr, Kept(evs, strip, inInstr)[i])
    decreases |evs|
  {
    var e, rest := evs[0], evs[1..];
    var t := Transition(inInstr, e);
    var one, tail := KeptOne(e, strip, inInstr), Kept(rest, strip, t);
    var ks := Kept(evs, strip, inInstr);
    assert ks == one + tail;
    if i < |one| {
      assert evs[..0] == [];
      assert KeptFrom(evs, 0, strip, inInstr, ks[i]);
    } else {
      KeptFromText(rest, strip, t, i - |one|);
      var c := tail[i - |one|];
      assert ks[i] == c;
      var j :| KeptFrom(rest, j, strip, t, c);
      assert evs[..j + 1] == [e] + rest[..j];
      assert ([e] + rest[..j])[1..] == rest[..j];
      assert FlagAfter(evs[..j + 1], inInstr) == FlagAfter(rest[..j], t);
      assert KeptFrom(evs, j + 1, strip, inInstr, c);
    }
  }

  /** With stripping on, a text event while the flag is set is not kept, and the stream ends as it would without it. */
  lemma SuppressedTextKeepsNothing(a: seq<Event>, raw: string, b: seq<Event>)
    requires NoStop(a) && FlagAfter(a, false)
    ensures Kept(a + [Text(raw)] + b, true, false) == Kept(a + b, true, false)
    ensures EndingOf(a + [Text(raw)] + b) == EndingOf(a + b)
  {
    var flag := FlagAfter(a, false);
    SplitAt(a, Text(raw), b, true);
    SplitAfter(a, b, true);
    assert KeptOne(Text(raw), true, flag) == [] && Transition(flag, Text(raw)) == flag;
    assert [] + Kept(b, true, flag) == Kept(b, true, flag);
  }

  /** With stripping on, a text event while the flag is set contributes nothing: removing it changes no result. */
  lemma InstrTextIrrelevantWhenStripping(a: seq<Event>, raw: string, b: seq<Event>, unescape: string -> Result<string>)
    requires NoStop(a) && FlagAfter(a, false)
    ensures ExtractEvents(a + [Text(raw)] + b, true, unescape) == ExtractEvents(a + b, true, unescape)
  {
    SuppressedTextKeepsNothing(a, raw, b);
    SameKeptSameResult(a + [Text(raw)] + b, a + b, true, unescape);
  }

  /** Without a start tag of `w:instrText`, stripping keeps exactly what not stripping keeps. */
  lemma {:induction false} KeptWithoutMarkers(evs: seq<Event>)
    requires forall k :: 0 <= k < |evs| ==> evs[k] != Start(InstrText)
    ensures Kept(evs, true, false) == Kept(evs, false, false)
    decreases |evs|
  {
    if evs != [] && !evs[0].Stops() {
      assert evs[0] != Start(InstrText);
      assert Transition(false, evs[0]) == false;
      KeptWithoutMarkers(evs[1..]);
    }
  }

  /** Without a start tag of `w:instrText`, the result does not depend on the strip option. */
  lemma StripIrrelevantWithoutMarkers(evs: seq<Event>, unescape: string -> Result<string>)
    requires forall k :: 0 <= k < |evs| ==> evs[k] != Start(InstrText)
    ensures ExtractEvents(evs, true, unescape) == ExtractEvents(evs, false, unescape)
  {
    KeptWithoutMarkers(evs);
  }

  /** `xs` is obtained from `ys` by deleting elements (order kept). */
  predicate IsSubsequence<T(==)>(xs: seq<T>, ys: seq<T>)
    decreases |ys|
  {
    xs == [] || (ys != [] && (IsSubsequence(xs, ys[1..]) || (xs[0] == ys[0] && IsSubsequence(xs[1..], ys[1..]))))
  }

  /** Stripping only drops chunks: what it keeps is, in order, a subsequence of what is kept without it. */
  lemma {:induction false} StrippedIsSubsequence(evs: seq<Event>, inInstr: bool)
    ensures IsSubsequence(Kept(evs, true, inInstr), Kept(evs, false, inInstr))
    decreases |evs|
  {
    if evs != [] && !evs[0].Stops() {
      var e, t := evs[0], Transition(inInstr, evs[0]);
      var p, q := Kept(evs[1..], true, t), Kept(evs[1..], false, t);
      StrippedIsSubsequence(evs[1..], t);
      if e.Text? {
        assert ([e.raw] + q)[1..] == q && [] + p == p;
        if !inInstr {
          assert ([e.raw] + p)[0] == e.raw && ([e.raw] + p)[1..] == p;
        }
      } else {
        assert [] + p == p && [] + q == q;
      }
    }
  }

  // ---------------------------------------------------------------------------
  // Kept text and the shape of the result

  /**
   * A text event that is not suppressed, in a stream whose extraction
   * succeeds, unescaped successfully, and its unescaped contents (up to
   * outer whitespace) appear in the result.
   */
  lemma KeptTextAppears(a: seq<Event>, raw: string, b: seq<Event>, strip: bool, unescape: string -> Result<string>)
    requires NoStop(a) && !Suppressed(strip, FlagAfter(a, false))
    requires ExtractEvents(a + [Text(raw)] + b, strip, unescape).Success?
    ensures unescape(raw).Success?
    ensures Contains(ExtractEvents(a + [Text(raw)] + b, strip, unescape).value, Trim(unescape(raw).value))
  {
    var evs := a + [Text(raw)] + b;
    SplitAt(a, Text(raw), b, strip);
    var ks, i := Kept(evs, strip, false), |Kept(a, strip, false)|;
    assert ks[i] == raw;
    CollectSucceeds(ks, unescape);
    var chunks := Collect(ks, unescape).value;
    assert unescape(raw) == Success(chunks[i]);
    assert ExtractEvents(evs, strip, unescape).value == Trim(JoinTerminated(chunks, ChunkSeparator));
    PartSurvivesTrim(chunks, i, ChunkSeparator);
  }

  // ---------------------------------------------------------------------------
  // How the stream ends

  /** The loop stops first at index `k`, and there the reader reports the error `detail`. */
  predicate BrokenAt(evs: seq<Event>, k: int, detail: string) {
    0 <= k < |evs| && evs[k] == Err(detail) && NoStop(evs[..k])
  }

  /**
   * A stream breaks with `detail` exactly when the first event at which the
   * loop stops is a reader error with that detail; otherwise (the end of the
   * markup comes first, or the stream runs out) it completes.
   */
  lemma {:induction false} EndingCharacterization(evs: seq<Event>, detail: string)
    ensures EndingOf(evs) == Broken(detail) <==> exists k :: BrokenAt(evs, k, detail)
    decreases |evs|
  {
    if evs != [] {
      var e, rest := evs[0], evs[1..];
      if e.Stops() {
        forall k | 0 < k < |evs|
          ensures !BrokenAt(evs, k, detail)
        {
          assert evs[..k][0] == e;
        }
        if e == Err(detail) {
          assert BrokenAt(evs, 0, detail);
        }
      } else {
        EndingCharacterization(rest, detail);
        assert EndingOf(evs) == EndingOf(rest);
        forall k | BrokenAt(evs, k, detail)
          ensures BrokenAt(rest, k - 1, detail)
        {
          assert k != 0;
          assert rest[..k - 1] == evs[..k][1..];
        }
        forall k | BrokenAt(rest, k, detail)
          ensures BrokenAt(evs, k + 1, detail)
        {
          assert evs[..k + 1] == [e] + rest[..k];
        }
      }
    }
  }


  /**
   * A reader error fails the extraction and yields no text: with the error
   * of the first chunk before it that fails to unescape, if any, and
   * otherwise with the reader's own error.
   */
  lemma ReaderErrorFails(a: seq<Event>, detail: string, b: seq<Event>, strip: bool, unescape: string -> Result<string>)
    requires NoStop(a)
    ensures ExtractEvents(a + [Err(detail)] + b, strip, unescape) ==
      match Collect(Kept(a, strip, false), unescape)
      case Failure(e) => Failure(e)
      case Success(_) => Failure(XmlError(detail))
  {
    var eb := [Err(detail)] + b;
    assert a + [Err(detail)] + b == a + eb;
    assert eb[0] == Err(detail);
    KeptConcat(a, eb, strip, false);
    EndingConcat(a, eb);
    assert Kept(a, strip, false) + [] == Kept(a, strip, false);
  }

  /** Whatever follows the end of the markup is never looked at. */
  lemma EventsAfterEofIgnored(a: seq<Event>, b: seq<Event>, strip: bool, unescape: string -> Result<string>)
    requires NoStop(a)
    ensures ExtractEvents(a + [Eof] + b, strip, unescape) == ExtractEvents(a, strip, unescape)
  {
    var eb := [Eof] + b;
    assert a + [Eof] + b == a + eb;
    assert eb[0] == Eof;
    KeptConcat(a, eb, strip, false);
    EndingConcat(a, eb);
    EndingConcat(a, []);
    assert a + [] == a;
    assert Kept(a, strip, false) + [] == Kept(a, strip, false);
  }
}
