/**
 * Strings: the part of Rust's `str` that the extractor relies on.
 * `Trim` is `str::trim`, which removes every leading and trailing character
 * for which `char::is_whitespace` holds (the Unicode White_Space property).
 */
module Strings {

  /** Rust's `char::is_whitespace`: the characters with the Unicode White_Space property. */
  predicate IsWhitespace(c: char): (r: bool)
    ensures c == ' ' || c == '\t' || c == '\n' || c == '\r' ==> r
    ensures ('a' <= c <= 'z') || ('A' <= c <= 'Z') || ('0' <= c <= '9') ==> !r
    ensures r ==> c <= '\U{3000}'
  {
    ('\t' <= c <= '\r') || c == ' ' || c == '\U{85}' || c == '\U{A0}' || c == '\U{1680}'
    || ('\U{2000}' <= c <= '\U{200A}') || c == '\U{2028}' || c == '\U{2029}'
    || c == '\U{202F}' || c == '\U{205F}' || c == '\U{3000}'
  }

  predicate AllWhitespace(s: string) {
    forall k :: 0 <= k < |s| ==> IsWhitespace(s[k])
  }

  /** Neither the first nor the last character is whitespace. */
  predicate Trimmed(s: string) {
    s == [] || (!IsWhitespace(s[0]) && !IsWhitespace(s[|s| - 1]))
  }

  /** `w` occurs in `s` at offset `i`. */
  predicate OccursAt(s: string, w: string, i: int) {
    0 <= i <= |s| - |w| && s[i..i + |w|] == w
  }

  /** `w` occurs in `s` as a contiguous piece (Rust's `str::contains`). */
  predicate Contains(s: string, w: string) {
    exists i :: 0 <= i <= |s| - |w| && OccursAt(s, w, i)
  }

  /** `m` occurs in `s` at offset `i`, and every character of `s` before and after it is whitespace. */
  predicate Framed(s: string, i: int, m: string) {
    && OccursAt(s, m, i)
    && (forall k :: 0 <= k < i ==> IsWhitespace(s[k]))
    && (forall k :: i + |m| <= k < |s| ==> IsWhitespace(s[k]))
  }

  /** The number of whitespace characters `s` starts with. */
  function Leading(s: string): (n: nat)
    ensures n <= |s|
    ensures forall k :: 0 <= k < n ==> IsWhitespace(s[k])
    ensures n < |s| ==> !IsWhitespace(s[n])
  {
    if s != [] && IsWhitespace(s[0]) then 1 + Leading(s[1..]) else 0
  }

  /** Where the whitespace suffix of `s` begins: the length of `s` once that suffix is cut off. */
  function ContentEnd(s: string): (n: nat)
    ensures n <= |s|
    ensures forall k :: n <= k < |s| ==> IsWhitespace(s[k])
    ensures 0 < n ==> !IsWhitespace(s[n - 1])
  {
    if s != [] && IsWhitespace(s[|s| - 1]) then ContentEnd(s[..|s| - 1]) else |s|
  }

  /**
   * Rust's `str::trim`: the result is the piece of `s` at offset `Leading(s)`;
   * it has no whitespace at either end, and everything cut away on either
   * side is whitespace.
   */
  function Trim(s: string): (r: string)
    ensures Trimmed(r)
    ensures Framed(s, Leading(s), r)
  {
    var i := Leading(s);
    if i == |s| then
      []
    else
      assert i < ContentEnd(s);
      s[i..ContentEnd(s)]
  }

  /**
   * `Trim` is determined by its contract: whenever `s` is a trimmed middle
   * framed by whitespace, that middle is the trim of `s`.
   */
  lemma FramedTrim(s: string, i: int, m: string)
    requires Framed(s, i, m) && Trimmed(m)
    ensures Trim(s) == m
  {
    if m == [] {
      assert Leading(s) == |s|;
    } else {
      assert s[i] == m[0];
      assert s[i + |m| - 1] == m[|m| - 1];
      assert Leading(s) == i;
      assert ContentEnd(s) == i + |m|;
    }
  }

  /** A string that is already trimmed is its own trim. */
  lemma TrimTrimmed(s: string)
    requires Trimmed(s)
    ensures Trim(s) == s
  {
    assert s[0..|s|] == s;
    FramedTrim(s, 0, s);
  }

  /** Trimming twice is trimming once. */
  lemma TrimIdempotent(s: string)
    ensures Trim(Trim(s)) == Trim(s)
  {
    TrimTrimmed(Trim(s));
  }

  lemma FramedExtend(s: string, i: int, m: string, w: string)
    requires Framed(s, i, m) && AllWhitespace(w)
    ensures Framed(s + w, i, m)
  {
    assert (s + w)[i..i + |m|] == s[i..i + |m|];
    forall k | 0 <= k < i ensures IsWhitespace((s + w)[k]) {
      assert (s + w)[k] == s[k];
    }
    forall k | i + |m| <= k < |s + w| ensures IsWhitespace((s + w)[k]) {
      if k < |s| { assert (s + w)[k] == s[k]; } else { assert (s + w)[k] == w[k - |s|]; }
    }
  }

  /** Whitespace appended to a string does not change its trim. */
  lemma TrimAppendWhitespace(s: string, w: string)
    requires AllWhitespace(w)
    ensures Trim(s + w) == Trim(s)
  {
    FramedExtend(s, Leading(s), Trim(s), w);
    FramedTrim(s + w, Leading(s), Trim(s));
  }

  lemma OccursAtChar(s: string, w: string, i: int, k: int)
    requires OccursAt(s, w, i) && 0 <= k < |w|
    ensures s[i + k] == w[k]
  {
    assert s[i..i + |w|][k] == s[i + k];
  }

  /** An occurrence of an occurrence is an occurrence. */
  lemma OccursAtNested(s: string, w: string, i: int, v: string, j: int)
    requires OccursAt(s, w, i) && OccursAt(w, v, j)
    ensures OccursAt(s, v, i + j)
  {
    forall k | 0 <= k < |v| ensures s[i + j + k] == v[k] {
      OccursAtChar(s, w, i, j + k);
      OccursAtChar(w, v, j, k);
    }
    assert s[i + j..i + j + |v|] == v;
  }

  /** An occurrence in `s` that lies within an occurrence of `m` is an occurrence in `m`. */
  lemma OccursAtInside(s: string, m: string, a: int, v: string, c: int)
    requires OccursAt(s, m, a) && OccursAt(s, v, c)
    requires a <= c && c + |v| <= a + |m|
    ensures OccursAt(m, v, c - a)
  {
    forall k | 0 <= k < |v| ensures m[c - a + k] == v[k] {
      OccursAtChar(s, m, a, c - a + k);
      OccursAtChar(s, v, c, k);
    }
    assert m[c - a..c - a + |v|] == v;
  }

  /** A trimmed, non-empty piece of `s` lies in the middle of any frame of `s`. */
  lemma OccursInFrame(s: string, a: int, m: string, v: string, c: int)
    requires Framed(s, a, m) && OccursAt(s, v, c)
    requires v != [] && Trimmed(v)
    ensures OccursAt(m, v, c - a)
  {
    OccursAtChar(s, v, c, 0);
    OccursAtChar(s, v, c, |v| - 1);
    assert a <= c && c + |v| <= a + |m|;
    OccursAtInside(s, m, a, v, c);
  }

  /** A piece of a string survives trimming, up to its own outer whitespace. */
  lemma ContainsTrim(s: string, w: string)
    requires Contains(s, w)
    ensures Contains(Trim(s), Trim(w))
  {
    var i :| 0 <= i <= |s| - |w| && OccursAt(s, w, i);
    if Trim(w) == [] {
      EmptyOccurs(Trim(s));
    } else {
      TrimmedPieceSurvives(s, w, i);
    }
  }

  lemma EmptyOccurs(s: string)
    ensures Contains(s, [])
  {
    assert OccursAt(s, [], 0);
  }

  lemma TrimmedPieceSurvives(s: string, w: string, i: int)
    requires OccursAt(s, w, i) && Trim(w) != []
    ensures Contains(Trim(s), Trim(w))
  {
    FramedPieceSurvives(s, Leading(s), Trim(s), w, i, Leading(w), Trim(w));
  }

  /** The trimmed middle `v` of a piece `w` of `s` lies in the middle `m` of any frame of `s`. */
  lemma FramedPieceSurvives(s: string, a: int, m: string, w: string, i: int, j: int, v: string)
    requires Framed(s, a, m) && OccursAt(s, w, i)
    requires Framed(w, j, v) && v != [] && Trimmed(v)
    ensures Contains(m, v)
  {
    OccursAtNested(s, w, i, v, j);
    OccursInFrame(s, a, m, v, i + j);
    assert OccursAt(m, v, i + j - a);
  }

  /** Every part followed by `sep`, concatenated in order (a loop of `push_str(part); push_str(sep)`). */
  function JoinTerminated(parts: seq<string>, sep: string): (r: string)
    decreases |parts|
  {
    if parts == [] then [] else JoinTerminated(parts[..|parts| - 1], sep) + parts[|parts| - 1] + sep
  }

  lemma JoinSnoc(parts: seq<string>, p: string, sep: string)
    ensures JoinTerminated(parts + [p], sep) == JoinTerminated(parts, sep) + p + sep
  {
    assert (parts + [p])[..|parts|] == parts;
  }

  lemma JoinTwo(x: string, y: string, sep: string)
    ensures JoinTerminated([x, y], sep) == (x + sep + y) + sep
  {
    assert [] + [x] == [x] && [x] + [y] == [x, y];
    JoinSnoc([], x, sep);
    JoinSnoc([x], y, sep);
  }

  /** Joining distributes over concatenation of the part lists. */
  lemma {:induction false} JoinConcat(p: seq<string>, q: seq<string>, sep: string)
    ensures JoinTerminated(p + q, sep) == JoinTerminated(p, sep) + JoinTerminated(q, sep)
    decreases |q|
  {
    if q == [] {
      assert p + q == p;
    } else {
      var init, last := q[..|q| - 1], q[|q| - 1];
      assert p + q == (p + init) + [last];
      assert q == init + [last];
      JoinSnoc(p + init, last, sep);
      JoinSnoc(init, last, sep);
      JoinConcat(p, init, sep);
    }
  }

  /** `w` occurs in `p + w + q` right after `p`. */
  lemma OccursInMiddle(p: string, w: string, q: string)
    ensures OccursAt(p + w + q, w, |p|)
    ensures Contains(p + w + q, w)
  {
    assert (p + w + q)[|p|..|p| + |w|] == w;
    assert 0 <= |p| <= |p + w + q| - |w| && OccursAt(p + w + q, w, |p|);
  }

  /** Every part appears in the join immediately followed by the separator, after the parts before it. */
  lemma JoinContains(parts: seq<string>, k: int, sep: string)
    requires 0 <= k < |parts|
    ensures OccursAt(JoinTerminated(parts, sep), parts[k] + sep, |JoinTerminated(parts[..k], sep)|)
    ensures Contains(JoinTerminated(parts, sep), parts[k] + sep)
  {
    var before, after := parts[..k], parts[k + 1..];
    assert parts == (before + [parts[k]]) + after;
    JoinConcat(before + [parts[k]], after, sep);
    JoinSnoc(before, parts[k], sep);
    assert JoinTerminated(parts, sep) == JoinTerminated(before, sep) + (parts[k] + sep) + JoinTerminated(after, sep);
    OccursInMiddle(JoinTerminated(before, sep), parts[k] + sep, JoinTerminated(after, sep));
  }

  /** With a whitespace separator, every part, once trimmed, is part of the trimmed join. */
  lemma PartSurvivesTrim(parts: seq<string>, k: int, sep: string)
    requires 0 <= k < |parts| && AllWhitespace(sep)
    ensures Contains(Trim(JoinTerminated(parts, sep)), Trim(parts[k]))
  {
    JoinContains(parts, k, sep);
    ContainsTrim(JoinTerminated(parts, sep), parts[k] + sep);
    TrimAppendWhitespace(parts[k], sep);
  }

  /** Two neighbouring parts appear in the join with exactly one separator between them. */
  lemma JoinContainsAdjacent(parts: seq<string>, k: int, sep: string)
    requires 0 <= k && k + 1 < |parts|
    ensures Contains(JoinTerminated(parts, sep), parts[k] + sep + parts[k + 1])
  {
    var before, x, y, after := parts[..k], parts[k], parts[k + 1], parts[k + 2..];
    assert parts == (before + [x, y]) + after;
    JoinConcat(before + [x, y], after, sep);
    JoinConcat(before, [x, y], sep);
    JoinTwo(x, y, sep);
    var p, q := JoinTerminated(before, sep), JoinTerminated(after, sep);
    assert JoinTerminated(parts, sep) == p + (x + sep + y) + (sep + q);
    OccursInMiddle(p, x + sep + y, sep + q);
  }

  /**
   * With a whitespace separator, two neighbouring non-empty trimmed parts
   * survive trimming of the join together with the one separator between them.
   */
  lemma AdjacentPartsSurviveTrim(parts: seq<string>, k: int, sep: string)
    requires 0 <= k && k + 1 < |parts| && AllWhitespace(sep)
    requires parts[k] != [] && parts[k + 1] != [] && Trimmed(parts[k]) && Trimmed(parts[k + 1])
    ensures Contains(Trim(JoinTerminated(parts, sep)), parts[k] + sep + parts[k + 1])
  {
    var w := parts[k] + sep + parts[k + 1];
    assert w[0] == parts[k][0] && w[|w| - 1] == parts[k + 1][|parts[k + 1]| - 1];
    JoinContainsAdjacent(parts, k, sep);
    ContainsTrim(JoinTerminated(parts, sep), w);
    TrimTrimmed(w);
  }

  /** In the join, part `i` and its separator end no later than where part `j` starts. */
  lemma JoinOffsetsOrdered(parts: seq<string>, i: int, j: int, sep: string)
    requires 0 <= i < j <= |parts|
    ensures |JoinTerminated(parts[..i], sep)| + |parts[i]| + |sep| <= |JoinTerminated(parts[..j], sep)|
  {
    assert parts[..j] == parts[..i + 1] + parts[i + 1..j];
    JoinConcat(parts[..i + 1], parts[i + 1..j], sep);
    assert parts[..i + 1] == parts[..i] + [parts[i]];
    JoinSnoc(parts[..i], parts[i], sep);
  }

  /**
   * A piece of `s` that starts with a non-whitespace character and is
   * followed, somewhere later, by another non-whitespace character survives
   * trimming whole, trailing whitespace included.
   */
  lemma PieceBeforeContentSurvivesTrim(s: string, v: string, p: int, c: int)
    requires OccursAt(s, v, p) && v != [] && !IsWhitespace(v[0])
    requires p + |v| <= c < |s| && !IsWhitespace(s[c])
    ensures Contains(Trim(s), v)
  {
    var m, a := Trim(s), Leading(s);
    OccursAtChar(s, v, p, 0);
    assert a <= p;
    assert c < a + |m|;
    OccursAtInside(s, m, a, v, p);
    assert 0 <= p - a <= |m| - |v| && OccursAt(m, v, p - a);
  }

  /**
   * With a whitespace separator, a non-empty trimmed part followed by a
   * later non-empty trimmed part keeps its separator through trimming of the
   * join, however many parts lie between the two.
   */
  lemma SeparatedPartSurvivesTrim(parts: seq<string>, i: int, j: int, sep: string)
    requires 0 <= i < j < |parts| && AllWhitespace(sep)
    requires parts[i] != [] && parts[j] != [] && Trimmed(parts[i]) && Trimmed(parts[j])
    ensures Contains(Trim(JoinTerminated(parts, sep)), parts[i] + sep)
  {
    var s := JoinTerminated(parts, sep);
    var v, u := parts[i] + sep, parts[j] + sep;
    var q := |JoinTerminated(parts[..j], sep)|;
    JoinContains(parts, i, sep);
    JoinContains(parts, j, sep);
    JoinOffsetsOrdered(parts, i, j, sep);
    OccursAtChar(s, u, q, |parts[j]| - 1);
    assert u[|parts[j]| - 1] == parts[j][|parts[j]| - 1] && v[0] == parts[i][0];
    PieceBeforeContentSurvivesTrim(s, v, |JoinTerminated(parts[..i], sep)|, q + |parts[j]| - 1);
  }

  /** What contains `x + y` contains `y`. */
  lemma ContainsSuffix(s: string, x: string, y: string)
    requires Contains(s, x + y)
    ensures Contains(s, y)
  {
    var c :| 0 <= c <= |s| - |x + y| && OccursAt(s, x + y, c);
    assert (x + y)[|x|..] == y;
    OccursAtNested(s, x + y, c, y, |x|);
    assert 0 <= c + |x| <= |s| - |y| && OccursAt(s, y, c + |x|);
  }

  /** The trimmed join of a single trimmed part is that part. */
  lemma TrimJoinSingle(t: string, sep: string)
    requires Trimmed(t) && AllWhitespace(sep)
    ensures Trim(JoinTerminated([t], sep)) == t
  {
    JoinSnoc([], t, sep);
    assert [] + [t] == [t];
    assert JoinTerminated([t], sep) == t + sep;
    TrimAppendWhitespace(t, sep);
    TrimTrimmed(t);
  }

  /** Each of three concatenated pieces occurs in the concatenation. */
  lemma ContainsEachOfThree(a: string, b: string, c: string)
    ensures Contains(a + b + c, a) && Contains(a + b + c, b) && Contains(a + b + c, c)
  {
    OccursInMiddle([], a, b + c);
    assert [] + a + (b + c) == a + b + c;
    OccursInMiddle(a, b, c);
    OccursInMiddle(a + b, c, []);
    assert a + b + c + [] == a + b + c;
  }
}
