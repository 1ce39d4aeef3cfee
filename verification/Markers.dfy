/** Span markers in log messages: first-occurrence search and trimming of the label. */
module Markers {
  import opened Sequences
  import opened Wrappers

  const START := "SpanStart:"
  const END := "SpanEnd:"

  datatype Marker = StartOf(name: string) | EndOf(name: string) | NoMarker

  predicate OccursAt(s: string, pattern: string, i: nat) {
    i + |pattern| <= |s| && s[i..i + |pattern|] == pattern
  }

  ghost predicate Occurs(s: string, pattern: string) {
    exists i: nat :: OccursAt(s, pattern, i)
  }

  /** `r` is the position of the first occurrence of `pattern` in `s`, or None if there is none. */
  ghost predicate IsFirst(s: string, pattern: string, r: Option<nat>) {
    match r
    case Some(i) => OccursAt(s, pattern, i) && forall j: nat | j < i :: !OccursAt(s, pattern, j)
    case None => !Occurs(s, pattern)
  }

  /** The position of the first occurrence of `pattern` in `s`. */
  function Find(s: string, pattern: string): (r: Option<nat>)
    ensures IsFirst(s, pattern, r)
  {
    if OccursAt(s, pattern, 0) then Some(0)
    else if s == [] then None
    else
      var r := Find(s[1..], pattern);
      FirstFromTail(s, pattern, r);
      if r.Some? then Some(r.value + 1) else None
  }

  lemma OccursInTail(s: string, pattern: string, j: nat)
    requires s != []
    ensures OccursAt(s, pattern, j + 1) <==> OccursAt(s[1..], pattern, j)
  {
    if j + 1 + |pattern| <= |s| {
      assert s[1..][j..j + |pattern|] == s[j + 1..j + 1 + |pattern|];
    }
  }

  lemma FirstFromTail(s: string, pattern: string, r: Option<nat>)
    requires s != [] && !OccursAt(s, pattern, 0) && IsFirst(s[1..], pattern, r)
    ensures IsFirst(s, pattern, if r.Some? then Some(r.value + 1) else None)
  {
    forall j: nat | j > 0 ensures OccursAt(s, pattern, j) <==> OccursAt(s[1..], pattern, j - 1) {
      OccursInTail(s, pattern, j - 1);
    }
    if r.Some? {
      OccursInTail(s, pattern, r.value);
    }
  }

  /** The characters with the Unicode property White_Space. */
  predicate IsWhitespace(c: char) {
    '\U{9}' <= c <= '\U{D}' || c == ' ' || c == '\U{85}' || c == '\U{A0}' || c == '\U{1680}'
    || '\U{2000}' <= c <= '\U{200A}' || c == '\U{2028}' || c == '\U{2029}' || c == '\U{202F}'
    || c == '\U{205F}' || c == '\U{3000}'
  }

  /** They are 25 code points. */
  lemma WhitespaceCodePoints(c: char)
    ensures IsWhitespace(c) <==>
              c as int in {9, 10, 11, 12, 13, 32, 133, 160, 5760, 8192, 8193, 8194, 8195, 8196, 8197, 8198, 8199, 8200,
                           8201, 8202, 8232, 8233, 8239, 8287, 12288}
  {
  }

  function TrimStart(s: string): (r: string)
    ensures |r| <= |s|
  {
    if s != [] && IsWhitespace(s[0]) then TrimStart(s[1..]) else s
  }

  function TrimEnd(s: string): (r: string)
    ensures |r| <= |s|
  {
    if s != [] && IsWhitespace(s[|s| - 1]) then TrimEnd(s[..|s| - 1]) else s
  }

  function Trim(s: string): string {
    TrimEnd(TrimStart(s))
  }

  /** How the analysis reads a log message: a start marker anywhere wins over an end marker. */
  function ReadMarker(msg: string): Marker {
    match Find(msg, START)
    case Some(i) => StartOf(Trim(msg[i + |START|..]))
    case None =>
      match Find(msg, END)
      case Some(i) => EndOf(Trim(msg[i + |END|..]))
      case None => NoMarker
  }

  // ---------- What trimming does ----------

  lemma {:induction false} TrimStartDropsWhitespace(s: string)
    ensures |TrimStart(s)| <= |s| && TrimStart(s) == s[|s| - |TrimStart(s)|..]
    ensures forall k | 0 <= k < |s| - |TrimStart(s)| :: IsWhitespace(s[k])
    ensures TrimStart(s) == [] || !IsWhitespace(TrimStart(s)[0])
  {
    if s != [] && IsWhitespace(s[0]) {
      TrimStartDropsWhitespace(s[1..]);
    }
  }

  lemma {:induction false} TrimEndDropsWhitespace(s: string)
    ensures |TrimEnd(s)| <= |s| && TrimEnd(s) == s[..|TrimEnd(s)|]
    ensures forall k | |TrimEnd(s)| <= k < |s| :: IsWhitespace(s[k])
    ensures TrimEnd(s) == [] || !IsWhitespace(TrimEnd(s)[|TrimEnd(s)| - 1])
  {
    if s != [] && IsWhitespace(s[|s| - 1]) {
      TrimEndDropsWhitespace(s[..|s| - 1]);
    }
  }

  /** Trimming removes exactly the white space at both ends. */
  lemma TrimMeaning(s: string, before: string, core: string, after: string)
    requires s == before + core + after
    requires forall k | 0 <= k < |before| :: IsWhitespace(before[k])
    requires forall k | 0 <= k < |after| :: IsWhitespace(after[k])
    requires core != [] ==> !IsWhitespace(core[0]) && !IsWhitespace(core[|core| - 1])
    ensures Trim(s) == core
  {
    var t := TrimStart(s);
    TrimStartDropsWhitespace(s);
    TrimEndDropsWhitespace(t);
    if core == [] {
      assert forall k | 0 <= k < |s| :: IsWhitespace(s[k]);
    } else {
      assert s[|before|] == core[0] && s[|before| + |core| - 1] == core[|core| - 1];
      assert |s| - |t| == |before|;
      assert t == core + after;
      assert t[|core| - 1] == core[|core| - 1];
      assert |TrimEnd(t)| == |core|;
    }
  }

  // ---------- Markers neither overlap themselves nor straddle one another ----------

  /** A colon ends the pattern and occurs nowhere else in it. */
  predicate ColonTerminated(p: string) {
    p != [] && p[|p| - 1] == ':' && forall i | 0 <= i < |p| - 1 :: p[i] != ':'
  }

  /** An occurrence of `q` in `before + p + after` lies in one of the outer parts or ends with `p`. */
  lemma NoStraddle(before: string, p: string, after: string, q: string, i: nat)
    requires ColonTerminated(p) && ColonTerminated(q)
    requires OccursAt(before + p + after, q, i)
    ensures i + |q| <= |before| || i >= |before| + |p| || i + |q| == |before| + |p|
  {
    var s := before + p + after;
    var colon := |before| + |p| - 1;
    assert s[colon] == ':';
    assert s[i + |q| - 1] == ':';
    assert forall k | |before| <= k < colon :: s[k] != ':' by {
      forall k | |before| <= k < colon ensures s[k] != ':' {
        assert s[k] == p[k - |before|];
      }
    }
    assert forall k | i <= k < i + |q| - 1 :: s[k] != ':' by {
      forall k | i <= k < i + |q| - 1 ensures s[k] != ':' {
        assert s[k] == s[i..i + |q|][k - i];
      }
    }
  }

  /** A start marker in `before + END + after` lies in `before` or in `after`. */
  lemma StartAroundEnd(before: string, after: string)
    ensures Occurs(before + END + after, START) <==> Occurs(before, START) || Occurs(after, START)
  {
    var s := before + END + after;
    if i: nat :| OccursAt(s, START, i) {
      assert OccursAt(before + END + after, START, i);
      NoStraddle(before, END, after, START, i);
      assert s[|before|] == END[0];
      assert s[i + 2] == s[i..i + |START|][2] == START[2];
      OccursInPart(before, END, after, START, i);
    }
    OccursInWhole(before, END, after, START);
  }

  lemma OccursInPart(before: string, p: string, after: string, q: string, i: nat)
    requires OccursAt(before + p + after, q, i)
    ensures i + |q| <= |before| ==> OccursAt(before, q, i)
    ensures i >= |before| + |p| ==> OccursAt(after, q, i - |before| - |p|)
  {
    var s := before + p + after;
    if i + |q| <= |before| {
      assert before[i..i + |q|] == s[i..i + |q|];
    }
    if i >= |before| + |p| {
      var j := i - |before| - |p|;
      assert after[j..j + |q|] == s[i..i + |q|];
    }
  }

  lemma OccursInWholeAt(before: string, p: string, after: string, q: string, i: nat)
    ensures OccursAt(before, q, i) ==> OccursAt(before + p + after, q, i)
    ensures OccursAt(after, q, i) ==> OccursAt(before + p + after, q, |before| + |p| + i)
  {
    if OccursAt(before, q, i) {
      SliceOfFirst(before + p, after, i, |q|);
      SliceOfFirst(before, p, i, |q|);
    }
    if OccursAt(after, q, i) {
      SliceOfSecond(before + p, after, i, |q|);
    }
  }

  lemma OccursInWhole(before: string, p: string, after: string, q: string)
    ensures Occurs(before, q) ==> Occurs(before + p + after, q)
    ensures Occurs(after, q) ==> Occurs(before + p + after, q)
  {
    if i: nat :| OccursAt(before, q, i) {
      OccursInWholeAt(before, p, after, q, i);
    }
    if i: nat :| OccursAt(after, q, i) {
      OccursInWholeAt(before, p, after, q, i);
    }
  }

  /** If `p` does not occur in `before`, the first `p` in `before + p + after` is the one written there. */
  lemma FindWritten(before: string, p: string, after: string)
    requires ColonTerminated(p)
    ensures Find(before + p + after, p).Some?
    ensures Occurs(before, p) ==> Find(before + p + after, p).value + |p| <= |before|
    ensures !Occurs(before, p) ==> Find(before + p + after, p) == Some(|before|)
  {
    var s := before + p + after;
    assert s[|before|..|before| + |p|] == p;
    assert OccursAt(s, p, |before|);
    var i := Find(s, p).value;
    NoStraddle(before, p, after, p, i);
    OccursInPart(before, p, after, p, i);
    if j: nat :| OccursAt(before, p, j) {
      OccursInWholeAt(before, p, after, p, j);
    }
  }

  /** Where the trimmed text lies in the original. */
  lemma {:induction false} TrimRange(s: string) returns (i: nat, j: nat)
    ensures i <= j <= |s| && |Trim(s)| == j - i
    ensures forall k | 0 <= k < i :: IsWhitespace(s[k])
    ensures forall k | j <= k < |s| :: IsWhitespace(s[k])
    ensures i < j ==> !IsWhitespace(s[i]) && !IsWhitespace(s[j - 1])
    ensures Trim(s) == s[i..j]
  {
    var t := TrimStart(s);
    TrimStartDropsWhitespace(s);
    TrimEndDropsWhitespace(t);
    i := |s| - |t|;
    j := i + |TrimEnd(t)|;
    forall k | j <= k < |s| ensures IsWhitespace(s[k]) {
      assert s[k] == t[k - i];
    }
    if i < j {
      assert s[i] == t[0];
      assert s[j - 1] == t[j - 1 - i] == TrimEnd(t)[j - 1 - i];
    }
    assert Trim(s) == t[..j - i] == s[i..j];
  }

  /** Text that still contains a visible character before `rest` trims to something longer than `rest` does. */
  lemma LongerTextTrimsDifferently(text: string, cut: nat, rest: string)
    requires cut < |text| && !IsWhitespace(text[cut]) && rest == text[cut + 1..]
    ensures |Trim(text)| > |Trim(rest)|
  {
    var i, j := TrimRange(text);
    var m, n := TrimRange(rest);
    if m < n {
      assert text[cut + n] == rest[n - 1];
    }
  }

  /** A start message announces its label exactly when no earlier start marker precedes it. */
  lemma {:induction false} StartMarkerRead(before: string, name: string)
    ensures ReadMarker(before + "SpanStart:" + name) == StartOf(Trim(name)) <==> !Occurs(before, "SpanStart:")
  {
    var s := before + START + name;
    FindWritten(before, START, name);
    var i := Find(s, START).value;
    if Occurs(before, START) {
      var text := s[i + |START|..];
      var cut := |before| - i - 1;
      assert text[cut] == s[|before| + |START| - 1] == ':';
      assert text[cut + 1..] == name;
      LongerTextTrimsDifferently(text, cut, name);
    } else {
      assert s[i + |START|..] == name;
    }
  }

  lemma {:induction false} EndReadAfterMarker(before: string, name: string)
    requires Occurs(before, END) && !Occurs(before + END + name, START)
    ensures ReadMarker(before + END + name) != EndOf(Trim(name))
  {
    var s := before + END + name;
    FindWritten(before, END, name);
    var text := s[Find(s, END).value + |END|..];
    var cut := |before| - Find(s, END).value - 1;
    assert text[cut] == s[|before| + |END| - 1] == ':';
    assert text[cut + 1..] == name;
    LongerTextTrimsDifferently(text, cut, name);
  }

  /** An end message closes its label exactly when no marker precedes it and no start marker is in the label. */
  lemma EndMarkerRead(before: string, name: string)
    ensures ReadMarker(before + "SpanEnd:" + name) == EndOf(Trim(name))
       <==> !Occurs(before, "SpanStart:") && !Occurs(before, "SpanEnd:") && !Occurs(name, "SpanStart:")
  {
    var s := before + END + name;
    StartAroundEnd(before, name);
    if !Occurs(s, START) {
      if Occurs(before, END) {
        EndReadAfterMarker(before, name);
      } else {
        FindWritten(before, END, name);
        assert s[|before| + |END|..] == name;
      }
    }
  }

  /** Start and end messages written around the same label refer to the same span label. */
  lemma MarkersPairUp(startPrefix: string, endPrefix: string, name: string)
    requires !Occurs(startPrefix, "SpanStart:")
    requires !Occurs(endPrefix, "SpanStart:") && !Occurs(endPrefix, "SpanEnd:")
    requires !Occurs(name, "SpanStart:")
    ensures ReadMarker(startPrefix + "SpanStart:" + name) == StartOf(Trim(name))
    ensures ReadMarker(endPrefix + "SpanEnd:" + name) == EndOf(Trim(name))
  {
    StartMarkerRead(startPrefix, name);
    EndMarkerRead(endPrefix, name);
  }
}
