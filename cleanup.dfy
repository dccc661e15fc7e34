/** `cleanMarkdown`: the chain of five rewrites applied to Turndown's output.
    Each regular expression is modelled as a scan over the string that picks
    the match the ECMAScript backtracking matcher picks: `\s` is the full
    ECMAScript whitespace class (newlines included), and in multiline mode
    `^` holds at the start and after a line terminator, `$` at the end and
    before one, and `.` refuses line terminators. */
module MarkdownCleanup {
  import opened Wrappers
  import opened JsString

  // ----- newline runs -----

  /** No three newlines in a row. */
  predicate NoTripleNewline(s: string)
  {
    forall i :: 0 <= i < |s| - 2 ==> !(s[i] == '\n' && s[i + 1] == '\n' && s[i + 2] == '\n')
  }

  /** Number of newlines at the front of `s`. */
  function NewlinePrefix(s: string): nat
  {
    RunLength(s, true)
  }

  lemma NoTripleCons(c: char, y: string)
    requires NoTripleNewline(y)
    requires c == '\n' ==> NewlinePrefix(y) < 2
    ensures NoTripleNewline([c] + y)
  {
    var s := [c] + y;
    forall i | 0 <= i < |s| - 2
      ensures !(s[i] == '\n' && s[i + 1] == '\n' && s[i + 2] == '\n')
    {
      if i > 0 {
        assert s[i] == y[i - 1] && s[i + 1] == y[i] && s[i + 2] == y[i + 1];
      }
    }
  }

  /** A piece without newlines in front of a string keeps it free of triple newlines. */
  lemma NoTripleAfterPlain(p: string, y: string)
    requires forall i :: 0 <= i < |p| ==> p[i] != '\n'
    requires NoTripleNewline(y)
    ensures NoTripleNewline(p + y)
  {
    var s := p + y;
    forall i | 0 <= i < |s| - 2
      ensures !(s[i] == '\n' && s[i + 1] == '\n' && s[i + 2] == '\n')
    {
      if i >= |p| {
        assert s[i] == y[i - |p|] && s[i + 1] == y[i - |p| + 1] && s[i + 2] == y[i - |p| + 2];
      }
    }
  }

  /** A slice of a string without triple newlines has none either. */
  lemma NoTripleSlice(s: string, i: nat, j: nat)
    requires i <= j <= |s| && NoTripleNewline(s)
    ensures NoTripleNewline(s[i..j])
  {
    var t := s[i..j];
    assert forall k :: 0 <= k < |t| ==> t[k] == s[i + k];
  }

  // ----- `.replace(/\n{3,}/g, '\n\n')` -----

  /** Every run of three or more newlines becomes two newlines; shorter runs stay. */
  function CollapseBlankLines(s: string): string
    decreases |s|
  {
    if s == [] then ""
    else if s[0] == '\n' then
      var n := RunLength(s, true);
      (if n >= 3 then "\n\n" else s[..n]) + CollapseBlankLines(s[n..])
    else [s[0]] + CollapseBlankLines(s[1..])
  }

  /** The result has no triple newline and keeps the first character. */
  lemma {:induction false} CollapseBlankLinesSpec(s: string)
    ensures var r := CollapseBlankLines(s);
            && NoTripleNewline(r)
            && (r == "" <==> s == "")
            && (s != "" ==> r[0] == s[0])
    decreases |s|
  {
    if s != [] {
      if s[0] == '\n' {
        var n := RunLength(s, true);
        var rest := CollapseBlankLines(s[n..]);
        CollapseBlankLinesSpec(s[n..]);
        var piece := if n >= 3 then "\n\n" else s[..n];
        assert rest == [] || rest[0] != '\n';
        NoTripleRunThenPlain(piece, rest);
      } else {
        CollapseBlankLinesSpec(s[1..]);
        NoTripleCons(s[0], CollapseBlankLines(s[1..]));
      }
    }
  }

  lemma NoTripleRunThenPlain(a: string, y: string)
    requires |a| <= 2 && NoTripleNewline(y) && (y == [] || y[0] != '\n')
    ensures NoTripleNewline(a + y)
  {
    var s := a + y;
    forall i | 0 <= i < |s| - 2
      ensures !(s[i] == '\n' && s[i + 1] == '\n' && s[i + 2] == '\n')
    {
      if i >= |a| {
        assert s[i] == y[i - |a|] && s[i + 1] == y[i - |a| + 1] && s[i + 2] == y[i - |a| + 2];
      } else {
        assert s[|a|] == y[0];
      }
    }
  }

  /** Text without a triple newline passes unchanged (so the pass is idempotent). */
  lemma {:induction false} CollapseBlankLinesKeeps(s: string)
    requires NoTripleNewline(s)
    ensures CollapseBlankLines(s) == s
    decreases |s|
  {
    if s != [] {
      if s[0] == '\n' {
        var n := RunLength(s, true);
        assert |s| >= 3 ==> !(s[0] == '\n' && s[1] == '\n' && s[2] == '\n');
        NoTripleSlice(s, n, |s|);
        CollapseBlankLinesKeeps(s[n..]);
        assert s[..n] + s[n..] == s;
      } else {
        NoTripleSlice(s, 1, |s|);
        CollapseBlankLinesKeeps(s[1..]);
        assert [s[0]] + s[1..] == s;
      }
    }
  }

  /** Only newlines change: with the newlines erased, input and output agree. */
  lemma {:induction false} CollapseBlankLinesKeepsText(s: string)
    ensures Erase(CollapseBlankLines(s), true, '\n') == Erase(s, true, '\n')
    decreases |s|
  {
    if s != [] {
      var r := CollapseBlankLines(s);
      if s[0] == '\n' {
        var n := RunLength(s, true);
        var piece := if n >= 3 then "\n\n" else s[..n];
        var rest := CollapseBlankLines(s[n..]);
        CollapseBlankLinesKeepsText(s[n..]);
        EraseRun(s, n, true, '\n');
        EraseRun(piece + rest, |piece|, true, '\n');
        assert (piece + rest)[|piece|..] == rest;
      } else {
        CollapseBlankLinesKeepsText(s[1..]);
        assert ([s[0]] + CollapseBlankLines(s[1..]))[1..] == CollapseBlankLines(s[1..]);
      }
    }
  }

  /** One step of the pass: the first character or newline run, then the rest. */
  lemma CollapseBlankLinesUnfold(s: string, n: nat)
    requires s != [] && n == (if s[0] == '\n' then RunLength(s, true) else 1)
    ensures CollapseBlankLines(s) == (if n >= 3 then "\n\n" else s[..n]) + CollapseBlankLines(s[n..])
  {
    assert s[0] != '\n' ==> s[..n] == [s[0]];
  }

  /** The pass works piecewise on both sides of a cut outside a newline run. */
  lemma {:induction false} CollapseBlankLinesAppend(a: string, b: string)
    requires CutOutsideRun(a, b, true)
    ensures CollapseBlankLines(a + b) == CollapseBlankLines(a) + CollapseBlankLines(b)
    decreases |a|
  {
    if a == [] {
      assert a + b == b;
    } else {
      var n := if a[0] == '\n' then RunLength(a, true) else 1;
      if a[0] == '\n' {
        RunLengthAppend(a, b, true);
      }
      CollapseBlankLinesAppend(a[n..], b);
      CollapseBlankLinesAppendStep(a, b, n);
    }
  }

  lemma CollapseBlankLinesAppendStep(a: string, b: string, n: nat)
    requires a != [] && n == (if a[0] == '\n' then RunLength(a, true) else 1)
    requires RunLength(a + b, true) == RunLength(a, true)
    requires CollapseBlankLines(a[n..] + b) == CollapseBlankLines(a[n..]) + CollapseBlankLines(b)
    ensures CollapseBlankLines(a + b) == CollapseBlankLines(a) + CollapseBlankLines(b)
  {
    var ab := a + b;
    CutPrefix(a, b, n);
    var head := if n >= 3 then "\n\n" else a[..n];
    CollapseBlankLinesUnfold(ab, n);
    CollapseBlankLinesUnfold(a, n);
    Regroup(CollapseBlankLines(ab), CollapseBlankLines(a), head, CollapseBlankLines(a[n..]), CollapseBlankLines(b));
  }

  /** A whole run of newlines: three or more become two, fewer stay. */
  lemma CollapseBlankLinesOfRun(w: string)
    requires w != [] && forall i :: 0 <= i < |w| ==> w[i] == '\n'
    ensures CollapseBlankLines(w) == if |w| >= 3 then "\n\n" else w
  {
    assert RunLength(w, true) == |w|;
    assert w[..|w|] == w && w[|w|..] == [];
  }

  /** Text without newlines passes unchanged. */
  lemma {:induction false} CollapseBlankLinesOfPlain(s: string)
    requires forall i :: 0 <= i < |s| ==> s[i] != '\n'
    ensures CollapseBlankLines(s) == s
    decreases |s|
  {
    if s != [] {
      CollapseBlankLinesOfPlain(s[1..]);
      assert [s[0]] + s[1..] == s;
    }
  }

  /** A maximal newline run `w` between `a` and `b` becomes exactly two
      newlines when it has three or more, and stays as it is otherwise; the
      text on either side is rewritten on its own. With
      `CollapseBlankLinesOfPlain` this pins the result for every input. */
  lemma CollapseBlankLinesSplit(a: string, w: string, b: string)
    requires w != [] && forall i :: 0 <= i < |w| ==> w[i] == '\n'
    requires a == [] || a[|a| - 1] != '\n'
    requires b == [] || b[0] != '\n'
    ensures CollapseBlankLines(a + w + b)
         == CollapseBlankLines(a) + (if |w| >= 3 then "\n\n" else w) + CollapseBlankLines(b)
  {
    var wb := w + b;
    CollapseBlankLinesRunThen(w, b);
    assert CutOutsideRun(a, wb, true);
    CollapseBlankLinesAppend(a, wb);
    Associate(a, w, b);
    var piece := if |w| >= 3 then "\n\n" else w;
    Regroup(CollapseBlankLines(a + wb), CollapseBlankLines(a) + piece, CollapseBlankLines(a), piece, CollapseBlankLines(b));
  }

  lemma CollapseBlankLinesRunThen(w: string, b: string)
    requires w != [] && forall i :: 0 <= i < |w| ==> w[i] == '\n'
    requires b == [] || b[0] != '\n'
    ensures CollapseBlankLines(w + b) == (if |w| >= 3 then "\n\n" else w) + CollapseBlankLines(b)
  {
    CollapseBlankLinesAppend(w, b);
    CollapseBlankLinesOfRun(w);
  }

  lemma NewlinePrefixCons(c: char, y: string)
    ensures NewlinePrefix([c] + y) == if c == '\n' then 1 + NewlinePrefix(y) else 0
  {
    assert ([c] + y)[1..] == y;
  }

  /** In a string without triple newlines, a newline is followed by at most
      one more. */
  lemma NewlineThenShortRun(s: string)
    requires NoTripleNewline(s) && s != [] && s[0] == '\n'
    ensures NewlinePrefix(s[1..]) < 2
  {
    assert |s| >= 3 ==> !(s[0] == '\n' && s[1] == '\n' && s[2] == '\n');
    var t := s[1..];
    assert |t| >= 2 ==> t[0] == s[1] && t[1] == s[2];
  }

  // ----- `.replace(/^(#{1,6})\s*(.+)$/gm, '$1 $2')` -----

  /** Number of `#` at the front of `s`. */
  function HashRun(s: string): nat
  {
    LeadingCount(s, '#')
  }

  /** Number of characters before the first line terminator: what a greedy
      `.+` followed by a multiline `$` takes. */
  function LineLength(s: string): (n: nat)
    ensures n <= |s|
    ensures forall i :: 0 <= i < n ==> !IsLineTerminator(s[i])
    ensures n < |s| ==> IsLineTerminator(s[n])
  {
    if s == [] || IsLineTerminator(s[0]) then 0 else 1 + LineLength(s[1..])
  }

  /** The last index at or after `from` that holds no line terminator. */
  function LastInLine(s: string, from: nat): (r: Option<nat>)
    ensures r.Some? ==> from <= r.value < |s| && !IsLineTerminator(s[r.value])
    ensures r.Some? ==> forall k :: r.value < k < |s| ==> IsLineTerminator(s[k])
    ensures r.None? ==> forall k :: from <= k < |s| ==> IsLineTerminator(s[k])
    decreases |s|
  {
    if |s| <= from then None
    else if !IsLineTerminator(s[|s| - 1]) then Some(|s| - 1)
    else LastInLine(s[..|s| - 1], from)
  }

  /** A header match at the start of the text: `$1` is `s[..hashes]`, `$2`
      is `s[text..end]`, and the whitespace between them is dropped. */
  datatype HeaderMatch = HeaderMatch(hashes: nat, text: nat, end: nat)

  /** The pattern can match with `h` hashes and the text group starting at
      `t`: one to six `#`, then whitespace (newlines included), then a
      character that is not a line terminator. */
  predicate HeaderCandidate(s: string, h: nat, t: nat)
  {
    && 1 <= h <= 6 && h <= t < |s|
    && (forall j :: 0 <= j < h ==> s[j] == '#')
    && (forall j :: h <= j < t ==> IsWhitespace(s[j]))
    && !IsLineTerminator(s[t])
  }

  /** The match the backtracking matcher finds at the start of `s`: as many
      hashes as possible, then as much whitespace as still lets `.+` match. */
  function MatchHeader(s: string): (r: Option<HeaderMatch>)
    ensures r.Some? ==> 1 <= r.value.hashes <= r.value.text < r.value.end <= |s|
  {
    var n := HashRun(s);
    var h := if n < 6 then n else 6;
    if h == 0 then None
    else
      var w := RunLength(s[h..], false);
      if h + w < |s| then
        assert s[h + w] == s[h..][w];
        LineTerminatorIsWhitespace(s[h + w]);
        Some(HeaderMatch(h, h + w, h + w + LineLength(s[h + w..])))
      else match LastInLine(s, h)
        case Some(t) => Some(HeaderMatch(h, t, t + LineLength(s[t..])))
        case None =>
          if h > 1 then Some(HeaderMatch(h - 1, h - 1, h - 1 + LineLength(s[h - 1..]))) else None
  }

  /** A match `MatchHeader` reports is one the pattern allows, and its text
      runs to the end of its line. */
  lemma MatchHeaderFound(s: string)
    requires MatchHeader(s).Some?
    ensures var m := MatchHeader(s).value;
            && HeaderCandidate(s, m.hashes, m.text)
            && m.end == m.text + LineLength(s[m.text..])
  {
    var n := HashRun(s);
    var h0 := if n < 6 then n else 6;
    var w := RunLength(s[h0..], false);
    forall j | h0 <= j < h0 + w
      ensures IsWhitespace(s[j])
    {
      assert s[j] == s[h0..][j - h0];
    }
    if h0 + w < |s| {
      assert s[h0 + w] == s[h0..][w];
      LineTerminatorIsWhitespace(s[h0 + w]);
    }
  }

  /** `MatchHeader` finds a match exactly when the pattern can match, and then
      the one the backtracking matcher tries first: the most hashes and,
      among those, the latest start of the text. */
  lemma MatchHeaderBest(s: string)
    ensures var r := MatchHeader(s);
            && (r.None? <==> forall h: nat, t: nat :: !HeaderCandidate(s, h, t))
            && (r.Some? ==>
                  forall h: nat, t: nat :: HeaderCandidate(s, h, t) ==>
                    h < r.value.hashes || (h == r.value.hashes && t <= r.value.text))
  {
    var n := HashRun(s);
    var h0 := if n < 6 then n else 6;
    forall h: nat, t: nat | HeaderCandidate(s, h, t)
      ensures h <= h0
    {
    }
    if h0 > 0 {
      var w := RunLength(s[h0..], false);
      if h0 + w < |s| {
        MatchHeaderFound(s);
        forall h: nat, t: nat | HeaderCandidate(s, h, t) && h == h0
          ensures t <= h0 + w
        {
          assert s[h0 + w] == s[h0..][w];
        }
      } else {
        match LastInLine(s, h0)
        case Some(t0) =>
          MatchHeaderFound(s);
        case None =>
          forall h: nat, t: nat | HeaderCandidate(s, h, t)
            ensures h < h0
          {
          }
          if h0 > 1 {
            MatchHeaderFound(s);
          }
      }
    }
  }

  /** What replaces a header match: the hashes (`$1`), one space, the text (`$2`). */
  function HeaderLine(s: string, m: HeaderMatch): string
    requires m.hashes <= m.text <= m.end <= |s|
  {
    s[..m.hashes] + " " + s[m.text..m.end]
  }

  /** The replacement starts with the first hash, ends inside the line and
      holds no newline. */
  lemma HeaderLineShape(s: string)
    requires MatchHeader(s).Some?
    ensures var m := MatchHeader(s).value;
            var p := HeaderLine(s, m);
            && p != "" && p[0] == s[0]
            && !IsLineTerminator(p[|p| - 1])
            && (forall i :: 0 <= i < |p| ==> p[i] != '\n')
  {
    var m := MatchHeader(s).value;
    MatchHeaderFound(s);
    TextInLine(s, m.text, m.end);
    assert s[..m.hashes][0] == s[0];
    JoinedHeaderShape(s[..m.hashes], s[m.text..m.end]);
  }

  /** The text group of a match holds no line terminator. */
  lemma TextInLine(s: string, t: nat, e: nat)
    requires t < |s| && !IsLineTerminator(s[t]) && e == t + LineLength(s[t..])
    ensures t < e <= |s|
    ensures forall i :: 0 <= i < e - t ==> !IsLineTerminator(s[t..e][i])
  {
    var line := s[t..];
    assert line[0] == s[t];
    forall i | 0 <= i < e - t
      ensures !IsLineTerminator(s[t..e][i])
    {
      assert s[t..e][i] == line[i];
    }
  }

  /** Hashes, a space and a text without line terminators make a piece that
      starts with the hashes, holds no newline and ends inside the line. */
  lemma JoinedHeaderShape(hashes: string, text: string)
    requires hashes != "" && text != ""
    requires forall i :: 0 <= i < |text| ==> !IsLineTerminator(text[i])
    requires forall i :: 0 <= i < |hashes| ==> hashes[i] != '\n'
    ensures var p := hashes + " " + text;
            && p[0] == hashes[0]
            && !IsLineTerminator(p[|p| - 1])
            && (forall i :: 0 <= i < |p| ==> p[i] != '\n')
  {
    var p := hashes + " " + text;
    forall i | 0 <= i < |p|
      ensures p[i] != '\n'
    {
      if i > |hashes| {
        assert p[i] == text[i - |hashes| - 1];
      } else if i < |hashes| {
        assert p[i] == hashes[i];
      }
    }
    assert p[|p| - 1] == text[|text| - 1];
  }

  /** The replacement differs from the text it replaces only in whitespace. */
  lemma HeaderLineErase(s: string)
    requires MatchHeader(s).Some?
    ensures var m := MatchHeader(s).value;
            Erase(HeaderLine(s, m), false, ' ') == Erase(s[..m.end], false, ' ')
  {
    var m := MatchHeader(s).value;
    MatchHeaderFound(s);
    SpaceForGap(s, m.hashes, m.text, m.end);
  }

  /** Putting one space in place of a run of whitespace leaves the text with
      whitespace erased unchanged. */
  lemma SpaceForGap(s: string, a: nat, b: nat, c: nat)
    requires a <= b <= c <= |s|
    requires forall j :: a <= j < b ==> IsWhitespace(s[j])
    ensures Erase(s[..a] + " " + s[b..c], false, ' ') == Erase(s[..c], false, ' ')
  {
    var gap := s[a..b];
    EraseRun(gap, |gap|, false, ' ');
    assert Erase(gap, false, ' ') == "" by {
      assert gap[|gap|..] == "";
    }
    assert Erase(" ", false, ' ') == "" by {
      assert " "[1..] == "";
    }
    EraseAppend(s[..a], " ", false, ' ');
    EraseAppend(s[..a] + " ", s[b..c], false, ' ');
    EraseAppend(s[..a], gap, false, ' ');
    EraseAppend(s[..b], s[b..c], false, ' ');
    assert s[..a] + gap == s[..b];
    assert s[..b] + s[b..c] == s[..c];
  }

  /** The global, multiline header replacement: at every line start where the
      pattern matches, the hashes, one space and the text replace the match;
      the scan then resumes after the match, which ends inside a line. */
  function FixHeaders(s: string, lineStart: bool): string
    decreases |s|
  {
    if s == [] then ""
    else if lineStart && MatchHeader(s).Some? then
      var m := MatchHeader(s).value;
      HeaderLine(s, m) + FixHeaders(s[m.end..], false)
    else [s[0]] + FixHeaders(s[1..], IsLineTerminator(s[0]))
  }

  /** The header pass only removes and inserts whitespace: with all
      whitespace erased, input and output agree. */
  lemma {:induction false} FixHeadersKeepsText(s: string, lineStart: bool)
    ensures Erase(FixHeaders(s, lineStart), false, ' ') == Erase(s, false, ' ')
    decreases |s|
  {
    if s != [] {
      if lineStart && MatchHeader(s).Some? {
        var m := MatchHeader(s).value;
        var rest := FixHeaders(s[m.end..], false);
        FixHeadersKeepsText(s[m.end..], false);
        FixHeadersAtHeader(s);
        HeaderLineErase(s);
        SplitAt(s, m.end);
        EraseCongruent(HeaderLine(s, m), rest, s[..m.end], s[m.end..]);
      } else {
        var rest := FixHeaders(s[1..], IsLineTerminator(s[0]));
        FixHeadersKeepsText(s[1..], IsLineTerminator(s[0]));
        FixHeadersAtOther(s, lineStart);
        SplitAt(s, 1);
        EraseCongruent([s[0]], rest, s[..1], s[1..]);
      }
    }
  }

  lemma SplitAt(s: string, k: nat)
    requires k <= |s|
    ensures s == s[..k] + s[k..]
  {
  }

  /** Erasing whitespace commutes with concatenation: two texts made of
      pieces that agree once erased agree once erased. */
  lemma EraseCongruent(p: string, q: string, a: string, b: string)
    requires Erase(p, false, ' ') == Erase(a, false, ' ')
    requires Erase(q, false, ' ') == Erase(b, false, ' ')
    ensures Erase(p + q, false, ' ') == Erase(a + b, false, ' ')
  {
    EraseAppend(p, q, false, ' ');
    EraseAppend(a, b, false, ' ');
  }

  /** The header pass never lengthens a leading newline run. */
  lemma {:induction false} FixHeadersNewlinePrefix(s: string, lineStart: bool)
    ensures NewlinePrefix(FixHeaders(s, lineStart)) <= NewlinePrefix(s)
    decreases |s|
  {
    if s != [] {
      var r := FixHeaders(s, lineStart);
      NewlinePrefixCons(s[0], s[1..]);
      assert [s[0]] + s[1..] == s;
      if lineStart && MatchHeader(s).Some? {
        var m := MatchHeader(s).value;
        assert r == HeaderLine(s, m) + FixHeaders(s[m.end..], false);
        assert r[0] == '#';
        NewlinePrefixCons(r[0], r[1..]);
        assert [r[0]] + r[1..] == r;
      } else {
        assert r == [s[0]] + FixHeaders(s[1..], IsLineTerminator(s[0]));
        FixHeadersNewlinePrefix(s[1..], IsLineTerminator(s[0]));
        NewlinePrefixCons(s[0], FixHeaders(s[1..], IsLineTerminator(s[0])));
      }
    }
  }

  /** The header pass introduces no triple newline. */
  lemma {:induction false} FixHeadersNoTriple(s: string, lineStart: bool)
    requires NoTripleNewline(s)
    ensures NoTripleNewline(FixHeaders(s, lineStart))
    decreases |s|
  {
    if s != [] {
      if lineStart && MatchHeader(s).Some? {
        var m := MatchHeader(s).value;
        assert FixHeaders(s, lineStart) == HeaderLine(s, m) + FixHeaders(s[m.end..], false);
        NoTripleSlice(s, m.end, |s|);
        FixHeadersNoTriple(s[m.end..], false);
        HeaderLineShape(s);
        NoTripleAfterPlain(HeaderLine(s, m), FixHeaders(s[m.end..], false));
      } else {
        assert FixHeaders(s, lineStart) == [s[0]] + FixHeaders(s[1..], IsLineTerminator(s[0]));
        NoTripleSlice(s, 1, |s|);
        FixHeadersNoTriple(s[1..], IsLineTerminator(s[0]));
        FixHeadersNewlinePrefix(s[1..], IsLineTerminator(s[0]));
        if s[0] == '\n' {
          NewlineThenShortRun(s);
        }
        NoTripleCons(s[0], FixHeaders(s[1..], IsLineTerminator(s[0])));
      }
    }
  }

  /** The header pass keeps the first character. */
  lemma FixHeadersFirst(s: string, lineStart: bool)
    requires s != ""
    ensures var r := FixHeaders(s, lineStart);
            r != "" && r[0] == s[0]
  {
    if lineStart && MatchHeader(s).Some? {
      HeaderLineShape(s);
    }
  }

  /** `s` is not empty and does not end with a line terminator. */
  predicate EndsInsideLine(s: string)
  {
    s != "" && !IsLineTerminator(s[|s| - 1])
  }

  lemma AppendEndsInsideLine(p: string, q: string)
    requires EndsInsideLine(q)
    ensures EndsInsideLine(p + q)
  {
    assert (p + q)[|p + q| - 1] == q[|q| - 1];
  }

  lemma SuffixEndsInsideLine(s: string, k: nat)
    requires EndsInsideLine(s) && k < |s|
    ensures EndsInsideLine(s[k..])
  {
    assert s[k..][|s| - k - 1] == s[|s| - 1];
  }

  /** A piece that ends inside a line, or a non-empty piece followed by a
      text that does, ends inside a line. */
  lemma StepEndsInsideLine(r: string, p: string, rest: string, atEnd: bool)
    requires r == p + rest
    requires atEnd ==> rest == "" && EndsInsideLine(p)
    requires !atEnd ==> EndsInsideLine(rest)
    ensures EndsInsideLine(r)
  {
    if atEnd {
      assert r == p;
    } else {
      AppendEndsInsideLine(p, rest);
    }
  }

  lemma FixHeadersOfEmpty(s: string, lineStart: bool)
    requires |s| == 0
    ensures FixHeaders(s, lineStart) == ""
  {
  }

  lemma FixHeadersAtHeader(s: string)
    requires MatchHeader(s).Some?
    ensures var m := MatchHeader(s).value;
            FixHeaders(s, true) == HeaderLine(s, m) + FixHeaders(s[m.end..], false)
  {
  }

  lemma FixHeadersAtOther(s: string, lineStart: bool)
    requires s != [] && !(lineStart && MatchHeader(s).Some?)
    ensures FixHeaders(s, lineStart) == [s[0]] + FixHeaders(s[1..], IsLineTerminator(s[0]))
  {
  }

  /** A text that ends inside a line still does after the header pass. */
  lemma {:induction false} FixHeadersLast(s: string, lineStart: bool)
    requires EndsInsideLine(s)
    ensures EndsInsideLine(FixHeaders(s, lineStart))
    decreases |s|
  {
    if lineStart && MatchHeader(s).Some? {
      var m := MatchHeader(s).value;
      if m.end < |s| {
        SuffixEndsInsideLine(s, m.end);
        FixHeadersLast(s[m.end..], false);
      } else {
        FixHeadersOfEmpty(s[m.end..], false);
      }
      HeaderLineShape(s);
      FixHeadersAtHeader(s);
      StepEndsInsideLine(FixHeaders(s, lineStart), HeaderLine(s, m), FixHeaders(s[m.end..], false), m.end == |s|);
    } else {
      var flag := IsLineTerminator(s[0]);
      if |s| > 1 {
        SuffixEndsInsideLine(s, 1);
        FixHeadersLast(s[1..], flag);
      } else {
        FixHeadersOfEmpty(s[1..], flag);
      }
      FixHeadersAtOther(s, lineStart);
      StepEndsInsideLine(FixHeaders(s, lineStart), [s[0]], FixHeaders(s[1..], flag), |s| == 1);
    }
  }

  // ----- `.replace(/^\s*[-*+]\s*/gm, '- ')` -----

  predicate IsBullet(c: char)
  {
    c == '-' || c == '*' || c == '+'
  }

  /** A line that looks like a list item: whitespace (newlines included),
      then a marker. */
  predicate LooksLikeBullet(s: string)
  {
    var w := RunLength(s, false);
    w < |s| && IsBullet(s[w])
  }

  /** The pattern can match the first `e` characters of `s` with the marker at `w`. */
  predicate BulletCandidate(s: string, w: nat, e: nat)
  {
    && w < e <= |s|
    && (forall j :: 0 <= j < w ==> IsWhitespace(s[j]))
    && IsBullet(s[w])
    && (forall j :: w < j < e ==> IsWhitespace(s[j]))
  }

  /** The length of the match at the start of `s`, if there is one. */
  function MatchBullet(s: string): (r: Option<nat>)
    ensures r.Some? ==> 1 <= r.value <= |s|
  {
    var w := RunLength(s, false);
    if w < |s| && IsBullet(s[w]) then Some(w + 1 + RunLength(s[w + 1..], false)) else None
  }

  /** The pattern matches exactly when the line looks like a list item, and
      the match is the longest one: both whitespace runs are taken whole. */
  lemma MatchBulletSpec(s: string)
    ensures var r := MatchBullet(s);
            && (r.Some? <==> LooksLikeBullet(s))
            && (r.None? <==> forall w: nat, e: nat :: !BulletCandidate(s, w, e))
            && (r.Some? ==> BulletCandidate(s, RunLength(s, false), r.value))
            && (r.Some? ==> forall w: nat, e: nat :: BulletCandidate(s, w, e) ==> w == RunLength(s, false) && e <= r.value)
  {
    var w0 := RunLength(s, false);
    forall w: nat, e: nat | BulletCandidate(s, w, e)
      ensures w == w0
    {
    }
    if w0 < |s| && IsBullet(s[w0]) {
      var n := RunLength(s[w0 + 1..], false);
      forall j | w0 < j < w0 + 1 + n
        ensures IsWhitespace(s[j])
      {
        assert s[j] == s[w0 + 1..][j - w0 - 1];
      }
      assert BulletCandidate(s, w0, w0 + 1 + n);
      forall w: nat, e: nat | BulletCandidate(s, w, e)
        ensures e <= w0 + 1 + n
      {
        if w0 + 1 + n < |s| {
          assert s[w0 + 1 + n] == s[w0 + 1..][n];
        }
      }
    }
  }

  /** The global, multiline list replacement: at every line start where the
      pattern matches, the match becomes `- `; the scan resumes after the
      match, at a line start when the match ended with a line terminator. */
  function FixBullets(s: string, lineStart: bool): string
    decreases |s|
  {
    if s == [] then ""
    else if lineStart && MatchBullet(s).Some? then
      var e := MatchBullet(s).value;
      "- " + FixBullets(s[e..], IsLineTerminator(s[e - 1]))
    else [s[0]] + FixBullets(s[1..], IsLineTerminator(s[0]))
  }

  /** The list pass never lengthens a leading newline run. */
  lemma {:induction false} FixBulletsNewlinePrefix(s: string, lineStart: bool)
    ensures NewlinePrefix(FixBullets(s, lineStart)) <= NewlinePrefix(s)
    decreases |s|
  {
    if s != [] {
      var r := FixBullets(s, lineStart);
      if lineStart && MatchBullet(s).Some? {
        NewlinePrefixCons('-', r[1..]);
        assert ['-'] + r[1..] == r;
      } else {
        NewlinePrefixCons(s[0], s[1..]);
        assert [s[0]] + s[1..] == s;
        FixBulletsNewlinePrefix(s[1..], IsLineTerminator(s[0]));
        NewlinePrefixCons(s[0], FixBullets(s[1..], IsLineTerminator(s[0])));
      }
    }
  }

  /** The list pass introduces no triple newline. */
  lemma {:induction false} FixBulletsNoTriple(s: string, lineStart: bool)
    requires NoTripleNewline(s)
    ensures NoTripleNewline(FixBullets(s, lineStart))
    decreases |s|
  {
    if s != [] {
      if lineStart && MatchBullet(s).Some? {
        var e := MatchBullet(s).value;
        NoTripleSlice(s, e, |s|);
        FixBulletsNoTriple(s[e..], IsLineTerminator(s[e - 1]));
        NoTripleAfterPlain("- ", FixBullets(s[e..], IsLineTerminator(s[e - 1])));
      } else {
        NoTripleSlice(s, 1, |s|);
        FixBulletsNoTriple(s[1..], IsLineTerminator(s[0]));
        FixBulletsNewlinePrefix(s[1..], IsLineTerminator(s[0]));
        if s[0] == '\n' {
          NewlineThenShortRun(s);
        }
        NoTripleCons(s[0], FixBullets(s[1..], IsLineTerminator(s[0])));
      }
    }
  }

  /** The list pass does not start a text with whitespace that did not. */
  lemma FixBulletsFirst(s: string, lineStart: bool)
    requires s != "" && !IsWhitespace(s[0])
    ensures var r := FixBullets(s, lineStart);
            r != "" && !IsWhitespace(r[0])
  {
  }

  /** A text that ends inside a line still does after the list pass. */
  lemma {:induction false} FixBulletsLast(s: string, lineStart: bool)
    requires EndsInsideLine(s)
    ensures EndsInsideLine(FixBullets(s, lineStart))
    decreases |s|
  {
    if lineStart && MatchBullet(s).Some? {
      var e := MatchBullet(s).value;
      var flag := IsLineTerminator(s[e - 1]);
      if e < |s| {
        SuffixEndsInsideLine(s, e);
        FixBulletsLast(s[e..], flag);
      } else {
        FixBulletsOfEmpty(s[e..], flag);
      }
      FixBulletsAtBullet(s);
      StepEndsInsideLine(FixBullets(s, lineStart), "- ", FixBullets(s[e..], flag), e == |s|);
    } else {
      var flag := IsLineTerminator(s[0]);
      if |s| > 1 {
        SuffixEndsInsideLine(s, 1);
        FixBulletsLast(s[1..], flag);
      } else {
        FixBulletsOfEmpty(s[1..], flag);
      }
      FixBulletsAtOther(s, lineStart);
      StepEndsInsideLine(FixBullets(s, lineStart), [s[0]], FixBullets(s[1..], flag), |s| == 1);
    }
  }

  lemma FixBulletsOfEmpty(s: string, lineStart: bool)
    requires |s| == 0
    ensures FixBullets(s, lineStart) == ""
  {
  }

  lemma FixBulletsAtBullet(s: string)
    requires MatchBullet(s).Some?
    ensures var e := MatchBullet(s).value;
            FixBullets(s, true) == "- " + FixBullets(s[e..], IsLineTerminator(s[e - 1]))
  {
  }

  lemma FixBulletsAtOther(s: string, lineStart: bool)
    requires s != [] && !(lineStart && MatchBullet(s).Some?)
    ensures FixBullets(s, lineStart) == [s[0]] + FixBullets(s[1..], IsLineTerminator(s[0]))
  {
  }

  lemma LooksLikeBulletCons(c: char, y: string)
    ensures IsWhitespace(c) ==> (LooksLikeBullet([c] + y) <==> LooksLikeBullet(y))
    ensures !IsWhitespace(c) ==> (LooksLikeBullet([c] + y) <==> IsBullet(c))
  {
    var s := [c] + y;
    assert s[1..] == y;
    if IsWhitespace(c) {
      assert RunLength(s, false) == 1 + RunLength(y, false);
      assert RunLength(s, false) < |s| ==> s[RunLength(s, false)] == y[RunLength(y, false)];
    }
  }

  /** A line that does not look like a list item is not made to look like one. */
  lemma {:induction false} FixBulletsKeepsNonBullet(s: string, lineStart: bool)
    requires !LooksLikeBullet(s)
    ensures !LooksLikeBullet(FixBullets(s, lineStart))
    decreases |s|
  {
    if s != [] {
      var rest := FixBullets(s[1..], IsLineTerminator(s[0]));
      assert FixBullets(s, lineStart) == [s[0]] + rest;
      LooksLikeBulletCons(s[0], s[1..]);
      assert [s[0]] + s[1..] == s;
      LooksLikeBulletCons(s[0], rest);
      if IsWhitespace(s[0]) {
        FixBulletsKeepsNonBullet(s[1..], IsLineTerminator(s[0]));
      }
    }
  }

  /** Position `i` of `v` starts a line: the text starts at a line start
      (`lineStart`) and `i` is 0, or a line terminator precedes `i`. */
  predicate LineStartAt(v: string, i: nat, lineStart: bool)
  {
    (i == 0 && lineStart) || (0 < i <= |v| && IsLineTerminator(v[i - 1]))
  }

  /** Every line of `v` that looks like a list item starts with `- `. */
  predicate BulletsNormalized(v: string, lineStart: bool)
  {
    forall i :: 0 <= i < |v| && LineStartAt(v, i, lineStart) && LooksLikeBullet(v[i..]) ==>
      i + 1 < |v| && v[i] == '-' && v[i + 1] == ' '
  }

  lemma NormalizedAfterDash(rest: string, flag: bool, lineStart: bool)
    requires BulletsNormalized(rest, flag)
    ensures BulletsNormalized("- " + rest, lineStart)
  {
    var v := "- " + rest;
    forall i | 0 <= i < |v| && LineStartAt(v, i, lineStart) && LooksLikeBullet(v[i..])
      ensures i + 1 < |v| && v[i] == '-' && v[i + 1] == ' '
    {
      if i >= 2 {
        NormalizedAfterDashAt(rest, flag, lineStart, i);
      }
    }
  }

  lemma NormalizedAfterDashAt(rest: string, flag: bool, lineStart: bool, i: nat)
    requires BulletsNormalized(rest, flag)
    requires 2 <= i < |rest| + 2
    requires LineStartAt("- " + rest, i, lineStart) && LooksLikeBullet(("- " + rest)[i..])
    ensures i + 1 < |rest| + 2 && ("- " + rest)[i] == '-' && ("- " + rest)[i + 1] == ' '
  {
    var v := "- " + rest;
    assert v[i - 1] == if i == 2 then ' ' else rest[i - 3];
    assert LineStartAt(rest, i - 2, flag);
    assert v[i..] == rest[i - 2..];
    assert v[i] == rest[i - 2];
  }

  lemma NormalizedAfterChar(c: char, rest: string, lineStart: bool)
    requires BulletsNormalized(rest, IsLineTerminator(c))
    requires lineStart ==> !LooksLikeBullet([c] + rest)
    ensures BulletsNormalized([c] + rest, lineStart)
  {
    var v := [c] + rest;
    assert v[0..] == v;
    forall i | 0 <= i < |v| && LineStartAt(v, i, lineStart) && LooksLikeBullet(v[i..])
      ensures i + 1 < |v| && v[i] == '-' && v[i + 1] == ' '
    {
      if i >= 1 {
        NormalizedAfterCharAt(c, rest, lineStart, i);
      }
    }
  }

  lemma NormalizedAfterCharAt(c: char, rest: string, lineStart: bool, i: nat)
    requires BulletsNormalized(rest, IsLineTerminator(c))
    requires 1 <= i < |rest| + 1
    requires LineStartAt([c] + rest, i, lineStart) && LooksLikeBullet(([c] + rest)[i..])
    ensures i + 1 < |rest| + 1 && ([c] + rest)[i] == '-' && ([c] + rest)[i + 1] == ' '
  {
    var v := [c] + rest;
    assert v[i - 1] == if i == 1 then c else rest[i - 2];
    assert LineStartAt(rest, i - 1, IsLineTerminator(c));
    assert v[i..] == rest[i - 1..];
    assert v[i] == rest[i - 1];
  }

  /** After the list pass every line that looks like a list item starts
      with `- `. */
  lemma {:induction false} FixBulletsNormalizes(s: string, lineStart: bool)
    ensures BulletsNormalized(FixBullets(s, lineStart), lineStart)
    decreases |s|
  {
    if s != [] {
      if lineStart && MatchBullet(s).Some? {
        var e := MatchBullet(s).value;
        FixBulletsNormalizes(s[e..], IsLineTerminator(s[e - 1]));
        BulletStepNormalizes(s);
      } else {
        FixBulletsNormalizes(s[1..], IsLineTerminator(s[0]));
        PlainBulletStepNormalizes(s, lineStart);
      }
    }
  }

  lemma BulletStepNormalizes(s: string)
    requires MatchBullet(s).Some?
    requires var e := MatchBullet(s).value;
             BulletsNormalized(FixBullets(s[e..], IsLineTerminator(s[e - 1])), IsLineTerminator(s[e - 1]))
    ensures BulletsNormalized(FixBullets(s, true), true)
  {
    var e := MatchBullet(s).value;
    var rest := FixBullets(s[e..], IsLineTerminator(s[e - 1]));
    assert FixBullets(s, true) == "- " + rest;
    NormalizedAfterDash(rest, IsLineTerminator(s[e - 1]), true);
  }

  lemma PlainBulletStepNormalizes(s: string, lineStart: bool)
    requires s != [] && !(lineStart && MatchBullet(s).Some?)
    requires BulletsNormalized(FixBullets(s[1..], IsLineTerminator(s[0])), IsLineTerminator(s[0]))
    ensures BulletsNormalized(FixBullets(s, lineStart), lineStart)
  {
    var rest := FixBullets(s[1..], IsLineTerminator(s[0]));
    assert FixBullets(s, lineStart) == [s[0]] + rest;
    if lineStart {
      MatchBulletSpec(s);
      FixBulletsKeepsNonBullet(s, lineStart);
    }
    NormalizedAfterChar(s[0], rest, lineStart);
  }

  /** A marker read as a dash. */
  function AsDash(c: char): char
  {
    if IsBullet(c) then '-' else c
  }

  /** What a reader sees of a text once whitespace is ignored and every list
      marker is read as `-`. */
  function Ink(s: string): string
  {
    var t := Erase(s, false, ' ');
    seq(|t|, i requires 0 <= i < |t| => AsDash(t[i]))
  }

  lemma InkAppend(a: string, b: string)
    ensures Ink(a + b) == Ink(a) + Ink(b)
  {
    EraseAppend(a, b, false, ' ');
  }

  /** Texts that agree once whitespace is erased look the same to a reader. */
  lemma InkOfErased(a: string, b: string)
    requires Erase(a, false, ' ') == Erase(b, false, ' ')
    ensures Ink(a) == Ink(b)
  {
  }

  lemma InkCongruent(p: string, q: string, a: string, b: string)
    requires Ink(p) == Ink(a) && Ink(q) == Ink(b)
    ensures Ink(p + q) == Ink(a + b)
  {
    InkAppend(p, q);
    InkAppend(a, b);
  }

  /** A list-item prefix the pattern matches erases to its marker alone. */
  lemma EraseBulletMatch(s: string)
    requires MatchBullet(s).Some?
    ensures var e := MatchBullet(s).value;
            Erase(s[..e], false, ' ') == [s[RunLength(s, false)]]
  {
    MatchBulletSpec(s);
    var e := MatchBullet(s).value;
    var w := RunLength(s, false);
    var p := s[..e];
    assert forall i :: 0 <= i < w ==> p[i] == s[i];
    EraseRun(p, w, false, ' ');
    var q := p[w..];
    assert q[0] == s[w];
    var tail := q[1..];
    assert forall i :: 0 <= i < |tail| ==> tail[i] == s[w + 1 + i];
    EraseRun(tail, |tail|, false, ' ');
    assert tail[|tail|..] == [];
  }

  /** The step at a list item: the match and `- ` read the same. */
  lemma BulletStepKeepsInk(s: string)
    requires MatchBullet(s).Some?
    ensures var e := MatchBullet(s).value;
            Ink(s[..e]) == Ink("- ")
  {
    EraseBulletMatch(s);
    assert Erase("- ", false, ' ') == "-" by {
      assert "- "[1..] == " ";
      assert " "[1..] == "";
    }
  }

  /** The list pass only rewrites list markers and the whitespace around
      them: with whitespace ignored and every marker read as `-`, input and
      output read the same. So a line keeps everything after its marker. */
  lemma {:induction false} FixBulletsKeepsText(s: string, lineStart: bool)
    ensures Ink(FixBullets(s, lineStart)) == Ink(s)
    decreases |s|
  {
    if s != [] {
      if lineStart && MatchBullet(s).Some? {
        var e := MatchBullet(s).value;
        FixBulletsKeepsText(s[e..], IsLineTerminator(s[e - 1]));
        BulletStepKeepsText(s);
      } else {
        FixBulletsKeepsText(s[1..], IsLineTerminator(s[0]));
        PlainStepKeepsText(s, lineStart);
      }
    }
  }

  lemma BulletStepKeepsText(s: string)
    requires MatchBullet(s).Some?
    requires var e := MatchBullet(s).value;
             Ink(FixBullets(s[e..], IsLineTerminator(s[e - 1]))) == Ink(s[e..])
    ensures Ink(FixBullets(s, true)) == Ink(s)
  {
    var e := MatchBullet(s).value;
    var rest := FixBullets(s[e..], IsLineTerminator(s[e - 1]));
    FixBulletsAtBullet(s);
    BulletStepKeepsInk(s);
    SplitAt(s, e);
    InkCongruent("- ", rest, s[..e], s[e..]);
  }

  lemma PlainStepKeepsText(s: string, lineStart: bool)
    requires s != [] && !(lineStart && MatchBullet(s).Some?)
    requires Ink(FixBullets(s[1..], IsLineTerminator(s[0]))) == Ink(s[1..])
    ensures Ink(FixBullets(s, lineStart)) == Ink(s)
  {
    var rest := FixBullets(s[1..], IsLineTerminator(s[0]));
    FixBulletsAtOther(s, lineStart);
    SplitAt(s, 1);
    assert s[..1] == [s[0]];
    InkCongruent([s[0]], rest, s[..1], s[1..]);
  }

  // ----- `.replace(/^\n+|\n+$/g, '')` -----

  /** Number of newlines at the end of `s`. */
  function TrailingNewlines(s: string): nat
  {
    TrailingCount(s, '\n')
  }

  /** Without the multiline flag `^` and `$` only hold at the ends of the
      text, so the newlines at the very start and the very end go. */
  function StripOuterNewlines(s: string): string
  {
    var t := s[NewlinePrefix(s)..];
    t[..|t| - TrailingNewlines(t)]
  }

  /** The result is a piece of the input with only newlines around it, and
      it neither starts nor ends with a newline. */
  lemma StripOuterNewlinesSpec(s: string)
    ensures var r := StripOuterNewlines(s);
            var a := NewlinePrefix(s);
            && a + |r| <= |s|
            && r == s[a..a + |r|]
            && (forall i :: 0 <= i < a ==> s[i] == '\n')
            && (forall i :: a + |r| <= i < |s| ==> s[i] == '\n')
            && (r != "" ==> r[0] != '\n' && r[|r| - 1] != '\n')
  {
    var a := NewlinePrefix(s);
    var t := s[a..];
    var b := TrailingNewlines(t);
    StripOuterNewlinesPiece(s, a, b);
    TrailingNewlinesOfSuffix(s, a, b);
    StripOuterNewlinesEnds(s, a, b);
  }

  lemma StripOuterNewlinesPiece(s: string, a: nat, b: nat)
    requires a == NewlinePrefix(s) && b == TrailingNewlines(s[a..])
    ensures StripOuterNewlines(s) == s[a..|s| - b]
  {
  }

  lemma TrailingNewlinesOfSuffix(s: string, a: nat, b: nat)
    requires a == NewlinePrefix(s) && b == TrailingNewlines(s[a..])
    ensures forall i :: |s| - b <= i < |s| ==> s[i] == '\n'
  {
    var t := s[a..];
    assert forall i :: |s| - b <= i < |s| ==> s[i] == t[i - a];
  }

  lemma StripOuterNewlinesEnds(s: string, a: nat, b: nat)
    requires a == NewlinePrefix(s) && b == TrailingNewlines(s[a..])
    ensures a + b < |s| ==> s[a] != '\n' && s[|s| - b - 1] != '\n'
  {
    var t := s[a..];
    if a + b < |s| {
      assert t[0] == s[a];
      assert t[|t| - b - 1] == s[|s| - b - 1];
    }
  }

  /** The pass changes nothing exactly when the text neither starts nor ends
      with a newline. */
  lemma StripOuterNewlinesKeeps(s: string)
    ensures StripOuterNewlines(s) == s <==> s == "" || (s[0] != '\n' && s[|s| - 1] != '\n')
  {
    StripOuterNewlinesSpec(s);
    if s != "" && s[0] != '\n' && s[|s| - 1] != '\n' {
      assert NewlinePrefix(s) == 0;
      assert s[0..] == s;
      assert TrailingNewlines(s) == 0;
      assert s[..|s|] == s;
    }
  }

  // ----- the whole chain -----

  /** `cleanMarkdown`: collapse blank lines, trim, fix headers, fix list
      markers, strip the outer newlines. */
  function CleanMarkdown(markdown: string): string
  {
    StripOuterNewlines(FixBullets(FixHeaders(Trim(CollapseBlankLines(markdown)), true), true))
  }

  /** The two line passes applied to the trimmed text. */
  function LinePasses(markdown: string): string
  {
    FixBullets(FixHeaders(Trim(CollapseBlankLines(markdown)), true), true)
  }

  /** Collapsing blank lines keeps a text all-whitespace or not. */
  lemma {:induction false} CollapseBlankLinesBlank(s: string)
    ensures AllWhitespace(CollapseBlankLines(s)) <==> AllWhitespace(s)
    decreases |s|
  {
    if s != [] {
      var n := if s[0] == '\n' then RunLength(s, true) else 1;
      var piece := if s[0] != '\n' then [s[0]] else if n >= 3 then "\n\n" else s[..n];
      var rest := CollapseBlankLines(s[n..]);
      assert CollapseBlankLines(s) == piece + rest;
      CollapseBlankLinesBlank(s[n..]);
      AllWhitespaceAppend(piece, rest);
      AllWhitespaceAppend(s[..n], s[n..]);
      assert s[..n] + s[n..] == s;
      assert AllWhitespace(piece) <==> AllWhitespace(s[..n]) by {
        if s[0] == '\n' {
          assert AllWhitespace(piece) && AllWhitespace(s[..n]);
        } else {
          assert piece == s[..n];
        }
      }
    }
  }

  predicate AllWhitespace(s: string)
  {
    forall i :: 0 <= i < |s| ==> IsWhitespace(s[i])
  }

  lemma AllWhitespaceAppend(a: string, b: string)
    ensures AllWhitespace(a + b) <==> AllWhitespace(a) && AllWhitespace(b)
  {
    if AllWhitespace(a) && AllWhitespace(b) {
      forall i | 0 <= i < |a + b|
        ensures IsWhitespace((a + b)[i])
      {
        if i >= |a| {
          assert (a + b)[i] == b[i - |a|];
        }
      }
    }
    if AllWhitespace(a + b) {
      forall i | 0 <= i < |a|
        ensures IsWhitespace(a[i])
      {
        assert (a + b)[i] == a[i];
      }
      forall i | 0 <= i < |b|
        ensures IsWhitespace(b[i])
      {
        assert (a + b)[|a| + i] == b[i];
      }
    }
  }

  /** The trimmed text starts and ends outside whitespace and keeps the no
      triple newline property; the line passes keep both. */
  lemma LinePassesShape(markdown: string)
    ensures var t := Trim(CollapseBlankLines(markdown));
            var u := LinePasses(markdown);
            && NoTripleNewline(u)
            && (u == "" <==> t == "")
            && (u != "" ==> !IsWhitespace(u[0]) && !IsLineTerminator(u[|u| - 1]))
  {
    var c := CollapseBlankLines(markdown);
    var t := Trim(c);
    var h := FixHeaders(t, true);
    CollapseBlankLinesSpec(markdown);
    TrimSpec(c);
    NoTripleSlice(c, LeadingWhitespace(c), LeadingWhitespace(c) + |t|);
    FixHeadersNoTriple(t, true);
    FixBulletsNoTriple(h, true);
    if t != "" {
      LineTerminatorIsWhitespace(t[|t| - 1]);
      FixHeadersFirst(t, true);
      FixHeadersLast(t, true);
      FixBulletsFirst(h, true);
      FixBulletsLast(h, true);
    }
  }

  /** The last pass has nothing left to do: the line passes never leave a
      newline at either end. */
  lemma StripPassIsIdentity(markdown: string)
    ensures StripOuterNewlines(LinePasses(markdown)) == LinePasses(markdown)
  {
    LinePassesShape(markdown);
    StripOuterNewlinesKeeps(LinePasses(markdown));
  }

  /** The cleaned text never holds three newlines in a row, starts with no
      whitespace and does not end with a line terminator. */
  lemma CleanMarkdownShape(markdown: string)
    ensures var r := CleanMarkdown(markdown);
            && NoTripleNewline(r)
            && (r != "" ==> !IsWhitespace(r[0]) && !IsLineTerminator(r[|r| - 1]))
  {
    LinePassesShape(markdown);
    StripPassIsIdentity(markdown);
  }

  /** The cleaned text is empty exactly when the input is all whitespace. */
  lemma CleanMarkdownEmpty(markdown: string)
    ensures CleanMarkdown(markdown) == "" <==> AllWhitespace(markdown)
  {
    LinePassesShape(markdown);
    StripPassIsIdentity(markdown);
    CollapseBlankLinesBlank(markdown);
    TrimEmpty(CollapseBlankLines(markdown));
  }

  /** In the cleaned text every line that looks like a list item starts
      with `- `. */
  lemma CleanMarkdownBullets(markdown: string)
    ensures BulletsNormalized(CleanMarkdown(markdown), true)
  {
    StripPassIsIdentity(markdown);
    FixBulletsNormalizes(FixHeaders(Trim(CollapseBlankLines(markdown)), true), true);
  }

  /** Erasing newlines first changes nothing once all whitespace is erased. */
  lemma {:induction false} EraseNewlinesFirst(s: string)
    ensures Erase(Erase(s, true, '\n'), false, ' ') == Erase(s, false, ' ')
  {
    if s != [] {
      EraseNewlinesFirst(s[1..]);
      var head := if s[0] == '\n' then "" else [s[0]];
      EraseAppend(head, Erase(s[1..], true, '\n'), false, ' ');
      if s[0] != '\n' {
        assert head[1..] == [];
      }
    }
  }

  /** Cutting whitespace from both ends changes nothing once whitespace is erased. */
  lemma EraseAround(s: string, a: nat, k: nat)
    requires a + k <= |s|
    requires forall i :: 0 <= i < a ==> IsWhitespace(s[i])
    requires forall i :: a + k <= i < |s| ==> IsWhitespace(s[i])
    ensures Erase(s[a..a + k], false, ' ') == Erase(s, false, ' ')
  {
    EraseRun(s, a, false, ' ');
    var t := s[a..];
    assert forall i :: k <= i < |t| ==> t[i] == s[a + i];
    EraseDropBack(t, k);
    assert t[..k] == s[a..a + k];
  }

  /** Cutting trailing whitespace changes nothing once whitespace is erased. */
  lemma EraseDropBack(t: string, k: nat)
    requires k <= |t|
    requires forall i :: k <= i < |t| ==> IsWhitespace(t[i])
    ensures Erase(t[..k], false, ' ') == Erase(t, false, ' ')
  {
    BlankSlice(t, k, |t|);
    assert t[k..|t|] == t[k..];
    assert t == t[..k] + t[k..];
    EraseAppend(t[..k], t[k..], false, ' ');
  }

  /** A slice made of whitespace erases to nothing. */
  lemma BlankSlice(s: string, i: nat, j: nat)
    requires i <= j <= |s|
    requires forall k :: i <= k < j ==> IsWhitespace(s[k])
    ensures Erase(s[i..j], false, ' ') == ""
  {
    var x := s[i..j];
    assert forall k :: 0 <= k < |x| ==> x[k] == s[i + k];
    EraseRun(x, |x|, false, ' ');
    assert x[|x|..] == [];
  }

  /** Cleaning changes only whitespace and list markers: with whitespace
      ignored and every marker read as `-`, the cleaned Markdown reads as the
      input did. No text is lost, duplicated or reordered. */
  lemma CleanMarkdownKeepsText(markdown: string)
    ensures Ink(CleanMarkdown(markdown)) == Ink(markdown)
  {
    var h := FixHeaders(Trim(CollapseBlankLines(markdown)), true);
    FirstPassesKeepText(markdown);
    InkOfErased(h, markdown);
    FixBulletsKeepsText(h, true);
    StripPassIsIdentity(markdown);
  }

  /** Collapsing blank lines, trimming and the header pass change only whitespace. */
  lemma FirstPassesKeepText(markdown: string)
    ensures Erase(FixHeaders(Trim(CollapseBlankLines(markdown)), true), false, ' ') == Erase(markdown, false, ' ')
  {
    var c := CollapseBlankLines(markdown);
    var t := Trim(c);
    CollapseKeepsErased(markdown);
    TrimKeepsErased(c);
    FixHeadersKeepsText(t, true);
  }

  lemma CollapseKeepsErased(s: string)
    ensures Erase(CollapseBlankLines(s), false, ' ') == Erase(s, false, ' ')
  {
    CollapseBlankLinesKeepsText(s);
    EraseNewlinesFirst(s);
    EraseNewlinesFirst(CollapseBlankLines(s));
  }

  lemma TrimKeepsErased(s: string)
    ensures Erase(Trim(s), false, ' ') == Erase(s, false, ' ')
  {
    TrimSpec(s);
    EraseAround(s, LeadingWhitespace(s), |Trim(s)|);
  }

  // ----- what the patterns do to inputs they were not written for -----

  /** On its own, `##` is split by the header pattern: `#{1,6}` gives back
      one hash so that `.+` can match. */
  lemma HeaderPassSplitsHashes(s: string, r: string)
    requires s == "##" && r == "# #"
    ensures FixHeaders(s, true) == r
  {
    assert HashRun(s[1..]) == 1;
    assert HashRun(s) == 2;
    assert RunLength(s[2..], false) == 0;
    assert LastInLine(s, 2) == None;
    assert s[1..] == "#" && LineLength("#") == 1;
    var m := HeaderMatch(1, 1, 2);
    assert MatchHeader(s) == Some(m);
    assert HeaderLine(s, m) == "# #";
    assert FixHeaders(s, true) == "# #" + FixHeaders("", false);
  }

  /** The cleanup of a text that has no blank-line run to collapse, no
      whitespace at its ends, and whose line passes give a text without
      newlines at its ends, is what the line passes give. */
  lemma CleanMarkdownOfPasses(s: string, headers: string, bullets: string)
    requires NoTripleNewline(s) && s != "" && !IsWhitespace(s[0]) && !IsWhitespace(s[|s| - 1])
    requires FixHeaders(s, true) == headers && FixBullets(headers, true) == bullets
    requires bullets == "" || (bullets[0] != '\n' && bullets[|bullets| - 1] != '\n')
    ensures CleanMarkdown(s) == bullets
  {
    CollapseBlankLinesKeeps(s);
    TrimOfTrimmed(s);
    StripOuterNewlinesKeeps(bullets);
  }

  /** A lone `##` comes out of the cleanup as `# #`. */
  lemma HashesAreSplit()
    ensures CleanMarkdown("##") == "# #"
  {
    HashesCleanup("##", "# #");
  }

  lemma HashesCleanup(s: string, r: string)
    requires s == "##" && r == "# #"
    ensures CleanMarkdown(s) == r
  {
    HeaderPassSplitsHashes(s, r);
    assert RunLength(r, false) == 0;
    FixBulletsOneLine(r, true);
    CleanMarkdownOfPasses(s, r, r);
  }

  lemma BulletPassOnBold(s: string, r: string)
    requires s == "**a**" && r == "- *a**"
    ensures FixBullets(s, true) == r
  {
    assert RunLength(s, false) == 0;
    assert RunLength(s[1..], false) == 0;
    assert MatchBullet(s) == Some(1);
    FixBulletsOneLine(s[1..], false);
  }

  /** Bold text at the start of a line is taken for a list item. */
  lemma BoldBecomesListItem()
    ensures CleanMarkdown("**a**") == "- *a**"
  {
    BoldCleanup("**a**", "- *a**");
  }

  lemma BoldCleanup(s: string, r: string)
    requires s == "**a**" && r == "- *a**"
    ensures CleanMarkdown(s) == r
  {
    FixHeadersNoHash(s, true);
    BulletPassOnBold(s, r);
    CleanMarkdownOfPasses(s, s, r);
  }

  /** A lone marker becomes `- `. */
  lemma BulletPassOnMarker(s: string, r: string)
    requires s == "-" && r == "- "
    ensures FixBullets(s, true) == r
  {
    assert RunLength(s, false) == 0 && s[1..] == "" && RunLength("", false) == 0;
    assert MatchBullet(s) == Some(1);
    assert FixBullets(s, true) == "- " + FixBullets("", false);
  }

  /** The list pattern's `\s*` runs over line ends: the first match eats the
      newline, and the next line still counts as a line start. */
  lemma BulletPassMergesLines(s: string, r: string)
    requires s == "-\n-" && r == "- - "
    ensures FixBullets(s, true) == r
  {
    assert RunLength(s, false) == 0;
    assert s[1..] == "\n-" && RunLength("\n-", false) == 1;
    assert MatchBullet(s) == Some(2);
    assert s[2..] == "-";
    BulletPassOnMarker("-", "- ");
  }

  /** Two marker lines merge into one line that ends in a space. */
  lemma BulletLinesMerge()
    ensures CleanMarkdown("-\n-") == "- - "
  {
    MergedCleanup("-\n-", "- - ");
  }

  lemma MergedCleanup(s: string, r: string)
    requires s == "-\n-" && r == "- - "
    ensures CleanMarkdown(s) == r
  {
    FixHeadersNoHash(s, true);
    BulletPassMergesLines(s, r);
    CleanMarkdownOfPasses(s, s, r);
  }

  lemma TrimDropsTrailingSpace(t: string, r: string)
    requires t == "- - " && r == "- -"
    ensures Trim(t) == r
  {
    assert LeadingWhitespace(t) == 0;
    assert TrailingWhitespace(t[..3]) == 0;
    assert TrailingWhitespace(t) == 1;
    assert t[0..] == t;
  }

  lemma BulletPassKeepsItem(u: string)
    requires u == "- -"
    ensures FixBullets(u, true) == u
  {
    assert RunLength(u, false) == 0;
    assert u[1..] == " -" && RunLength(" -", false) == 1;
    assert MatchBullet(u) == Some(2);
    assert u[2..] == "-";
    FixBulletsOneLine("-", false);
  }

  lemma CleanMergedItem(s: string, r: string)
    requires s == "- - " && r == "- -"
    ensures CleanMarkdown(s) == r
  {
    CollapseBlankLinesKeeps(s);
    TrimDropsTrailingSpace(s, r);
    FixHeadersNoHash(r, true);
    BulletPassKeepsItem(r);
    StripOuterNewlinesKeeps(r);
  }

  /** Cleaning a cleaned text can change it again. */
  lemma CleanMarkdownNotIdempotent()
    ensures CleanMarkdown(CleanMarkdown("-\n-")) != CleanMarkdown("-\n-")
  {
    BulletLinesMerge();
    CleanMergedItem("- - ", "- -");
  }

  /** A text without `#` passes the header pass unchanged. */
  lemma {:induction false} FixHeadersNoHash(s: string, lineStart: bool)
    requires forall i :: 0 <= i < |s| ==> s[i] != '#'
    ensures FixHeaders(s, lineStart) == s
    decreases |s|
  {
    if s != [] {
      FixHeadersNoHash(s[1..], IsLineTerminator(s[0]));
      assert [s[0]] + s[1..] == s;
    }
  }

  /** A single line on which the list pattern does not match at the start
      passes the list pass unchanged. */
  lemma {:induction false} FixBulletsOneLine(s: string, lineStart: bool)
    requires forall i :: 0 <= i < |s| ==> !IsLineTerminator(s[i])
    requires lineStart ==> MatchBullet(s).None?
    ensures FixBullets(s, lineStart) == s
    decreases |s|
  {
    if s != [] {
      FixBulletsOneLine(s[1..], false);
      assert [s[0]] + s[1..] == s;
    }
  }
}
