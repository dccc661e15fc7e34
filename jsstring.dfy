/** The pieces of ECMAScript string semantics the converter relies on:
    the `\s` character class (which is also what `String.prototype.trim`
    removes), the line terminators that `^`, `$` and `.` respect in a
    multiline regular expression, `trim`, `Array.prototype.join`, and the
    ASCII part of `toLowerCase`. A `string` is a sequence of characters;
    lengths are counted in characters, not in UTF-16 code units. */
module JsString {

  /** ECMAScript WhiteSpace and LineTerminator: the characters `\s` matches. */
  predicate IsWhitespace(c: char)
  {
    c == '\t' || c == '\n' || c == '\U{000B}' || c == '\U{000C}' || c == '\r' || c == ' '
    || c == '\U{00A0}' || c == '\U{1680}' || ('\U{2000}' <= c <= '\U{200A}')
    || c == '\U{2028}' || c == '\U{2029}' || c == '\U{202F}' || c == '\U{205F}'
    || c == '\U{3000}' || c == '\U{FEFF}'
  }

  /** ECMAScript LineTerminator: where a multiline `^` may start and `$` may end,
      and what `.` refuses. */
  predicate IsLineTerminator(c: char)
  {
    c == '\n' || c == '\r' || c == '\U{2028}' || c == '\U{2029}'
  }

  lemma LineTerminatorIsWhitespace(c: char)
    ensures IsLineTerminator(c) ==> IsWhitespace(c)
  {
  }

  /** Number of whitespace characters at the front of `s`. */
  function LeadingWhitespace(s: string): (n: nat)
    ensures n <= |s|
  {
    if s == [] || !IsWhitespace(s[0]) then 0 else 1 + LeadingWhitespace(s[1..])
  }

  /** Number of whitespace characters at the end of `s`. */
  function TrailingWhitespace(s: string): (n: nat)
    ensures n <= |s|
  {
    if s == [] || !IsWhitespace(s[|s| - 1]) then 0 else 1 + TrailingWhitespace(s[..|s| - 1])
  }

  /** Number of copies of `c` at the front of `s`. */
  function LeadingCount(s: string, c: char): (n: nat)
    ensures n <= |s|
    ensures forall i :: 0 <= i < n ==> s[i] == c
    ensures n < |s| ==> s[n] != c
  {
    if s == [] || s[0] != c then 0 else 1 + LeadingCount(s[1..], c)
  }

  /** Number of copies of `c` at the end of `s`. */
  function TrailingCount(s: string, c: char): (n: nat)
    ensures n <= |s|
    ensures forall i :: |s| - n <= i < |s| ==> s[i] == c
    ensures n < |s| ==> s[|s| - n - 1] != c
  {
    if s == [] || s[|s| - 1] != c then 0 else 1 + TrailingCount(s[..|s| - 1], c)
  }

  /** The leading run is all whitespace. */
  lemma {:induction false} LeadingWhitespaceRun(s: string)
    ensures forall i :: 0 <= i < LeadingWhitespace(s) ==> IsWhitespace(s[i])
  {
    if s != [] && IsWhitespace(s[0]) {
      LeadingWhitespaceRun(s[1..]);
    }
  }

  /** The leading run stops at a non-whitespace character. */
  lemma {:induction false} LeadingWhitespaceStop(s: string)
    ensures LeadingWhitespace(s) < |s| ==> !IsWhitespace(s[LeadingWhitespace(s)])
  {
    if s != [] && IsWhitespace(s[0]) {
      LeadingWhitespaceStop(s[1..]);
    }
  }

  /** The trailing run is all whitespace. */
  lemma {:induction false} TrailingWhitespaceRun(s: string)
    ensures forall i :: |s| - TrailingWhitespace(s) <= i < |s| ==> IsWhitespace(s[i])
  {
    if s != [] && IsWhitespace(s[|s| - 1]) {
      TrailingWhitespaceRun(s[..|s| - 1]);
    }
  }

  /** The trailing run stops at a non-whitespace character. */
  lemma {:induction false} TrailingWhitespaceStop(s: string)
    ensures TrailingWhitespace(s) < |s| ==> !IsWhitespace(s[|s| - TrailingWhitespace(s) - 1])
  {
    if s != [] && IsWhitespace(s[|s| - 1]) {
      TrailingWhitespaceStop(s[..|s| - 1]);
    }
  }

  /** `String.prototype.trim`. */
  function Trim(s: string): string
  {
    var t := s[LeadingWhitespace(s)..];
    t[..|t| - TrailingWhitespace(t)]
  }

  /** `trim` removes whitespace from both ends and nothing else: the result
      is the slice of `s` between its leading and its trailing whitespace,
      and begins and ends with a non-whitespace character unless it is empty. */
  lemma TrimSpec(s: string)
    ensures var r := Trim(s);
            && (r == "" || (!IsWhitespace(r[0]) && !IsWhitespace(r[|r| - 1])))
            && LeadingWhitespace(s) + |r| <= |s|
            && r == s[LeadingWhitespace(s)..LeadingWhitespace(s) + |r|]
            && (forall i :: 0 <= i < LeadingWhitespace(s) ==> IsWhitespace(s[i]))
            && (forall i :: LeadingWhitespace(s) + |r| <= i < |s| ==> IsWhitespace(s[i]))
  {
    var n := LeadingWhitespace(s);
    var t := s[n..];
    var r := t[..|t| - TrailingWhitespace(t)];
    LeadingWhitespaceStop(s);
    TrailingWhitespaceStop(t);
    if r != [] {
      assert r[0] == s[n];
      assert r[|r| - 1] == t[|t| - TrailingWhitespace(t) - 1];
    }
    assert r == s[n..n + |r|];
    LeadingWhitespaceRun(s);
    TrimTail(s);
  }

  /** What `trim` cuts at the end is whitespace. */
  lemma TrimTail(s: string)
    ensures var n := LeadingWhitespace(s);
            var t := s[n..];
            forall i :: n + |t| - TrailingWhitespace(t) <= i < |s| ==> IsWhitespace(s[i])
  {
    var n := LeadingWhitespace(s);
    var t := s[n..];
    TrailingWhitespaceRun(t);
    forall i | n + |t| - TrailingWhitespace(t) <= i < |s|
      ensures IsWhitespace(s[i])
    {
      assert s[i] == t[i - n];
    }
  }

  /** A text that starts and ends outside whitespace is its own trim. */
  lemma TrimOfTrimmed(s: string)
    requires s != "" && !IsWhitespace(s[0]) && !IsWhitespace(s[|s| - 1])
    ensures Trim(s) == s
  {
    assert LeadingWhitespace(s) == 0;
    assert TrailingWhitespace(s) == 0;
  }

  /** `trim` gives the empty string exactly when every character is whitespace. */
  lemma TrimEmpty(s: string)
    ensures Trim(s) == "" <==> forall i :: 0 <= i < |s| ==> IsWhitespace(s[i])
  {
    var t := s[LeadingWhitespace(s)..];
    LeadingWhitespaceRun(s);
    LeadingWhitespaceStop(s);
    TrailingWhitespaceRun(t);
    if LeadingWhitespace(s) < |s| {
      assert t[0] == s[LeadingWhitespace(s)];
    }
    if forall i :: 0 <= i < |s| ==> IsWhitespace(s[i]) {
      assert LeadingWhitespace(s) == |s|;
    }
  }

  /** The characters one global `replace` of runs matches: `/\n+/g` when
      `newlinesOnly`, `/\s+/g` otherwise. */
  predicate InRun(c: char, newlinesOnly: bool)
  {
    if newlinesOnly then c == '\n' else IsWhitespace(c)
  }

  /** Length of the run of such characters at the front of `s`. */
  function RunLength(s: string, newlinesOnly: bool): (n: nat)
    ensures n <= |s|
    ensures forall i :: 0 <= i < n ==> InRun(s[i], newlinesOnly)
    ensures n < |s| ==> !InRun(s[n], newlinesOnly)
  {
    if s == [] || !InRun(s[0], newlinesOnly) then 0 else 1 + RunLength(s[1..], newlinesOnly)
  }

  /** `s.replace(/\n+/g, fill)` or `s.replace(/\s+/g, fill)`: every maximal run
      becomes the single character `fill`. */
  function ReplaceRuns(s: string, newlinesOnly: bool, fill: char): string
    decreases |s|
  {
    if s == [] then ""
    else if InRun(s[0], newlinesOnly) then [fill] + ReplaceRuns(s[RunLength(s, newlinesOnly)..], newlinesOnly, fill)
    else [s[0]] + ReplaceRuns(s[1..], newlinesOnly, fill)
  }

  /** After the replacement the only run character left is `fill` itself, no
      two run characters are adjacent, and the first character is `fill`
      exactly when `s` starts with a run. */
  lemma {:induction false} ReplaceRunsSpec(s: string, newlinesOnly: bool, fill: char)
    ensures var r := ReplaceRuns(s, newlinesOnly, fill);
            && (r == "" <==> s == "")
            && (s != "" ==> r[0] == if InRun(s[0], newlinesOnly) then fill else s[0])
            && (forall i :: 0 <= i < |r| && InRun(r[i], newlinesOnly) ==> r[i] == fill)
            && (forall i :: 0 <= i < |r| - 1 ==> !(InRun(r[i], newlinesOnly) && InRun(r[i + 1], newlinesOnly)))
    decreases |s|
  {
    if s != [] {
      if InRun(s[0], newlinesOnly) {
        ReplaceRunsSpec(s[RunLength(s, newlinesOnly)..], newlinesOnly, fill);
      } else {
        ReplaceRunsSpec(s[1..], newlinesOnly, fill);
      }
    }
  }

  /** Cutting after a run character, or before a character outside runs,
      leaves the run at the front where it was. */
  lemma {:induction false} RunLengthAppend(a: string, b: string, newlinesOnly: bool)
    requires RunLength(a, newlinesOnly) < |a| || b == [] || !InRun(b[0], newlinesOnly)
    ensures RunLength(a + b, newlinesOnly) == RunLength(a, newlinesOnly)
  {
    if a == [] {
      assert a + b == b;
    } else if InRun(a[0], newlinesOnly) {
      RunLengthAppend(a[1..], b, newlinesOnly);
      CutPrefix(a, b, 1);
    }
  }

  /** A cut that does not fall inside a run: `a` ends, or `b` starts, with a
      character outside runs. */
  predicate CutOutsideRun(a: string, b: string, newlinesOnly: bool)
  {
    a == [] || b == [] || !InRun(a[|a| - 1], newlinesOnly) || !InRun(b[0], newlinesOnly)
  }

  /** Replacing runs works piecewise on both sides of a cut outside a run. */
  lemma {:induction false} ReplaceRunsAppend(a: string, b: string, newlinesOnly: bool, fill: char)
    requires CutOutsideRun(a, b, newlinesOnly)
    ensures ReplaceRuns(a + b, newlinesOnly, fill) == ReplaceRuns(a, newlinesOnly, fill) + ReplaceRuns(b, newlinesOnly, fill)
    decreases |a|
  {
    if a == [] {
      assert a + b == b;
    } else {
      var n := if InRun(a[0], newlinesOnly) then RunLength(a, newlinesOnly) else 1;
      if InRun(a[0], newlinesOnly) {
        RunLengthAppend(a, b, newlinesOnly);
      }
      ReplaceRunsAppend(a[n..], b, newlinesOnly, fill);
      ReplaceRunsAppendStep(a, b, n, newlinesOnly, fill);
    }
  }

  lemma ReplaceRunsAppendStep(a: string, b: string, n: nat, newlinesOnly: bool, fill: char)
    requires a != [] && n == (if InRun(a[0], newlinesOnly) then RunLength(a, newlinesOnly) else 1)
    requires RunLength(a + b, newlinesOnly) == RunLength(a, newlinesOnly)
    requires ReplaceRuns(a[n..] + b, newlinesOnly, fill) == ReplaceRuns(a[n..], newlinesOnly, fill) + ReplaceRuns(b, newlinesOnly, fill)
    ensures ReplaceRuns(a + b, newlinesOnly, fill) == ReplaceRuns(a, newlinesOnly, fill) + ReplaceRuns(b, newlinesOnly, fill)
  {
    var ab := a + b;
    CutPrefix(a, b, n);
    var head := if InRun(a[0], newlinesOnly) then [fill] else [a[0]];
    ReplaceRunsUnfold(ab, n, newlinesOnly, fill);
    ReplaceRunsUnfold(a, n, newlinesOnly, fill);
    Regroup(ReplaceRuns(ab, newlinesOnly, fill), ReplaceRuns(a, newlinesOnly, fill), head,
            ReplaceRuns(a[n..], newlinesOnly, fill), ReplaceRuns(b, newlinesOnly, fill));
  }

  lemma CutPrefix<T>(a: seq<T>, b: seq<T>, n: nat)
    requires 0 < n <= |a|
    ensures (a + b)[0] == a[0] && (a + b)[..n] == a[..n] && (a + b)[n..] == a[n..] + b
  {
  }

  lemma Associate<T>(a: seq<T>, w: seq<T>, b: seq<T>)
    ensures a + w + b == a + (w + b)
  {
  }

  lemma Regroup<T>(whole: seq<T>, left: seq<T>, head: seq<T>, middle: seq<T>, right: seq<T>)
    requires whole == head + (middle + right) && left == head + middle
    ensures whole == left + right
  {
  }

  /** One step of the replacement: the first character or run, then the rest. */
  lemma ReplaceRunsUnfold(s: string, n: nat, newlinesOnly: bool, fill: char)
    requires s != [] && n == (if InRun(s[0], newlinesOnly) then RunLength(s, newlinesOnly) else 1)
    ensures ReplaceRuns(s, newlinesOnly, fill)
         == (if InRun(s[0], newlinesOnly) then [fill] else [s[0]]) + ReplaceRuns(s[n..], newlinesOnly, fill)
  {
  }

  /** A run in front of text that starts outside runs becomes one `fill`. */
  lemma ReplaceRunsRunThen(w: string, b: string, newlinesOnly: bool, fill: char)
    requires w != [] && forall i :: 0 <= i < |w| ==> InRun(w[i], newlinesOnly)
    requires b == [] || !InRun(b[0], newlinesOnly)
    ensures ReplaceRuns(w + b, newlinesOnly, fill) == [fill] + ReplaceRuns(b, newlinesOnly, fill)
  {
    ReplaceRunsAppend(w, b, newlinesOnly, fill);
    ReplaceRunsOfRun(w, newlinesOnly, fill);
  }

  /** A whole run becomes the single character `fill`. */
  lemma ReplaceRunsOfRun(w: string, newlinesOnly: bool, fill: char)
    requires w != [] && forall i :: 0 <= i < |w| ==> InRun(w[i], newlinesOnly)
    ensures ReplaceRuns(w, newlinesOnly, fill) == [fill]
  {
    assert RunLength(w, newlinesOnly) == |w|;
    assert w[|w|..] == [];
  }

  /** Text without run characters is left as it is. */
  lemma {:induction false} ReplaceRunsOfPlain(s: string, newlinesOnly: bool, fill: char)
    requires forall i :: 0 <= i < |s| ==> !InRun(s[i], newlinesOnly)
    ensures ReplaceRuns(s, newlinesOnly, fill) == s
    decreases |s|
  {
    if s != [] {
      ReplaceRunsOfPlain(s[1..], newlinesOnly, fill);
      assert [s[0]] + s[1..] == s;
    }
  }

  /** A maximal run `w` between `a` and `b` becomes exactly one `fill`, and the
      text on either side is replaced on its own. With `ReplaceRunsOfPlain`
      this pins the result for every input. */
  lemma ReplaceRunsSplit(a: string, w: string, b: string, newlinesOnly: bool, fill: char)
    requires w != [] && forall i :: 0 <= i < |w| ==> InRun(w[i], newlinesOnly)
    requires a == [] || !InRun(a[|a| - 1], newlinesOnly)
    requires b == [] || !InRun(b[0], newlinesOnly)
    ensures ReplaceRuns(a + w + b, newlinesOnly, fill)
         == ReplaceRuns(a, newlinesOnly, fill) + [fill] + ReplaceRuns(b, newlinesOnly, fill)
  {
    var wb := w + b;
    ReplaceRunsRunThen(w, b, newlinesOnly, fill);
    ReplaceRunsAppend(a, wb, newlinesOnly, fill);
    Associate(a, w, b);
    Regroup(ReplaceRuns(a + wb, newlinesOnly, fill), ReplaceRuns(a, newlinesOnly, fill) + [fill], ReplaceRuns(a, newlinesOnly, fill),
            [fill], ReplaceRuns(b, newlinesOnly, fill));
  }

  /** `s` with every run character and every `fill` removed. */
  function Erase(s: string, newlinesOnly: bool, fill: char): string
  {
    if s == [] then ""
    else (if InRun(s[0], newlinesOnly) || s[0] == fill then "" else [s[0]]) + Erase(s[1..], newlinesOnly, fill)
  }

  lemma {:induction false} EraseRun(s: string, n: nat, newlinesOnly: bool, fill: char)
    requires n <= |s| && forall i :: 0 <= i < n ==> InRun(s[i], newlinesOnly)
    ensures Erase(s, newlinesOnly, fill) == Erase(s[n..], newlinesOnly, fill)
  {
    if n > 0 {
      EraseRun(s[1..], n - 1, newlinesOnly, fill);
      assert s[1..][n - 1..] == s[n..];
    }
  }

  lemma {:induction false} EraseAppend(a: string, b: string, newlinesOnly: bool, fill: char)
    ensures Erase(a + b, newlinesOnly, fill) == Erase(a, newlinesOnly, fill) + Erase(b, newlinesOnly, fill)
  {
    if a == [] {
      assert a + b == b;
    } else {
      EraseAppend(a[1..], b, newlinesOnly, fill);
      EraseAppendStep(a, b, newlinesOnly, fill);
    }
  }

  lemma EraseAppendStep(a: string, b: string, newlinesOnly: bool, fill: char)
    requires a != []
    requires Erase(a[1..] + b, newlinesOnly, fill) == Erase(a[1..], newlinesOnly, fill) + Erase(b, newlinesOnly, fill)
    ensures Erase(a + b, newlinesOnly, fill) == Erase(a, newlinesOnly, fill) + Erase(b, newlinesOnly, fill)
  {
    assert (a + b)[1..] == a[1..] + b;
  }

  /** Replacing runs keeps every other character, in order: once the runs
      and the replacement character are erased, nothing else differs. */
  lemma {:induction false} ReplaceRunsKeepsText(s: string, newlinesOnly: bool, fill: char)
    ensures Erase(ReplaceRuns(s, newlinesOnly, fill), newlinesOnly, fill) == Erase(s, newlinesOnly, fill)
    decreases |s|
  {
    if s != [] {
      var n := RunLength(s, newlinesOnly);
      if InRun(s[0], newlinesOnly) {
        ReplaceRunsKeepsText(s[n..], newlinesOnly, fill);
        EraseRun(s, n, newlinesOnly, fill);
        assert ([fill] + ReplaceRuns(s[n..], newlinesOnly, fill))[1..] == ReplaceRuns(s[n..], newlinesOnly, fill);
      } else {
        ReplaceRunsKeepsText(s[1..], newlinesOnly, fill);
        assert ([s[0]] + ReplaceRuns(s[1..], newlinesOnly, fill))[1..] == ReplaceRuns(s[1..], newlinesOnly, fill);
      }
    }
  }

  /** True when `s` has no character at all that `\s` matches. */
  predicate NoWhitespace(s: string)
  {
    forall i :: 0 <= i < |s| ==> !IsWhitespace(s[i])
  }

  /** `Array.prototype.join(sep)` for an array of strings. */
  function Join(parts: seq<string>, sep: string): string
  {
    if parts == [] then ""
    else if |parts| == 1 then parts[0]
    else parts[0] + sep + Join(parts[1..], sep)
  }

  /** The string made of `n` copies of `c`. */
  function Repeat(c: char, n: nat): (r: string)
    ensures |r| == n && forall i :: 0 <= i < n ==> r[i] == c
  {
    if n == 0 then "" else [c] + Repeat(c, n - 1)
  }

  predicate IsAsciiUpper(c: char) { 'A' <= c <= 'Z' }

  /** The ASCII part of `toLowerCase`: other characters are left as they are. */
  function AsciiLower(c: char): (d: char)
    ensures !IsAsciiUpper(d)
    ensures IsWhitespace(d) <==> IsWhitespace(c)
    ensures IsAsciiUpper(c) || d == c
  {
    if IsAsciiUpper(c) then (c as int + 32) as char else c
  }

  /** `String.prototype.toLowerCase`, restricted to the length-preserving ASCII mapping. */
  function ToLowerCase(s: string): (r: string)
    ensures |r| == |s|
    ensures forall i :: 0 <= i < |s| ==> r[i] == AsciiLower(s[i])
  {
    if s == [] then "" else [AsciiLower(s[0])] + ToLowerCase(s[1..])
  }

  /** `String.prototype.substring(0, n)` for a non-negative `n`. */
  function Prefix(s: string, n: nat): (r: string)
    ensures |r| == if |s| <= n then |s| else n
    ensures r <= s
  {
    if |s| <= n then s else s[..n]
  }

  /** True when `needle` occurs in `s` (`String.prototype.includes`). */
  predicate Contains(s: string, needle: string)
  {
    exists i :: 0 <= i <= |s| - |needle| && OccursAt(s, needle, i)
  }

  predicate OccursAt(s: string, needle: string, i: nat)
  {
    i + |needle| <= |s| && s[i..i + |needle|] == needle
  }
}
