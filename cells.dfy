/** How the table serializer turns the raw text of one cell into the text of
    one Markdown table cell, and how a reader gets the text back. */
module CellFormat {
  import opened JsString

  /** `s.replace(/\n+/g, ' ')` or `s.replace(/\s+/g, ' ')`. */
  function CollapseRuns(s: string, newlinesOnly: bool): string
  {
    ReplaceRuns(s, newlinesOnly, ' ')
  }

  /** After collapsing no newline is left, and after collapsing whitespace
      every whitespace character is a lone plain space. */
  lemma CollapseRunsSpec(s: string, newlinesOnly: bool)
    ensures var r := CollapseRuns(s, newlinesOnly);
            && (r == "" <==> s == "")
            && (s != "" && InRun(s[0], newlinesOnly) ==> r[0] == ' ')
            && (s != "" && !InRun(s[0], newlinesOnly) ==> r[0] == s[0])
            && (forall i :: 0 <= i < |r| ==> r[i] != '\n')
            && (!newlinesOnly ==> SingleSpaced(r))
  {
    ReplaceRunsSpec(s, newlinesOnly, ' ');
    var r := CollapseRuns(s, newlinesOnly);
    assert forall i :: 0 <= i < |r| ==> r[i] != '\n' by {
      forall i | 0 <= i < |r|
        ensures r[i] != '\n'
      {
        if r[i] == '\n' {
          assert InRun(r[i], newlinesOnly);
        }
      }
    }
  }

  /** No whitespace other than plain spaces, and never two in a row. */
  predicate SingleSpaced(s: string)
  {
    && (forall i :: 0 <= i < |s| && IsWhitespace(s[i]) ==> s[i] == ' ')
    && (forall i :: 0 <= i < |s| - 1 ==> !(IsWhitespace(s[i]) && IsWhitespace(s[i + 1])))
  }

  /** A single-spaced string has no newline. */
  lemma SingleSpacedOneLine(s: string)
    requires SingleSpaced(s)
    ensures forall i :: 0 <= i < |s| ==> s[i] != '\n'
  {
    forall i | 0 <= i < |s|
      ensures s[i] != '\n'
    {
      if s[i] == '\n' {
        assert IsWhitespace(s[i]);
      }
    }
  }

  /** Trimming keeps a string single-spaced. */
  lemma SingleSpacedTrim(s: string)
    requires SingleSpaced(s)
    ensures SingleSpaced(Trim(s))
  {
    var t := Trim(s);
    var k := LeadingWhitespace(s);
    TrimSpec(s);
    assert forall i :: 0 <= i < |t| ==> t[i] == s[k + i];
  }

  /** `s.replace(/\|/g, '\\|')`. */
  function EscapePipes(s: string): string
  {
    if s == [] then ""
    else (if s[0] == '|' then "\\|" else [s[0]]) + EscapePipes(s[1..])
  }

  /** Escaping leaves no bare pipe, keeps the ends (a leading pipe turns into
      a backslash) and keeps a single-spaced string single-spaced. */
  lemma {:induction false} EscapePipesSpec(s: string)
    ensures var r := EscapePipes(s);
            && (r == "" <==> s == "")
            && (s != "" ==> r[0] == (if s[0] == '|' then '\\' else s[0]) && r[|r| - 1] == s[|s| - 1])
            && (forall i :: 0 <= i < |r| && r[i] == '|' ==> i > 0 && r[i - 1] == '\\')
            && (SingleSpaced(s) ==> SingleSpaced(r))
  {
    if s != [] {
      EscapePipesSpec(s[1..]);
      assert SingleSpaced(s) ==> SingleSpaced(s[1..]) by {
        assert forall i :: 0 <= i < |s[1..]| ==> s[1..][i] == s[i + 1];
      }
    }
  }

  /** The inverse of `EscapePipes`: `\|` reads as `|`. */
  function UnescapePipes(s: string): string
  {
    if s == [] then ""
    else if |s| >= 2 && s[0] == '\\' && s[1] == '|' then "|" + UnescapePipes(s[2..])
    else [s[0]] + UnescapePipes(s[1..])
  }

  lemma {:induction false} UnescapeEscape(s: string)
    ensures UnescapePipes(EscapePipes(s)) == s
  {
    if s != [] {
      UnescapeEscape(s[1..]);
      var rest := EscapePipes(s[1..]);
      EscapePipesSpec(s[1..]);
      if s[0] == '|' {
        assert EscapePipes(s) == "\\|" + rest;
        assert ("\\|" + rest)[2..] == rest;
      } else {
        assert EscapePipes(s) == [s[0]] + rest;
        assert ([s[0]] + rest)[1..] == rest;
        if s[0] == '\\' && rest != [] {
          assert rest[0] != '|';
        }
      }
    }
  }

  /** The text a cell stands for: its raw content with newline runs and
      whitespace runs collapsed and the ends trimmed
      (`replace(/\n+/g, ' ').replace(/\s+/g, ' ').trim()`). */
  function CellText(raw: string): string
  {
    Trim(CollapseRuns(CollapseRuns(raw, true), false))
  }

  /** The cell as written into the row: its text with pipes escaped, or a
      single space when that is empty (`cellContent || ' '`). */
  function NormalizeCell(raw: string): string
  {
    var e := EscapePipes(CellText(raw));
    if e == "" then " " else e
  }

  /** Every cell the serializer writes is well formed. */
  lemma NormalizedCellIsWellFormed(raw: string)
    ensures WellFormedCell(NormalizeCell(raw))
  {
    var collapsed := CollapseRuns(CollapseRuns(raw, true), false);
    CollapseRunsSpec(CollapseRuns(raw, true), false);
    SingleSpacedTrim(collapsed);
    TrimSpec(collapsed);
    EscapedCellIsWellFormed(Trim(collapsed));
  }

  /** A trimmed single-spaced text, pipes escaped, or a lone space for the
      empty text, is a well-formed cell. */
  lemma EscapedCellIsWellFormed(t: string)
    requires SingleSpaced(t)
    requires t == "" || (!IsWhitespace(t[0]) && !IsWhitespace(t[|t| - 1]))
    ensures WellFormedCell(if EscapePipes(t) == "" then " " else EscapePipes(t))
  {
    EscapePipesSpec(t);
    var e := EscapePipes(t);
    if e != "" {
      SingleSpacedOneLine(e);
    }
  }

  /** What every emitted cell looks like: not empty, one line, no run of two
      whitespace characters and no whitespace but plain spaces, trimmed
      unless it is the lone space of an empty cell, and every pipe escaped. */
  predicate WellFormedCell(c: string)
  {
    && c != ""
    && (forall i :: 0 <= i < |c| ==> c[i] != '\n')
    && SingleSpaced(c)
    && (c == " " || (!IsWhitespace(c[0]) && !IsWhitespace(c[|c| - 1])))
    && (forall i :: 0 <= i < |c| && c[i] == '|' ==> i > 0 && c[i - 1] == '\\')
  }

  /** How a reader of the Markdown recovers a cell's text from the piece
      between two pipes: trim it and undo the pipe escapes. */
  function ReadCell(piece: string): string
  {
    UnescapePipes(Trim(piece))
  }

  /** Reading a written cell gives back the cell's text. */
  lemma ReadNormalizedCell(raw: string)
    ensures ReadCell(NormalizeCell(raw)) == CellText(raw)
  {
    var collapsed := CollapseRuns(CollapseRuns(raw, true), false);
    var t := Trim(collapsed);
    var e := EscapePipes(t);
    if t == "" {
      assert e == "";
      TrimOfSpaces(" ");
    } else {
      UnescapeEscape(t);
      TrimSpec(collapsed);
      EscapePipesSpec(t);
      assert !IsWhitespace(e[0]) && !IsWhitespace(e[|e| - 1]) by {
        assert e[0] == '\\' || e[0] == t[0];
      }
      TrimOfTrimmed(e);
    }
  }

  lemma TrimOfSpaces(s: string)
    requires forall i :: 0 <= i < |s| ==> s[i] == ' '
    ensures Trim(s) == ""
  {
    TrimEmpty(s);
  }

  /** Surrounding a well-formed cell by the single spaces of the row syntax
      does not change what a reader gets. */
  lemma ReadPaddedCell(c: string)
    requires WellFormedCell(c)
    ensures ReadCell(" " + c + " ") == ReadCell(c)
  {
    var p := " " + c + " ";
    if c == " " {
      TrimOfSpaces(p);
      TrimOfSpaces(c);
    } else {
      assert LeadingWhitespace(p) == 1 by {
        assert LeadingWhitespace(p[1..]) == 0 by { assert p[1..][0] == c[0]; }
      }
      var t := p[1..];
      assert t == c + " ";
      assert TrailingWhitespace(t) == 1 by {
        assert t[..|t| - 1] == c;
        assert TrailingWhitespace(c) == 0;
      }
      assert Trim(p) == c;
      TrimOfTrimmed(c);
    }
  }
}
