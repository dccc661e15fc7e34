/** The popup's text handling: the file name a download is saved under and
    the truncated preview of the converted Markdown. */
module Popup {
  import opened JsString

  /** The characters `/[<>:"/\\|?*]/g` removes. */
  predicate IsForbidden(c: char)
  {
    c == '<' || c == '>' || c == ':' || c == '"' || c == '/' || c == '\\' || c == '|' || c == '?' || c == '*'
  }

  predicate NoForbidden(s: string)
  {
    forall i :: 0 <= i < |s| ==> !IsForbidden(s[i])
  }

  predicate NoAsciiUpper(s: string)
  {
    forall i :: 0 <= i < |s| ==> !IsAsciiUpper(s[i])
  }

  const MaxNameLength: nat := 100

  /** `s.replace(/[<>:"/\\|?*]/g, '')`. */
  function RemoveForbidden(s: string): string
  {
    if s == [] then ""
    else (if IsForbidden(s[0]) then "" else [s[0]]) + RemoveForbidden(s[1..])
  }

  /** The removal leaves no forbidden character, keeps every other one, and
      changes nothing in a name without forbidden characters. */
  lemma {:induction false} RemoveForbiddenSpec(s: string)
    ensures NoForbidden(RemoveForbidden(s))
    ensures forall c :: c in RemoveForbidden(s) <==> c in s && !IsForbidden(c)
    ensures NoForbidden(s) ==> RemoveForbidden(s) == s
  {
    if s != [] {
      RemoveForbiddenSpec(s[1..]);
      assert s == [s[0]] + s[1..];
    }
  }

  /** The removal works character by character: it distributes over
      concatenation. With `RemoveForbiddenSpec` on single characters this
      pins the result: each allowed character is kept, in order, and each
      forbidden one dropped. */
  lemma {:induction false} RemoveForbiddenAppend(a: string, b: string)
    ensures RemoveForbidden(a + b) == RemoveForbidden(a) + RemoveForbidden(b)
  {
    if a == [] {
      assert a + b == b;
    } else {
      RemoveForbiddenAppend(a[1..], b);
      RemoveForbiddenAppendStep(a, b);
    }
  }

  lemma RemoveForbiddenAppendStep(a: string, b: string)
    requires a != []
    requires RemoveForbidden(a[1..] + b) == RemoveForbidden(a[1..]) + RemoveForbidden(b)
    ensures RemoveForbidden(a + b) == RemoveForbidden(a) + RemoveForbidden(b)
  {
    CutPrefix(a, b, 1);
    var head := if IsForbidden(a[0]) then "" else [a[0]];
    Regroup(RemoveForbidden(a + b), RemoveForbidden(a), head, RemoveForbidden(a[1..]), RemoveForbidden(b));
  }

  /** Replacing whitespace runs by a dash brings in no forbidden character. */
  lemma {:induction false} DashesAddNoForbidden(s: string)
    requires NoForbidden(s)
    ensures NoForbidden(ReplaceRuns(s, false, '-'))
    decreases |s|
  {
    if s != [] {
      if InRun(s[0], false) {
        DashesAddNoForbidden(s[RunLength(s, false)..]);
      } else {
        DashesAddNoForbidden(s[1..]);
      }
    }
  }

  /** A name without whitespace has no run to replace. */
  lemma {:induction false} DashesKeepPlainName(s: string)
    requires NoWhitespace(s)
    ensures ReplaceRuns(s, false, '-') == s
    decreases |s|
  {
    if s != [] {
      DashesKeepPlainName(s[1..]);
      assert s == [s[0]] + s[1..];
    }
  }

  /** `sanitizeFilename` in the popup: forbidden characters removed,
      whitespace runs turned into a dash, the first 100 characters kept,
      lower-cased. */
  function SanitizeFilename(filename: string): string
  {
    ToLowerCase(Prefix(Dashed(filename), MaxNameLength))
  }

  /** The first two steps: forbidden characters removed, whitespace runs
      turned into a dash. */
  function Dashed(filename: string): string
  {
    ReplaceRuns(RemoveForbidden(filename), false, '-')
  }

  /** A whitespace run that stays maximal once the forbidden characters are
      gone becomes exactly one dash, and the text on either side is dashed on
      its own. With `DashesKeepPlainName` this pins the name before it is cut
      and lower-cased. */
  lemma SanitizeFilenameSplit(a: string, w: string, b: string)
    requires w != [] && forall i :: 0 <= i < |w| ==> IsWhitespace(w[i])
    requires RemoveForbidden(a) == [] || !IsWhitespace(RemoveForbidden(a)[|RemoveForbidden(a)| - 1])
    requires RemoveForbidden(b) == [] || !IsWhitespace(RemoveForbidden(b)[0])
    ensures Dashed(a + w + b) == Dashed(a) + "-" + Dashed(b)
    ensures SanitizeFilename(a + w + b) == ToLowerCase(Prefix(Dashed(a) + "-" + Dashed(b), MaxNameLength))
  {
    RemoveForbiddenAppend(a + w, b);
    RemoveForbiddenAppend(a, w);
    WhitespaceIsAllowed(w);
    ReplaceRunsSplit(RemoveForbidden(a), w, RemoveForbidden(b), false, '-');
  }

  lemma WhitespaceIsAllowed(w: string)
    requires forall i :: 0 <= i < |w| ==> IsWhitespace(w[i])
    ensures RemoveForbidden(w) == w
  {
    RemoveForbiddenSpec(w);
  }

  /** A sanitized name has no forbidden character, no whitespace, no upper
      case ASCII letter, and at most 100 characters. */
  lemma SanitizeFilenameSpec(filename: string)
    ensures var r := SanitizeFilename(filename);
            NoForbidden(r) && NoWhitespace(r) && NoAsciiUpper(r) && |r| <= MaxNameLength
  {
    var removed := RemoveForbidden(filename);
    RemoveForbiddenSpec(filename);
    var dashed := Dashed(filename);
    ReplaceRunsSpec(removed, false, '-');
    DashesAddNoForbidden(removed);
    var cut := Prefix(dashed, MaxNameLength);
    PrefixKeepsClean(dashed, MaxNameLength);
    LowerKeepsClean(cut);
  }

  lemma PrefixKeepsClean(s: string, n: nat)
    requires NoForbidden(s) && NoWhitespace(s)
    ensures NoForbidden(Prefix(s, n)) && NoWhitespace(Prefix(s, n)) && |Prefix(s, n)| <= n
  {
    var cut := Prefix(s, n);
    assert forall i :: 0 <= i < |cut| ==> cut[i] == s[i];
  }

  /** Lower-casing keeps a name free of forbidden characters and whitespace,
      and leaves no upper case ASCII letter. */
  lemma LowerKeepsClean(s: string)
    requires NoForbidden(s) && NoWhitespace(s)
    ensures var r := ToLowerCase(s);
            NoForbidden(r) && NoWhitespace(r) && NoAsciiUpper(r) && |r| == |s|
  {
    var r := ToLowerCase(s);
    forall i | 0 <= i < |r|
      ensures !IsForbidden(r[i])
    {
      assert r[i] == AsciiLower(s[i]);
    }
  }

  /** A name that is already clean is left as it is. */
  lemma SanitizeFilenameKeepsClean(name: string)
    requires NoForbidden(name) && NoWhitespace(name) && NoAsciiUpper(name) && |name| <= MaxNameLength
    ensures SanitizeFilename(name) == name
  {
    RemoveForbiddenSpec(name);
    DashesKeepPlainName(name);
    assert Prefix(name, MaxNameLength) == name;
    assert ToLowerCase(name) == name;
  }

  /** Sanitizing twice gives what sanitizing once does. */
  lemma SanitizeFilenameIdempotent(filename: string)
    ensures SanitizeFilename(SanitizeFilename(filename)) == SanitizeFilename(filename)
  {
    SanitizeFilenameSpec(filename);
    SanitizeFilenameKeepsClean(SanitizeFilename(filename));
  }

  /** Leading and trailing whitespace become dashes that stay in the name. */
  lemma SpacesAroundBecomeDashes()
    ensures SanitizeFilename(" A ") == "-a-"
  {
    assert RemoveForbidden(" A ") == " A " by {
      RemoveForbiddenSpec(" A ");
    }
    assert RunLength(" A ", false) == 1;
    assert " A "[1..] == "A ";
    assert RunLength("A ", false) == 0;
    assert "A "[1..] == " ";
    assert RunLength(" ", false) == 1;
    assert ReplaceRuns(" ", false, '-') == "-";
    assert ReplaceRuns("A ", false, '-') == "A-";
    assert ReplaceRuns(" A ", false, '-') == "-A-";
    assert ToLowerCase("-A-") == "-a-";
  }

  /** The name used when the page has no title. */
  const UntitledName: string := "网页"

  /** The name `downloadMarkdown` saves under: the sanitized title, or the
      sanitized default name when the title is empty, with `.md`. */
  function DownloadFilename(title: string): string
  {
    SanitizeFilename(if title == "" then UntitledName else title) + ".md"
  }

  /** A download is always saved as a clean name with the `.md` extension;
      an untitled page gives `网页.md`. */
  lemma DownloadFilenameSpec(title: string)
    ensures var f := DownloadFilename(title);
            && |f| >= 3 && f[|f| - 3..] == ".md"
            && NoForbidden(f[..|f| - 3]) && NoWhitespace(f[..|f| - 3]) && |f| <= MaxNameLength + 3
    ensures title == "" ==> DownloadFilename(title) == "网页.md"
  {
    var name := if title == "" then UntitledName else title;
    SanitizeFilenameSpec(name);
    var f := DownloadFilename(title);
    assert f[..|f| - 3] == SanitizeFilename(name);
    if title == "" {
      SanitizeFilenameKeepsClean(UntitledName);
    }
  }

  // ----- the preview -----

  const PreviewLength: nat := 500

  /** `showPreview`: Markdown longer than 500 characters is cut to its first
      500 and marked with `...`. */
  function Preview(markdown: string): string
  {
    if |markdown| > PreviewLength then markdown[..PreviewLength] + "..." else markdown
  }

  /** The preview never exceeds 503 characters, agrees with the Markdown on
      its first 500, shows short Markdown whole, and ends in `...` exactly
      when it is not the whole Markdown. */
  lemma PreviewSpec(markdown: string)
    ensures var p := Preview(markdown);
            && |p| <= PreviewLength + 3
            && (|markdown| <= PreviewLength ==> p == markdown)
            && (|markdown| > PreviewLength ==> p[..PreviewLength] == markdown[..PreviewLength] && p[PreviewLength..] == "...")
            && (p != markdown ==> |markdown| > PreviewLength)
  {
  }
}
