/** The background worker's download name. Its `sanitizeFilename` runs the
    same four steps as the popup's and then removes leading and trailing
    dashes; the name to sanitize is the first non-empty of the requested
    file name and the title, else `webpage`. */
module Background {
  import opened Wrappers
  import opened JsString
  import Popup

  /** The number of dashes at the front of `s`. */
  function LeadingDashes(s: string): nat
  {
    LeadingCount(s, '-')
  }

  /** The number of dashes at the end of `s`. */
  function TrailingDashes(s: string): nat
  {
    TrailingCount(s, '-')
  }

  /** `s.replace(/^-+|-+$/g, '')`: the leading run of dashes goes first; a
      trailing run is then removed from what is left. */
  function TrimDashes(s: string): string
  {
    var rest := s[LeadingDashes(s)..];
    rest[..|rest| - TrailingDashes(rest)]
  }

  /** The result is `s` with its leading and its trailing run of dashes cut
      off: a slice of `s` that neither starts nor ends with a dash, with only
      dashes before and after it. A name without dashes at its ends is left as
      it is. */
  lemma TrimDashesSpec(s: string)
    ensures var r := TrimDashes(s);
            var lead := LeadingDashes(s);
            && (r != "" ==> r[0] != '-' && r[|r| - 1] != '-')
            && lead + |r| <= |s| && r == s[lead..lead + |r|]
            && (forall k :: 0 <= k < lead ==> s[k] == '-')
            && (forall k :: lead + |r| <= k < |s| ==> s[k] == '-')
            && (s == "" || (s[0] != '-' && s[|s| - 1] != '-') ==> r == s)
            && (r == "" <==> forall k :: 0 <= k < |s| ==> s[k] == '-')
  {
    var lead := LeadingDashes(s);
    var rest := s[lead..];
    var trail := TrailingDashes(rest);
    var r := TrimDashes(s);
    assert r == s[lead..|s| - trail];
    if r != "" {
      assert r[0] == rest[0];
    }
    if lead < |s| {
      assert rest[0] != '-';
      assert trail < |rest|;
    }
    if forall k :: 0 <= k < |s| ==> s[k] == '-' {
      assert lead == |s|;
    }
    TrimDashesTail(s);
  }

  /** What the trailing cut removes is dashes. */
  lemma TrimDashesTail(s: string)
    ensures var rest := s[LeadingDashes(s)..];
            forall k :: |s| - TrailingDashes(rest) <= k < |s| ==> s[k] == '-'
  {
    var lead := LeadingDashes(s);
    var rest := s[lead..];
    forall k | |s| - TrailingDashes(rest) <= k < |s|
      ensures s[k] == '-'
    {
      assert s[k] == rest[k - lead];
    }
  }

  /** `sanitizeFilename` in the background worker. */
  function SanitizeFilename(filename: string): string
  {
    TrimDashes(Popup.SanitizeFilename(filename))
  }

  /** The result is the popup's name for the same input with its leading and
      trailing dashes cut off: a clean name as in the popup that, in addition,
      neither starts nor ends with a dash. */
  lemma SanitizeFilenameSpec(filename: string)
    ensures var r := SanitizeFilename(filename);
            var p := Popup.SanitizeFilename(filename);
            var lead := LeadingDashes(p);
            && lead + |r| <= |p| && r == p[lead..lead + |r|]
            && (forall k :: 0 <= k < lead ==> p[k] == '-')
            && (forall k :: lead + |r| <= k < |p| ==> p[k] == '-')
            && Popup.NoForbidden(r) && NoWhitespace(r) && Popup.NoAsciiUpper(r) && |r| <= Popup.MaxNameLength
            && (r != "" ==> r[0] != '-' && r[|r| - 1] != '-')
  {
    var p := Popup.SanitizeFilename(filename);
    Popup.SanitizeFilenameSpec(filename);
    TrimDashesSpec(p);
    TrimmedIsClean(p);
  }

  /** Cutting the edge dashes off a clean name leaves a clean name. */
  lemma TrimmedIsClean(p: string)
    requires Popup.NoForbidden(p) && NoWhitespace(p) && Popup.NoAsciiUpper(p) && |p| <= Popup.MaxNameLength
    ensures var r := TrimDashes(p);
            Popup.NoForbidden(r) && NoWhitespace(r) && Popup.NoAsciiUpper(r) && |r| <= Popup.MaxNameLength
  {
    TrimDashesSpec(p);
    var lead := LeadingDashes(p);
    SliceIsClean(p, lead, lead + |TrimDashes(p)|);
  }

  lemma SliceIsClean(p: string, i: nat, j: nat)
    requires i <= j <= |p|
    requires Popup.NoForbidden(p) && NoWhitespace(p) && Popup.NoAsciiUpper(p)
    ensures Popup.NoForbidden(p[i..j]) && NoWhitespace(p[i..j]) && Popup.NoAsciiUpper(p[i..j])
  {
    assert forall k :: 0 <= k < j - i ==> p[i..j][k] == p[i + k];
  }

  /** Sanitizing twice gives what sanitizing once does. */
  lemma SanitizeFilenameIdempotent(filename: string)
    ensures SanitizeFilename(SanitizeFilename(filename)) == SanitizeFilename(filename)
  {
    var r := SanitizeFilename(filename);
    SanitizeFilenameSpec(filename);
    Popup.SanitizeFilenameKeepsClean(r);
    TrimDashesSpec(r);
  }

  /** `x || y`: the first operand when it is a non-empty string. */
  function OrElse(x: Option<string>, y: string): string
  {
    match x
    case Some(s) => if s != "" then s else y
    case None => y
  }

  const DefaultName: string := "webpage"

  /** The name `handleDownloadMarkdown` saves under. */
  function DownloadFilename(filename: Option<string>, title: Option<string>): string
  {
    SanitizeFilename(OrElse(filename, OrElse(title, DefaultName))) + ".md"
  }

  /** A requested file name wins over the title. */
  lemma FilenameWinsOverTitle(filename: string, title: Option<string>)
    requires filename != ""
    ensures DownloadFilename(Some(filename), title) == SanitizeFilename(filename) + ".md"
  {
  }

  /** Without a file name and a title the download is named `webpage.md`. */
  lemma UntitledDownloadName(filename: Option<string>, title: Option<string>)
    requires filename.None? || filename == Some("")
    requires title.None? || title == Some("")
    ensures DownloadFilename(filename, title) == DefaultName + ".md"
  {
    assert OrElse(filename, OrElse(title, DefaultName)) == DefaultName;
    DefaultNameIsClean();
  }

  lemma DefaultNameIsPlain()
    ensures Popup.NoForbidden(DefaultName) && NoWhitespace(DefaultName) && Popup.NoAsciiUpper(DefaultName)
  {
  }

  lemma DefaultNameHasNoEdgeDashes()
    ensures TrimDashes(DefaultName) == DefaultName
  {
    assert LeadingDashes(DefaultName) == 0;
    assert TrailingDashes(DefaultName) == 0;
  }

  lemma DefaultNameIsClean()
    ensures SanitizeFilename(DefaultName) == DefaultName
  {
    DefaultNameIsPlain();
    Popup.SanitizeFilenameKeepsClean(DefaultName);
    DefaultNameHasNoEdgeDashes();
  }

  /** A title made only of forbidden characters and spaces gives a file
      named just `.md`. */
  lemma BlankNameWitness()
    ensures DownloadFilename(None, Some("? *")) == ".md"
  {
    Popup.RemoveForbiddenSpec("? *");
    var removed := Popup.RemoveForbidden("? *");
    assert removed == " " by {
      assert "? *"[1..] == " *";
      assert " *"[1..] == "*";
      assert "*"[1..] == "";
    }
    assert RunLength(" ", false) == 1;
    assert ReplaceRuns(" ", false, '-') == "-";
    assert ToLowerCase("-") == "-";
    assert TrimDashes("-") == "";
  }
}
