/** The Turndown conversion as the converter configures it: Turndown walks
    the children of the content root, renders each element's children first
    and then hands the result to the first rule whose filter accepts the
    element. The custom rules (`tables`, the table pass-through rules,
    `codeBlock`, `images`) are modelled as written; what Turndown does by
    itself (escaping, its built-in rules, its blank test, the flanking
    whitespace test, the final trimming, URL resolution) is an `Engine` of
    functions given from outside. Turndown's whitespace collapsing on its
    clone of the tree, before any rule runs, is not modelled: the rules here
    see the tree as the pruning passes left it. */
module TurndownRules {
  import opened Wrappers
  import opened JsString
  import opened Dom
  import opened Selectors
  import opened TableSerializer

  /** Why a conversion throws. */
  datatype Failure =
    | InvalidUrl(src: string)   // `new URL(src, location.href)` rejects an image source
    | NoEngine                  // a complex table cell reaches `turndown` while there is no Turndown
    | NoBody                    // no content area matched and `document.body` is null

  /** What Turndown itself contributes. */
  datatype Engine = Engine(
    escape: string -> string,              // Markdown escaping of a text node outside code
    isBlank: Node -> bool,                 // Turndown's own blank test
    isBlock: Node -> bool,                 // `node.isBlock`
    flanking: Node -> (string, string),    // `node.flankingWhitespace` (leading, trailing)
    builtin: (Node, string) -> string,     // the built-in rules, given the element and its content
    join: (string, string) -> string,      // how a replacement is appended to the output so far
    postProcess: string -> string,         // the trimming after the walk
    resolve: string -> Option<string>,     // `new URL(src, location.href).href`; `None` when it throws
    convertCell: seq<Node> -> Result<string, Failure>  // `turndown(cell.innerHTML)`
  )

  /** The rule that replaces an element, in the order Turndown looks for one. */
  datatype Rule = Blank | Table | PassThrough | CodeBlock | Image | BuiltIn

  /** The pass-through rules `tableStructure`, `tableRow` and `tableCell`. */
  const PassThroughTags: seq<string> := ["thead", "tbody", "tfoot", "tr", "td", "th"]

  /** The blank test rule lookup uses. Turndown's own test already treats a
      table as meaningful when blank, which is what the converter's patch of
      `isBlank` asks for; the patch replaces a property that rule lookup does
      not read, so it adds nothing to Turndown's own test. */
  predicate IsBlank(e: Engine, n: Node)
  {
    !IsTag(n, "table") && e.isBlank(n)
  }

  /** `rules.forNode`: the blank rule first, then the added rules, then Turndown's own. */
  function RuleFor(e: Engine, n: Node): Rule
  {
    if IsBlank(e, n) then Blank
    else if IsTag(n, "table") then Table
    else if n.Element? && n.tag in PassThroughTags then PassThrough
    else if IsTag(n, "pre") then CodeBlock
    else if IsTag(n, "img") then Image
    else BuiltIn
  }

  /** Whatever the engine's own blank test says, a table goes to the `tables` rule. */
  lemma TableGoesToTableRule(e: Engine, n: Node)
    requires IsTag(n, "table")
    ensures RuleFor(e, n) == Table
    ensures !IsBlank(e, n)
  {
  }

  // ----- the codeBlock rule -----

  const LanguagePrefix: string := "language-"

  /** A character of the regular expression class `\w`. */
  predicate IsWordChar(c: char)
  {
    'a' <= c <= 'z' || 'A' <= c <= 'Z' || '0' <= c <= '9' || c == '_'
  }

  /** The length of the run of word characters at the start of `s`. */
  function WordRun(s: string): (n: nat)
    ensures n <= |s|
    ensures forall i :: 0 <= i < n ==> IsWordChar(s[i])
    ensures n < |s| ==> !IsWordChar(s[n])
  {
    if s == [] || !IsWordChar(s[0]) then 0 else 1 + WordRun(s[1..])
  }

  /** `/language-(\w+)/` can match at index `i` of `cls`. */
  predicate LanguageAt(cls: string, i: nat)
  {
    OccursAt(cls, LanguagePrefix, i) && i + |LanguagePrefix| < |cls| && IsWordChar(cls[i + |LanguagePrefix|])
  }

  /** The leftmost index at or after `from` where the pattern matches. */
  function FindLanguage(cls: string, from: nat): (r: Option<nat>)
    ensures r.Some? ==> LanguageAt(cls, r.value)
    decreases |cls| - from
  {
    if from + |LanguagePrefix| >= |cls| then None
    else if LanguageAt(cls, from) then Some(from)
    else FindLanguage(cls, from + 1)
  }

  lemma {:induction false} FindLanguageSpec(cls: string, from: nat)
    ensures var r := FindLanguage(cls, from);
            && (r.Some? ==> from <= r.value && LanguageAt(cls, r.value)
                            && forall j :: from <= j < r.value ==> !LanguageAt(cls, j))
            && (r.None? ==> forall j :: from <= j ==> !LanguageAt(cls, j))
    decreases |cls| - from
  {
    if from + |LanguagePrefix| < |cls| && !LanguageAt(cls, from) {
      FindLanguageSpec(cls, from + 1);
    }
  }

  /** The capture group of `cls.match(/language-(\w+)/)`, or `None` for `null`. */
  function MatchLanguage(cls: string): Option<string>
  {
    match FindLanguage(cls, 0)
    case None => None
    case Some(i) =>
      var start := i + |LanguagePrefix|;
      Some(cls[start .. start + WordRun(cls[start..])])
  }

  /** The capture is the maximal non-empty run of word characters after the
      leftmost `language-` that is followed by one; there is none exactly
      when no `language-` is followed by a word character. */
  lemma MatchLanguageSpec(cls: string)
    ensures MatchLanguage(cls).None? <==> forall j :: 0 <= j ==> !LanguageAt(cls, j)
    ensures MatchLanguage(cls).Some? ==>
              exists i: nat ::
                && LanguageAt(cls, i)
                && (forall j :: 0 <= j < i ==> !LanguageAt(cls, j))
                && var lang := MatchLanguage(cls).value;
                   var start := i + |LanguagePrefix|;
                   && lang != ""
                   && start + |lang| <= |cls|
                   && cls[start .. start + |lang|] == lang
                   && (forall k :: 0 <= k < |lang| ==> IsWordChar(lang[k]))
                   && (start + |lang| == |cls| || !IsWordChar(cls[start + |lang|]))
  {
    MatchLanguageNone(cls);
    MatchLanguageSome(cls);
  }

  lemma MatchLanguageNone(cls: string)
    ensures MatchLanguage(cls).None? <==> forall j :: 0 <= j ==> !LanguageAt(cls, j)
  {
    FindLanguageSpec(cls, 0);
  }

  lemma MatchLanguageSome(cls: string)
    ensures MatchLanguage(cls).Some? ==>
              exists i: nat ::
                && LanguageAt(cls, i)
                && (forall j :: 0 <= j < i ==> !LanguageAt(cls, j))
                && var lang := MatchLanguage(cls).value;
                   var start := i + |LanguagePrefix|;
                   && lang != ""
                   && start + |lang| <= |cls|
                   && cls[start .. start + |lang|] == lang
                   && (forall k :: 0 <= k < |lang| ==> IsWordChar(lang[k]))
                   && (start + |lang| == |cls| || !IsWordChar(cls[start + |lang|]))
  {
    FindLanguageSpec(cls, 0);
    if FindLanguage(cls, 0).Some? {
      var i := FindLanguage(cls, 0).value;
      CaptureAt(cls, i);
      MatchLanguageAt(cls, i);
    }
  }

  lemma MatchLanguageAt(cls: string, i: nat)
    requires FindLanguage(cls, 0) == Some(i)
    ensures var start := i + |LanguagePrefix|;
            MatchLanguage(cls) == Some(cls[start .. start + WordRun(cls[start..])])
  {
  }

  /** The run of word characters after a `language-` that is followed by one
      is non-empty and maximal. */
  lemma CaptureAt(cls: string, i: nat)
    requires LanguageAt(cls, i)
    ensures var start := i + |LanguagePrefix|;
            var lang := cls[start .. start + WordRun(cls[start..])];
            && lang != ""
            && (forall k :: 0 <= k < |lang| ==> IsWordChar(lang[k]))
            && (start + |lang| == |cls| || !IsWordChar(cls[start + |lang|]))
  {
    var start := i + |LanguagePrefix|;
    var n := WordRun(cls[start..]);
    assert cls[start..][0] == cls[start];
    var lang := cls[start .. start + n];
    forall k | 0 <= k < n
      ensures IsWordChar(lang[k])
    {
      assert lang[k] == cls[start..][k];
    }
    if start + n < |cls| {
      assert cls[start + n] == cls[start..][n];
    }
  }

  /** The language of a `pre` element: the class of its first `code`
      descendant, matched against `language-(\w+)`, else the empty string. */
  function CodeLanguage(pre: Node): string
  {
    match QuerySelector(pre, Type("code"))
    case None => ""
    case Some(code) =>
      match MatchLanguage(AttributeOrEmpty(code, "class"))
      case None => ""
      case Some(lang) => lang
  }

  lemma CodeLanguageIsWord(pre: Node)
    ensures forall k :: 0 <= k < |CodeLanguage(pre)| ==> IsWordChar(CodeLanguage(pre)[k])
  {
    match QuerySelector(pre, Type("code"))
    case None =>
    case Some(code) => MatchLanguageSpec(AttributeOrEmpty(code, "class"));
  }

  /** The fenced block the `codeBlock` rule writes. */
  function CodeFence(lang: string, content: string): string
  {
    "\n```" + lang + "\n" + content + "\n```\n\n"
  }

  /** The length of the text before the first `'\n'`. */
  function LineBefore(s: string): (n: nat)
    ensures n <= |s|
    ensures forall i :: 0 <= i < n ==> s[i] != '\n'
    ensures n < |s| ==> s[n] == '\n'
  {
    if s == [] || s[0] == '\n' then 0 else 1 + LineBefore(s[1..])
  }

  /** Reads a fenced block back into its info string and its content. */
  function ReadFence(s: string): Option<(string, string)>
  {
    if |s| < 10 || s[..4] != "\n```" || s[|s| - 6..] != "\n```\n\n" then None
    else
      var inner := s[4..|s| - 6];
      var k := LineBefore(inner);
      if k == |inner| then None else Some((inner[..k], inner[k + 1..]))
  }

  /** A fence gives back its language and its content, whatever the content
      holds, as long as the language is a single line. */
  lemma ReadFenceRoundTrip(lang: string, content: string)
    requires forall k :: 0 <= k < |lang| ==> lang[k] != '\n'
    ensures ReadFence(CodeFence(lang, content)) == Some((lang, content))
  {
    var s := CodeFence(lang, content);
    var inner := lang + "\n" + content;
    assert s == "\n```" + inner + "\n```\n\n";
    assert s[..4] == "\n```";
    assert s[|s| - 6..] == "\n```\n\n";
    assert s[4..|s| - 6] == inner;
    LineBeforeStops(lang, content);
    assert inner[..|lang|] == lang;
    assert inner[|lang| + 1..] == content;
  }

  lemma {:induction false} LineBeforeStops(line: string, rest: string)
    requires forall k :: 0 <= k < |line| ==> line[k] != '\n'
    ensures LineBefore(line + "\n" + rest) == |line|
  {
    if line != [] {
      assert (line + "\n" + rest)[1..] == line[1..] + "\n" + rest;
      LineBeforeStops(line[1..], rest);
    }
  }

  /** What the `codeBlock` rule writes can be read back: its language is the
      code element's language and its content is the block's content. */
  lemma CodeBlockReadable(pre: Node, content: string)
    ensures ReadFence(CodeFence(CodeLanguage(pre), content)) == Some((CodeLanguage(pre), content))
  {
    CodeLanguageIsWord(pre);
    ReadFenceRoundTrip(CodeLanguage(pre), content);
  }

  // ----- the images rule -----

  /** The `images` rule: nothing for an image without a source, the
      resolved source otherwise, with the title when there is one. */
  function ImageMarkdown(e: Engine, img: Node): Result<string, Failure>
  {
    var alt := AttributeOrEmpty(img, "alt");
    var src := AttributeOrEmpty(img, "src");
    var title := AttributeOrEmpty(img, "title");
    if src == "" then Ok("")
    else
      match e.resolve(src)
      case None => Err(InvalidUrl(src))
      case Some(url) =>
        if title == "" then Ok("![" + alt + "](" + url + ")")
        else Ok("![" + alt + "](" + url + " \"" + title + "\")")
  }

  /** The image rule fails exactly when the image has a source that does not
      resolve; an image without a source vanishes; otherwise the output is
      the image link `![alt](url)` to the resolved source, with the title
      quoted before the closing parenthesis exactly when the image has one. */
  lemma ImageMarkdownSpec(e: Engine, img: Node)
    ensures var src := AttributeOrEmpty(img, "src");
            && (ImageMarkdown(e, img).Err? <==> src != "" && e.resolve(src).None?)
            && (ImageMarkdown(e, img).Err? ==> ImageMarkdown(e, img).error == InvalidUrl(src))
            && (src == "" ==> ImageMarkdown(e, img) == Ok(""))
            && (src != "" && e.resolve(src).Some? ==>
                  var out := ImageMarkdown(e, img).value;
                  var head := "![" + AttributeOrEmpty(img, "alt") + "](" + e.resolve(src).value;
                  var title := AttributeOrEmpty(img, "title");
                  && head <= out
                  && out[|out| - 1] == ')'
                  && (title == "" <==> |out| == |head| + 1)
                  && out == head + (if title == "" then ")" else " \"" + title + "\")"))
  {
  }

  // ----- the walk -----

  /** The replacement the chosen rule gives for an element, given the
      element's rendered content. */
  function Replacement(e: Engine, n: Node, content: string): Result<string, Failure>
  {
    match RuleFor(e, n)
    case Blank => Ok(if e.isBlock(n) then "\n\n" else "")
    case Table =>
      (match TableMarkdown(n, e.convertCell)
       case Err(f) => Err(f)
       case Ok(t) => Ok("\n\n" + t + "\n\n"))
    case PassThrough => Ok(content)
    case CodeBlock => Ok(CodeFence(CodeLanguage(n), content))
    case Image => ImageMarkdown(e, n)
    case BuiltIn => Ok(e.builtin(n, content))
  }

  /** `replacementForNode` for an element, and the text of a text node
      (escaped outside code); the first failure below the node wins. */
  function Render(e: Engine, n: Node, inCode: bool): Result<string, Failure>
    decreases n, 1
  {
    match n
    case Text(t) => Ok(if inCode then t else e.escape(t))
    case Element(tag, _, children) =>
      match RenderAll(e, children, inCode || tag == "code")
      case Err(f) => Err(f)
      case Ok(content) =>
        var lead := e.flanking(n).0;
        var trail := e.flanking(n).1;
        var trimmed := if lead != "" || trail != "" then Trim(content) else content;
        match Replacement(e, n, trimmed)
        case Err(f) => Err(f)
        case Ok(r) => Ok(lead + r + trail)
  }

  /** `process`: the children's replacements joined from left to right. */
  function RenderAll(e: Engine, ns: seq<Node>, inCode: bool): Result<string, Failure>
    decreases ns, 0
  {
    if ns == [] then Ok("")
    else
      match RenderAll(e, ns[..|ns| - 1], inCode)
      case Err(f) => Err(f)
      case Ok(out) =>
        match Render(e, ns[|ns| - 1], inCode)
        case Err(f) => Err(f)
        case Ok(r) => Ok(e.join(out, r))
  }

  /** `turndownService.turndown(root)`: the root's children are rendered,
      outside code, and the result post-processed. */
  function Turndown(e: Engine, root: Node): Result<string, Failure>
  {
    match RenderAll(e, Children(root), false)
    case Err(f) => Err(f)
    case Ok(md) => Ok(e.postProcess(md))
  }

  /** Only the `tables` and `images` rules can fail: content without tables
      and images always converts. */
  lemma {:induction false} RenderSucceeds(e: Engine, n: Node, inCode: bool)
    requires !IsTag(n, "img") && !HasDescendantTag(n, "img")
    requires !IsTag(n, "table") && !HasDescendantTag(n, "table")
    ensures Render(e, n, inCode).Ok?
    decreases n, 1
  {
    if n.Element? {
      RenderAllSucceeds(e, n.children, inCode || n.tag == "code");
    }
  }

  lemma {:induction false} RenderAllSucceeds(e: Engine, ns: seq<Node>, inCode: bool)
    requires !AnyTagIn(ns, "img") && !AnyTagIn(ns, "table")
    ensures RenderAll(e, ns, inCode).Ok?
    decreases ns, 0
  {
    if ns != [] {
      var init, last := ns[..|ns| - 1], ns[|ns| - 1];
      assert ns == init + [last];
      AnyTagInAppend(init, [last], "img");
      AnyTagInAppend(init, [last], "table");
      AnyTagInSingle(last, "img");
      AnyTagInSingle(last, "table");
      RenderAllSucceeds(e, init, inCode);
      RenderSucceeds(e, last, inCode);
    }
  }

  /** A root without tables and images below it always converts. */
  lemma TurndownSucceeds(e: Engine, root: Node)
    requires !HasDescendantTag(root, "img") && !HasDescendantTag(root, "table")
    ensures Turndown(e, root).Ok?
  {
    if root.Element? {
      RenderAllSucceeds(e, root.children, false);
    }
  }
}
