/** `convertPageToMarkdown` and `getTextFromElement`: the page's content
    area is located and pruned, images and links are removed unless the
    options ask to keep them, the result goes through Turndown (or the
    fallback when Turndown is not loaded), the Markdown is cleaned, and the
    page title is put in front as a level-1 heading. Sending the result or
    the error message to the popup is not part of this model: the outcome
    is the returned `Result`. */
module PageConverter {
  import opened Wrappers
  import opened JsString
  import opened Dom
  import opened Pruning
  import opened TurndownRules
  import opened ContentLocator
  import opened FallbackConverter
  import opened MarkdownCleanup

  /** The popup's options; an option that is missing from the message is `None`. */
  datatype Options = Options(includeImages: Option<bool>, includeLinks: Option<bool>)

  /** A missing or `false` option is falsy. */
  predicate Truthy(option: Option<bool>)
  {
    option == Some(true)
  }

  /** The content after the image and link options have been applied. */
  function Prepared(content: Node, options: Options): Node
  {
    var withImages := if Truthy(options.includeImages) then content else StripImages(content);
    if Truthy(options.includeLinks) then withImages else StripLinks(withImages)
  }

  /** Turndown's Markdown when Turndown is loaded, the fallback's otherwise;
      `token` is the random part of the fallback's table placeholders. */
  function RawMarkdown(engine: Option<Engine>, content: Node, token: string): Result<string, Failure>
  {
    match engine
    case Some(e) => Turndown(e, content)
    case None => FallbackMarkdown(content, token)
  }

  /** The title heading in front of the Markdown, when there is a title. */
  function WithTitle(title: string, md: string): string
  {
    if title == "" then md else "# " + title + "\n\n" + md
  }

  /** The Markdown a page converts to, or the error that aborts the conversion. */
  function ConvertedPage(doc: Node, title: string, options: Options, engine: Option<Engine>, token: string): Result<string, Failure>
  {
    match ExtractedContent(doc)
    case Err(f) => Err(f)
    case Ok(content) =>
      match RawMarkdown(engine, Prepared(content, options), token)
      case Err(f) => Err(f)
      case Ok(md) => Ok(WithTitle(title, CleanMarkdown(md)))
  }

  /** `convertPageToMarkdown`. The check that the extracted content is not
      null has no counterpart: extraction returns a clone or throws. */
  method ConvertPageToMarkdown(doc: Node, title: string, options: Options, engine: Option<Engine>, token: string)
    returns (r: Result<string, Failure>)
    ensures r == ConvertedPage(doc, title, options, engine, token)
  {
    var extracted := ExtractContentManually(doc);
    if extracted.Err? {
      return Err(extracted.error);
    }
    var content := extracted.value;
    if !Truthy(options.includeImages) {
      content.RemoveImages();
    }
    if !Truthy(options.includeLinks) {
      content.RemoveLinks();
    }
    var raw: Result<string, Failure>;
    if engine.Some? {
      raw := Turndown(engine.value, content.root);
    } else {
      raw := BasicHtmlToMarkdown(content.root, token);
    }
    if raw.Err? {
      return Err(raw.error);
    }
    var markdown := CleanMarkdown(raw.value);
    if title != "" {
      markdown := "# " + title + "\n\n" + markdown;
    }
    return Ok(markdown);
  }

  /** The options do what they say: without `includeImages` no image is left
      to convert, without `includeLinks` no link is, and neither pass adds a
      table or changes the root element. */
  lemma PreparedSpec(content: Node, options: Options)
    ensures !Truthy(options.includeImages) ==> !HasDescendantTag(Prepared(content, options), "img")
    ensures !Truthy(options.includeLinks) ==> !HasDescendantTag(Prepared(content, options), "a")
    ensures !HasDescendantTag(content, "table") ==> !HasDescendantTag(Prepared(content, options), "table")
    ensures !HasDescendantTag(content, "img") ==> !HasDescendantTag(Prepared(content, options), "img")
    ensures Prepared(content, options).Element? == content.Element?
  {
    var withImages := if Truthy(options.includeImages) then content else StripImages(content);
    StripImagesSpec(content);
    StripImagesAddsNoTag(content, "table");
    StripLinksSpec(withImages);
    StripLinksAddsNoTag(withImages, "table");
    StripLinksAddsNoTag(withImages, "img");
  }

  /** A page whose content area holds no table converts without error,
      provided no image can reach Turndown's image rule: images are
      excluded, or there are none, or Turndown is not loaded. */
  lemma ConversionSucceeds(doc: Node, title: string, options: Options, engine: Option<Engine>, token: string)
    requires ExtractedContent(doc).Ok?
    requires !HasDescendantTag(ExtractedContent(doc).value, "table")
    requires engine.None? || !Truthy(options.includeImages) || !HasDescendantTag(ExtractedContent(doc).value, "img")
    ensures ConvertedPage(doc, title, options, engine, token).Ok?
  {
    var content := ExtractedContent(doc).value;
    PreparedSpec(content, options);
    match engine
    case Some(e) => TurndownSucceeds(e, Prepared(content, options));
    case None => FallbackWithoutTables(Prepared(content, options), token);
  }

  /** A conversion fails exactly when extraction fails or the conversion of
      the prepared content does. */
  lemma ConversionFails(doc: Node, title: string, options: Options, engine: Option<Engine>, token: string)
    ensures ConvertedPage(doc, title, options, engine, token).Err? <==>
              ExtractedContent(doc).Err? ||
              RawMarkdown(engine, Prepared(ExtractedContent(doc).value, options), token).Err?
  {
  }

  /** A converted page is the title heading, when there is a title, followed
      by cleaned Markdown: no run of three newlines, no leading whitespace,
      no trailing line break, and an empty body only for blank input. */
  lemma ConvertedPageShape(doc: Node, title: string, options: Options, engine: Option<Engine>, token: string)
    requires ConvertedPage(doc, title, options, engine, token).Ok?
    ensures var page := ConvertedPage(doc, title, options, engine, token).value;
            exists body ::
              && page == WithTitle(title, body)
              && NoTripleNewline(body)
              && (body != "" ==> !IsWhitespace(body[0]) && !IsLineTerminator(body[|body| - 1]))
    ensures title != "" ==> "# " + title + "\n\n" <= ConvertedPage(doc, title, options, engine, token).value
  {
    var content := ExtractedContent(doc).value;
    var raw := RawMarkdown(engine, Prepared(content, options), token).value;
    CleanMarkdownShape(raw);
    var body := CleanMarkdown(raw);
    assert ConvertedPage(doc, title, options, engine, token).value == WithTitle(title, body);
  }

  // ----- getTextFromElement -----

  /** The text of the text nodes of a sequence of nodes, in order. */
  function TextsOf(ns: seq<Node>): string
  {
    if ns == [] then ""
    else TextsOf(ns[..|ns| - 1]) + (if ns[|ns| - 1].Text? then ns[|ns| - 1].text else "")
  }

  lemma {:induction false} TextsOfAppend(a: seq<Node>, b: seq<Node>)
    ensures TextsOf(a + b) == TextsOf(a) + TextsOf(b)
    decreases |b|
  {
    if b == [] {
      assert a + b == a;
    } else {
      assert (a + b)[..|a + b| - 1] == a + b[..|b| - 1];
      assert (a + b)[|a + b| - 1] == b[|b| - 1];
      TextsOfAppend(a, b[..|b| - 1]);
    }
  }

  /** The text nodes of a subtree, read in document order, spell its `textContent`. */
  lemma {:induction false} TextsOfSubtree(n: Node)
    ensures TextsOf(Subtree(n)) == TextContent(n)
    decreases n, 1
  {
    var rest := if n.Element? then SubtreeAll(n.children) else [];
    TextsOfAppend([n], rest);
    assert [n][..0] == [];
    if n.Element? {
      TextsOfSubtrees(n.children);
    }
  }

  lemma {:induction false} TextsOfSubtrees(ns: seq<Node>)
    ensures TextsOf(SubtreeAll(ns)) == TextContentAll(ns)
    decreases ns, 0
  {
    if ns != [] {
      TextsOfAppend(Subtree(ns[0]), SubtreeAll(ns[1..]));
      TextsOfSubtree(ns[0]);
      TextsOfSubtrees(ns[1..]);
    }
  }

  /** `getTextFromElement`: a text-only tree walker below the element,
      appending each text node's text; for an element this is its
      `textContent`. */
  method GetTextFromElement(element: Node) returns (text: string)
    ensures element.Element? ==> text == TextContent(element)
    ensures element.Text? ==> text == ""
  {
    var nodes := Descendants(element);
    text := "";
    for i := 0 to |nodes|
      invariant text == TextsOf(nodes[..i])
    {
      assert nodes[..i + 1][..i] == nodes[..i];
      if nodes[i].Text? {
        text := text + nodes[i].text;
      }
    }
    assert nodes[..|nodes|] == nodes;
    if element.Element? {
      TextsOfSubtrees(element.children);
    }
  }
}
