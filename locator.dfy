/** `extractContentManually`: the first of a fixed list of content-area
    selectors that matches anything in the document picks the element to
    convert; that element is cloned and the clone pruned. When none
    matches, the converter falls back to `document.body`. */
module ContentLocator {
  import opened Wrappers
  import opened Dom
  import opened Selectors
  import opened Pruning
  import opened TableSerializer
  import opened TurndownRules

  /** The content-area selectors, most specific first. */
  const ContentSelectors: seq<Selector> := [
    Class("wiki-content"),
    Id("main-content"),
    Type("main"),
    Type("article"),
    Class("content"),
    Class("post-content"),
    Class("entry-content"),
    Class("article-content"),
    Id("content"),
    Id("main"),
    Class("main-content"),
    Type("body")
  ]

  /** `document.querySelector(sel)` on a document whose root element is
      `doc`: the first element in document order, the root element
      included, that matches. */
  function DocumentQuery(doc: Node, sel: Selector): Option<Node>
  {
    match FirstIndex(Subtree(doc), sel)
    case Some(i) => Some(Subtree(doc)[i])
    case None => None
  }

  /** `document.body`: when the root element is an `html` element, its first
      child that is a `body` or a `frameset`; `None` for `null` otherwise. */
  function DocumentBody(doc: Node): Option<Node>
  {
    if !IsTag(doc, "html") then None
    else
      match FirstIndex(Children(doc), TypeList(["body", "frameset"]))
      case Some(i) => Some(Children(doc)[i])
      case None => None
  }

  /** The element found by the first selector of `sels` that matches anything. */
  function FirstMatch(doc: Node, sels: seq<Selector>): Option<Node>
  {
    if sels == [] then None
    else
      match DocumentQuery(doc, sels[0])
      case Some(n) => Some(n)
      case None => FirstMatch(doc, sels[1..])
  }

  /** The pruned clone that `extractContentManually` returns, or the error
      thrown when the fallback reads a null `document.body`. */
  function ExtractedContent(doc: Node): Result<Node, Failure>
  {
    match FirstMatch(doc, ContentSelectors)
    case Some(n) => Ok(RemoveUnwanted(n, UnwantedSelectors))
    case None =>
      match DocumentBody(doc)
      case Some(b) => Ok(RemoveUnwanted(b, UnwantedSelectors))
      case None => Err(NoBody)
  }

  /** The element a query returns is an element of the document that matches. */
  lemma DocumentQuerySpec(doc: Node, sel: Selector)
    ensures DocumentQuery(doc, sel).None? <==>
              forall j :: 0 <= j < |Subtree(doc)| ==> !Matches(sel, Subtree(doc)[j])
    ensures DocumentQuery(doc, sel).Some? ==>
              DocumentQuery(doc, sel).value in Subtree(doc) && Matches(sel, DocumentQuery(doc, sel).value)
  {
    FirstIndexSpec(Subtree(doc), sel);
  }

  /** `FirstMatch` takes the result of the first selector whose query finds
      something, and finds nothing only when no query does. */
  lemma {:induction false} FirstMatchSpec(doc: Node, sels: seq<Selector>)
    ensures FirstMatch(doc, sels).None? <==> forall k :: 0 <= k < |sels| ==> DocumentQuery(doc, sels[k]).None?
    ensures FirstMatch(doc, sels).Some? ==>
              exists k :: 0 <= k < |sels|
                && DocumentQuery(doc, sels[k]) == FirstMatch(doc, sels)
                && forall j :: 0 <= j < k ==> DocumentQuery(doc, sels[j]).None?
  {
    if sels != [] && DocumentQuery(doc, sels[0]).None? {
      FirstMatchSpec(doc, sels[1..]);
      if FirstMatch(doc, sels).Some? {
        var k :| 0 <= k < |sels[1..]|
                 && DocumentQuery(doc, sels[1..][k]) == FirstMatch(doc, sels[1..])
                 && forall j :: 0 <= j < k ==> DocumentQuery(doc, sels[1..][j]).None?;
        assert DocumentQuery(doc, sels[k + 1]) == FirstMatch(doc, sels);
      }
    } else if sels != [] {
      assert DocumentQuery(doc, sels[0]) == FirstMatch(doc, sels);
    }
  }

  /** Every tree of a forest lies in the forest's subtrees. */
  lemma {:induction false} ChildInSubtrees(ns: seq<Node>, i: nat)
    requires i < |ns|
    ensures ns[i] in SubtreeAll(ns)
  {
    if i == 0 {
      assert SubtreeAll(ns)[0] == ns[0];
    } else {
      ChildInSubtrees(ns[1..], i - 1);
    }
  }

  /** Extraction fails exactly when no content selector matches anything and
      the document has no `body` or `frameset` below its root element. */
  lemma ExtractionFails(doc: Node)
    ensures ExtractedContent(doc).Err? <==>
              (forall k :: 0 <= k < |ContentSelectors| ==> DocumentQuery(doc, ContentSelectors[k]).None?)
              && DocumentBody(doc).None?
  {
    FirstMatchSpec(doc, ContentSelectors);
  }

  /** The fallback to `document.body` is reached only for a frameset
      document: a `body` element would have matched the last selector. */
  lemma BodyFallbackIsFrameset(doc: Node)
    requires FirstMatch(doc, ContentSelectors).None?
    ensures DocumentBody(doc).Some? ==> IsTag(DocumentBody(doc).value, "frameset")
  {
    FirstMatchSpec(doc, ContentSelectors);
    var i := FirstIndex(Children(doc), TypeList(["body", "frameset"]));
    FirstIndexSpec(Children(doc), TypeList(["body", "frameset"]));
    if i.Some? {
      var b := Children(doc)[i.value];
      ChildInSubtrees(doc.children, i.value);
      assert b in Subtree(doc);
      DocumentQuerySpec(doc, Type("body"));
      assert DocumentQuery(doc, ContentSelectors[11]).None?;
      var j :| 0 <= j < |Subtree(doc)| && Subtree(doc)[j] == b;
      assert !Matches(Type("body"), Subtree(doc)[j]);
    }
  }

  /** The extracted content is a clone of an element of the document, with
      the same tag and attributes. */
  lemma ExtractedFromDocument(doc: Node)
    ensures ExtractedContent(doc).Ok? ==>
              exists n :: n in Subtree(doc) && n.Element?
                && ExtractedContent(doc).value == RemoveUnwanted(n, UnwantedSelectors)
  {
    FirstMatchSpec(doc, ContentSelectors);
    match FirstMatch(doc, ContentSelectors)
    case Some(n) =>
      var k :| 0 <= k < |ContentSelectors| && DocumentQuery(doc, ContentSelectors[k]) == Some(n);
      DocumentQuerySpec(doc, ContentSelectors[k]);
    case None =>
      var i := FirstIndex(Children(doc), TypeList(["body", "frameset"]));
      FirstIndexSpec(Children(doc), TypeList(["body", "frameset"]));
      if i.Some? {
        ChildInSubtrees(doc.children, i.value);
        assert Children(doc)[i.value] in Subtree(doc);
      }
  }

  /** The loop of `extractContentManually`: the selectors are tried in
      order and the first element found ends the search. */
  method QueryInOrder(doc: Node, sels: seq<Selector>) returns (found: Option<Node>)
    ensures found == FirstMatch(doc, sels)
  {
    for i := 0 to |sels|
      invariant FirstMatch(doc, sels) == FirstMatch(doc, sels[i..])
    {
      assert sels[i..][1..] == sels[i + 1..];
      var element := DocumentQuery(doc, sels[i]);
      if element.Some? {
        return element;
      }
    }
    assert sels[|sels|..] == [];
    return None;
  }

  /** `extractContentManually`: prunes a fresh clone of the first element
      the content selectors find, or of `document.body`. */
  method ExtractContentManually(doc: Node) returns (r: Result<ContentClone, Failure>)
    ensures r.Ok? <==> ExtractedContent(doc).Ok?
    ensures r.Ok? ==> fresh(r.value) && r.value.root == ExtractedContent(doc).value
    ensures r.Err? ==> r.error == ExtractedContent(doc).error
  {
    var element := QueryInOrder(doc, ContentSelectors);
    if element.None? {
      element := DocumentBody(doc);
      if element.None? {
        return Err(NoBody);
      }
    }
    var clone := new ContentClone(element.value);
    clone.RemoveUnwantedElements();
    return Ok(clone);
  }
}
