/** `basicHtmlToMarkdown`, the conversion used when Turndown is not loaded.
    First every table whose serialization is non-empty is replaced by a
    placeholder `div` that carries the table's Markdown in an attribute;
    then a tree walker visits every node below the root in document order
    and appends a piece of Markdown per node: the trimmed text of a text
    node, a table's Markdown for a placeholder's text, and a fixed wrapping
    of the element's trimmed `textContent` for a few tags. An element's
    text is therefore written once for the element and once more for each
    of its text nodes. */
module FallbackConverter {
  import opened Wrappers
  import opened JsString
  import opened Dom
  import opened TableSerializer
  import opened TurndownRules

  const PlaceholderPrefix: string := "__TABLE_"
  const TableAttribute: string := "data-table-markdown"

  /** A complex table cell calls `turndown` on a Turndown that is not there. */
  function NoTurndown(cell: seq<Node>): Result<string, Failure>
  {
    Err(NoEngine)
  }

  /** The placeholder `div` for a table; `token` is the random part of its text. */
  function Placeholder(md: string, token: string): Node
  {
    Element("div", map[TableAttribute := md], [Text(PlaceholderPrefix + token + "__")])
  }

  // ----- the table pass -----

  /** The tree after every table below it (nested ones included, in document
      order) has been serialized and, when its Markdown is non-empty,
      replaced by a placeholder; the first table that fails aborts. */
  function PlaceTables(n: Node, token: string): Result<Node, Failure>
    decreases n, 1
  {
    match n
    case Text(_) => Ok(n)
    case Element(tag, attrs, children) =>
      match PlaceTablesAll(children, token)
      case Err(f) => Err(f)
      case Ok(kids) =>
        if tag != "table" then Ok(Element(tag, attrs, kids))
        else
          match TableMarkdown(n, NoTurndown)
          case Err(f) => Err(f)
          case Ok(md) => if md == "" then Ok(Element(tag, attrs, kids)) else Ok(Placeholder(md, token))
  }

  function PlaceTablesAll(ns: seq<Node>, token: string): (r: Result<seq<Node>, Failure>)
    ensures r.Ok? ==> |r.value| == |ns|
    decreases ns, 0
  {
    if ns == [] then Ok([])
    else
      match PlaceTablesAll(ns[..|ns| - 1], token)
      case Err(f) => Err(f)
      case Ok(init) =>
        match PlaceTables(ns[|ns| - 1], token)
        case Err(f) => Err(f)
        case Ok(last) => Ok(init + [last])
  }

  /** The pass runs on the tables below the root; the root itself stays. */
  function PlaceTablesBelow(root: Node, token: string): Result<Node, Failure>
  {
    match root
    case Text(_) => Ok(root)
    case Element(tag, attrs, children) =>
      match PlaceTablesAll(children, token)
      case Err(f) => Err(f)
      case Ok(kids) => Ok(Element(tag, attrs, kids))
  }

  /** Without tables the pass succeeds and changes nothing. */
  lemma {:induction false} PlaceTablesWithoutTables(n: Node, token: string)
    requires !IsTag(n, "table") && !HasDescendantTag(n, "table")
    ensures PlaceTables(n, token) == Ok(n)
    decreases n, 1
  {
    if n.Element? {
      PlaceTablesAllWithoutTables(n.children, token);
    }
  }

  lemma {:induction false} PlaceTablesAllWithoutTables(ns: seq<Node>, token: string)
    requires !AnyTagIn(ns, "table")
    ensures PlaceTablesAll(ns, token) == Ok(ns)
    decreases ns, 0
  {
    if ns != [] {
      var init, last := ns[..|ns| - 1], ns[|ns| - 1];
      assert ns == init + [last];
      AnyTagInAppend(init, [last], "table");
      AnyTagInSingle(last, "table");
      PlaceTablesAllWithoutTables(init, token);
      PlaceTablesWithoutTables(last, token);
    }
  }

  // ----- the walk -----

  /** A node the walker visits, with its `parentElement`. */
  datatype Step = Step(node: Node, parent: Node)

  /** The walk of a subtree in document order, starting at its root. */
  function WalkTree(n: Node, parent: Node): seq<Step>
    decreases n, 1
  {
    [Step(n, parent)] + (if n.Element? then WalkForest(n.children, n) else [])
  }

  function WalkForest(ns: seq<Node>, parent: Node): seq<Step>
    decreases ns, 0
  {
    if ns == [] then [] else WalkTree(ns[0], parent) + WalkForest(ns[1..], parent)
  }

  /** What `walker.nextNode()` returns, one after the other: every node
      below the root, the root itself excluded. */
  function Walk(root: Node): seq<Step>
  {
    if root.Element? then WalkForest(root.children, root) else []
  }

  function NodesOf(steps: seq<Step>): (r: seq<Node>)
    ensures |r| == |steps|
  {
    if steps == [] then [] else [steps[0].node] + NodesOf(steps[1..])
  }

  lemma {:induction false} NodesOfAppend(a: seq<Step>, b: seq<Step>)
    ensures NodesOf(a + b) == NodesOf(a) + NodesOf(b)
  {
    if a == [] {
      assert a + b == b;
    } else {
      assert (a + b)[0] == a[0];
      assert (a + b)[1..] == a[1..] + b;
      NodesOfAppend(a[1..], b);
    }
  }

  /** The walker visits exactly the descendants of the root, in document order. */
  lemma WalkVisitsDescendants(root: Node)
    ensures NodesOf(Walk(root)) == Descendants(root)
  {
    if root.Element? {
      WalkForestNodes(root.children, root);
    }
  }

  lemma {:induction false} WalkTreeNodes(n: Node, parent: Node)
    ensures NodesOf(WalkTree(n, parent)) == Subtree(n)
    decreases n, 1
  {
    var rest := if n.Element? then WalkForest(n.children, n) else [];
    NodesOfAppend([Step(n, parent)], rest);
    if n.Element? {
      WalkForestNodes(n.children, n);
    }
  }

  lemma {:induction false} WalkForestNodes(ns: seq<Node>, parent: Node)
    ensures NodesOf(WalkForest(ns, parent)) == SubtreeAll(ns)
    decreases ns, 0
  {
    if ns != [] {
      NodesOfAppend(WalkTree(ns[0], parent), WalkForest(ns[1..], parent));
      WalkTreeNodes(ns[0], parent);
      WalkForestNodes(ns[1..], parent);
    }
  }

  // ----- the pieces -----

  /** The piece an element contributes, by tag; other tags contribute nothing. */
  function ElementPiece(n: Node): string
    requires n.Element?
  {
    var text := Trim(TextContent(n));
    match n.tag
    case "h1" => "\n# " + text + "\n\n"
    case "h2" => "\n## " + text + "\n\n"
    case "h3" => "\n### " + text + "\n\n"
    case "p" => "\n" + text + "\n\n"
    case "br" => "\n"
    case "strong" => "**" + text + "**"
    case "b" => "**" + text + "**"
    case "em" => "*" + text + "*"
    case "i" => "*" + text + "*"
    case "code" => "`" + text + "`"
    case "a" =>
      var href := AttributeOrEmpty(n, "href");
      if href != "" then "[" + text + "](" + href + ")" else ""
    case _ => ""
  }

  /** The piece a visited node contributes. */
  function Piece(step: Step): string
  {
    match step.node
    case Text(t) =>
      var text := Trim(t);
      if text == "" then ""
      else if PlaceholderPrefix <= text && GetAttribute(step.parent, TableAttribute).Some? then
        "\n\n" + AttributeOrEmpty(step.parent, TableAttribute) + "\n\n"
      else text + " "
    case Element(_, _, _) => ElementPiece(step.node)
  }

  /** The pieces of a walk, concatenated in order. */
  function Pieces(steps: seq<Step>): string
  {
    if steps == [] then "" else Pieces(steps[..|steps| - 1]) + Piece(steps[|steps| - 1])
  }

  /** What `basicHtmlToMarkdown` returns. */
  function FallbackMarkdown(root: Node, token: string): Result<string, Failure>
  {
    match PlaceTablesBelow(root, token)
    case Err(f) => Err(f)
    case Ok(placed) => Ok(Pieces(Walk(placed)))
  }

  /** `basicHtmlToMarkdown`: the table pass, then the walker loop. */
  method BasicHtmlToMarkdown(root: Node, token: string) returns (r: Result<string, Failure>)
    ensures r == FallbackMarkdown(root, token)
  {
    var placed := PlaceTablesBelow(root, token);
    if placed.Err? {
      return Err(placed.error);
    }
    var steps := Walk(placed.value);
    var markdown := "";
    var i := 0;
    while i < |steps|
      invariant i <= |steps|
      invariant markdown == Pieces(steps[..i])
    {
      assert steps[..i + 1][..i] == steps[..i];
      markdown := markdown + Piece(steps[i]);
      i := i + 1;
    }
    assert steps[..i] == steps;
    return Ok(markdown);
  }

  /** A placeholder contributes exactly its table's Markdown between blank lines. */
  lemma PlaceholderPieces(md: string, token: string, parent: Node)
    ensures Pieces(WalkTree(Placeholder(md, token), parent)) == "\n\n" + md + "\n\n"
  {
    var div := Placeholder(md, token);
    var text := PlaceholderPrefix + token + "__";
    assert WalkForest([Text(text)], div) == [Step(Text(text), div)];
    var steps := WalkTree(div, parent);
    assert steps == [Step(div, parent), Step(Text(text), div)];
    TrimOfTrimmed(text);
    assert PlaceholderPrefix <= text;
    assert GetAttribute(div, TableAttribute) == Some(md);
    assert Piece(Step(Text(text), div)) == "\n\n" + md + "\n\n";
    assert Piece(Step(div, parent)) == "";
    assert steps[..1] == [Step(div, parent)];
    assert steps[..1][..0] == [];
    assert Pieces(steps[..1]) == "";
  }

  /** Without tables, conversion succeeds and visits the content unchanged. */
  lemma FallbackWithoutTables(root: Node, token: string)
    requires !HasDescendantTag(root, "table")
    ensures FallbackMarkdown(root, token) == Ok(Pieces(Walk(root)))
  {
    if root.Element? {
      PlaceTablesAllWithoutTables(root.children, token);
    }
  }

  /** A table with a complex cell makes the conversion fail: without
      Turndown, such a cell cannot be converted. */
  lemma ComplexCellFails(cell: Node)
    requires IsComplex(cell)
    ensures CellContent(cell, NoTurndown) == Err(NoEngine)
  {
  }

  /** A paragraph's text is written twice: once for the `p` element and once
      for its text node. */
  lemma ParagraphTextTwice()
    ensures FallbackMarkdown(Element("div", map[], [Element("p", map[], [Text("hi")])]), "") == Ok("\nhi\n\nhi ")
  {
    var p := Element("p", map[], [Text("hi")]);
    var root := Element("div", map[], [p]);
    ParagraphPlacesNoTable(p);
    assert PlaceTablesBelow(root, "") == Ok(root);
    ParagraphWalk(p, root);
    ParagraphPieces(p, root);
  }

  lemma ParagraphWalk(p: Node, root: Node)
    requires p == Element("p", map[], [Text("hi")])
    requires root == Element("div", map[], [p])
    ensures Walk(root) == [Step(p, root), Step(Text("hi"), p)]
  {
    assert WalkForest([Text("hi")], p) == [Step(Text("hi"), p)];
    assert WalkForest([p], root) == [Step(p, root), Step(Text("hi"), p)];
  }

  lemma ParagraphPieces(p: Node, root: Node)
    requires p == Element("p", map[], [Text("hi")])
    ensures Pieces([Step(p, root), Step(Text("hi"), p)]) == "\nhi\n\nhi "
  {
    var steps := [Step(p, root), Step(Text("hi"), p)];
    TrimOfTrimmed("hi");
    assert steps[..1] == [Step(p, root)];
    assert steps[..1][..0] == [];
    assert TextContent(p) == "hi";
    assert Piece(steps[0]) == "\nhi\n\n";
    assert !(PlaceholderPrefix <= "hi");
    assert Piece(steps[1]) == "hi ";
    assert Pieces(steps[..1]) == "\nhi\n\n";
    assert "\nhi\n\n" + "hi " == "\nhi\n\nhi ";
  }

  lemma ParagraphPlacesNoTable(p: Node)
    requires p == Element("p", map[], [Text("hi")])
    ensures PlaceTablesAll([p], "") == Ok([p])
  {
    var t := Text("hi");
    assert [t][..0] == [];
    assert PlaceTables(t, "") == Ok(t);
    assert PlaceTablesAll([t], "") == Ok([] + [t]);
    assert [] + [t] == [t];
    assert PlaceTables(p, "") == Ok(p);
    assert [p][..0] == [];
    assert PlaceTablesAll([p], "") == Ok([] + [p]);
    assert [] + [p] == [p];
  }
}
