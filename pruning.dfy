/** The passes that change the cloned content tree in place before it is
    converted: the noise filter (`removeUnwantedElements`), `removeImages` and
    `removeLinks`. Each pass is first given as a function on trees; the class
    `ContentClone` holds the working copy and its methods replace it by the
    function's value. */
module Pruning {
  import opened Wrappers
  import opened JsString
  import opened Dom
  import opened Selectors

  /** The noise denylist, in the order the filter applies it. */
  const UnwantedSelectors: seq<Selector> := [
    Type("script"),
    Type("style"),
    Class("advertisement"),
    Class("ads"),
    Class("menu"),
    Class("navigation"),
    Class("comments"),
    Class("comment"),
    Class("social-share"),
    Class("share-buttons"),
    Class("related-posts"),
    Class("popup"),
    Class("modal"),
    Class("cookie-notice"),
    AttrContains("iframe", "src", "ads"),
    AttrContains("iframe", "src", "doubleclick"),
    Class("toc-macro"),
    Id("comments-section"),
    Class("page-metadata"),
    Class("labels-section"),
    Class("space-tools-section")
  ]

  /** `el.querySelectorAll('table').length > 0`: a table strictly below `n`. */
  predicate HasTable(n: Node)
  {
    HasDescendantTag(n, "table")
  }

  /** A node one pass of the filter removes when it reaches it. */
  predicate Doomed(sel: Selector, n: Node)
  {
    Matches(sel, n) && !HasTable(n)
  }

  // ---------------------------------------------------------------------
  // One selector of the filter
  // ---------------------------------------------------------------------

  /** The tree after `querySelectorAll(sel).forEach(el => hasTables ? skip : el.remove())`.
      The node list is taken before any removal and visited in document
      order, so an element is checked before its descendants: a matched
      element without a table below it goes with its whole subtree, a matched
      element with a table stays and its descendants are checked in turn.
      Removing a table-free subtree never takes a table from an ancestor, so
      the checks made later are not affected by the earlier removals. The root
      itself is never a candidate. */
  function PruneMatching(n: Node, sel: Selector): Node
    decreases n
  {
    match n
    case Text(_) => n
    case Element(tag, attrs, children) => Element(tag, attrs, PruneForest(children, sel))
  }

  function PruneForest(ns: seq<Node>, sel: Selector): seq<Node>
    decreases ns
  {
    if ns == [] then []
    else (if Doomed(sel, ns[0]) then [] else [PruneMatching(ns[0], sel)]) + PruneForest(ns[1..], sel)
  }

  /** The subtrees one pass detaches, in document order. Each is one of the
      elements the query returned, and none of them holds a table. */
  function Removed(n: Node, sel: Selector): (r: seq<Node>)
    ensures forall e :: e in r ==> e in Descendants(n) && Matches(sel, e) && !HasTable(e)
    decreases n
  {
    match n
    case Text(_) => []
    case Element(_, _, children) => RemovedForest(children, sel)
  }

  function RemovedForest(ns: seq<Node>, sel: Selector): (r: seq<Node>)
    ensures forall e :: e in r ==> e in SubtreeAll(ns) && Matches(sel, e) && !HasTable(e)
    decreases ns
  {
    if ns == [] then []
    else
      assert SubtreeAll(ns) == Subtree(ns[0]) + SubtreeAll(ns[1..]);
      SubtreeSplit(ns[0]);
      (if Doomed(sel, ns[0]) then [ns[0]] else Removed(ns[0], sel)) + RemovedForest(ns[1..], sel)
  }

  /** Number of elements with tag `tag` in the tree, the root included. */
  function CountTag(n: Node, tag: string): nat
    decreases n
  {
    (if IsTag(n, tag) then 1 else 0) +
    (match n
     case Text(_) => 0
     case Element(_, _, children) => CountTagAll(children, tag))
  }

  function CountTagAll(ns: seq<Node>, tag: string): nat
    decreases ns
  {
    if ns == [] then 0 else CountTag(ns[0], tag) + CountTagAll(ns[1..], tag)
  }

  /** Number of nodes of the list that are themselves `tag` elements. */
  function CountRoots(ns: seq<Node>, tag: string): nat
  {
    if ns == [] then 0 else (if IsTag(ns[0], tag) then 1 else 0) + CountRoots(ns[1..], tag)
  }

  lemma {:induction false} CountTagAllZero(ns: seq<Node>, tag: string)
    ensures CountTagAll(ns, tag) == 0 <==> !AnyTagIn(ns, tag)
    decreases ns
  {
    if ns == [] {
      AnyTagInEmpty(tag);
    } else {
      AnyTagInCons(ns, tag);
      CountTagAllZero(ns[1..], tag);
      match ns[0]
      case Text(_) =>
      case Element(_, _, children) => CountTagAllZero(children, tag);
    }
  }

  lemma AnyTagInEmpty(tag: string)
    ensures !AnyTagIn([], tag)
  {
  }

  lemma {:induction false} CountRootsAppend(a: seq<Node>, b: seq<Node>, tag: string)
    ensures CountRoots(a + b, tag) == CountRoots(a, tag) + CountRoots(b, tag)
  {
    if a == [] {
      assert a + b == b;
    } else {
      assert (a + b)[1..] == a[1..] + b;
      CountRootsAppend(a[1..], b, tag);
    }
  }

  lemma {:induction false} CountTagAllAppend(a: seq<Node>, b: seq<Node>, tag: string)
    ensures CountTagAll(a + b, tag) == CountTagAll(a, tag) + CountTagAll(b, tag)
  {
    if a == [] {
      assert a + b == b;
    } else {
      assert (a + b)[1..] == a[1..] + b;
      CountTagAllAppend(a[1..], b, tag);
    }
  }

  /** What one pass takes away is exactly the removed subtrees: no node is
      lost or duplicated. */
  lemma {:induction false} PruneConserves(n: Node, sel: Selector)
    ensures Size(n) == Size(PruneMatching(n, sel)) + SizeAll(Removed(n, sel))
    decreases n
  {
    match n
    case Text(_) =>
    case Element(_, _, children) => PruneForestConserves(children, sel);
  }

  lemma {:induction false} PruneForestConserves(ns: seq<Node>, sel: Selector)
    ensures SizeAll(ns) == SizeAll(PruneForest(ns, sel)) + SizeAll(RemovedForest(ns, sel))
    decreases ns
  {
    if ns != [] {
      var head := if Doomed(sel, ns[0]) then [] else [PruneMatching(ns[0], sel)];
      var gone := if Doomed(sel, ns[0]) then [ns[0]] else Removed(ns[0], sel);
      PruneForestConserves(ns[1..], sel);
      SizeAllAppend(head, PruneForest(ns[1..], sel));
      SizeAllAppend(gone, RemovedForest(ns[1..], sel));
      if Doomed(sel, ns[0]) {
        assert [ns[0]][1..] == [];
      } else {
        assert [PruneMatching(ns[0], sel)][1..] == [];
        PruneConserves(ns[0], sel);
      }
    }
  }

  /** The only tables one pass loses are matched `table` elements that had
      no table inside them; so an element that contains a table is never
      among the removed ones. */
  lemma {:induction false} PruneCountsTables(n: Node, sel: Selector)
    ensures CountTag(n, "table") ==
            CountTag(PruneMatching(n, sel), "table") + CountRoots(Removed(n, sel), "table")
    decreases n
  {
    match n
    case Text(_) =>
    case Element(_, _, children) => PruneForestCountsTables(children, sel);
  }

  lemma {:induction false} PruneForestCountsTables(ns: seq<Node>, sel: Selector)
    ensures CountTagAll(ns, "table") ==
            CountTagAll(PruneForest(ns, sel), "table") + CountRoots(RemovedForest(ns, sel), "table")
    decreases ns
  {
    if ns != [] {
      var head := if Doomed(sel, ns[0]) then [] else [PruneMatching(ns[0], sel)];
      var gone := if Doomed(sel, ns[0]) then [ns[0]] else Removed(ns[0], sel);
      PruneForestCountsTables(ns[1..], sel);
      CountTagAllAppend(head, PruneForest(ns[1..], sel), "table");
      CountRootsAppend(gone, RemovedForest(ns[1..], sel), "table");
      if Doomed(sel, ns[0]) {
        assert [ns[0]][1..] == [];
        match ns[0]
        case Text(_) =>
        case Element(_, _, children) => CountTagAllZero(children, "table");
      } else {
        assert [PruneMatching(ns[0], sel)][1..] == [];
        PruneCountsTables(ns[0], sel);
      }
    }
  }

  /** In a tree with no table at all, one pass leaves no matching descendant. */
  lemma {:induction false} PruneWithoutTablesRemovesAllMatches(n: Node, sel: Selector)
    requires !HasTable(n)
    ensures forall d :: d in Descendants(PruneMatching(n, sel)) ==> !Matches(sel, d)
    decreases n
  {
    match n
    case Text(_) =>
    case Element(_, _, children) => PruneForestWithoutTables(children, sel);
  }

  lemma {:induction false} PruneForestWithoutTables(ns: seq<Node>, sel: Selector)
    requires !AnyTagIn(ns, "table")
    ensures forall d :: d in SubtreeAll(PruneForest(ns, sel)) ==> !Matches(sel, d)
    decreases ns
  {
    if ns != [] {
      AnyTagInCons(ns, "table");
      PruneForestWithoutTables(ns[1..], sel);
      var head := if Doomed(sel, ns[0]) then [] else [PruneMatching(ns[0], sel)];
      SubtreeAllAppend(head, PruneForest(ns[1..], sel));
      if !Doomed(sel, ns[0]) {
        var p := PruneMatching(ns[0], sel);
        assert [p][1..] == [];
        assert SubtreeAll(head) == Subtree(p) == [p] + Descendants(p);
        if ns[0].Element? {
          PruneWithoutTablesRemovesAllMatches(ns[0], sel);
        }
      }
    }
  }

  /** One pass keeps the root: same kind of node, same tag, same attributes. */
  lemma PruneKeepsRoot(n: Node, sel: Selector)
    ensures PruneMatching(n, sel).Element? == n.Element?
    ensures n.Element? ==> PruneMatching(n, sel).tag == n.tag && PruneMatching(n, sel).attrs == n.attrs
  {
  }

  // ---------------------------------------------------------------------
  // The whole denylist
  // ---------------------------------------------------------------------

  /** The tree after the filter has gone through `sels` in order; a selector
      whose query throws is caught and skipped. */
  function RemoveUnwanted(n: Node, sels: seq<Selector>): (r: Node)
    ensures r.Element? == n.Element?
    ensures n.Element? ==> r.tag == n.tag && r.attrs == n.attrs
  {
    if sels == [] then n
    else
      var m := RemoveUnwanted(n, sels[..|sels| - 1]);
      var sel := sels[|sels| - 1];
      if Parses(sel) then PruneMatching(m, sel) else m
  }

  /** The selectors whose queries run. */
  function Parsing(sels: seq<Selector>): (r: seq<Selector>)
    ensures forall s :: s in r ==> Parses(s)
  {
    if sels == [] then []
    else Parsing(sels[..|sels| - 1]) + (if Parses(sels[|sels| - 1]) then [sels[|sels| - 1]] else [])
  }

  /** A selector whose query throws changes nothing: the filter gives the same
      tree as if it were not in the list at all. */
  lemma {:induction false} MalformedSelectorsAreSkipped(n: Node, sels: seq<Selector>)
    ensures RemoveUnwanted(n, sels) == RemoveUnwanted(n, Parsing(sels))
  {
    if sels != [] {
      var init := sels[..|sels| - 1];
      var sel := sels[|sels| - 1];
      MalformedSelectorsAreSkipped(n, init);
      if Parses(sel) {
        var p := Parsing(init) + [sel];
        assert Parsing(sels) == p;
        assert p[..|p| - 1] == Parsing(init) && p[|p| - 1] == sel;
      } else {
        assert Parsing(sels) == Parsing(init) + [];
        assert Parsing(init) + [] == Parsing(init);
      }
    }
  }

  /** Every selector of the denylist parses, so none of them is skipped. */
  lemma DenylistParses()
    ensures Parsing(UnwantedSelectors) == UnwantedSelectors
  {
    ParsingKeepsParsing(UnwantedSelectors);
  }

  lemma {:induction false} ParsingKeepsParsing(sels: seq<Selector>)
    requires forall i :: 0 <= i < |sels| ==> Parses(sels[i])
    ensures Parsing(sels) == sels
  {
    if sels != [] {
      ParsingKeepsParsing(sels[..|sels| - 1]);
    }
  }

  /** The filter is not idempotent: a `.ads` block kept for its `.ads` table
      loses that table (a table counts only when it is below the element), and
      a second run then removes the block itself. */
  lemma FilterNotIdempotent()
    ensures var ads := map["class" := "ads"];
            var page := Element("body", map[], [Element("div", ads, [Element("table", ads, [])])]);
            var once := PruneMatching(page, Class("ads"));
            once == Element("body", map[], [Element("div", ads, [])])
            && PruneMatching(once, Class("ads")) == Element("body", map[], [])
  {
    var ads := map["class" := "ads"];
    var table := Element("table", ads, []);
    var div := Element("div", ads, [table]);
    assert TokenAt("ads", "ads", 0);
    assert Matches(Class("ads"), table) && Matches(Class("ads"), div);
    assert SubtreeAll([table]) == [table];
    assert IsTag(SubtreeAll([table])[0], "table");
    assert HasTable(div);
    assert !HasTable(table);
    var emptyDiv := Element("div", ads, []);
    assert !HasTable(emptyDiv);
    assert [table][1..] == [] && [div][1..] == [] && [emptyDiv][1..] == [];
    assert PruneForest([table], Class("ads")) == [];
    assert PruneMatching(div, Class("ads")) == emptyDiv;
    assert PruneForest([div], Class("ads")) == [emptyDiv];
    assert PruneForest([emptyDiv], Class("ads")) == [];
  }

  // ---------------------------------------------------------------------
  // removeImages and removeLinks
  // ---------------------------------------------------------------------

  /** The tree after `querySelectorAll('img').forEach(img => img.remove())`. */
  function StripImages(n: Node): Node
    decreases n
  {
    match n
    case Text(_) => n
    case Element(tag, attrs, children) => Element(tag, attrs, StripImagesForest(children))
  }

  function StripImagesForest(ns: seq<Node>): seq<Node>
    decreases ns
  {
    if ns == [] then []
    else (if IsTag(ns[0], "img") then [] else [StripImages(ns[0])]) + StripImagesForest(ns[1..])
  }

  /** After `removeImages` no `img` is left below the root, the root is the
      same element, and a tree without images is left as it was. */
  lemma {:induction false} StripImagesSpec(n: Node)
    ensures !HasDescendantTag(StripImages(n), "img")
    ensures StripImages(n).Element? == n.Element?
    ensures n.Element? ==> StripImages(n).tag == n.tag && StripImages(n).attrs == n.attrs
    ensures !HasDescendantTag(n, "img") ==> StripImages(n) == n
    decreases n
  {
    match n
    case Text(_) =>
    case Element(_, _, children) => StripImagesForestSpec(children);
  }

  lemma {:induction false} StripImagesForestSpec(ns: seq<Node>)
    ensures !AnyTagIn(StripImagesForest(ns), "img")
    ensures !AnyTagIn(ns, "img") ==> StripImagesForest(ns) == ns
    decreases ns
  {
    if ns == [] {
      AnyTagInEmpty("img");
    } else {
      var head := if IsTag(ns[0], "img") then [] else [StripImages(ns[0])];
      StripImagesForestSpec(ns[1..]);
      StripImagesSpec(ns[0]);
      AnyTagInAppend(head, StripImagesForest(ns[1..]), "img");
      AnyTagInCons(ns, "img");
      if head != [] {
        AnyTagInSingle(StripImages(ns[0]), "img");
      } else {
        AnyTagInEmpty("img");
      }
      if !AnyTagIn(ns, "img") {
        assert ns == [ns[0]] + ns[1..];
      }
    }
  }

  /** The tree after `querySelectorAll('a').forEach(a => a.replaceWith(text(a.textContent)))`.
      An outer link is replaced first, so a link nested in it is gone with it. */
  function StripLinks(n: Node): Node
    decreases n
  {
    match n
    case Text(_) => n
    case Element(tag, attrs, children) => Element(tag, attrs, StripLinksForest(children))
  }

  function StripLinksForest(ns: seq<Node>): seq<Node>
    decreases ns
  {
    if ns == [] then []
    else (if IsTag(ns[0], "a") then [Text(TextContent(ns[0]))] else [StripLinks(ns[0])])
         + StripLinksForest(ns[1..])
  }

  /** After `removeLinks` no `a` is left below the root, the text of the tree
      is unchanged, the root is the same element, and a tree without links is
      left as it was. */
  lemma {:induction false} StripLinksSpec(n: Node)
    ensures !HasDescendantTag(StripLinks(n), "a")
    ensures TextContent(StripLinks(n)) == TextContent(n)
    ensures StripLinks(n).Element? == n.Element?
    ensures n.Element? ==> StripLinks(n).tag == n.tag && StripLinks(n).attrs == n.attrs
    ensures !HasDescendantTag(n, "a") ==> StripLinks(n) == n
    decreases n
  {
    match n
    case Text(_) =>
    case Element(_, _, children) => StripLinksForestSpec(children);
  }

  lemma {:induction false} StripLinksForestSpec(ns: seq<Node>)
    ensures !AnyTagIn(StripLinksForest(ns), "a")
    ensures TextContentAll(StripLinksForest(ns)) == TextContentAll(ns)
    ensures !AnyTagIn(ns, "a") ==> StripLinksForest(ns) == ns
    decreases ns
  {
    if ns == [] {
      AnyTagInEmpty("a");
    } else {
      var x := if IsTag(ns[0], "a") then Text(TextContent(ns[0])) else StripLinks(ns[0]);
      StripLinksForestSpec(ns[1..]);
      StripLinksSpec(ns[0]);
      AnyTagInAppend([x], StripLinksForest(ns[1..]), "a");
      AnyTagInSingle(x, "a");
      AnyTagInCons(ns, "a");
      TextContentAllAppend([x], StripLinksForest(ns[1..]));
      assert [x][1..] == [];
      if !AnyTagIn(ns, "a") {
        assert ns == [ns[0]] + ns[1..];
      }
    }
  }

  /** No image below the root holds a table. HTML makes `img` a void element,
      so a parsed page satisfies this. */
  predicate NoImageHoldsTable(ns: seq<Node>)
    decreases ns
  {
    forall i :: 0 <= i < |ns| ==>
      && !(IsTag(ns[i], "img") && HasTable(ns[i]))
      && (ns[i].Element? ==> NoImageHoldsTable(ns[i].children))
  }

  /** When no image holds a table, `removeImages` is the noise filter's pass
      for the selector `img`: every `img` goes with its subtree and every
      other node stays where it was. Only image subtrees are taken away, and
      no node is lost or duplicated. */
  lemma StripImagesIsPrune(n: Node)
    requires n.Element? ==> NoImageHoldsTable(n.children)
    ensures StripImages(n) == PruneMatching(n, Type("img"))
    ensures Size(n) == Size(StripImages(n)) + SizeAll(Removed(n, Type("img")))
    ensures forall e :: e in Removed(n, Type("img")) ==> e in Descendants(n) && IsTag(e, "img")
  {
    StripImagesIsPruneTree(n);
    PruneConserves(n, Type("img"));
  }

  lemma {:induction false} StripImagesIsPruneTree(n: Node)
    requires n.Element? ==> NoImageHoldsTable(n.children)
    ensures StripImages(n) == PruneMatching(n, Type("img"))
    decreases n
  {
    match n
    case Text(_) =>
    case Element(_, _, children) => StripImagesIsPruneForest(children);
  }

  lemma {:induction false} StripImagesIsPruneForest(ns: seq<Node>)
    requires NoImageHoldsTable(ns)
    ensures StripImagesForest(ns) == PruneForest(ns, Type("img"))
    decreases ns
  {
    if ns != [] {
      assert NoImageHoldsTable(ns[1..]) by {
        forall i | 0 <= i < |ns[1..]|
          ensures !(IsTag(ns[1..][i], "img") && HasTable(ns[1..][i]))
          ensures ns[1..][i].Element? ==> NoImageHoldsTable(ns[1..][i].children)
        {
          assert ns[1..][i] == ns[i + 1];
        }
      }
      StripImagesIsPruneForest(ns[1..]);
      StripImagesIsPruneTree(ns[0]);
      assert Doomed(Type("img"), ns[0]) == IsTag(ns[0], "img");
    }
  }

  /** `StripLinksForest` keeps the number and the order of the children:
      a link becomes a text node in its place, anything else is stripped in
      its place. */
  lemma {:induction false} StripLinksForestAt(ns: seq<Node>)
    ensures |StripLinksForest(ns)| == |ns|
    ensures forall i :: 0 <= i < |ns| ==>
      StripLinksForest(ns)[i] == if IsTag(ns[i], "a") then Text(TextContent(ns[i])) else StripLinks(ns[i])
    decreases ns
  {
    if ns != [] {
      StripLinksForestAt(ns[1..]);
      var r := StripLinksForest(ns);
      forall i | 0 <= i < |ns|
        ensures r[i] == if IsTag(ns[i], "a") then Text(TextContent(ns[i])) else StripLinks(ns[i])
      {
        if i > 0 {
          assert r[i] == StripLinksForest(ns[1..])[i - 1];
          assert ns[i] == ns[1..][i - 1];
        }
      }
    }
  }

  /** `removeLinks` moves nothing outside the links: every node reached by a
      path that does not go through a link is still reached by that path; a
      link there has become a text node holding its `textContent`, any other
      element keeps its tag, its attributes and its number of children, and a
      text node is unchanged. */
  lemma {:induction false} StripLinksKeepsPlaces(n: Node, path: seq<nat>)
    requires NodeAt(n, path).Some? && !PassesThrough(n, path, "a")
    ensures var m := NodeAt(n, path).value;
            var r := NodeAt(StripLinks(n), path);
            && r.Some?
            && (path != [] && IsTag(m, "a") ==> r.value == Text(TextContent(m)))
            && (m.Element? && !(path != [] && IsTag(m, "a")) ==>
                  r.value.Element? && r.value.tag == m.tag && r.value.attrs == m.attrs
                  && |r.value.children| == |m.children|)
            && (m.Text? ==> r.value == m)
    decreases |path|
  {
    if path == [] {
      if n.Element? {
        StripLinksForestAt(n.children);
      }
    } else {
      var c := n.children[path[0]];
      StripLinksForestAt(n.children);
      assert StripLinks(n).children[path[0]] == if IsTag(c, "a") then Text(TextContent(c)) else StripLinks(c);
      if !IsTag(c, "a") {
        StripLinksKeepsPlaces(c, path[1..]);
      }
    }
  }

  /** What lay inside a link is gone: no path through a link reaches anything. */
  lemma {:induction false} StripLinksDropsInside(n: Node, path: seq<nat>)
    requires PassesThrough(n, path, "a")
    ensures NodeAt(StripLinks(n), path).None?
    decreases |path|
  {
    var c := n.children[path[0]];
    StripLinksForestAt(n.children);
    assert StripLinks(n).children[path[0]] == if IsTag(c, "a") then Text(TextContent(c)) else StripLinks(c);
    if !IsTag(c, "a") {
      StripLinksDropsInside(c, path[1..]);
    }
  }

  /** Neither pass adds an element: a tag absent below the root stays absent. */
  lemma {:induction false} StripImagesAddsNoTag(n: Node, tag: string)
    ensures !HasDescendantTag(n, tag) ==> !HasDescendantTag(StripImages(n), tag)
    decreases n
  {
    match n
    case Text(_) =>
    case Element(_, _, children) => StripImagesForestAddsNoTag(children, tag);
  }

  lemma {:induction false} StripImagesForestAddsNoTag(ns: seq<Node>, tag: string)
    ensures !AnyTagIn(ns, tag) ==> !AnyTagIn(StripImagesForest(ns), tag)
    decreases ns
  {
    if ns == [] {
      AnyTagInEmpty(tag);
    } else {
      var head := if IsTag(ns[0], "img") then [] else [StripImages(ns[0])];
      StripImagesForestAddsNoTag(ns[1..], tag);
      StripImagesAddsNoTag(ns[0], tag);
      StripImagesSpec(ns[0]);
      AnyTagInAppend(head, StripImagesForest(ns[1..]), tag);
      AnyTagInCons(ns, tag);
      if head != [] {
        AnyTagInSingle(StripImages(ns[0]), tag);
      } else {
        AnyTagInEmpty(tag);
      }
    }
  }

  lemma {:induction false} StripLinksAddsNoTag(n: Node, tag: string)
    ensures !HasDescendantTag(n, tag) ==> !HasDescendantTag(StripLinks(n), tag)
    decreases n
  {
    match n
    case Text(_) =>
    case Element(_, _, children) => StripLinksForestAddsNoTag(children, tag);
  }

  lemma {:induction false} StripLinksForestAddsNoTag(ns: seq<Node>, tag: string)
    ensures !AnyTagIn(ns, tag) ==> !AnyTagIn(StripLinksForest(ns), tag)
    decreases ns
  {
    if ns == [] {
      AnyTagInEmpty(tag);
    } else {
      var x := if IsTag(ns[0], "a") then Text(TextContent(ns[0])) else StripLinks(ns[0]);
      StripLinksForestAddsNoTag(ns[1..], tag);
      StripLinksAddsNoTag(ns[0], tag);
      StripLinksSpec(ns[0]);
      AnyTagInAppend([x], StripLinksForest(ns[1..]), tag);
      AnyTagInSingle(x, tag);
      AnyTagInCons(ns, tag);
    }
  }

  // ---------------------------------------------------------------------
  // The working copy, changed in place
  // ---------------------------------------------------------------------

  /** The clone of the content element that the converter prunes in place. */
  class ContentClone {
    var root: Node

    constructor (n: Node)
      ensures root == n
    {
      root := n;
    }

    /** `removeUnwantedElements`: one pass per selector, in denylist order; a
        query that throws is caught and its selector skipped. */
    method RemoveUnwantedElements()
      modifies this
      ensures root == RemoveUnwanted(old(root), UnwantedSelectors)
    {
      ghost var start := root;
      for i := 0 to |UnwantedSelectors|
        invariant root == RemoveUnwanted(start, UnwantedSelectors[..i])
      {
        var sel := UnwantedSelectors[i];
        assert UnwantedSelectors[..i + 1][..i] == UnwantedSelectors[..i];
        match QuerySelectorAll(root, sel) {
          case Err(_) =>
          case Ok(_) =>
            root := PruneMatching(root, sel);
        }
      }
      assert UnwantedSelectors[..|UnwantedSelectors|] == UnwantedSelectors;
    }

    /** `removeImages`. */
    method RemoveImages()
      modifies this
      ensures root == StripImages(old(root))
    {
      root := StripImages(root);
    }

    /** `removeLinks`. */
    method RemoveLinks()
      modifies this
      ensures root == StripLinks(old(root))
    {
      root := StripLinks(root);
    }
  }
}
