/** The document tree the converter works on: an element (lower-case tag
    name, attributes, ordered children) or a text leaf. A cloned subtree is a
    value of this type; comments, doctype and processing instructions are not
    represented. */
module Dom {
  import opened Wrappers

  datatype Node =
    | Element(tag: string, attrs: map<string, string>, children: seq<Node>)
    | Text(text: string)

  /** `getAttribute(name)`: `None` stands for `null`. */
  function GetAttribute(n: Node, name: string): Option<string>
  {
    if n.Element? && name in n.attrs then Some(n.attrs[name]) else None
  }

  /** `getAttribute(name) || ''`: a missing attribute reads as the empty string. */
  function AttributeOrEmpty(n: Node, name: string): string
  {
    match GetAttribute(n, name)
    case Some(v) => v
    case None => ""
  }

  predicate IsTag(n: Node, tag: string)
  {
    n.Element? && n.tag == tag
  }

  /** The node followed by all its descendants, in document (pre-)order. */
  function Subtree(n: Node): (r: seq<Node>)
    ensures |r| >= 1 && r[0] == n
    decreases n
  {
    [n] + (if n.Element? then SubtreeAll(n.children) else [])
  }

  /** The subtrees of a sequence of siblings, one after the other. */
  function SubtreeAll(ns: seq<Node>): seq<Node>
    decreases ns
  {
    if ns == [] then [] else Subtree(ns[0]) + SubtreeAll(ns[1..])
  }

  /** What `querySelectorAll` searches: the descendants of `n`, without `n`. */
  function Descendants(n: Node): seq<Node>
  {
    if n.Element? then SubtreeAll(n.children) else []
  }

  lemma SubtreeSplit(n: Node)
    ensures Subtree(n) == [n] + Descendants(n)
  {
  }

  /** `textContent`: the text of every text leaf below the node, in order. */
  function TextContent(n: Node): string
    decreases n
  {
    match n
    case Text(s) => s
    case Element(_, _, children) => TextContentAll(children)
  }

  function TextContentAll(ns: seq<Node>): string
    decreases ns
  {
    if ns == [] then "" else TextContent(ns[0]) + TextContentAll(ns[1..])
  }

  /** True when some node of the forest (at any depth) is an element with tag `tag`. */
  predicate AnyTagIn(ns: seq<Node>, tag: string)
  {
    exists i :: 0 <= i < |SubtreeAll(ns)| && IsTag(SubtreeAll(ns)[i], tag)
  }

  /** `el.querySelectorAll(tag).length > 0`. */
  predicate HasDescendantTag(n: Node, tag: string)
  {
    n.Element? && AnyTagIn(n.children, tag)
  }

  /** The node reached from `n` by taking, at each step, the child with the
      given index; `None` when an index is out of range. */
  function NodeAt(n: Node, path: seq<nat>): Option<Node>
    decreases |path|
  {
    if path == [] then Some(n)
    else if n.Element? && path[0] < |n.children| then NodeAt(n.children[path[0]], path[1..])
    else None
  }

  /** True when the path from `n` goes through an element with tag `tag`
      strictly between `n` and the node it reaches. */
  predicate PassesThrough(n: Node, path: seq<nat>, tag: string)
    decreases |path|
  {
    && |path| > 1 && n.Element? && path[0] < |n.children|
    && (IsTag(n.children[path[0]], tag) || PassesThrough(n.children[path[0]], path[1..], tag))
  }

  /** Number of nodes in a tree. */
  function Size(n: Node): nat
    decreases n
  {
    match n
    case Text(_) => 1
    case Element(_, _, children) => 1 + SizeAll(children)
  }

  function SizeAll(ns: seq<Node>): nat
    decreases ns
  {
    if ns == [] then 0 else Size(ns[0]) + SizeAll(ns[1..])
  }

  lemma {:induction false} SubtreeAllAppend(a: seq<Node>, b: seq<Node>)
    ensures SubtreeAll(a + b) == SubtreeAll(a) + SubtreeAll(b)
  {
    if a == [] {
      assert a + b == b;
    } else {
      assert (a + b)[1..] == a[1..] + b;
      SubtreeAllAppend(a[1..], b);
    }
  }

  lemma {:induction false} TextContentAllAppend(a: seq<Node>, b: seq<Node>)
    ensures TextContentAll(a + b) == TextContentAll(a) + TextContentAll(b)
  {
    if a == [] {
      assert a + b == b;
    } else {
      assert (a + b)[1..] == a[1..] + b;
      TextContentAllAppend(a[1..], b);
    }
  }

  lemma {:induction false} SizeAllAppend(a: seq<Node>, b: seq<Node>)
    ensures SizeAll(a + b) == SizeAll(a) + SizeAll(b)
  {
    if a == [] {
      assert a + b == b;
    } else {
      assert (a + b)[1..] == a[1..] + b;
      SizeAllAppend(a[1..], b);
    }
  }

  /** The tag test distributes over concatenated forests. */
  lemma AnyTagInAppend(a: seq<Node>, b: seq<Node>, tag: string)
    ensures AnyTagIn(a + b, tag) <==> AnyTagIn(a, tag) || AnyTagIn(b, tag)
  {
    SubtreeAllAppend(a, b);
    var x, y := SubtreeAll(a), SubtreeAll(b);
    if AnyTagIn(a + b, tag) {
      var i :| 0 <= i < |x + y| && IsTag((x + y)[i], tag);
      if i >= |x| {
        assert IsTag(y[i - |x|], tag);
      } else {
        assert IsTag(x[i], tag);
      }
    }
    if AnyTagIn(a, tag) {
      var i :| 0 <= i < |x| && IsTag(x[i], tag);
      assert (x + y)[i] == x[i];
    }
    if AnyTagIn(b, tag) {
      var i :| 0 <= i < |y| && IsTag(y[i], tag);
      assert (x + y)[|x| + i] == y[i];
    }
  }

  /** A one-node forest holds the tag when the node or one of its descendants has it. */
  lemma AnyTagInSingle(n: Node, tag: string)
    ensures AnyTagIn([n], tag) <==> IsTag(n, tag) || HasDescendantTag(n, tag)
  {
    assert [n][1..] == [];
    var all := SubtreeAll([n]);
    var d := Descendants(n);
    assert all == Subtree(n) + SubtreeAll([]);
    SubtreeSplit(n);
    assert all == [n] + d;
    if AnyTagIn([n], tag) && !IsTag(n, tag) {
      var i :| 0 <= i < |all| && IsTag(all[i], tag);
      assert IsTag(d[i - 1], tag);
    }
    if IsTag(n, tag) {
      assert IsTag(all[0], tag);
    }
    if HasDescendantTag(n, tag) {
      var i :| 0 <= i < |SubtreeAll(n.children)| && IsTag(SubtreeAll(n.children)[i], tag);
      assert d == SubtreeAll(n.children);
      assert all[i + 1] == d[i];
    }
  }

  /** Unfolding a forest at its first tree. */
  lemma AnyTagInCons(ns: seq<Node>, tag: string)
    requires ns != []
    ensures AnyTagIn(ns, tag) <==>
      IsTag(ns[0], tag) || HasDescendantTag(ns[0], tag) || AnyTagIn(ns[1..], tag)
  {
    assert ns == [ns[0]] + ns[1..];
    AnyTagInAppend([ns[0]], ns[1..], tag);
    AnyTagInSingle(ns[0], tag);
  }
}
