/** The CSS selectors the converter uses, as a predicate on nodes. Only the
    selector forms that occur in the converter are represented, already
    parsed; `Malformed` stands for selector text that the engine rejects, on
    which every query throws. */
module Selectors {
  import opened Wrappers
  import opened JsString
  import opened Dom

  datatype Selector =
    | Type(name: string)                                  // `table`
    | TypeList(names: seq<string>)                        // `td, th`
    | Class(name: string)                                 // `.ads`
    | Id(name: string)                                    // `#content`
    | AttrContains(name: string, attr: string, needle: string)  // `iframe[src*="ads"]`
    | Malformed(source: string)

  /** Whether a query with this selector runs at all (a malformed one throws). */
  predicate Parses(sel: Selector)
  {
    !sel.Malformed?
  }

  /** The ASCII whitespace that separates the tokens of a `class` attribute. */
  predicate IsAsciiWhitespace(c: char)
  {
    c == ' ' || c == '\t' || c == '\n' || c == '\U{000C}' || c == '\r'
  }

  /** `name` is one of the whitespace-separated tokens of `classes`. */
  predicate HasToken(classes: string, name: string)
  {
    name != "" &&
    exists i :: 0 <= i <= |classes| - |name| && TokenAt(classes, name, i)
  }

  predicate TokenAt(classes: string, name: string, i: nat)
  {
    OccursAt(classes, name, i)
    && (i == 0 || IsAsciiWhitespace(classes[i - 1]))
    && (i + |name| == |classes| || IsAsciiWhitespace(classes[i + |name|]))
  }

  /** Does the element `n` match `sel`? Text nodes never match. */
  predicate Matches(sel: Selector, n: Node)
  {
    n.Element? &&
    match sel
    case Type(name) => n.tag == name
    case TypeList(names) => n.tag in names
    case Class(name) => HasToken(AttributeOrEmpty(n, "class"), name)
    case Id(name) => GetAttribute(n, "id") == Some(name)
    case AttrContains(name, attr, needle) =>
      n.tag == name && needle != "" &&
      (match GetAttribute(n, attr)
       case Some(v) => Contains(v, needle)
       case None => false)
    case Malformed(_) => false
  }

  /** The nodes of `ns` that match `sel`, in order. */
  function Filter(ns: seq<Node>, sel: Selector): (r: seq<Node>)
    ensures |r| <= |ns|
  {
    if ns == [] then []
    else (if Matches(sel, ns[0]) then [ns[0]] else []) + Filter(ns[1..], sel)
  }

  /** Filtering keeps exactly the matching nodes. */
  lemma {:induction false} FilterSpec(ns: seq<Node>, sel: Selector)
    ensures forall x :: x in Filter(ns, sel) <==> x in ns && Matches(sel, x)
  {
    if ns != [] {
      FilterSpec(ns[1..], sel);
      assert ns == [ns[0]] + ns[1..];
    }
  }

  /** Filtering distributes over concatenation, so the matches keep their
      order and their number: those of `a` come before those of `b`. With
      `FilterSpec` on one-element lists this pins the result. */
  lemma {:induction false} FilterAppend(a: seq<Node>, b: seq<Node>, sel: Selector)
    ensures Filter(a + b, sel) == Filter(a, sel) + Filter(b, sel)
  {
    if a == [] {
      assert a + b == b;
    } else {
      FilterAppend(a[1..], b, sel);
      CutPrefix(a, b, 1);
      var head := if Matches(sel, a[0]) then [a[0]] else [];
      Regroup(Filter(a + b, sel), Filter(a, sel), head, Filter(a[1..], sel), Filter(b, sel));
    }
  }

  /** `n.querySelectorAll(sel)`: matching descendants in document order;
      `Err` when the selector text does not parse. */
  function QuerySelectorAll(n: Node, sel: Selector): Result<seq<Node>, string>
  {
    if Parses(sel) then Ok(Filter(Descendants(n), sel)) else Err(sel.source)
  }

  /** Index of the first node of `ns` that matches `sel`, if any. */
  function FirstIndex(ns: seq<Node>, sel: Selector): (r: Option<nat>)
    ensures r.Some? ==> r.value < |ns|
  {
    if ns == [] then None
    else if Matches(sel, ns[0]) then Some(0)
    else match FirstIndex(ns[1..], sel)
      case Some(k) => Some(k + 1)
      case None => None
  }

  /** `FirstIndex` finds the first match, and finds none only when there is none. */
  lemma {:induction false} FirstIndexSpec(ns: seq<Node>, sel: Selector)
    ensures var r := FirstIndex(ns, sel);
            && (r.Some? ==>
                  && r.value < |ns| && Matches(sel, ns[r.value])
                  && forall j :: 0 <= j < r.value ==> !Matches(sel, ns[j]))
            && (r.None? ==> forall j :: 0 <= j < |ns| ==> !Matches(sel, ns[j]))
  {
    if ns != [] && !Matches(sel, ns[0]) {
      FirstIndexSpec(ns[1..], sel);
    }
  }

  /** `n.querySelector(sel)` for a selector that parses: the first matching
      descendant in document order, or `None` for `null`. */
  function QuerySelector(n: Node, sel: Selector): Option<Node>
  {
    match FirstIndex(Descendants(n), sel)
    case Some(i) => Some(Descendants(n)[i])
    case None => None
  }
}
