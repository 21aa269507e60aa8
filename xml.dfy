/**
 * A parsed XML document as SimpleXML exposes it: an element tree with
 * qualified names ("a:t", "table:table-cell") matched literally, and the
 * handful of navigation steps and path queries the extractors use.
 */
module Xml {
  import opened Wrappers

  datatype Node =
    | Element(name: string, attributes: map<string, string>, children: seq<Node>)
    | Text(content: string)

  /** True for an element called `name`. */
  predicate IsElement(n: Node, name: string)
  {
    n.Element? && n.name == name
  }

  /** The children of an element; a text node has none. */
  function Kids(n: Node): seq<Node>
  {
    if n.Element? then n.children else []
  }

  /** The text directly inside a run of sibling nodes. */
  function DirectText(ns: seq<Node>): string
  {
    if ns == [] then ""
    else (if ns[0].Text? then ns[0].content else "") + DirectText(ns[1..])
  }

  /** `(string)$node`: the text nodes directly under an element, concatenated; nested elements add nothing. */
  function StringValue(n: Node): string
  {
    if n.Element? then DirectText(n.children) else n.content
  }

  /** Iterating `$node->name`: the children that are elements called `name`, in order. */
  function ChildrenNamed(ns: seq<Node>, name: string): (r: seq<Node>)
    ensures |r| <= |ns|
  {
    if ns == [] then []
    else (if IsElement(ns[0], name) then [ns[0]] else []) + ChildrenNamed(ns[1..], name)
  }

  /** Every child ChildrenNamed yields is an element called `name`, and every such child is yielded. */
  lemma {:induction false} ChildrenNamedMembers(ns: seq<Node>, name: string)
    ensures forall i :: 0 <= i < |ChildrenNamed(ns, name)| ==>
      IsElement(ChildrenNamed(ns, name)[i], name) && ChildrenNamed(ns, name)[i] in ns
    ensures forall i :: 0 <= i < |ns| && IsElement(ns[i], name) ==> ns[i] in ChildrenNamed(ns, name)
  {
    if ns != [] {
      var head := if IsElement(ns[0], name) then [ns[0]] else [];
      var rest := ChildrenNamed(ns[1..], name);
      ChildrenNamedMembers(ns[1..], name);
      assert ChildrenNamed(ns, name) == head + rest;
      forall i | 0 <= i < |head + rest|
        ensures IsElement((head + rest)[i], name) && (head + rest)[i] in ns
      {
        if i >= |head| {
          assert (head + rest)[i] == rest[i - |head|];
        }
      }
      forall i | 0 <= i < |ns| && IsElement(ns[i], name)
        ensures ns[i] in head + rest
      {
        if i > 0 {
          assert ns[i] == ns[1..][i - 1];
        }
      }
    }
  }

  /**
   * `$node->name` is a filter on the children: it distributes over
   * concatenation, and a single child passes exactly when it is an element
   * called `name`. So the children it yields keep their order and multiplicity.
   */
  lemma {:induction false} ChildrenNamedIsFilter(a: seq<Node>, b: seq<Node>, x: Node, name: string)
    ensures ChildrenNamed(a + b, name) == ChildrenNamed(a, name) + ChildrenNamed(b, name)
    ensures ChildrenNamed([x], name) == (if IsElement(x, name) then [x] else [])
  {
    if a == [] {
      assert a + b == b;
    } else {
      var head := if IsElement(a[0], name) then [a[0]] else [];
      assert (a + b)[0] == a[0];
      assert (a + b)[1..] == a[1..] + b;
      ChildrenNamedIsFilter(a[1..], b, x, name);
      calc {
        ChildrenNamed(a + b, name);
        head + ChildrenNamed(a[1..] + b, name);
        head + (ChildrenNamed(a[1..], name) + ChildrenNamed(b, name));
        (head + ChildrenNamed(a[1..], name)) + ChildrenNamed(b, name);
      }
    }
    assert [x][1..] == [];
  }

  /** The first child element called `name` is the first of ChildrenNamed, and there is one exactly when ChildrenNamed is non-empty. */
  lemma {:induction false} ChildrenNamedFirst(ns: seq<Node>, name: string)
    ensures ChildrenNamed(ns, name) == [] <==> forall k :: 0 <= k < |ns| ==> !IsElement(ns[k], name)
    ensures ChildrenNamed(ns, name) != [] ==>
      exists j :: 0 <= j < |ns| && ns[j] == ChildrenNamed(ns, name)[0] && IsElement(ns[j], name)
        && forall k :: 0 <= k < j ==> !IsElement(ns[k], name)
  {
    if ns == [] {
    } else if IsElement(ns[0], name) {
      assert ChildrenNamed(ns, name) == [ns[0]] + ChildrenNamed(ns[1..], name);
      assert ChildrenNamed(ns, name)[0] == ns[0];
      assert 0 <= 0 < |ns| && ns[0] == ChildrenNamed(ns, name)[0] && IsElement(ns[0], name);
    } else {
      var rest := ChildrenNamed(ns[1..], name);
      assert ChildrenNamed(ns, name) == rest;
      ChildrenNamedFirst(ns[1..], name);
      assert forall k :: 1 <= k < |ns| ==> ns[k] == ns[1..][k - 1];
      if rest != [] {
        var j :| 0 <= j < |ns| - 1 && ns[1..][j] == rest[0] && IsElement(ns[1..][j], name)
          && forall k :: 0 <= k < j ==> !IsElement(ns[1..][k], name);
        assert ns[j + 1] == rest[0];
      }
    }
  }

  /**
   * `$node->name` used as a single node: the first child element called
   * `name`; absent exactly when no child is an element called `name`.
   */
  function FirstChild(n: Node, name: string): (r: Option<Node>)
    ensures r.None? <==> forall k :: 0 <= k < |Kids(n)| ==> !IsElement(Kids(n)[k], name)
    ensures r.Some? ==>
      exists j :: 0 <= j < |Kids(n)| && Kids(n)[j] == r.value && IsElement(r.value, name)
        && forall k :: 0 <= k < j ==> !IsElement(Kids(n)[k], name)
  {
    ChildrenNamedFirst(Kids(n), name);
    var cs := ChildrenNamed(Kids(n), name);
    if cs == [] then None else Some(cs[0])
  }

  /**
   * The XPath union `//n1 | //n2 | ...` evaluated from the document root: every
   * element (the root included) whose name is in `names`, in document order.
   */
  function Descendants(n: Node, names: set<string>): (r: seq<Node>)
    ensures forall i :: 0 <= i < |r| ==> r[i].Element? && r[i].name in names
    decreases n, 1
  {
    match n
    case Text(_) => []
    case Element(name, _, kids) => (if name in names then [n] else []) + DescendantsIn(kids, names)
  }

  function DescendantsIn(ns: seq<Node>, names: set<string>): (r: seq<Node>)
    ensures forall i :: 0 <= i < |r| ==> r[i].Element? && r[i].name in names
    decreases ns, 0
  {
    if ns == [] then [] else Descendants(ns[0], names) + DescendantsIn(ns[1..], names)
  }

  /**
   * The XPath `//outer//inner`: in document order, every element called
   * `inner` that has a proper ancestor called `outer`, each once.
   * `inside` says whether a proper ancestor of `n` is called `outer`.
   */
  function Nested(n: Node, outer: string, inner: string, inside: bool): (r: seq<Node>)
    ensures forall i :: 0 <= i < |r| ==> IsElement(r[i], inner)
    decreases n, 1
  {
    match n
    case Text(_) => []
    case Element(name, _, kids) =>
      (if inside && name == inner then [n] else [])
      + NestedIn(kids, outer, inner, inside || name == outer)
  }

  function NestedIn(ns: seq<Node>, outer: string, inner: string, inside: bool): (r: seq<Node>)
    ensures forall i :: 0 <= i < |r| ==> IsElement(r[i], inner)
    decreases ns, 0
  {
    if ns == [] then [] else Nested(ns[0], outer, inner, inside) + NestedIn(ns[1..], outer, inner, inside)
  }

  /** Below an outer element everything called `inner` matches: `//outer//inner` agrees with `//inner` there. */
  lemma {:induction false} NestedInsideIsDescendants(n: Node, outer: string, inner: string)
    ensures Nested(n, outer, inner, true) == Descendants(n, {inner})
    decreases n, 1
  {
    match n
    case Text(_) =>
    case Element(name, _, kids) => NestedInInsideIsDescendantsIn(kids, outer, inner);
  }

  lemma {:induction false} NestedInInsideIsDescendantsIn(ns: seq<Node>, outer: string, inner: string)
    ensures NestedIn(ns, outer, inner, true) == DescendantsIn(ns, {inner})
    decreases ns, 0
  {
    if ns != [] {
      NestedInsideIsDescendants(ns[0], outer, inner);
      NestedInInsideIsDescendantsIn(ns[1..], outer, inner);
    }
  }

  // ---------------------------------------------------------------------
  // Document order: an independent account of what the queries select
  // ---------------------------------------------------------------------

  /** An element of the tree together with the names of its proper ancestors, outermost first. */
  datatype Occurrence = Occurrence(node: Node, path: seq<string>)

  /**
   * Every element of the tree at `n`, in document order: `n` itself, then the
   * subtree of each child in turn. `path` names the ancestors of `n`.
   */
  function Occurrences(n: Node, path: seq<string>): seq<Occurrence>
    decreases n, 1
  {
    match n
    case Text(_) => []
    case Element(name, _, kids) => [Occurrence(n, path)] + OccurrencesIn(kids, path + [name])
  }

  function OccurrencesIn(ns: seq<Node>, path: seq<string>): seq<Occurrence>
    decreases ns, 0
  {
    if ns == [] then [] else Occurrences(ns[0], path) + OccurrencesIn(ns[1..], path)
  }

  /** The elements among `os` whose name is in `names`, in order, each as often as it occurs. */
  function Select(os: seq<Occurrence>, names: set<string>): seq<Node>
  {
    if os == [] then []
    else (if os[0].node.Element? && os[0].node.name in names then [os[0].node] else []) + Select(os[1..], names)
  }

  /** The elements among `os` called `inner` with an ancestor called `outer`, in order. */
  function SelectBelow(os: seq<Occurrence>, outer: string, inner: string): seq<Node>
  {
    if os == [] then []
    else (if IsElement(os[0].node, inner) && outer in os[0].path then [os[0].node] else []) + SelectBelow(os[1..], outer, inner)
  }

  lemma {:induction false} SelectAppend(a: seq<Occurrence>, b: seq<Occurrence>, names: set<string>)
    ensures Select(a + b, names) == Select(a, names) + Select(b, names)
  {
    if a == [] {
      assert a + b == b;
    } else {
      var head := if a[0].node.Element? && a[0].node.name in names then [a[0].node] else [];
      assert (a + b)[0] == a[0];
      assert (a + b)[1..] == a[1..] + b;
      SelectAppend(a[1..], b, names);
      calc {
        Select(a + b, names);
        head + Select(a[1..] + b, names);
        head + (Select(a[1..], names) + Select(b, names));
        (head + Select(a[1..], names)) + Select(b, names);
      }
    }
  }

  lemma {:induction false} SelectBelowAppend(a: seq<Occurrence>, b: seq<Occurrence>, outer: string, inner: string)
    ensures SelectBelow(a + b, outer, inner) == SelectBelow(a, outer, inner) + SelectBelow(b, outer, inner)
  {
    if a == [] {
      assert a + b == b;
    } else {
      var head := if IsElement(a[0].node, inner) && outer in a[0].path then [a[0].node] else [];
      assert (a + b)[0] == a[0];
      assert (a + b)[1..] == a[1..] + b;
      SelectBelowAppend(a[1..], b, outer, inner);
      calc {
        SelectBelow(a + b, outer, inner);
        head + SelectBelow(a[1..] + b, outer, inner);
        head + (SelectBelow(a[1..], outer, inner) + SelectBelow(b, outer, inner));
        (head + SelectBelow(a[1..], outer, inner)) + SelectBelow(b, outer, inner);
      }
    }
  }

  /**
   * `//n1 | //n2 | ...` yields every element of the tree whose name is listed,
   * the root included, once per occurrence and in document order.
   */
  lemma {:induction false} DescendantsInDocumentOrder(n: Node, names: set<string>, path: seq<string>)
    ensures Descendants(n, names) == Select(Occurrences(n, path), names)
    decreases n, 1
  {
    match n
    case Text(_) =>
    case Element(name, _, kids) =>
      DescendantsInInDocumentOrder(kids, names, path + [name]);
      SelectAppend([Occurrence(n, path)], OccurrencesIn(kids, path + [name]), names);
  }

  lemma {:induction false} DescendantsInInDocumentOrder(ns: seq<Node>, names: set<string>, path: seq<string>)
    ensures DescendantsIn(ns, names) == Select(OccurrencesIn(ns, path), names)
    decreases ns, 0
  {
    if ns != [] {
      DescendantsInDocumentOrder(ns[0], names, path);
      DescendantsInInDocumentOrder(ns[1..], names, path);
      SelectAppend(Occurrences(ns[0], path), OccurrencesIn(ns[1..], path), names);
    }
  }

  /**
   * `//outer//inner` yields every element called `inner` that has an ancestor
   * called `outer`, once per occurrence and in document order; `inside` is
   * whether `outer` is among the ancestors above `n`.
   */
  lemma {:induction false} NestedInDocumentOrder(n: Node, outer: string, inner: string, path: seq<string>)
    ensures Nested(n, outer, inner, outer in path) == SelectBelow(Occurrences(n, path), outer, inner)
    decreases n, 1
  {
    match n
    case Text(_) =>
    case Element(name, _, kids) =>
      assert (outer in path || name == outer) == (outer in path + [name]);
      NestedInInDocumentOrder(kids, outer, inner, path + [name]);
      SelectBelowAppend([Occurrence(n, path)], OccurrencesIn(kids, path + [name]), outer, inner);
  }

  lemma {:induction false} NestedInInDocumentOrder(ns: seq<Node>, outer: string, inner: string, path: seq<string>)
    ensures NestedIn(ns, outer, inner, outer in path) == SelectBelow(OccurrencesIn(ns, path), outer, inner)
    decreases ns, 0
  {
    if ns != [] {
      NestedInDocumentOrder(ns[0], outer, inner, path);
      NestedInInDocumentOrder(ns[1..], outer, inner, path);
      SelectBelowAppend(Occurrences(ns[0], path), OccurrencesIn(ns[1..], path), outer, inner);
    }
  }
}
