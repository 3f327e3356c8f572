/** The document tree that a POM is held in, and the parts of the DOM that the
    POM code relies on: the search `getElementsByTagName(t)[0]`, which finds the
    first element tagged `t` below a node in document order (pre-order, the node
    itself excluded), a count of such elements, and the replacement of the first
    such element's children, which is how the model writes back a change made
    through a live `childNodes` list or a text node. */
module Dom {
  import opened Wrappers

  /** A node: an element with a tag and ordered children, or a text node. */
  datatype Node = Element(tag: string, children: seq<Node>) | Text(data: string)

  predicate Tagged(n: Node, t: string) {
    n.Element? && n.tag == t
  }

  predicate IsElement(n: Node) {
    n.Element?
  }

  /** Keeping the elements of a sequence of elements keeps all of it. */
  lemma FilterElements(ns: seq<Node>)
    requires forall i :: 0 <= i < |ns| ==> ns[i].Element?
    ensures Filter(ns, IsElement) == ns
  {
    assert forall i :: 0 <= i < |ns| ==> IsElement(ns[i]);
    FilterAll(ns, IsElement);
  }

  // ---------------------------------------------------------------------------
  // Counting and searching
  // ---------------------------------------------------------------------------

  /** Number of elements tagged `t` among `ns` and their descendants. */
  function CountIn(ns: seq<Node>, t: string): nat
    decreases ns
  {
    if ns == [] then 0
    else (if Tagged(ns[0], t) then 1 else 0) + CountBelow(ns[0], t) + CountIn(ns[1..], t)
  }

  /** Number of elements tagged `t` strictly below `n`. */
  function CountBelow(n: Node, t: string): nat
    decreases n
  {
    match n
    case Text(_) => 0
    case Element(_, cs) => CountIn(cs, t)
  }

  /** The first element tagged `t` among `ns` and their descendants, in document
      order; `None` when there is none (the search result list is empty). */
  function FirstIn(ns: seq<Node>, t: string): (r: Option<Node>)
    ensures r.Some? ==> Tagged(r.value, t)
    ensures r.None? <==> CountIn(ns, t) == 0
    decreases ns
  {
    if ns == [] then None
    else if Tagged(ns[0], t) then Some(ns[0])
    else match FirstBelow(ns[0], t)
      case Some(e) => Some(e)
      case None => FirstIn(ns[1..], t)
  }

  /** `n.getElementsByTagName(t)[0]`: the first element tagged `t` strictly below `n`. */
  function FirstBelow(n: Node, t: string): (r: Option<Node>)
    ensures r.Some? ==> Tagged(r.value, t)
    ensures r.None? <==> CountBelow(n, t) == 0
    decreases n
  {
    match n
    case Text(_) => None
    case Element(_, cs) => FirstIn(cs, t)
  }

  /** `document.getElementsByTagName(t)[0]`: the document's search also looks at the
      document element itself. */
  function DocFirst(root: Node, t: string): (r: Option<Node>)
    ensures r.Some? ==> Tagged(r.value, t)
    ensures r.None? <==> CountIn([root], t) == 0
  {
    FirstIn([root], t)
  }

  lemma DocFirstBelow(root: Node, t: string)
    requires !Tagged(root, t)
    ensures DocFirst(root, t) == FirstBelow(root, t)
  {
    assert [root][1..] == [];
  }

  lemma {:induction false} FirstInConcat(a: seq<Node>, b: seq<Node>, t: string)
    ensures FirstIn(a + b, t) == if FirstIn(a, t).Some? then FirstIn(a, t) else FirstIn(b, t)
    ensures CountIn(a + b, t) == CountIn(a, t) + CountIn(b, t)
  {
    if a == [] {
      assert a + b == b;
    } else {
      assert (a + b)[0] == a[0];
      assert (a + b)[1..] == a[1..] + b;
      FirstInConcat(a[1..], b, t);
    }
  }

  // ---------------------------------------------------------------------------
  // What `firstChild.data` reads
  // ---------------------------------------------------------------------------

  /** The outcome of reading `firstChild.data` of a searched-for element: the search
      found nothing (an index error), the element has no first child, the first
      child is not a text node (both attribute errors), or the text itself. */
  datatype FieldText = NoElement | NoFirstChild | FirstChildNotText | TextValue(value: string)

  function FirstChildText(e: Node): FieldText {
    match e
    case Text(_) => FirstChildNotText
    case Element(_, cs) =>
      if cs == [] then NoFirstChild
      else if cs[0].Text? then TextValue(cs[0].data)
      else FirstChildNotText
  }

  function ViewOf(o: Option<Node>): FieldText {
    match o
    case None => NoElement
    case Some(e) => FirstChildText(e)
  }

  // ---------------------------------------------------------------------------
  // Replacing the children of the first element tagged t
  // ---------------------------------------------------------------------------

  /** `ns` with the children of its first element tagged `t` (in document order)
      replaced by `cs`; `ns` itself when there is no such element. */
  function UpdateFirstIn(ns: seq<Node>, t: string, cs: seq<Node>): (r: seq<Node>)
    ensures |r| == |ns|
    ensures FirstIn(ns, t).None? ==> r == ns
    decreases ns
  {
    if ns == [] then []
    else if Tagged(ns[0], t) then [Element(t, cs)] + ns[1..]
    else if FirstBelow(ns[0], t).Some? then [UpdateBelow(ns[0], t, cs)] + ns[1..]
    else [ns[0]] + UpdateFirstIn(ns[1..], t, cs)
  }

  function UpdateBelow(n: Node, t: string, cs: seq<Node>): (r: Node)
    ensures r.Element? == n.Element? && (r.Element? ==> r.tag == n.tag)
    ensures FirstBelow(n, t).None? ==> r == n
    decreases n
  {
    match n
    case Text(_) => n
    case Element(g, kids) => Element(g, UpdateFirstIn(kids, t, cs))
  }

  /** The document with the children of its first element tagged `t` replaced. */
  function DocUpdate(root: Node, t: string, cs: seq<Node>): (r: Node)
    ensures root.Element? ==> r.Element? && r.tag == root.tag
  {
    UpdateFirstIn([root], t, cs)[0]
  }

  /** `parent.appendChild(child)`. */
  function AppendChild(parent: Node, child: Node): (r: Node)
    requires parent.Element?
    ensures r.Element? && r.tag == parent.tag && r.children == parent.children + [child]
  {
    Element(parent.tag, parent.children + [child])
  }

  /** The search and the count over a single node. */
  lemma FirstInSingle(x: Node, u: string)
    ensures FirstIn([x], u) == if Tagged(x, u) then Some(x) else FirstBelow(x, u)
    ensures CountIn([x], u) == (if Tagged(x, u) then 1 else 0) + CountBelow(x, u)
  {
    assert [x][1..] == [];
  }

  /** Appending a child to a document element not tagged `u`: the first element
      tagged `u` is the old one when there is one, otherwise the first in the new
      child; the count grows by the new child's count. */
  lemma DocFirstAppend(root: Node, x: Node, u: string)
    requires root.Element? && root.tag != u
    ensures DocFirst(AppendChild(root, x), u) == if DocFirst(root, u).Some? then DocFirst(root, u) else FirstIn([x], u)
    ensures CountIn([AppendChild(root, x)], u) == CountIn([root], u) + CountIn([x], u)
  {
    var r := AppendChild(root, x);
    FirstInSingle(root, u);
    FirstInSingle(r, u);
    FirstInConcat(root.children, [x], u);
  }

  /** A one-text element holds no element. */
  lemma TextLeafHoldsNothing(t: string, v: string, u: string)
    ensures FirstBelow(Element(t, [Text(v)]), u) == None
    ensures CountBelow(Element(t, [Text(v)]), u) == 0
  {
    FirstInSingle(Text(v), u);
  }

  /** After the update, the first element tagged `t` is the updated one. */
  lemma {:induction false} UpdateFirstFinds(ns: seq<Node>, t: string, cs: seq<Node>)
    requires FirstIn(ns, t).Some?
    ensures FirstIn(UpdateFirstIn(ns, t, cs), t) == Some(Element(t, cs))
    decreases ns
  {
    var r := UpdateFirstIn(ns, t, cs);
    assert r[1..] == if Tagged(ns[0], t) || FirstBelow(ns[0], t).Some? then ns[1..]
                     else UpdateFirstIn(ns[1..], t, cs);
    if Tagged(ns[0], t) {
    } else if FirstBelow(ns[0], t).Some? {
      UpdateBelowFinds(ns[0], t, cs);
    } else {
      UpdateFirstFinds(ns[1..], t, cs);
    }
  }

  lemma {:induction false} UpdateBelowFinds(n: Node, t: string, cs: seq<Node>)
    requires FirstBelow(n, t).Some?
    ensures FirstBelow(UpdateBelow(n, t, cs), t) == Some(Element(t, cs))
    decreases n
  {
    UpdateFirstFinds(n.children, t, cs);
  }

  /** The update changes the number of elements tagged `u` by exactly the difference
      between the new and the old children of the updated element. */
  lemma {:induction false} UpdateFirstCount(ns: seq<Node>, t: string, cs: seq<Node>, u: string)
    requires FirstIn(ns, t).Some?
    ensures CountIn(UpdateFirstIn(ns, t, cs), u) + CountIn(FirstIn(ns, t).value.children, u)
            == CountIn(ns, u) + CountIn(cs, u)
    decreases ns
  {
    var r := UpdateFirstIn(ns, t, cs);
    if Tagged(ns[0], t) {
      assert r[0] == Element(t, cs) && r[1..] == ns[1..];
    } else if FirstBelow(ns[0], t).Some? {
      assert r[0] == UpdateBelow(ns[0], t, cs) && r[1..] == ns[1..];
      UpdateBelowCount(ns[0], t, cs, u);
    } else {
      assert r[0] == ns[0] && r[1..] == UpdateFirstIn(ns[1..], t, cs);
      UpdateFirstCount(ns[1..], t, cs, u);
    }
  }

  lemma {:induction false} UpdateBelowCount(n: Node, t: string, cs: seq<Node>, u: string)
    requires FirstBelow(n, t).Some?
    ensures CountBelow(UpdateBelow(n, t, cs), u) + CountIn(FirstBelow(n, t).value.children, u)
            == CountBelow(n, u) + CountIn(cs, u)
    decreases n
  {
    UpdateFirstCount(n.children, t, cs, u);
  }

  /** Updating the children of the first element tagged `t` does not change what
      `firstChild.data` reads for another tag `u`, provided the new children lead to
      the same first `u` element as the old ones. */
  lemma {:induction false} UpdateFirstKeepsView(ns: seq<Node>, t: string, cs: seq<Node>, u: string)
    requires u != t
    requires FirstIn(ns, t).Some? ==> FirstIn(cs, u) == FirstIn(FirstIn(ns, t).value.children, u)
    ensures ViewOf(FirstIn(UpdateFirstIn(ns, t, cs), u)) == ViewOf(FirstIn(ns, u))
    decreases ns
  {
    if ns != [] {
      var r := UpdateFirstIn(ns, t, cs);
      if Tagged(ns[0], t) {
        assert r[0] == Element(t, cs) && r[1..] == ns[1..];
      } else if FirstBelow(ns[0], t).Some? {
        assert r[0] == UpdateBelow(ns[0], t, cs) && r[1..] == ns[1..];
        UpdateBelowKeepsView(ns[0], t, cs, u);
        UpdateBelowFirstChild(ns[0], t, cs);
      } else {
        assert r[0] == ns[0] && r[1..] == UpdateFirstIn(ns[1..], t, cs);
        UpdateFirstKeepsView(ns[1..], t, cs, u);
      }
    }
  }

  lemma {:induction false} UpdateBelowKeepsView(n: Node, t: string, cs: seq<Node>, u: string)
    requires u != t
    requires FirstBelow(n, t).Some? ==> FirstIn(cs, u) == FirstIn(FirstBelow(n, t).value.children, u)
    ensures ViewOf(FirstBelow(UpdateBelow(n, t, cs), u)) == ViewOf(FirstBelow(n, u))
    decreases n
  {
    if n.Element? {
      UpdateFirstKeepsView(n.children, t, cs, u);
    }
  }

  /** Rewriting the first element tagged `t` with the children it already has
      changes nothing. */
  lemma {:induction false} UpdateFirstSame(ns: seq<Node>, t: string, cs: seq<Node>)
    requires FirstIn(ns, t) == Some(Element(t, cs))
    ensures UpdateFirstIn(ns, t, cs) == ns
    decreases ns
  {
    if Tagged(ns[0], t) {
      assert [ns[0]] + ns[1..] == ns;
    } else if FirstBelow(ns[0], t).Some? {
      UpdateFirstSame(ns[0].children, t, cs);
      assert [ns[0]] + ns[1..] == ns;
    } else {
      UpdateFirstSame(ns[1..], t, cs);
      assert [ns[0]] + ns[1..] == ns;
    }
  }

  /** Updating the first element tagged `t` leaves the first element tagged `u` as it
      was, when that element has no `t` element inside it and the new children lead
      to the same first `u` element as the old ones. */
  lemma {:induction false} UpdateFirstKeepsFirst(ns: seq<Node>, t: string, cs: seq<Node>, u: string)
    requires u != t
    requires FirstIn(ns, u).Some? ==> CountBelow(FirstIn(ns, u).value, t) == 0
    requires FirstIn(ns, t).Some? ==> FirstIn(cs, u) == FirstIn(FirstIn(ns, t).value.children, u)
    ensures FirstIn(UpdateFirstIn(ns, t, cs), u) == FirstIn(ns, u)
    decreases ns
  {
    if ns != [] {
      var r := UpdateFirstIn(ns, t, cs);
      if Tagged(ns[0], t) {
        assert r[0] == Element(t, cs) && r[1..] == ns[1..];
      } else if FirstBelow(ns[0], t).Some? {
        assert r[0] == UpdateBelow(ns[0], t, cs) && r[1..] == ns[1..];
        UpdateFirstKeepsFirst(ns[0].children, t, cs, u);
      } else {
        assert r[0] == ns[0] && r[1..] == UpdateFirstIn(ns[1..], t, cs);
        if !Tagged(ns[0], u) && FirstBelow(ns[0], u).None? {
          UpdateFirstKeepsFirst(ns[1..], t, cs, u);
        }
      }
    }
  }

  /** Nodes holding no element tagged `t` are passed over by the update. */
  lemma {:induction false} UpdateFirstInConcat(a: seq<Node>, b: seq<Node>, t: string, cs: seq<Node>)
    requires FirstIn(a, t).None?
    ensures UpdateFirstIn(a + b, t, cs) == a + UpdateFirstIn(b, t, cs)
    decreases a
  {
    if a == [] {
      assert a + b == b;
    } else {
      assert (a + b)[0] == a[0] && (a + b)[1..] == a[1..] + b;
      UpdateFirstInConcat(a[1..], b, t, cs);
      assert [a[0]] + (a[1..] + UpdateFirstIn(b, t, cs)) == a + UpdateFirstIn(b, t, cs);
    }
  }

  /** An update strictly below `n` leaves the kind and text of `n`'s first child alone. */
  lemma UpdateBelowFirstChild(n: Node, t: string, cs: seq<Node>)
    requires FirstBelow(n, t).Some?
    ensures FirstChildText(UpdateBelow(n, t, cs)) == FirstChildText(n)
  {
    var kids := n.children;
    if kids != [] {
      var r := UpdateFirstIn(kids, t, cs);
      assert r[0] == if Tagged(kids[0], t) then Element(t, cs)
                     else if FirstBelow(kids[0], t).Some? then UpdateBelow(kids[0], t, cs)
                     else kids[0];
    }
  }

  /** Appending an empty element tagged `t` after nodes holding none, then giving
      the first element tagged `t` the children `cs`, appends an element tagged `t`
      holding `cs`. */
  lemma {:induction false} UpdateFirstAfterAppend(ns: seq<Node>, t: string, cs: seq<Node>)
    requires FirstIn(ns, t).None?
    ensures UpdateFirstIn(ns + [Element(t, [])], t, cs) == ns + [Element(t, cs)]
  {
    if ns == [] {
      assert [Element(t, [])][1..] == [];
    } else {
      assert (ns + [Element(t, [])])[1..] == ns[1..] + [Element(t, [])];
      UpdateFirstAfterAppend(ns[1..], t, cs);
    }
  }

  /** The same below one element (`__getListToUpdate` creating the container). */
  lemma UpdateBelowAfterAppend(n: Node, t: string, cs: seq<Node>)
    requires n.Element? && FirstBelow(n, t).None?
    ensures UpdateBelow(AppendChild(n, Element(t, [])), t, cs) == AppendChild(n, Element(t, cs))
  {
    UpdateFirstAfterAppend(n.children, t, cs);
  }

  /** The same in the whole document (`__checkAndSetTextNode` creating the field). */
  lemma DocUpdateAfterAppend(root: Node, t: string, cs: seq<Node>)
    requires root.Element? && DocFirst(root, t).None?
    ensures DocUpdate(AppendChild(root, Element(t, [])), t, cs) == AppendChild(root, Element(t, cs))
  {
    FirstInSingle(root, t);
    var r := AppendChild(root, Element(t, []));
    FirstInConcat(root.children, [Element(t, [])], t);
    FirstInSingle(Element(t, []), t);
    assert FirstBelow(r, t).Some?;
    UpdateBelowAfterAppend(root, t, cs);
    assert UpdateFirstIn([r], t, cs) == [UpdateBelow(r, t, cs)] + [r][1..];
  }

  /** After a document update the first element tagged `t` is the updated one. */
  lemma DocUpdateFinds(root: Node, t: string, cs: seq<Node>)
    requires DocFirst(root, t).Some?
    ensures DocFirst(DocUpdate(root, t, cs), t) == Some(Element(t, cs))
  {
    UpdateFirstFinds([root], t, cs);
    assert [DocUpdate(root, t, cs)] == UpdateFirstIn([root], t, cs);
  }

  /** Replacing the children of the first `t` by children holding the same first
      element tagged `u`, and as many, changes neither the view of `u` nor its
      count. */
  lemma DocUpdateKeepsOthers(root: Node, t: string, cs: seq<Node>, u: string)
    requires u != t && DocFirst(root, t).Some?
    requires FirstIn(cs, u) == FirstIn(DocFirst(root, t).value.children, u)
    requires CountIn(cs, u) == CountIn(DocFirst(root, t).value.children, u)
    ensures ViewOf(DocFirst(DocUpdate(root, t, cs), u)) == ViewOf(DocFirst(root, u))
    ensures CountIn([DocUpdate(root, t, cs)], u) == CountIn([root], u)
  {
    UpdateFirstFinds([root], t, cs);
    assert [DocUpdate(root, t, cs)] == UpdateFirstIn([root], t, cs);
    UpdateFirstKeepsView([root], t, cs, u);
    UpdateFirstCount([root], t, cs, u);
  }

  /** Appending a node after `ns` changes neither the first element tagged `u`, when
      there already is one, nor the reading of its first child. */
  lemma AppendKeepsFirst(ns: seq<Node>, x: Node, u: string)
    requires FirstIn(ns, u).Some?
    ensures FirstIn(ns + [x], u) == FirstIn(ns, u)
  {
    FirstInConcat(ns, [x], u);
  }

  // ---------------------------------------------------------------------------
  // Text nodes following a replaced text (replaceWholeText)
  // ---------------------------------------------------------------------------

  /** `ns` without its leading run of text nodes. */
  function DropLeadingTexts(ns: seq<Node>): (r: seq<Node>)
    ensures r == [] || r[0].Element?
    ensures |r| <= |ns| && r == ns[|ns| - |r|..]
    ensures forall i :: 0 <= i < |ns| - |r| ==> ns[i].Text?
  {
    if ns != [] && ns[0].Text? then DropLeadingTexts(ns[1..]) else ns
  }

  /** Text nodes carry no elements, so dropping them changes no search or count. */
  lemma {:induction false} DropLeadingTextsKeepsElements(ns: seq<Node>, u: string)
    ensures FirstIn(DropLeadingTexts(ns), u) == FirstIn(ns, u)
    ensures CountIn(DropLeadingTexts(ns), u) == CountIn(ns, u)
  {
    if ns != [] && ns[0].Text? {
      DropLeadingTextsKeepsElements(ns[1..], u);
    }
  }

  /** The children after `replaceWholeText(value)` on the first child (a text node):
      the text nodes directly after it are gone, and the text now reads `value`, or
      is gone as well when `value` is empty. */
  function ReplaceWholeText(cs: seq<Node>, value: string): (r: seq<Node>)
    requires cs != [] && cs[0].Text?
    ensures value != "" ==> r != [] && r[0] == Text(value) && r[1..] == DropLeadingTexts(cs[1..])
    ensures value == "" ==> r == DropLeadingTexts(cs[1..])
  {
    (if value == "" then [] else [Text(value)]) + DropLeadingTexts(cs[1..])
  }

  /** A text node in front of `ns` changes no search or count. */
  lemma TextInFront(x: string, ns: seq<Node>, u: string)
    ensures FirstIn([Text(x)] + ns, u) == FirstIn(ns, u)
    ensures CountIn([Text(x)] + ns, u) == CountIn(ns, u)
  {
    var l := [Text(x)] + ns;
    assert l[0] == Text(x) && l[1..] == ns;
  }

  lemma ReplaceWholeTextKeepsElements(cs: seq<Node>, value: string, u: string)
    requires cs != [] && cs[0].Text?
    ensures FirstIn(ReplaceWholeText(cs, value), u) == FirstIn(cs, u)
    ensures CountIn(ReplaceWholeText(cs, value), u) == CountIn(cs, u)
  {
    var rest := DropLeadingTexts(cs[1..]);
    DropLeadingTextsKeepsElements(cs[1..], u);
    TextInFront(cs[0].data, cs[1..], u);
    assert cs == [Text(cs[0].data)] + cs[1..];
    if value != "" {
      TextInFront(value, rest, u);
      assert ReplaceWholeText(cs, value) == [Text(value)] + rest;
    }
  }

  lemma DropLeadingTextsIdempotent(ns: seq<Node>)
    ensures DropLeadingTexts(DropLeadingTexts(ns)) == DropLeadingTexts(ns)
  {
  }

  /** Replacing the whole text a second time with the same non-empty value changes
      nothing. */
  lemma ReplaceWholeTextIdempotent(cs: seq<Node>, value: string)
    requires cs != [] && cs[0].Text? && value != ""
    ensures ReplaceWholeText(ReplaceWholeText(cs, value), value) == ReplaceWholeText(cs, value)
  {
    DropLeadingTextsIdempotent(cs[1..]);
  }
}
