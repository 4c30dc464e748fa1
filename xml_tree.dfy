/** The part of the W3C DOM the response decoders use, over an abstract tree.

    Parsing itself (DocumentBuilder.parse) is not modelled: a parse is an
    oracle that yields a `Document` or fails. What is modelled is what the
    decoders ask of the tree: child lists, attribute lookup, text content and
    `getElementsByTagName`. */
module XmlTree {
  import opened Wrappers

  datatype Attr = Attr(name: string, value: string)

  /** A DOM node of one of the kinds a gateway response can hold. The
      attributes of an element are listed in the order its NamedNodeMap
      exposes them. */
  datatype Node =
    | Element(name: string, attrs: seq<Attr>, children: seq<Node>)
    | Text(data: string)
    | Comment(data: string)

  /** A parsed document: the children of the Document node, that is the root
      element together with any comment before or after it. */
  datatype Document = Document(children: seq<Node>)

  predicate IsElementNamed(n: Node, name: string) {
    n.Element? && n.name == name
  }

  /** `n.getChildNodes()`: empty for anything but an element. */
  function ChildNodes(n: Node): seq<Node> {
    if n.Element? then n.children else []
  }

  /** `n.getAttributes()`: `None` (Java's null) for anything but an element. */
  function Attributes(n: Node): (r: Option<seq<Attr>>)
    ensures r.Some? <==> n.Element?
  {
    if n.Element? then Some(n.attrs) else None
  }

  /** `attrs.getNamedItem(name).getTextContent()`, `None` where
      `getNamedItem` returns null. */
  function NamedItem(attrs: seq<Attr>, name: string): Option<string> {
    if attrs == [] then None
    else if attrs[0].name == name then Some(attrs[0].value)
    else NamedItem(attrs[1..], name)
  }

  /** An attribute is found exactly when the element has one of that name,
      and what is found is the value of the first such. */
  lemma {:induction false} NamedItemSpec(attrs: seq<Attr>, name: string)
    ensures NamedItem(attrs, name).Some? <==> exists i :: 0 <= i < |attrs| && attrs[i].name == name
    ensures NamedItem(attrs, name).Some? ==>
      exists i :: 0 <= i < |attrs| && attrs[i] == Attr(name, NamedItem(attrs, name).value)
        && forall j | 0 <= j < i :: attrs[j].name != name
  {
    if attrs != [] && attrs[0].name != name {
      NamedItemSpec(attrs[1..], name);
      if exists i :: 0 <= i < |attrs| && attrs[i].name == name {
        var i :| 0 <= i < |attrs| && attrs[i].name == name;
        assert attrs[1..][i - 1].name == name;
      }
      if NamedItem(attrs, name).Some? {
        var i :| 0 <= i < |attrs[1..]| && attrs[1..][i] == Attr(name, NamedItem(attrs, name).value)
          && forall j | 0 <= j < i :: attrs[1..][j].name != name;
        assert attrs[i + 1] == attrs[1..][i];
        assert forall j | 1 <= j < i + 1 :: attrs[j] == attrs[1..][j - 1];
      }
    } else if attrs != [] {
      assert attrs[0] == Attr(name, NamedItem(attrs, name).value);
    }
  }

  /** `n.getTextContent()`: the text of every descendant text node, in
      document order; comments inside an element contribute nothing. */
  function TextContent(n: Node): (r: string)
    ensures n.Element? ==> r == TextData(Preorder(n.children))
    decreases n
  {
    match n
    case Text(d) => d
    case Comment(d) => d
    case Element(_, _, ch) => ChildrenText(ch)
  }

  function ChildrenText(ns: seq<Node>): (r: string)
    ensures r == TextData(Preorder(ns))
    decreases ns
  {
    if ns == [] then ""
    else
      PreorderText(ns);
      (if ns[0].Comment? then "" else TextContent(ns[0])) + ChildrenText(ns[1..])
  }

  /** The data of the text nodes among `ns`, in order: what a reader sees of
      a run of nodes once comments and element boundaries are dropped. */
  function TextData(ns: seq<Node>): string {
    if ns == [] then ""
    else (if ns[0].Text? then ns[0].data else "") + TextData(ns[1..])
  }

  /** The text under a run of nodes is that of its first node, then of the
      first node's descendants, then of the rest of the run. */
  lemma PreorderText(ns: seq<Node>)
    requires ns != []
    ensures TextData(Preorder(ns))
            == (if ns[0].Text? then ns[0].data else "")
               + TextData(Preorder(ChildNodes(ns[0]))) + TextData(Preorder(ns[1..]))
  {
    var head := [ns[0]] + Preorder(ChildNodes(ns[0]));
    PreorderCons(ns);
    TextDataConcat(head, Preorder(ns[1..]));
    TextDataConcat([ns[0]], Preorder(ChildNodes(ns[0])));
    TextDataSingle(ns[0]);
  }

  lemma PreorderCons(ns: seq<Node>)
    requires ns != []
    ensures Preorder(ns) == [ns[0]] + Preorder(ChildNodes(ns[0])) + Preorder(ns[1..])
  {
  }

  lemma TextDataSingle(n: Node)
    ensures TextData([n]) == (if n.Text? then n.data else "")
  {
    assert [n][1..] == [];
  }

  lemma {:induction false} TextDataConcat(a: seq<Node>, b: seq<Node>)
    ensures TextData(a + b) == TextData(a) + TextData(b)
  {
    if a == [] {
      assert a + b == b;
    } else {
      assert (a + b)[0] == a[0] && (a + b)[1..] == a[1..] + b;
      TextDataConcat(a[1..], b);
    }
  }

  /** Every node under `ns`, each followed by its own descendants: document
      order. */
  function Preorder(ns: seq<Node>): seq<Node>
    decreases ns
  {
    if ns == [] then []
    else
      match ns[0]
      case Element(_, _, ch) => [ns[0]] + Preorder(ch) + Preorder(ns[1..])
      case _ => [ns[0]] + Preorder(ns[1..])
  }

  /** The elements named `tag` among `ns`, in the order of `ns`. */
  function Named(ns: seq<Node>, tag: string): (r: seq<Node>)
    ensures forall e <- r :: IsElementNamed(e, tag) && e in ns
    ensures forall e <- ns :: IsElementNamed(e, tag) ==> e in r
    ensures |r| <= |ns|
  {
    if ns == [] then []
    else (if IsElementNamed(ns[0], tag) then [ns[0]] else []) + Named(ns[1..], tag)
  }

  /** `doc.getElementsByTagName(tag)`: every element of the document named
      `tag`, in document order. */
  function ElementsByTagName(doc: Document, tag: string): (r: seq<Node>)
    ensures forall e <- r :: IsElementNamed(e, tag) && e in Preorder(doc.children)
    ensures forall e <- Preorder(doc.children) :: IsElementNamed(e, tag) ==> e in r
  {
    Named(Preorder(doc.children), tag)
  }

  /** Filtering a concatenation filters each part. */
  lemma {:induction false} NamedConcat(a: seq<Node>, b: seq<Node>, tag: string)
    ensures Named(a + b, tag) == Named(a, tag) + Named(b, tag)
  {
    if a == [] {
      assert a + b == b;
    } else {
      assert (a + b)[0] == a[0] && (a + b)[1..] == a[1..] + b;
      NamedConcat(a[1..], b, tag);
    }
  }

  /** An element comes first among the nodes of its own subtree, so the first
      element named `tag` at or under a top-level element with that name is
      the element itself. */
  lemma FirstNamedIsTopmost(root: Node, rest: seq<Node>, tag: string)
    requires IsElementNamed(root, tag)
    ensures Named(Preorder([root] + rest), tag)[0] == root
  {
    assert ([root] + rest)[1..] == rest;
    var pre := Preorder([root] + rest);
    assert pre == [root] + Preorder(root.children) + Preorder(rest);
    assert pre == [root] + (Preorder(root.children) + Preorder(rest));
    NamedConcat([root], Preorder(root.children) + Preorder(rest), tag);
  }

  /** Nothing is found where no node has the name. */
  lemma {:induction false} NamedNone(ns: seq<Node>, tag: string)
    requires forall n <- ns :: !IsElementNamed(n, tag)
    ensures Named(ns, tag) == []
  {
    if ns != [] {
      assert ns[0] in ns;
      assert forall n <- ns[1..] :: n in ns;
      NamedNone(ns[1..], tag);
    }
  }

  /** An element whose children are all text: `tag` elements whose text is
      all they hold. */
  predicate IsLeaf(n: Node, tag: string) {
    IsElementNamed(n, tag) && forall c <- n.children :: c.Text?
  }

  lemma {:induction false} TextsPreorder(ts: seq<Node>)
    requires forall t <- ts :: t.Text?
    ensures Preorder(ts) == ts
  {
    if ts != [] {
      assert ts[0] in ts;
      assert forall t <- ts[1..] :: t in ts;
      TextsPreorder(ts[1..]);
      assert ts == [ts[0]] + ts[1..];
    }
  }

  /** A run of leaf elements named `tag` is found whole and in order. */
  lemma {:induction false} LeavesFound(cs: seq<Node>, tag: string)
    requires forall c <- cs :: IsLeaf(c, tag)
    ensures Named(Preorder(cs), tag) == cs
  {
    if cs != [] {
      var c := cs[0];
      var rest := cs[1..];
      assert IsLeaf(c, tag) by {
        assert c in cs;
      }
      assert forall d <- rest :: IsLeaf(d, tag) by {
        assert forall d <- rest :: d in cs;
      }
      TextsPreorder(c.children);
      NamedNone(c.children, tag);
      LeavesFound(rest, tag);
      var pre := Preorder(rest);
      assert Preorder(cs) == [c] + c.children + pre;
      NamedConcat([c] + c.children, pre, tag);
      NamedConcat([c], c.children, tag);
      assert Named([c], tag) == [c];
      assert cs == [c] + rest;
    }
  }

  /** In a document made of one root, not itself named `tag`, whose children
      are leaf elements named `tag`, those children are what
      `getElementsByTagName(tag)` returns, in order. */
  lemma LeavesUnderRoot(root: Node, tag: string)
    requires root.Element? && root.name != tag
    requires forall c <- root.children :: IsLeaf(c, tag)
    ensures ElementsByTagName(Document([root]), tag) == root.children
  {
    LeavesFound(root.children, tag);
    assert [root][1..] == [];
    assert Preorder([root]) == [root] + Preorder(root.children);
    NamedConcat([root], Preorder(root.children), tag);
  }
}
