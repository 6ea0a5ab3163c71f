/**
  How the parser links what it parses: Identify sets the parent of a node, the node takes in its attributes and links
  its own children, and then it is linked behind the children its parent has so far.
 */
module XmlBuild {
  import A = XmlAttributes
  import P = XmlParse
  import XmlParser
  import opened XmlDom

  function TypeOf(v: P.Node): NodeType {
    match v
    case Element(_, _, _) => Element
    case Text(_, _) => Text
    case Comment(_) => Comment
    case Unknown(_) => Unknown
    case Declaration(_, _, _) => Declaration
  }

  function ValueOf(v: P.Node): string {
    match v
    case Element(name, _, _) => name
    case Text(value, _) => value
    case Comment(value) => value
    case Unknown(value) => value
    case Declaration(_, _, _) => ""
  }

  /** What a node holds besides its pointers; the attributes as its ring lists them, and whether the ring is closed. */
  datatype Label = Label(value: string, cdata: bool, version: string, encoding: string, standalone: string,
                         attributes: seq<P.Attribute>, ring: bool)

  function LabelFor(v: P.Node): Label {
    match v
    case Element(_, attributes, _) => Label(ValueOf(v), false, "", "", "", attributes, true)
    case Text(_, cdata) => Label(ValueOf(v), cdata, "", "", "", [], true)
    case Comment(_) => Label(ValueOf(v), false, "", "", "", [], true)
    case Unknown(_) => Label(ValueOf(v), false, "", "", "", [], true)
    case Declaration(version, encoding, standalone) => Label(ValueOf(v), false, version, encoding, standalone, [], true)
  }

  ghost function Listed(attrs: seq<A.Attribute>): (r: seq<P.Attribute>)
    reads attrs`name, attrs`value
    ensures |r| == |attrs| && forall k :: 0 <= k < |r| ==> r[k] == P.Attribute(attrs[k].name, attrs[k].value)
  {
    if attrs == [] then []
    else Listed(attrs[..|attrs| - 1]) + [P.Attribute(attrs[|attrs| - 1].name, attrs[|attrs| - 1].value)]
  }

  ghost function LabelOf(n: Node): Label
    reads n`value, n`cdata, n`version, n`encoding, n`standalone
    reads n.attributeSet, n.attributeSet.Parts()
  {
    Label(n.value, n.cdata, n.version, n.encoding, n.standalone, Listed(n.attributeSet.attrs), n.attributeSet.Valid())
  }

  function ChildrenOf(v: P.Node): (vs: seq<P.Node>)
    ensures forall c :: c in vs ==> c < v
  {
    if v.Element? then v.children else []
  }

  /** The node and the nodes under it, all of them in f, spell out the tree. */
  ghost predicate Shows(w: Net, labels: map<Node, Label>, n: Node, v: P.Node, f: set<Node>)
    decreases v
  {
    && n in f && n in w && n in labels
    && n.nodeType == TypeOf(v) && labels[n] == LabelFor(v)
    && |w[n].kids| == |ChildrenOf(v)|
    && forall i :: 0 <= i < |ChildrenOf(v)| ==> Shows(w, labels, w[n].kids[i], ChildrenOf(v)[i], f)
  }

  /** The trees are spelt out one by one. */
  ghost predicate ShowsAll(w: Net, labels: map<Node, Label>, ns: seq<Node>, vs: seq<P.Node>, f: set<Node>) {
    |ns| == |vs| && forall i :: 0 <= i < |vs| ==> Shows(w, labels, ns[i], vs[i], f)
  }

  /** What is spelt out stays so while the lists and labels of f stay. */
  lemma {:induction false} ShowsStays(w: Net, w': Net, labels: map<Node, Label>, labels': map<Node, Label>,
                                      n: Node, v: P.Node, f: set<Node>, f': set<Node>)
    requires Shows(w, labels, n, v, f) && f <= f'
    requires forall x :: x in f && x in w ==> x in w' && w'[x].kids == w[x].kids
    requires forall x :: x in f && x in labels ==> x in labels' && labels'[x] == labels[x]
    ensures Shows(w', labels', n, v, f')
    decreases v
  {
    forall i | 0 <= i < |ChildrenOf(v)|
      ensures Shows(w', labels', w'[n].kids[i], ChildrenOf(v)[i], f')
    {
      ShowsStays(w, w', labels, labels', w[n].kids[i], ChildrenOf(v)[i], f, f');
    }
  }

  lemma ShowsAllStays(w: Net, w': Net, labels: map<Node, Label>, labels': map<Node, Label>,
                      ns: seq<Node>, vs: seq<P.Node>, f: set<Node>, f': set<Node>)
    requires ShowsAll(w, labels, ns, vs, f) && f <= f'
    requires forall x :: x in f && x in w ==> x in w' && w'[x].kids == w[x].kids
    requires forall x :: x in f && x in labels ==> x in labels' && labels'[x] == labels[x]
    ensures ShowsAll(w', labels', ns, vs, f')
  {
    forall i | 0 <= i < |vs|
      ensures Shows(w', labels', ns[i], vs[i], f')
    {
      ShowsStays(w, w', labels, labels', ns[i], vs[i], f, f');
    }
  }

  lemma OneMore(w: Net, w': Net, labels: map<Node, Label>, labels': map<Node, Label>,
                ns: seq<Node>, vs: seq<P.Node>, i: nat, n: Node, f: set<Node>, g: set<Node>)
    requires i < |vs| && ShowsAll(w, labels, ns, vs[..i], f) && Shows(w', labels', n, vs[i], g)
    requires forall x :: x in f && x in w ==> x in w' && w'[x].kids == w[x].kids
    requires forall x :: x in f && x in labels ==> x in labels' && labels'[x] == labels[x]
    ensures ShowsAll(w', labels', ns + [n], vs[..i + 1], f + g)
  {
    hide Shows;
    ShowsAllStays(w, w', labels, labels', ns, vs[..i], f, f + g);
    ShowsStays(w', w', labels', labels', n, vs[i], g, f + g);
  }

  ghost function Labels(nodes: set<Node>): map<Node, Label>
    reads nodes, set n | n in nodes :: n.attributeSet
    reads set n, o | n in nodes && o in n.attributeSet.Parts() :: o
  {
    map n | n in nodes :: LabelOf(n)
  }

  /** A node whose own fields and whose ring are not written to keeps its label. */
  twostate lemma LabelKept(n: Node)
    requires n.value == old(n.value) && n.cdata == old(n.cdata)
    requires n.version == old(n.version) && n.encoding == old(n.encoding) && n.standalone == old(n.standalone)
    requires unchanged(n.attributeSet) && unchanged(n.attributeSet.Circle())
    ensures LabelOf(n) == old(LabelOf(n))
  {
    var ring := n.attributeSet;
    var circle := ring.Circle();
    assert circle == old(ring.Circle());
    assert forall k :: 0 <= k < |circle| ==> circle[k] in circle && unchanged(circle[k]);
    assert Listed(ring.attrs) == old(Listed(ring.attrs)) by {
      assert forall k :: 0 <= k < |ring.attrs| ==> ring.attrs[k] == circle[k + 1];
    }
    assert ring.Valid() <==> old(ring.Valid()) by {
      assert circle[0] == ring.sentinel;
      assert forall k :: 0 <= k < |circle| ==> (A.InPlace(circle, k) <==> old(A.InPlace(circle, k)));
    }
  }

  lemma LabelsAreNow(nodes: set<Node>)
    ensures Labels(nodes).Keys == nodes && forall n :: n in nodes ==> Labels(nodes)[n] == LabelOf(n)
  {
  }

  /** The lists, parents and labels of the nodes stay, but for the list of p. */
  twostate predicate OthersStay(nodes: set<Node>, p: Node)
    reads nodes, set n | n in nodes :: n.attributeSet
    reads set n, o | n in nodes && o in n.attributeSet.Parts() :: o
  {
    && (forall x :: x in nodes && x != p ==> x.kids == old(x.kids))
    && (forall x :: x in nodes ==> x.parent == old(x.parent) && LabelOf(x) == old(LabelOf(x)))
  }

  /** A node of its own joins the others. */
  lemma NewcomerIsLinked(w: Net, n: Node, l: Links)
    requires Linked(w) && n !in w && l.kids == [] && l.firstChild == null && l.lastChild == null
    ensures Linked(w[n := l]) && Unlisted(w[n := l], n)
  {
    var now := w[n := l];
    forall m, k | m in now && 0 <= k < |now[m].kids|
      ensures Entry(now, m, k) && now[m].kids[k] != n
    {
      assert Entry(w, m, k);
    }
  }

  method AddAttribute(attributeSet: A.AttributeSet, a: P.Attribute) returns (attrib: A.Attribute)
    requires attributeSet.Valid() && !A.HasName(attributeSet.attrs, a.name)
    modifies attributeSet, attributeSet.Circle()
    ensures attributeSet.Valid() && fresh(attrib) && attributeSet.attrs == old(attributeSet.attrs) + [attrib]
    ensures Listed(attributeSet.attrs) == old(Listed(attributeSet.attrs)) + [a]
  {
    hide A.Closed, A.HasName, Listed;
    ghost var before := attributeSet.attrs;
    attrib := new A.Attribute();
    attrib.name, attrib.value := a.name, a.value;
    assert A.HasName(before, a.name) <==> old(A.HasName(before, a.name));
    attributeSet.Add(attrib);
    assert forall k :: 0 <= k < |before| ==>
             before[k].name == old(before[k].name) && before[k].value == old(before[k].value);
  }

  lemma NotYetThere(attrs: seq<A.Attribute>, attributes: seq<P.Attribute>, i: nat)
    requires P.DistinctNames(attributes) && i < |attributes| && Listed(attrs) == attributes[..i]
    ensures !A.HasName(attrs, attributes[i].name)
  {
    assert forall k :: 0 <= k < i ==> attrs[k].name == Listed(attrs)[k].name == attributes[..i][k].name;
  }

  /** The attributes are added to the ring one by one; the parser has refused any name that was there before. */
  method AddAttributes(attributeSet: A.AttributeSet, attributes: seq<P.Attribute>)
    requires attributeSet.Valid() && attributeSet.attrs == [] && P.DistinctNames(attributes)
    modifies attributeSet, attributeSet.Circle()
    ensures attributeSet.Valid() && fresh(attributeSet.attrs) && Listed(attributeSet.attrs) == attributes
  {
    hide A.Closed, A.InPlace, A.HasName, Listed, P.DistinctNames;
    assert attributeSet.sentinel in attributeSet.Circle();
    for i := 0 to |attributes|
      invariant attributeSet.Valid() && fresh(attributeSet.attrs) && Listed(attributeSet.attrs) == attributes[..i]
    {
      assert forall a :: a in attributeSet.Circle() ==> a == attributeSet.sentinel || a in attributeSet.attrs;
      NotYetThere(attributeSet.attrs, attributes, i);
      var attrib := AddAttribute(attributeSet, attributes[i]);
      assert attributes[..i + 1] == attributes[..i] + [attributes[i]];
    }
  }

  /** What a node reads in front of its children. */
  method Fill(n: Node, v: P.Node)
    requires n.value == ValueOf(v) && !n.cdata && n.version == n.encoding == n.standalone == ""
    requires n.attributeSet.Valid() && n.attributeSet.attrs == [] && P.DistinctNode(v)
    modifies n`cdata, n`version, n`encoding, n`standalone, n.attributeSet, n.attributeSet.Circle()
    ensures LabelOf(n) == LabelFor(v)
  {
    hide A.Closed;
    match v {
      case Element(_, attributes, _) => AddAttributes(n.attributeSet, attributes);
      case Text(_, cdata) => n.cdata := cdata;
      case Declaration(version, encoding, standalone) =>
        n.version, n.encoding, n.standalone := version, encoding, standalone;
      case Comment(_) =>
      case Unknown(_) =>
    }
  }

  method NewNode(v: P.Node, ghost nodes: set<Node>) returns (n: Node)
    requires Forest(nodes) && P.DistinctNode(v)
    ensures fresh(n) && n.nodeType == TypeOf(v) && LabelOf(n) == LabelFor(v) && n.kids == [] && n.parent == null
    ensures Forest(nodes + {n}) && Unlisted(NetOf(nodes + {n}), n)
  {
    hide Linked, Unlisted, LabelOf;
    n := new Node(TypeOf(v), ValueOf(v));
    Fill(n, v);
    NewcomerIsLinked(NetOf(nodes), n, n.Pointers());
    assert NetOf(nodes + {n}) == NetOf(nodes)[n := n.Pointers()];
  }

  /** A node as it stands in front of its children: in no list, with the parent set unless it is a plain text. */
  method Begin(parent: Node, v: P.Node, ghost nodes: set<Node>) returns (n: Node)
    requires Forest(nodes) && parent in nodes && P.DistinctNode(v)
    ensures fresh(n) && n.nodeType == TypeOf(v) && LabelOf(n) == LabelFor(v) && n.kids == []
    ensures Forest(nodes + {n}) && n !in parent.kids && (n.parent == null || n.parent == parent)
    ensures forall x :: x in nodes ==> LabelOf(x) == old(LabelOf(x))
  {
    hide Linked, Unlisted, LabelOf, LabelFor, TypeOf, NetOf;
    n := NewNode(v, nodes);
    label Made:
    if !(v.Text? && !v.cdata) {
      parent.Adopt(n, nodes + {n});
    }
    LabelKept@Made(n);
    UnlistedIn(nodes + {n}, parent, n);
    forall x | x in nodes
      ensures LabelOf(x) == old(LabelOf(x))
    {
      LabelKept(x);
    }
  }

  /** The children of a node that has none yet. */
  method FillIn(n: Node, v: P.Node, ghost nodes: set<Node>) returns (ghost f: set<Node>)
    requires Forest(nodes) && n in nodes && n.kids == []
    requires P.DistinctNode(v)
    modifies nodes`parent, nodes`prev, nodes`next, nodes`firstChild, nodes`lastChild, nodes`kids, nodes`pos
    ensures fresh(f) && Forest(nodes + f) && OthersStay(nodes, n)
    ensures ShowsAll(NetOf(nodes + f), Labels(nodes + f), n.kids, ChildrenOf(v), f)
    decreases v, 0
  {
    hide Linked, Shows;
    f := {};
    if v.Element? {
      var ns;
      ns, f := LinkAll(n, v.children, nodes);
      assert [] + ns == ns;
    } else {
      assert nodes + f == nodes;
    }
  }

  method Link(parent: Node, n: Node, ghost nodes: set<Node>)
    requires Forest(nodes) && parent in nodes && n in nodes && n != parent && n !in parent.kids
    requires (n.parent == null || n.parent == parent) && n.nodeType != Document
    modifies nodes`parent, nodes`prev, nodes`next, nodes`firstChild, nodes`lastChild, nodes`kids, nodes`pos
    ensures Forest(nodes) && parent.kids == old(parent.kids) + [n]
    ensures forall x :: x in nodes && x != parent ==> x.kids == old(x.kids)
    ensures forall x :: x in nodes && x != n ==> x.parent == old(x.parent)
    ensures forall x :: x in nodes ==> LabelOf(x) == old(LabelOf(x))
  {
    hide Linked, LabelOf, Appended, NetOf;
    ghost var w := NetOf(nodes);
    NetIsNow(nodes);
    var r := parent.LinkEndChild(n, nodes);
    NetIsNow(nodes);
    forall x | x in nodes
      ensures LabelOf(x) == old(LabelOf(x))
    {
      LabelKept(x);
    }
    assert forall x :: x in nodes && x != parent ==> NetOf(nodes)[x].kids == w[x].kids;
  }

  /** The node is linked, and what stands under it is not disturbed. */
  method Finish(parent: Node, n: Node, v: P.Node, ghost nodes: set<Node>, ghost f: set<Node>)
    requires Forest(nodes) && parent in nodes && n in nodes && n != parent && n !in parent.kids && n in f
    requires n.parent == null || n.parent == parent
    requires n.nodeType == TypeOf(v) && LabelOf(n) == LabelFor(v) && parent !in f
    requires ShowsAll(NetOf(nodes), Labels(nodes), n.kids, ChildrenOf(v), f)
    modifies nodes`parent, nodes`prev, nodes`next, nodes`firstChild, nodes`lastChild, nodes`kids, nodes`pos
    ensures Forest(nodes) && parent.kids == old(parent.kids) + [n]
    ensures forall x :: x in nodes && x != parent ==> x.kids == old(x.kids)
    ensures forall x :: x in nodes && x != n ==> x.parent == old(x.parent)
    ensures forall x :: x in nodes ==> LabelOf(x) == old(LabelOf(x))
    ensures Shows(NetOf(nodes), Labels(nodes), n, v, f)
  {
    hide Linked, Shows, ShowsAll, Labels, LabelOf;
    ghost var w, labels := NetOf(nodes), Labels(nodes);
    NetIsNow(nodes);
    LabelsAreNow(nodes);
    Link(parent, n, nodes);
    NetIsNow(nodes);
    LabelsAreNow(nodes);
    ShowsAllStays(w, NetOf(nodes), labels, Labels(nodes), n.kids, ChildrenOf(v), f, f);
    ShowsRoot(nodes, n, n.kids, v, f);
  }

  /** One node with everything under it, linked behind the children the parent has so far. */
  method LinkTree(parent: Node, v: P.Node, ghost nodes: set<Node>) returns (n: Node, ghost f: set<Node>)
    requires Forest(nodes) && parent in nodes
    requires P.DistinctNode(v)
    modifies nodes`parent, nodes`prev, nodes`next, nodes`firstChild, nodes`lastChild, nodes`kids, nodes`pos
    ensures fresh(f) && n in f && Forest(nodes + f)
    ensures parent.kids == old(parent.kids) + [n] && OthersStay(nodes, parent)
    ensures Shows(NetOf(nodes + f), Labels(nodes + f), n, v, f)
    decreases v, 1
  {
    hide Forest, Shows, ShowsAll, NetOf, Labels, LabelOf;
    n := Begin(parent, v, nodes);
    ghost var g := FillIn(n, v, nodes + {n});
    f := {n} + g;
    assert nodes + {n} + g == nodes + f;
    ShowsMore(nodes + f, n.kids, ChildrenOf(v), g, f);
    Finish(parent, n, v, nodes + f, f);
  }

  lemma ShowsMore(nodes: set<Node>, ns: seq<Node>, vs: seq<P.Node>, f: set<Node>, f': set<Node>)
    requires ShowsAll(NetOf(nodes), Labels(nodes), ns, vs, f) && f <= f'
    ensures ShowsAll(NetOf(nodes), Labels(nodes), ns, vs, f')
  {
    ShowsAllStays(NetOf(nodes), NetOf(nodes), Labels(nodes), Labels(nodes), ns, vs, f, f');
  }

  lemma ShowsRoot(nodes: set<Node>, n: Node, ns: seq<Node>, v: P.Node, f: set<Node>)
    requires n in f && n in nodes && n.nodeType == TypeOf(v) && LabelOf(n) == LabelFor(v) && n.kids == ns
    requires ShowsAll(NetOf(nodes), Labels(nodes), ns, ChildrenOf(v), f)
    ensures Shows(NetOf(nodes), Labels(nodes), n, v, f)
  {
  }

  lemma NoneToShow(nodes: set<Node>, vs: seq<P.Node>)
    ensures ShowsAll(NetOf(nodes), Labels(nodes), [], vs[..0], {})
  {
  }

  /** The children of one node, in the order they are parsed. */
  method LinkAll(parent: Node, vs: seq<P.Node>, ghost nodes: set<Node>) returns (ns: seq<Node>, ghost f: set<Node>)
    requires Forest(nodes) && parent in nodes
    requires P.DistinctAll(vs)
    modifies nodes`parent, nodes`prev, nodes`next, nodes`firstChild, nodes`lastChild, nodes`kids, nodes`pos
    ensures fresh(f) && Forest(nodes + f)
    ensures parent.kids == old(parent.kids) + ns && OthersStay(nodes, parent)
    ensures ShowsAll(NetOf(nodes + f), Labels(nodes + f), ns, vs, f)
    decreases vs, 0
  {
    hide Linked, Shows, ShowsAll, Labels, LabelOf;
    ns, f := [], {};
    assert nodes + f == nodes;
    NoneToShow(nodes, vs);
    for i := 0 to |vs|
      invariant fresh(f) && Forest(nodes + f)
      invariant parent.kids == old(parent.kids) + ns && OthersStay(nodes, parent)
      invariant ShowsAll(NetOf(nodes + f), Labels(nodes + f), ns, vs[..i], f)
    {
      ghost var w, labels, all := NetOf(nodes + f), Labels(nodes + f), nodes + f;
      LabelsAreNow(all);
      var n, g := LinkTree(parent, vs[i], all);
      LabelsAreNow(all + g);
      OneMore(w, NetOf(all + g), labels, Labels(all + g), ns, vs, i, n, f, g);
      assert all + g == nodes + (f + g);
      ns, f := ns + [n], f + g;
    }
    assert vs[..|vs|] == vs;
  }

  method NewDocument() returns (root: Node)
    ensures fresh(root) && root.nodeType == Document && root.kids == [] && Forest({root})
  {
    root := new Node(Document, "");
    NewcomerIsLinked(map[], root, root.Pointers());
    assert NetOf({root}) == map[root := root.Pointers()];
  }

  /** Parse on a document without children: what hangs under the document node is what the text says. */
  method ParseAndLink(text: string, condense: bool) returns (root: Node, error: P.Error, ghost nodes: set<Node>)
    requires '\0' !in text
    ensures fresh(nodes) && root in nodes && root.nodeType == Document && Forest(nodes)
    ensures var parsed := P.ParseDocument(text, condense);
            && error == parsed.err
            && ShowsAll(NetOf(nodes), Labels(nodes), root.kids, parsed.value, nodes)
  {
    hide Linked, Shows, ShowsAll, Labels, LabelOf, P.ParseDocument;
    var document := new XmlParser.Document(text, condense);
    var p := document.Parse();
    P.ParseDocumentDistinct(text, condense);
    root := NewDocument();
    var ns, f := LinkAll(root, document.children, {root});
    nodes := {root} + f;
    assert [] + ns == ns;
    ShowsMore(nodes, ns, document.children, f, nodes);
    error := document.error;
  }
}
