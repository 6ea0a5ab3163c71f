/**
  The child lists of the document object model: parent, prev, next, firstChild and lastChild pointers,
  rewritten in place, against the sequence of children each node has.
 */
module XmlDom {
  import A = XmlAttributes

  datatype NodeType = Document | Element | Comment | Unknown | Text | Declaration

  class Node {
    const nodeType: NodeType
    var value: string
    var cdata: bool // of a text
    var version: string // of a declaration, as the next two
    var encoding: string
    var standalone: string
    const attributeSet: A.AttributeSet // filled by elements only
    var parent: Node?
    var prev: Node?
    var next: Node?
    var firstChild: Node?
    var lastChild: Node?
    ghost var kids: seq<Node>
    ghost var pos: nat // where the node stands among the children of its parent

    ghost function Pointers(): Links
      reads this
    {
      Links(parent, prev, next, firstChild, lastChild, kids, pos)
    }

    constructor (t: NodeType, v: string)
      ensures nodeType == t && value == v && kids == [] && HasEnds(firstChild, lastChild, kids)
      ensures parent == null && prev == null && next == null
      ensures !cdata && version == encoding == standalone == ""
      ensures attributeSet.Valid() && attributeSet.attrs == [] && fresh(attributeSet) && fresh(attributeSet.sentinel)
    {
      var attributes := new A.AttributeSet();
      attributeSet := attributes;
      nodeType, value := t, v;
      cdata, version, encoding, standalone := false, "", "", "";
      parent, prev, next, firstChild, lastChild := null, null, null, null, null;
      kids, pos := [], 0;
    }

    // ---------- The pointer assignments ----------

    method LinkLast(node: Node, ghost nodes: set<Node>)
      requires this in nodes && node in nodes && node != this && (lastChild != null ==> lastChild in nodes)
      modifies nodes`parent, nodes`prev, nodes`next, nodes`firstChild, nodes`lastChild
      ensures forall n :: n in nodes ==>
                n.Pointers() == AfterAppend(old(n.Pointers()), this, node, old(lastChild), n)
      ensures forall n :: n in nodes && n != node ==> n.parent == old(n.parent)
    {
      node.parent := this;
      node.prev := lastChild;
      node.next := null;
      if lastChild != null {
        lastChild.next := node;
      } else {
        firstChild := node;
      }
      lastChild := node;
    }

    method LinkBefore(beforeThis: Node, node: Node, ghost nodes: set<Node>, ghost was: seq<Node>, ghost i: nat)
      requires this in nodes && node in nodes && node != this && HasEnds(firstChild, lastChild, was)
      requires Between(beforeThis.prev, beforeThis.next, beforeThis, was, i, nodes)
      requires beforeThis != node && beforeThis.prev != node
      modifies nodes`parent, nodes`prev, nodes`next, nodes`firstChild, nodes`lastChild
      ensures forall n :: n in nodes ==> Pointed(old(n.Pointers()), n.Pointers(), this, was, i, i, node, n)
    {
      hide Splice, Before, At;
      SpliceEnds(was, i, i, node);
      node.parent := this;
      node.next := beforeThis;
      node.prev := beforeThis.prev;
      if beforeThis.prev != null {
        beforeThis.prev.next := node;
      } else {
        firstChild := node;
      }
      beforeThis.prev := node;
      assert HasEnds(firstChild, lastChild, Splice(was, i, i, node));
      hide HasEnds;
      forall n | n in nodes
        ensures Pointed(old(n.Pointers()), n.Pointers(), this, was, i, i, node, n)
      {
      }
    }

    method LinkAfter(afterThis: Node, node: Node, ghost nodes: set<Node>, ghost was: seq<Node>, ghost i: nat)
      requires this in nodes && node in nodes && node != this && HasEnds(firstChild, lastChild, was)
      requires 0 < i <= |was| && Between(afterThis.prev, afterThis.next, afterThis, was, i - 1, nodes)
      requires afterThis != node && afterThis.next != node
      modifies nodes`parent, nodes`prev, nodes`next, nodes`firstChild, nodes`lastChild
      ensures forall n :: n in nodes ==> Pointed(old(n.Pointers()), n.Pointers(), this, was, i, i, node, n)
    {
      hide Splice, Before, At;
      SpliceEnds(was, i, i, node);
      node.parent := this;
      node.prev := afterThis;
      node.next := afterThis.next;
      if afterThis.next != null {
        afterThis.next.prev := node;
      } else {
        lastChild := node;
      }
      afterThis.next := node;
      assert HasEnds(firstChild, lastChild, Splice(was, i, i, node));
      hide HasEnds;
      forall n | n in nodes
        ensures Pointed(old(n.Pointers()), n.Pointers(), this, was, i, i, node, n)
      {
      }
    }

    method LinkInstead(replaceThis: Node, node: Node, ghost nodes: set<Node>, ghost was: seq<Node>, ghost i: nat)
      requires this in nodes && node in nodes && node != this && HasEnds(firstChild, lastChild, was)
      requires Between(replaceThis.prev, replaceThis.next, replaceThis, was, i, nodes)
      requires node !in {replaceThis, replaceThis.prev, replaceThis.next}
      modifies nodes`parent, nodes`prev, nodes`next, nodes`firstChild, nodes`lastChild
      ensures forall n :: n in nodes && n != replaceThis ==>
                Pointed(old(n.Pointers()), n.Pointers(), this, was, i, i + 1, node, n)
    {
      hide Splice;
      SpliceEnds(was, i, i + 1, node);
      assert replaceThis.prev != replaceThis.next || replaceThis.prev == null;
      node.next := replaceThis.next;
      node.prev := replaceThis.prev;
      if replaceThis.next != null {
        replaceThis.next.prev := node;
      } else {
        lastChild := node;
      }
      if replaceThis.prev != null {
        replaceThis.prev.next := node;
      } else {
        firstChild := node;
      }
      node.parent := this;
      assert HasEnds(firstChild, lastChild, Splice(was, i, i + 1, node));
      hide HasEnds;
      forall n | n in nodes && n != replaceThis
        ensures Pointed(old(n.Pointers()), n.Pointers(), this, was, i, i + 1, node, n)
      {
      }
    }

    method Unlink(removeThis: Node, ghost nodes: set<Node>, ghost was: seq<Node>, ghost i: nat)
      requires this in nodes && HasEnds(firstChild, lastChild, was)
      requires Between(removeThis.prev, removeThis.next, removeThis, was, i, nodes)
      modifies nodes`parent, nodes`prev, nodes`next, nodes`firstChild, nodes`lastChild
      ensures forall n :: n in nodes && n != removeThis ==>
                Pointed(old(n.Pointers()), n.Pointers(), this, was, i, i + 1, null, n)
    {
      hide Splice, Before, At;
      SpliceEnds(was, i, i + 1, null);
      if removeThis.next != null {
        removeThis.next.prev := removeThis.prev;
      } else {
        lastChild := removeThis.prev;
      }
      if removeThis.prev != null {
        removeThis.prev.next := removeThis.next;
      } else {
        firstChild := removeThis.next;
      }
      assert HasEnds(firstChild, lastChild, Splice(was, i, i + 1, null));
      hide HasEnds;
      forall n | n in nodes && n != removeThis
        ensures Pointed(old(n.Pointers()), n.Pointers(), this, was, i, i + 1, null, n)
      {
      }
    }

    // ---------- The operations ----------

    /**
      A node that is in no list goes to the end, with no parent or with this one set before, as the parser does; a
      document is refused. A child that is already in the list passes the assertion of the source as well:
      AppendKeepsTheList says what becomes of the list then.
     */
    method LinkEndChild(node: Node, ghost nodes: set<Node>) returns (r: Node?)
      requires Forest(nodes) && this in nodes && node in nodes && node != this
      requires node.parent == null || node.parent == this
      modifies nodes`parent, nodes`prev, nodes`next, nodes`firstChild, nodes`lastChild, nodes`kids, nodes`pos
      ensures node.nodeType == Document ==> r == null && unchanged(nodes)
      ensures node.nodeType != Document ==> r == node
      ensures forall n :: n in nodes && n != node ==> n.parent == old(n.parent)
      ensures node.nodeType != Document && node !in old(kids) ==>
                Forest(nodes) && kids == old(kids) + [node] && OthersKept(old(NetOf(nodes)), NetOf(nodes), this)
      ensures node.nodeType != Document && node in old(kids) ==>
                this in old(NetOf(nodes)) && node in old(NetOf(nodes))
                && NetOf(nodes) == Appended(old(NetOf(nodes)), this, node)
    {
      hide Linked, NetOf, Splice, HasEnds, Before, At, AllCounted, AllPointed, OthersKept, Appended, AfterAppend, Unlisted;
      if node.nodeType == Document {
        return null;
      }
      ghost var w0, n := NetOf(nodes), |kids|;
      NetIsNow(nodes);
      LastNeighbour(nodes, this);
      NotListed(w0, node);
      if node !in kids {
        Recount(this, n, n, node, nodes);
      }
      ghost var w1 := NetOf(nodes);
      NetIsNow(nodes);
      LinkLast(node, nodes);
      AppendedNet(w1, nodes, this, node);
      if node !in old(kids) {
        AppendedIsInserted(w0, w1, this, node);
        NetOfNode(nodes, this);
      }
      return node;
    }

    /** What Identify does to the node it returns: the parent is set while the node is in no list. */
    method Adopt(node: Node, ghost nodes: set<Node>)
      requires Forest(nodes) && node in nodes && Unlisted(NetOf(nodes), node)
      modifies node`parent
      ensures Forest(nodes) && Unlisted(NetOf(nodes), node) && node.parent == this
    {
      hide Linked, Unlisted;
      ghost var w := NetOf(nodes);
      node.parent := this;
      AdoptedIsLinked(w, this, node);
      assert NetOf(nodes) == w[node := w[node].(parent := this)];
    }

    /** A child on its way through the parser: identified, and linked when it has been parsed. */
    method LinkIdentified(node: Node, ghost nodes: set<Node>) returns (r: Node?)
      requires Forest(nodes) && this in nodes && node in nodes && node != this
      requires Unlisted(NetOf(nodes), node) && node.nodeType != Document
      modifies nodes`parent, nodes`prev, nodes`next, nodes`firstChild, nodes`lastChild, nodes`kids, nodes`pos
      ensures r == node && Forest(nodes) && kids == old(kids) + [node]
      ensures forall n :: n in nodes && n != this ==> n.kids == old(n.kids)
    {
      hide Linked;
      Adopt(node, nodes);
      UnlistedIn(nodes, this, node);
      ghost var w := NetOf(nodes);
      NetIsNow(nodes);
      r := LinkEndChild(node, nodes);
      NetIsNow(nodes);
      assert forall n :: n in nodes && n != this ==> NetOf(nodes)[n].kids == w[n].kids;
    }

    /** The clone of the node to add comes to stand in front of a child of this node. */
    method InsertBeforeChild(beforeThis: Node?, node: Node, ghost nodes: set<Node>) returns (r: Node?)
      requires Forest(nodes) && this in nodes && node in nodes && node != this && Unlisted(NetOf(nodes), node)
      requires beforeThis != null ==> beforeThis in nodes && (beforeThis.parent == this ==> beforeThis in kids)
      modifies nodes`parent, nodes`prev, nodes`next, nodes`firstChild, nodes`lastChild, nodes`kids, nodes`pos
      ensures Forest(nodes)
      ensures r != null <==> beforeThis != null && old(beforeThis.parent) == this && node.nodeType != Document
      ensures r == null ==> unchanged(nodes)
      ensures r != null ==> r == node && OthersKept(old(NetOf(nodes)), NetOf(nodes), this)
                            && old(beforeThis.pos) < |old(kids)| && old(kids)[old(beforeThis.pos)] == beforeThis
                            && kids == old(kids)[..old(beforeThis.pos)] + [node] + old(kids)[old(beforeThis.pos)..]
    {
      hide Linked, NetOf, Splice, HasEnds, Between, Before, At, AllCounted, Pointed, AllPointed, OthersKept, Unlisted;
      if beforeThis == null || beforeThis.parent != this {
        return null;
      }
      if node.nodeType == Document {
        return null;
      }
      ghost var i := beforeThis.pos;
      ghost var w0 := NetOf(nodes);
      NetIsNow(nodes);
      NeighboursOf(nodes, this, beforeThis);
      NotANeighbour(nodes, this, beforeThis, node);
      Recount(this, i, i, node, nodes);
      ghost var w1 := NetOf(nodes);
      NetIsNow(nodes);
      LinkBefore(beforeThis, node, nodes, old(kids), i);
      PointedAll(nodes, w1, this, old(kids), i, i, node);
      Inserted(w0, w1, NetOf(nodes), this, i, node);
      NetOfNode(nodes, this);
      return node;
    }

    method InsertAfterChild(afterThis: Node?, node: Node, ghost nodes: set<Node>) returns (r: Node?)
      requires Forest(nodes) && this in nodes && node in nodes && node != this && Unlisted(NetOf(nodes), node)
      requires afterThis != null ==> afterThis in nodes && (afterThis.parent == this ==> afterThis in kids)
      modifies nodes`parent, nodes`prev, nodes`next, nodes`firstChild, nodes`lastChild, nodes`kids, nodes`pos
      ensures Forest(nodes)
      ensures r != null <==> afterThis != null && old(afterThis.parent) == this && node.nodeType != Document
      ensures r == null ==> unchanged(nodes)
      ensures r != null ==> r == node && OthersKept(old(NetOf(nodes)), NetOf(nodes), this)
                            && old(afterThis.pos) < |old(kids)| && old(kids)[old(afterThis.pos)] == afterThis
                            && kids == old(kids)[..old(afterThis.pos) + 1] + [node] + old(kids)[old(afterThis.pos) + 1..]
    {
      hide Linked, NetOf, Splice, HasEnds, Between, Before, At, AllCounted, Pointed, AllPointed, OthersKept, Unlisted;
      if afterThis == null || afterThis.parent != this {
        return null;
      }
      if node.nodeType == Document {
        return null;
      }
      ghost var i := afterThis.pos + 1;
      ghost var w0 := NetOf(nodes);
      NetIsNow(nodes);
      NeighboursOf(nodes, this, afterThis);
      NotANeighbour(nodes, this, afterThis, node);
      Recount(this, i, i, node, nodes);
      ghost var w1 := NetOf(nodes);
      NetIsNow(nodes);
      LinkAfter(afterThis, node, nodes, old(kids), i);
      PointedAll(nodes, w1, this, old(kids), i, i, node);
      Inserted(w0, w1, NetOf(nodes), this, i, node);
      NetOfNode(nodes, this);
      return node;
    }

    /** The child is deleted and the clone stands in its place. */
    method ReplaceChild(replaceThis: Node?, node: Node, ghost nodes: set<Node>) returns (r: Node?)
      requires Forest(nodes) && this in nodes && node in nodes && node != this && Unlisted(NetOf(nodes), node)
      requires replaceThis != null ==> replaceThis in nodes && (replaceThis.parent == this ==> replaceThis in kids)
      modifies nodes`parent, nodes`prev, nodes`next, nodes`firstChild, nodes`lastChild, nodes`kids, nodes`pos
      ensures r != null <==> replaceThis != null && old(replaceThis.parent) == this && node.nodeType != Document
      ensures r == null ==> unchanged(nodes)
      ensures r != null ==> r == node && Forest(nodes - {replaceThis})
      ensures r != null ==> OthersKept(old(NetOf(nodes)), NetOf(nodes - {replaceThis}), this)
                            && old(replaceThis.pos) < |old(kids)| && old(kids)[old(replaceThis.pos)] == replaceThis
                            && kids == old(kids)[old(replaceThis.pos) := node]
    {
      hide Linked, NetOf, Splice, HasEnds, Between, Before, At, AllCounted, Pointed, AllPointed, OthersKept, Unlisted;
      if replaceThis == null {
        return null;
      }
      if replaceThis.parent != this {
        return null;
      }
      if node.nodeType == Document {
        return null;
      }
      ghost var i := replaceThis.pos;
      ghost var w0 := NetOf(nodes);
      NetIsNow(nodes);
      NeighboursOf(nodes, this, replaceThis);
      NotANeighbour(nodes, this, replaceThis, node);
      Recount(this, i, i + 1, node, nodes);
      ghost var w1 := NetOf(nodes);
      NetIsNow(nodes);
      SpliceReplace(old(kids), i, node);
      LinkInstead(replaceThis, node, nodes, old(kids), i);
      TakenOut(nodes, w0, w1, this, i, node);
      return node;
    }

    /** The child is taken out and deleted. */
    method RemoveChild(removeThis: Node?, ghost nodes: set<Node>) returns (ok: bool)
      requires Forest(nodes) && this in nodes
      requires removeThis != null ==> removeThis in nodes && (removeThis.parent == this ==> removeThis in kids)
      modifies nodes`parent, nodes`prev, nodes`next, nodes`firstChild, nodes`lastChild, nodes`kids, nodes`pos
      ensures ok <==> removeThis != null && old(removeThis.parent) == this
      ensures !ok ==> unchanged(nodes)
      ensures ok ==> Forest(nodes - {removeThis})
      ensures ok ==> OthersKept(old(NetOf(nodes)), NetOf(nodes - {removeThis}), this)
                     && old(removeThis.pos) < |old(kids)| && old(kids)[old(removeThis.pos)] == removeThis
                     && kids == old(kids)[..old(removeThis.pos)] + old(kids)[old(removeThis.pos) + 1..]
    {
      hide Linked, NetOf, Splice, HasEnds, Between, Before, At, AllCounted, Pointed, AllPointed, OthersKept, Unlisted;
      if removeThis == null {
        return false;
      }
      if removeThis.parent != this {
        return false;
      }
      ghost var i := removeThis.pos;
      ghost var w0 := NetOf(nodes);
      NetIsNow(nodes);
      NeighboursOf(nodes, this, removeThis);
      Recount(this, i, i + 1, null, nodes);
      ghost var w1 := NetOf(nodes);
      NetIsNow(nodes);
      SpliceRemove(old(kids), i);
      Unlink(removeThis, nodes, old(kids), i);
      TakenOut(nodes, w0, w1, this, i, null);
      return true;
    }

    // ---------- Walking ----------

    /** The first child with this value, by the next pointers. */
    method FirstChildNamed(v: string, ghost nodes: set<Node>) returns (r: Node?)
      requires Forest(nodes) && this in nodes
      ensures r == null ==> forall k :: 0 <= k < |kids| ==> kids[k].value != v
      ensures r != null ==> exists k :: 0 <= k < |kids| && r == kids[k] && r.value == v
                                        && forall m :: 0 <= m < k ==> kids[m].value != v
    {
      hide Linked;
      LastNeighbour(nodes, this);
      ghost var k := 0;
      r := firstChild;
      while r != null && r.value != v
        invariant k <= |kids| && r == At(kids, k)
        invariant forall m :: 0 <= m < k ==> kids[m].value != v
        decreases |kids| - k
      {
        KidOf(nodes, this, k);
        r := r.next;
        k := k + 1;
      }
    }

    /** The last child with this value, by the prev pointers. */
    method LastChildNamed(v: string, ghost nodes: set<Node>) returns (r: Node?)
      requires Forest(nodes) && this in nodes
      ensures r == null ==> forall k :: 0 <= k < |kids| ==> kids[k].value != v
      ensures r != null ==> exists k :: 0 <= k < |kids| && r == kids[k] && r.value == v
                                        && forall m :: k < m < |kids| ==> kids[m].value != v
    {
      hide Linked;
      LastNeighbour(nodes, this);
      ghost var k: nat := |kids|;
      r := lastChild;
      while r != null && r.value != v
        invariant k <= |kids| && r == Before(kids, k)
        invariant forall m :: k <= m < |kids| ==> kids[m].value != v
        decreases k
      {
        KidOf(nodes, this, k - 1);
        r := r.prev;
        k := k - 1;
      }
      assert r != null ==> k > 0 && r == kids[k - 1];
    }
  }

  ghost predicate OthersKept(was: map<Node, Links>, now: map<Node, Links>, p: Node) {
    forall n :: n in was && n in now && n != p ==> now[n].kids == was[n].kids
  }

  // ---------- Well-linked nodes ----------

  /** The pointers of a node, its list, and where it stands in the list of its parent. */
  datatype Links = Links(parent: Node?, prev: Node?, next: Node?, firstChild: Node?, lastChild: Node?,
                         kids: seq<Node>, pos: nat)

  type Net = map<Node, Links>

  /** All the links among some nodes, as they are now. */
  ghost function NetOf(nodes: set<Node>): Net
    reads nodes
  {
    map n | n in nodes :: n.Pointers()
  }

  /** The element in front of position i, or none. */
  ghost function Before(kids: seq<Node>, i: int): Node?
    requires 0 <= i <= |kids|
  {
    if i == 0 then null else kids[i - 1]
  }

  /** The element at position i, or none at the end. */
  ghost function At(kids: seq<Node>, i: int): Node?
    requires 0 <= i <= |kids|
  {
    if i == |kids| then null else kids[i]
  }

  ghost predicate HasEnds(firstChild: Node?, lastChild: Node?, kids: seq<Node>) {
    firstChild == At(kids, 0) && lastChild == Before(kids, |kids|)
  }

  /** A child stands in the list of its parent where its position says, between its neighbours. */
  ghost predicate Self(w: Net, c: Node)
    requires c in w
  {
    var p := w[c].parent;
    && p != null && p in w && p != c
    && w[c].pos < |w[p].kids| && w[p].kids[w[c].pos] == c
    && w[c].prev == Before(w[p].kids, w[c].pos)
    && w[c].next == At(w[p].kids, w[c].pos + 1)
  }

  /** An entry of a list is a node that stands there. */
  ghost predicate Entry(w: Net, n: Node, k: nat)
    requires n in w && k < |w[n].kids|
  {
    var c := w[n].kids[k];
    c in w && w[c].parent == n && w[c].pos == k && Self(w, c)
  }

  /**
    The links among these nodes spell out their lists, in both directions. Nothing is said about the parent and the
    neighbours of a node in no list: Identify sets the parent before the node is linked.
   */
  ghost predicate Linked(w: Net) {
    && (forall n :: n in w ==> HasEnds(w[n].firstChild, w[n].lastChild, w[n].kids))
    && (forall n, k :: n in w && 0 <= k < |w[n].kids| ==> Entry(w, n, k))
  }

  /** The node is in no list. */
  ghost predicate Unlisted(w: Net, c: Node) {
    forall n, k :: n in w && 0 <= k < |w[n].kids| ==> w[n].kids[k] != c
  }

  ghost predicate Forest(nodes: set<Node>)
    reads nodes
  {
    Linked(NetOf(nodes))
  }

  /** c is element i of the list, with its neighbours. */
  ghost predicate Between(prev: Node?, next: Node?, c: Node, was: seq<Node>, i: nat, nodes: set<Node>) {
    && i < |was| && was[i] == c && c in nodes
    && At(was, i) == c == Before(was, i + 1)
    && prev == Before(was, i) && next == At(was, i + 1)
    && (prev != null ==> prev in nodes && prev != c)
    && (next != null ==> next in nodes && next != c)
    && (prev != null && next != null ==> prev != next)
  }

  lemma Neighbours(w: Net, p: Node, c: Node)
    requires Linked(w) && p in w && c in w[p].kids
    ensures c in w && w[c].parent == p
    ensures Between(w[c].prev, w[c].next, c, w[p].kids, w[c].pos, w.Keys)
    ensures HasEnds(w[p].firstChild, w[p].lastChild, w[p].kids)
    ensures w[c].prev != null ==> w[w[c].prev].parent == p
    ensures w[c].next != null ==> w[w[c].next].parent == p
  {
    var i :| 0 <= i < |w[p].kids| && w[p].kids[i] == c;
    assert Entry(w, p, i);
    if i > 0 {
      assert Entry(w, p, i - 1);
    }
    if i + 1 < |w[p].kids| {
      assert Entry(w, p, i + 1);
    }
  }

  /** The same, read off the nodes. */
  lemma NeighboursOf(nodes: set<Node>, p: Node, c: Node)
    requires Forest(nodes) && p in nodes && c in nodes && c in p.kids
    ensures Between(c.prev, c.next, c, p.kids, c.pos, nodes) && c.pos < |p.kids| && p.kids[c.pos] == c
    ensures c.parent == p
    ensures HasEnds(p.firstChild, p.lastChild, p.kids)
    ensures c.prev != null ==> c.prev.parent == p
    ensures c.next != null ==> c.next.parent == p
  {
    hide Linked;
    Neighbours(NetOf(nodes), p, c);
  }

  lemma UnlistedIn(nodes: set<Node>, p: Node, c: Node)
    requires p in nodes && Unlisted(NetOf(nodes), c)
    ensures c !in p.kids
  {
    assert NetOf(nodes)[p].kids == p.kids;
  }

  /** A node in no list is neither c nor next to it. */
  lemma NotANeighbour(nodes: set<Node>, p: Node, c: Node, node: Node)
    requires p in nodes && Unlisted(NetOf(nodes), node) && c.pos < |p.kids| && p.kids[c.pos] == c
    requires Between(c.prev, c.next, c, p.kids, c.pos, nodes)
    ensures node != c && node != c.prev && node != c.next
  {
    UnlistedIn(nodes, p, node);
  }

  lemma LastNeighbour(nodes: set<Node>, p: Node)
    requires Forest(nodes) && p in nodes
    ensures HasEnds(p.firstChild, p.lastChild, p.kids)
    ensures p.lastChild != null ==> p.lastChild in nodes && p.lastChild.parent == p
  {
    LastOf(NetOf(nodes), p);
  }

  /** The snapshot is the present state. */
  ghost predicate Now(w: Net, nodes: set<Node>)
    reads nodes
  {
    w.Keys == nodes && forall n :: n in nodes ==> w[n] == n.Pointers()
  }

  // ---------- One list changes in one place ----------

  /** kids with the stretch from i to j taken out and node, if there is one, put there. */
  ghost function Splice(kids: seq<Node>, i: nat, j: nat, node: Node?): seq<Node>
    requires i <= j <= |kids|
  {
    kids[..i] + (if node == null then [] else [node]) + kids[j..]
  }

  ghost function Growth(i: nat, j: nat, node: Node?): int {
    (if node == null then 0 else 1) - (j - i)
  }

  /** Where the elements of the new list come from. */
  lemma SpliceAt(kids: seq<Node>, i: nat, j: nat, node: Node?, k: nat)
    requires i <= j <= |kids| && k < |Splice(kids, i, j, node)|
    ensures k < i ==> Splice(kids, i, j, node)[k] == kids[k]
    ensures k == i && node != null ==> Splice(kids, i, j, node)[k] == node
    ensures k >= i && (node == null || k > i) ==>
              0 <= k - Growth(i, j, node) < |kids| && Splice(kids, i, j, node)[k] == kids[k - Growth(i, j, node)]
  {
  }

  lemma SpliceLength(kids: seq<Node>, i: nat, j: nat, node: Node?)
    requires i <= j <= |kids|
    ensures |Splice(kids, i, j, node)| == |kids| + Growth(i, j, node)
  {
  }

  /** The two ends of a spliced list. */
  lemma SpliceEnds(kids: seq<Node>, i: nat, j: nat, node: Node?)
    requires i <= j <= |kids|
    ensures At(Splice(kids, i, j, node), 0)
         == if Before(kids, i) != null then At(kids, 0) else if node != null then node else At(kids, j)
    ensures Before(Splice(kids, i, j, node), |Splice(kids, i, j, node)|)
         == if At(kids, j) != null then Before(kids, |kids|) else if node != null then node else Before(kids, i)
    ensures At(kids, |kids|) == null
  {
  }

  lemma SpliceInsert(kids: seq<Node>, i: nat, node: Node)
    requires i <= |kids|
    ensures Splice(kids, i, i, node) == kids[..i] + [node] + kids[i..]
    ensures i == |kids| ==> Splice(kids, i, i, node) == kids + [node]
  {
  }

  lemma SpliceReplace(kids: seq<Node>, i: nat, node: Node)
    requires i < |kids|
    ensures Splice(kids, i, i + 1, node) == kids[i := node]
  {
  }

  lemma SpliceRemove(kids: seq<Node>, i: nat)
    requires i < |kids|
    ensures Splice(kids, i, i + 1, null) == kids[..i] + kids[i + 1..]
  {
    assert kids[..i] + [] == kids[..i];
  }

  /** The pointers of a node that stays. */
  ghost predicate Pointed(was: Links, now: Links, p: Node, kids: seq<Node>, i: nat, j: nat, node: Node?, n: Node)
    requires i <= j <= |kids|
  {
    && now.kids == was.kids && now.pos == was.pos
    && (n == p ==> HasEnds(now.firstChild, now.lastChild, Splice(kids, i, j, node)))
    && (n != p ==> now.firstChild == was.firstChild && now.lastChild == was.lastChild)
    && (n == node ==> now.parent == p && now.prev == Before(kids, i) && now.next == At(kids, j))
    && (n != node ==>
          && now.parent == was.parent
          && now.next == (if n == Before(kids, i) then (if node == null then At(kids, j) else node) else was.next)
          && now.prev == (if n == At(kids, j) then (if node == null then Before(kids, i) else node) else was.prev))
  }

  /** The list of a node that stays and its position in the list of its parent. */
  ghost predicate Counted(was: Links, now: Links, p: Node, kids: seq<Node>, i: nat, j: nat, node: Node?, n: Node)
    requires i <= j <= |kids|
  {
    now == was.(kids := if n == p then Splice(kids, i, j, node) else was.kids,
                pos := if n == node then i
                       else if was.parent == p && was.pos >= j then was.pos + Growth(i, j, node)
                       else was.pos)
  }

  /** The node taken out, if one is. */
  ghost predicate Gone(kids: seq<Node>, i: nat, j: nat, n: Node)
    requires i <= j <= |kids|
  {
    i < j && n == kids[i]
  }

  ghost predicate AllPointed(was: Net, now: Net, p: Node, kids: seq<Node>, i: nat, j: nat, node: Node?)
    requires i <= j <= |kids|
  {
    && was.Keys == now.Keys
    && forall n :: n in now && !Gone(kids, i, j, n) ==> Pointed(was[n], now[n], p, kids, i, j, node, n)
  }

  ghost predicate AllCounted(was: Net, now: Net, p: Node, kids: seq<Node>, i: nat, j: nat, node: Node?)
    requires i <= j <= |kids|
  {
    && was.Keys == now.Keys
    && forall n :: n in now ==> Counted(was[n], now[n], p, kids, i, j, node, n)
  }

  /** Everything an exchange does to a node that stays. */
  ghost predicate Step(was: Links, now: Links, p: Node, kids: seq<Node>, i: nat, j: nat, node: Node?, n: Node)
    requires i <= j <= |kids|
  {
    var counted := was.(kids := now.kids, pos := now.pos);
    Counted(was, counted, p, kids, i, j, node, n) && Pointed(counted, now, p, kids, i, j, node, n)
  }

  /** now is was after an exchange in the list of p, for all nodes that stay. */
  ghost predicate Exchanged(was: Net, now: Net, p: Node, i: nat, j: nat, node: Node?) {
    && p in was && i <= j <= |was[p].kids|
    && (forall n :: n in now ==> n in was)
    && (forall n :: n in was ==> (n in now <==> !Gone(was[p].kids, i, j, n)))
    && (forall n :: n in now ==> Step(was[n], now[n], p, was[p].kids, i, j, node, n))
  }

  /** An exchange of at most one child for at most one new node. */
  ghost predicate Fair(was: Net, p: Node, i: nat, j: nat, node: Node?) {
    && Linked(was) && p in was && i <= j <= |was[p].kids| && j <= i + 1
    && (node != null ==> node in was && node != p && Unlisted(was, node))
  }

  /** Which of the children are taken out. */
  lemma GoneAt(w: Net, p: Node, i: nat, j: nat, k: nat)
    requires Linked(w) && p in w && i <= j <= |w[p].kids| && j <= i + 1 && k < |w[p].kids|
    ensures Entry(w, p, k) && Self(w, w[p].kids[k])
    ensures Gone(w[p].kids, i, j, w[p].kids[k]) <==> i <= k < j
  {
    assert Entry(w, p, k);
    if i < j {
      assert Entry(w, p, i);
    }
  }

  /** No node is its own child, and a node with another parent or in no list is not a child. */
  lemma NotAChild(w: Net, p: Node, i: nat, j: nat, c: Node)
    requires Linked(w) && p in w && i <= j <= |w[p].kids| && c in w
    requires w[c].parent != p || c == p || Unlisted(w, c)
    ensures c !in w[p].kids && !Gone(w[p].kids, i, j, c)
  {
    forall x | 0 <= x < |w[p].kids|
      ensures w[p].kids[x] != c
    {
      assert Entry(w, p, x);
    }
  }

  /** A child of another node keeps its place; its neighbours are not children of p. */
  lemma OtherEntryAfter(was: Net, now: Net, p: Node, i: nat, j: nat, node: Node?, n: Node, k: nat)
    requires Fair(was, p, i, j, node) && Exchanged(was, now, p, i, j, node)
    requires n in now && n != p && k < |now[n].kids|
    ensures Entry(now, n, k)
  {
    hide Splice;
    var kids := was[p].kids;
    assert Step(was[n], now[n], p, kids, i, j, node, n);
    assert Entry(was, n, k);
    var c := was[n].kids[k];
    NotAChild(was, p, i, j, c);
    assert Step(was[c], now[c], p, kids, i, j, node, c);
  }

  lemma OwnEntryAfter(was: Net, now: Net, p: Node, i: nat, j: nat, node: Node?, k: nat)
    requires Fair(was, p, i, j, node) && Exchanged(was, now, p, i, j, node)
    requires p in now && k < |now[p].kids|
    ensures Entry(now, p, k)
  {
    hide Splice, Linked, HasEnds, Unlisted;
    var kids := was[p].kids;
    assert Step(was[p], now[p], p, kids, i, j, node, p);
    SpliceAt(kids, i, j, node, k);
    SpliceLength(kids, i, j, node);
    if k == i && node != null {
      NotAChild(was, p, i, j, node);
      NewSelfAfter(was, now, p, i, j, node);
    } else {
      var x := if k < i then k else k - Growth(i, j, node);
      GoneAt(was, p, i, j, x);
      NotTheNewOne(was, p, x, node);
      OwnSelfAfter(was, now, p, i, j, node, x);
    }
  }

  lemma NotTheNewOne(w: Net, p: Node, k: nat, node: Node?)
    requires p in w && k < |w[p].kids| && (node != null ==> Unlisted(w, node))
    ensures w[p].kids[k] != node
  {
  }

  /** A child of p that stays may move by the growth of the list. */
  lemma OwnPlace(was: Net, now: Net, p: Node, i: nat, j: nat, node: Node?, x: nat)
    requires Fair(was, p, i, j, node) && Exchanged(was, now, p, i, j, node)
    requires p in now && x < |was[p].kids| && was[p].kids[x] in now && was[p].kids[x] != node
    ensures var c := was[p].kids[x];
            && c in was && was[c].parent == p && was[c].pos == x && now[c].parent == p
            && !(i <= x < j) && now[c].pos == (if x < i then x else x + Growth(i, j, node))
            && now[c].pos < |now[p].kids| && now[p].kids[now[c].pos] == c
  {
    hide Splice, Linked, HasEnds;
    var kids := was[p].kids;
    var c := kids[x];
    assert Step(was[p], now[p], p, kids, i, j, node, p) && Step(was[c], now[c], p, kids, i, j, node, c);
    GoneAt(was, p, i, j, x);
    SpliceLength(kids, i, j, node);
    SpliceAt(kids, i, j, node, now[c].pos);
  }

  lemma OwnPrev(was: Net, now: Net, p: Node, i: nat, j: nat, node: Node?, x: nat)
    requires Fair(was, p, i, j, node) && Exchanged(was, now, p, i, j, node)
    requires p in now && x < |was[p].kids| && was[p].kids[x] in now && was[p].kids[x] != node
    ensures var c := was[p].kids[x];
            now[c].pos < |now[p].kids| && now[c].prev == Before(now[p].kids, now[c].pos)
  {
    hide Splice, Linked, HasEnds;
    var kids := was[p].kids;
    var c := kids[x];
    assert Step(was[p], now[p], p, kids, i, j, node, p) && Step(was[c], now[c], p, kids, i, j, node, c);
    GoneAt(was, p, i, j, x);
    OwnPlace(was, now, p, i, j, node, x);
    if j < |kids| {
      GoneAt(was, p, i, j, j);
    }
    if now[c].pos > 0 {
      SpliceAt(kids, i, j, node, now[c].pos - 1);
    }
  }

  lemma OwnNext(was: Net, now: Net, p: Node, i: nat, j: nat, node: Node?, x: nat)
    requires Fair(was, p, i, j, node) && Exchanged(was, now, p, i, j, node)
    requires p in now && x < |was[p].kids| && was[p].kids[x] in now && was[p].kids[x] != node
    ensures var c := was[p].kids[x];
            now[c].pos < |now[p].kids| && now[c].next == At(now[p].kids, now[c].pos + 1)
  {
    hide Splice, Linked, HasEnds;
    var kids := was[p].kids;
    var c := kids[x];
    assert Step(was[p], now[p], p, kids, i, j, node, p) && Step(was[c], now[c], p, kids, i, j, node, c);
    GoneAt(was, p, i, j, x);
    OwnPlace(was, now, p, i, j, node, x);
    SpliceLength(kids, i, j, node);
    if i > 0 {
      GoneAt(was, p, i, j, i - 1);
    }
    if now[c].pos + 1 < |now[p].kids| {
      SpliceAt(kids, i, j, node, now[c].pos + 1);
    }
  }

  lemma OwnSelfAfter(was: Net, now: Net, p: Node, i: nat, j: nat, node: Node?, x: nat)
    requires Fair(was, p, i, j, node) && Exchanged(was, now, p, i, j, node)
    requires p in now && x < |was[p].kids| && was[p].kids[x] in now && was[p].kids[x] != node
    ensures Self(now, was[p].kids[x])
    ensures now[was[p].kids[x]].parent == p && now[was[p].kids[x]].pos == if x < i then x else x + Growth(i, j, node)
  {
    hide Linked;
    GoneAt(was, p, i, j, x);
    OwnPlace(was, now, p, i, j, node, x);
    OwnPrev(was, now, p, i, j, node, x);
    OwnNext(was, now, p, i, j, node, x);
  }

  lemma NewSelfAfter(was: Net, now: Net, p: Node, i: nat, j: nat, node: Node)
    requires Fair(was, p, i, j, node) && Exchanged(was, now, p, i, j, node)
    requires p in now && node in now
    ensures Self(now, node) && now[node].parent == p && now[node].pos == i
  {
    hide Splice, Linked;
    var kids := was[p].kids;
    assert Step(was[p], now[p], p, kids, i, j, node, p) && Step(was[node], now[node], p, kids, i, j, node, node);
    SpliceLength(kids, i, j, node);
    SpliceAt(kids, i, j, node, i);
    if i > 0 {
      SpliceAt(kids, i, j, node, i - 1);
    }
    if i + 1 < |now[p].kids| {
      SpliceAt(kids, i, j, node, i + 1);
    }
  }

  /** After an exchange in one list, all nodes that stay are well linked, and only that list is another. */
  lemma ExchangedIsLinked(was: Net, now: Net, p: Node, i: nat, j: nat, node: Node?)
    requires Fair(was, p, i, j, node) && Exchanged(was, now, p, i, j, node)
    ensures Linked(now)
    ensures p in now && now[p].kids == Splice(was[p].kids, i, j, node) && OthersKept(was, now, p)
  {
    hide Splice, Self, Entry, Unlisted;
    NotAChild(was, p, i, j, p);
    forall n, k | n in now && 0 <= k < |now[n].kids|
      ensures Entry(now, n, k)
    {
      if n == p {
        OwnEntryAfter(was, now, p, i, j, node, k);
      } else {
        OtherEntryAfter(was, now, p, i, j, node, n, k);
      }
    }
  }

  /** Counting and then pointing puts a node into the list. */
  lemma Inserted(was: Net, mid: Net, now: Net, p: Node, i: nat, node: Node)
    requires Fair(was, p, i, i, node)
    requires AllCounted(was, mid, p, was[p].kids, i, i, node) && AllPointed(mid, now, p, was[p].kids, i, i, node)
    ensures Linked(now) && p in now && OthersKept(was, now, p)
    ensures now[p].kids == was[p].kids[..i] + [node] + was[p].kids[i..]
  {
    hide Splice, Linked, HasEnds, Before, At, Growth;
    assert Exchanged(was, now, p, i, i, node);
    ExchangedIsLinked(was, now, p, i, i, node);
    SpliceInsert(was[p].kids, i, node);
  }

  /** It takes a node out of the list and of the net, and may put another one there. */
  lemma Removed(was: Net, mid: Net, end: Net, p: Node, i: nat, node: Node?)
    requires Fair(was, p, i, i + 1, node)
    requires AllCounted(was, mid, p, was[p].kids, i, i + 1, node)
    requires AllPointed(mid, end, p, was[p].kids, i, i + 1, node)
    ensures var now := end - {was[p].kids[i]};
            Linked(now) && p in now && OthersKept(was, now, p) && now[p].kids == Splice(was[p].kids, i, i + 1, node)
  {
    hide Splice, Linked, HasEnds, Before, At, Growth;
    var now := end - {was[p].kids[i]};
    assert Exchanged(was, now, p, i, i + 1, node);
    ExchangedIsLinked(was, now, p, i, i + 1, node);
  }

  lemma PointedAll(nodes: set<Node>, w: Net, p: Node, kids: seq<Node>, i: nat, j: nat, node: Node?)
    requires i <= j <= |kids| && w.Keys == nodes
    requires forall n :: n in nodes && !Gone(kids, i, j, n) ==> Pointed(w[n], n.Pointers(), p, kids, i, j, node, n)
    ensures AllPointed(w, NetOf(nodes), p, kids, i, j, node)
  {
    hide Pointed, Gone;
  }

  lemma NetIsNow(nodes: set<Node>)
    ensures Now(NetOf(nodes), nodes)
  {
  }

  lemma NetOfNode(nodes: set<Node>, n: Node)
    requires n in nodes
    ensures n in NetOf(nodes) && NetOf(nodes)[n] == n.Pointers() && NetOf(nodes).Keys == nodes
  {
  }

  lemma NetOfWithout(nodes: set<Node>, x: Node)
    ensures NetOf(nodes - {x}) == NetOf(nodes) - {x}
  {
  }

  /** The same, with what the pointer assignments did read off the nodes. */
  lemma TakenOut(nodes: set<Node>, was: Net, mid: Net, p: Node, i: nat, node: Node?)
    requires Fair(was, p, i, i + 1, node) && mid.Keys == nodes
    requires AllCounted(was, mid, p, was[p].kids, i, i + 1, node)
    requires forall n :: n in nodes && n != was[p].kids[i] ==>
               Pointed(mid[n], n.Pointers(), p, was[p].kids, i, i + 1, node, n)
    ensures var rest := nodes - {was[p].kids[i]};
            Forest(rest) && OthersKept(was, NetOf(rest), p) && p.kids == Splice(was[p].kids, i, i + 1, node)
  {
    hide Linked, Splice, HasEnds, AllCounted, Pointed, AllPointed, OthersKept, Unlisted;
    PointedAll(nodes, mid, p, was[p].kids, i, i + 1, node);
    Removed(was, mid, NetOf(nodes), p, i, node);
    NetOfWithout(nodes, was[p].kids[i]);
  }

  /** The bookkeeping: the new list, and the positions behind the exchange move. */
  ghost method Recount(p: Node, i: nat, j: nat, node: Node?, nodes: set<Node>)
    requires p in nodes && i <= j <= |p.kids| && (node != null ==> node in nodes) && j <= i + 1
    modifies nodes`kids, nodes`pos
    ensures AllCounted(old(NetOf(nodes)), NetOf(nodes), p, old(p.kids), i, j, node)
  {
    p.kids := Splice(p.kids, i, j, node);
    forall n | n in nodes {
      n.pos := if n == node then i else if n.parent == p && n.pos >= j then n.pos + Growth(i, j, node) else n.pos;
    }
  }

  // ---------- Appending ----------

  /** What the assignments of an append do to a node n, last being the last child so far. */
  ghost function AfterAppend(l: Links, p: Node, c: Node, last: Node?, n: Node): Links {
    l.(parent := if n == c then p else l.parent,
       prev := if n == c then last else l.prev,
       next := if n == last then c else if n == c then null else l.next,
       firstChild := if n == p && last == null then c else l.firstChild,
       lastChild := if n == p then c else l.lastChild)
  }

  ghost function Appended(w: Net, p: Node, c: Node): Net
    requires p in w && c in w
  {
    map n | n in w :: AfterAppend(w[n], p, c, w[p].lastChild, n)
  }

  lemma AppendedNet(w: Net, nodes: set<Node>, p: Node, c: Node)
    requires w.Keys == nodes && p in nodes && c in nodes
    requires forall n :: n in nodes ==> n.Pointers() == AfterAppend(w[n], p, c, w[p].lastChild, n)
    ensures NetOf(nodes) == Appended(w, p, c)
  {
    hide AfterAppend;
  }

  lemma AppendedIsPointed(w: Net, p: Node, c: Node, kids: seq<Node>)
    requires p in w && c in w && p != c && w[p].lastChild != c && HasEnds(w[p].firstChild, w[p].lastChild, kids)
    requires w[p].lastChild != null ==> w[p].lastChild in w
    ensures AllPointed(w, Appended(w, p, c), p, kids, |kids|, |kids|, c)
  {
    hide Splice;
    SpliceEnds(kids, |kids|, |kids|, c);
  }

  /** Counting and then appending is putting the node at the end of the list. */
  lemma AppendedIsInserted(was: Net, mid: Net, p: Node, c: Node)
    requires p in was && Fair(was, p, |was[p].kids|, |was[p].kids|, c)
    requires AllCounted(was, mid, p, was[p].kids, |was[p].kids|, |was[p].kids|, c)
    ensures p in mid && c in mid
    ensures var now := Appended(mid, p, c);
            Linked(now) && p in now && OthersKept(was, now, p) && now[p].kids == was[p].kids + [c]
  {
    hide Splice, Linked, Before, At, Appended;
    var kids := was[p].kids;
    LastOf(was, p);
    assert c !in kids;
    AppendedIsPointed(mid, p, c, kids);
    Inserted(was, mid, Appended(mid, p, c), p, |kids|, c);
  }

  lemma LastOf(w: Net, p: Node)
    requires Linked(w) && p in w
    ensures HasEnds(w[p].firstChild, w[p].lastChild, w[p].kids)
    ensures w[p].lastChild != null ==>
              w[p].lastChild in w && w[p].lastChild in w[p].kids && w[w[p].lastChild].parent == p
  {
    if w[p].kids != [] {
      assert Entry(w, p, |w[p].kids| - 1);
    }
  }

  // ---------- The two chains ----------

  lemma KidOf(nodes: set<Node>, p: Node, k: nat)
    requires Forest(nodes) && p in nodes && k < |p.kids|
    ensures var c := p.kids[k];
            c in nodes && c.parent == p && c.next == At(p.kids, k + 1) && c.prev == Before(p.kids, k)
  {
    var w := NetOf(nodes);
    assert Entry(w, p, k);
  }

  /** The nodes met by following next for a number of steps. */
  ghost function NextChain(w: Net, n: Node?, steps: nat): seq<Node> {
    if n == null || n !in w || steps == 0 then [] else [n] + NextChain(w, w[n].next, steps - 1)
  }

  ghost function PrevChain(w: Net, n: Node?, steps: nat): seq<Node> {
    if n == null || n !in w || steps == 0 then [] else [n] + PrevChain(w, w[n].prev, steps - 1)
  }

  ghost function Reversed(s: seq<Node>): (r: seq<Node>)
    ensures |r| == |s|
  {
    if s == [] then [] else [s[|s| - 1]] + Reversed(s[..|s| - 1])
  }

  lemma {:induction false} NextFrom(w: Net, p: Node, k: nat, steps: nat)
    requires Linked(w) && p in w && k <= |w[p].kids| && steps >= |w[p].kids| - k
    ensures NextChain(w, At(w[p].kids, k), steps) == w[p].kids[k..]
    decreases steps
  {
    var kids := w[p].kids;
    if k == |kids| {
    } else {
      assert Entry(w, p, k);
      NextFrom(w, p, k + 1, steps - 1);
    }
  }

  lemma {:induction false} PrevFrom(w: Net, p: Node, k: nat, steps: nat)
    requires Linked(w) && p in w && k <= |w[p].kids| && steps >= k
    ensures PrevChain(w, Before(w[p].kids, k), steps) == Reversed(w[p].kids[..k])
    decreases steps
  {
    var kids := w[p].kids;
    if k == 0 {
    } else {
      assert Entry(w, p, k - 1);
      PrevFrom(w, p, k - 1, steps - 1);
      assert kids[..k][..k - 1] == kids[..k - 1];
    }
  }

  /**
    However long one walks, the next chain from the first child is the list and the prev chain from the last
    child is its reverse, and every member has this node as its parent.
   */
  lemma ChainsAreTheList(w: Net, p: Node, steps: nat)
    requires Linked(w) && p in w && steps >= |w[p].kids|
    ensures NextChain(w, w[p].firstChild, steps) == w[p].kids
    ensures PrevChain(w, w[p].lastChild, steps) == Reversed(w[p].kids)
    ensures forall k :: 0 <= k < |w[p].kids| ==> w[p].kids[k] in w && w[w[p].kids[k]].parent == p
  {
    NextFrom(w, p, 0, steps);
    PrevFrom(w, p, |w[p].kids|, steps);
    assert w[p].kids[..|w[p].kids|] == w[p].kids;
    forall k | 0 <= k < |w[p].kids|
      ensures w[p].kids[k] in w && w[w[p].kids[k]].parent == p
    {
      assert Entry(w, p, k);
    }
  }

  /** The destructor also deletes what hangs under a deleted node; the rest stays well linked without it. */
  lemma WithoutSubtree(w: Net, gone: set<Node>)
    requires Linked(w)
    requires forall n, k :: n in w && n !in gone && 0 <= k < |w[n].kids| ==> w[n].kids[k] !in gone
    ensures Linked(w - gone)
    ensures forall n :: n in w - gone ==> (w - gone)[n] == w[n]
  {
    var now := w - gone;
    forall n, k | n in now && 0 <= k < |now[n].kids|
      ensures Entry(now, n, k)
    {
      assert Entry(w, n, k);
    }
  }

  /** A node is in one list only, and there once. */
  lemma OneListEach(w: Net, p: Node, k: nat, q: Node, m: nat)
    requires Linked(w) && p in w && q in w && k < |w[p].kids| && m < |w[q].kids|
    requires w[p].kids[k] == w[q].kids[m]
    ensures p == q && k == m
  {
    assert Entry(w, p, k) && Entry(w, q, m);
  }

  // ---------- When appending keeps the list ----------

  /** Where the next pointer of a child leads after the append. */
  lemma NextAfterAppend(w: Net, p: Node, c: Node, j: nat)
    requires Linked(w) && p in w && c in w && p != c && j < |w[p].kids|
    ensures var kids := w[p].kids;
            kids[j] in Appended(w, p, c)
            && Appended(w, p, c)[kids[j]].next
               == if j + 1 == |kids| then c else if kids[j] == c then null else kids[j + 1]
  {
    var kids := w[p].kids;
    assert Entry(w, p, j);
    assert Entry(w, p, |kids| - 1);
  }

  lemma {:induction false} ChainToNewcomer(w: Net, p: Node, c: Node, j: nat, steps: nat)
    requires Linked(w) && p in w && c in w && p != c && c !in w[p].kids
    requires j <= |w[p].kids| && steps > |w[p].kids| - j
    ensures NextChain(Appended(w, p, c), (w[p].kids + [c])[j], steps) == (w[p].kids + [c])[j..]
    decreases steps
  {
    hide Appended, Linked;
    var kids := w[p].kids;
    var all := kids + [c];
    if j < |kids| {
      NextAfterAppend(w, p, c, j);
      ChainToNewcomer(w, p, c, j + 1, steps - 1);
      assert all[j..] == [all[j]] + all[j + 1..];
    } else {
      NewcomerIsLast(w, p, c);
      assert all[j..] == [c];
    }
  }

  lemma NewcomerIsLast(w: Net, p: Node, c: Node)
    requires Linked(w) && p in w && c in w && p != c && c !in w[p].kids
    ensures c in Appended(w, p, c) && Appended(w, p, c)[c].next == null
  {
    assert HasEnds(w[p].firstChild, w[p].lastChild, w[p].kids);
  }

  /** Appending a child again ends the chain at it: its later siblings are lost. */
  lemma {:induction false} ChainIsCut(w: Net, p: Node, k: nat, j: nat, steps: nat)
    requires Linked(w) && p in w && j <= k && k + 1 < |w[p].kids| && w[p].kids[k] in w && w[p].kids[k] != p
    requires steps > k - j
    ensures NextChain(Appended(w, p, w[p].kids[k]), w[p].kids[j], steps) == w[p].kids[j..k + 1]
    decreases steps
  {
    hide Appended, Linked;
    var kids := w[p].kids;
    NextAfterAppend(w, p, kids[k], j);
    if j == k {
    } else {
      SameChild(w, p, j, k);
      ChainIsCut(w, p, k, j + 1, steps - 1);
    }
  }

  lemma SameChild(w: Net, p: Node, j: nat, k: nat)
    requires Linked(w) && p in w && j < |w[p].kids| && k < |w[p].kids|
    ensures w[p].kids[j] == w[p].kids[k] <==> j == k
  {
    if w[p].kids[j] == w[p].kids[k] {
      OneListEach(w, p, j, p, k);
    }
  }

  /** Appending the last child again makes it its own successor: the chain never ends. */
  lemma {:induction false} ChainNeverEnds(w: Net, p: Node, j: nat, steps: nat)
    requires Linked(w) && p in w && j < |w[p].kids|
    requires w[p].kids[|w[p].kids| - 1] in w && w[p].kids[|w[p].kids| - 1] != p
    ensures |NextChain(Appended(w, p, w[p].kids[|w[p].kids| - 1]), w[p].kids[j], steps)| == steps
    decreases steps
  {
    hide Appended, Linked;
    var n := |w[p].kids|;
    NextAfterAppend(w, p, w[p].kids[n - 1], j);
    if steps > 0 {
      if j + 1 < n {
        SameChild(w, p, j, n - 1);
      }
      ChainNeverEnds(w, p, if j + 1 < n then j + 1 else j, steps - 1);
    }
  }

  /**
    Appending gives the list with the node behind it if and only if the node is not in the list yet, whatever its
    parent pointer says.
   */
  lemma AppendKeepsTheList(w: Net, p: Node, c: Node)
    requires Linked(w) && p in w && c in w && p != c
    ensures (forall steps: nat :: steps > |w[p].kids| ==>
               NextChain(Appended(w, p, c), Appended(w, p, c)[p].firstChild, steps) == w[p].kids + [c])
       <==> c !in w[p].kids
  {
    hide Appended, Linked;
    var kids := w[p].kids;
    FirstAfterAppend(w, p, c);
    if c !in kids {
      forall steps: nat | steps > |kids|
        ensures NextChain(Appended(w, p, c), Appended(w, p, c)[p].firstChild, steps) == kids + [c]
      {
        ChainToNewcomer(w, p, c, 0, steps);
      }
    } else {
      var k :| 0 <= k < |kids| && kids[k] == c;
      var steps := |kids| + 2;
      if k + 1 < |kids| {
        ChainIsCut(w, p, k, 0, steps);
        assert |kids[0..k + 1]| < |kids + [c]|;
      } else {
        ChainNeverEnds(w, p, 0, steps);
      }
      assert NextChain(Appended(w, p, c), Appended(w, p, c)[p].firstChild, steps) != kids + [c];
    }
  }

  // ---------- The state that Identify leaves ----------

  /** A node with no parent is in no list; nor is one whose parent does not list it. */
  lemma NotListed(w: Net, c: Node)
    requires Linked(w) && c in w
    ensures Unlisted(w, c) <==> w[c].parent == null || w[c].parent !in w || c !in w[w[c].parent].kids
  {
    var p := w[c].parent;
    if p == null || p !in w || c !in w[p].kids {
      forall n, k | n in w && 0 <= k < |w[n].kids|
        ensures w[n].kids[k] != c
      {
        assert Entry(w, n, k);
      }
    } else {
      var k :| 0 <= k < |w[p].kids| && w[p].kids[k] == c;
      assert !Unlisted(w, c);
    }
  }

  /** Setting the parent of a node in no list, as Identify does, disturbs no list, and the node stays in none. */
  lemma AdoptedIsLinked(w: Net, p: Node?, c: Node)
    requires Linked(w) && c in w && Unlisted(w, c)
    ensures var now := w[c := w[c].(parent := p)];
            Linked(now) && Unlisted(now, c) && forall n :: n in w ==> now[n].kids == w[n].kids
  {
    var now := w[c := w[c].(parent := p)];
    forall n, k | n in now && 0 <= k < |now[n].kids|
      ensures Entry(now, n, k)
    {
      assert Entry(w, n, k);
    }
  }

  lemma FirstAfterAppend(w: Net, p: Node, c: Node)
    requires Linked(w) && p in w && c in w && p != c
    ensures p in Appended(w, p, c) && Appended(w, p, c)[p].firstChild == (w[p].kids + [c])[0]
  {
  }
}
