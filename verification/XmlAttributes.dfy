/**
  The attributes of an element: a circular doubly linked list closed by a sentinel, against the sequence of
  attributes in the order they were added.
 */
module XmlAttributes {

  class Attribute {
    var name: string
    var value: string
    var prev: Attribute?
    var next: Attribute?
    ghost var pos: nat // where it stands on the circle

    constructor ()
      ensures name == "" && value == "" && prev == null && next == null
    {
      name, value, prev, next, pos := "", "", null, null, 0;
    }

    /** What Next and Previous take for the sentinel. */
    predicate Blank()
      reads this
    {
      value == "" && name == ""
    }
  }

  // ---------- The circle ----------

  function Succ(i: nat, n: nat): (j: nat)
    requires i < n
    ensures j < n
  {
    if i + 1 == n then 0 else i + 1
  }

  function Pred(i: nat, n: nat): (j: nat)
    requires i < n
    ensures j < n
  {
    if i == 0 then n - 1 else i - 1
  }

  /** An element of the circle stands between its neighbours. */
  ghost predicate InPlace(circle: seq<Attribute>, i: nat)
    requires i < |circle|
    reads circle`pos, circle`prev, circle`next
  {
    && circle[i].pos == i
    && circle[i].next == circle[Succ(i, |circle|)]
    && circle[i].prev == circle[Pred(i, |circle|)]
  }

  ghost predicate Closed(circle: seq<Attribute>)
    reads circle`pos, circle`prev, circle`next
  {
    forall i :: 0 <= i < |circle| ==> InPlace(circle, i)
  }

  lemma OnlyOnce(circle: seq<Attribute>, i: nat, j: nat)
    requires Closed(circle) && i < |circle| && j < |circle| && circle[i] == circle[j]
    ensures i == j
  {
    assert InPlace(circle, i) && InPlace(circle, j);
  }

  // ---------- Names ----------

  ghost predicate HasName(attrs: seq<Attribute>, name: string)
    reads attrs
  {
    exists k :: 0 <= k < |attrs| && attrs[k].name == name
  }

  /** Names are non-empty and no name occurs twice. */
  ghost predicate ProperNames(attrs: seq<Attribute>)
    reads attrs
  {
    && (forall k :: 0 <= k < |attrs| ==> attrs[k].name != "")
    && forall i, j :: 0 <= i < j < |attrs| ==> attrs[i].name != attrs[j].name
  }

  class AttributeSet {
    const sentinel: Attribute
    ghost var attrs: seq<Attribute>

    ghost function Circle(): (c: seq<Attribute>)
      reads this
      ensures |c| == |attrs| + 1
    {
      [sentinel] + attrs
    }

    /** The objects it is made of. */
    ghost function Parts(): (p: set<object>)
      reads this
      ensures this in p && sentinel in p
      ensures forall a :: a in attrs ==> a in p
      ensures forall a :: a in Circle() ==> a in p
    {
      {this, sentinel} + set a | a in attrs :: a
    }

    ghost predicate Valid()
      reads this, sentinel, Circle()
    {
      Closed(Circle()) && sentinel.Blank()
    }

    constructor ()
      ensures Valid() && attrs == [] && fresh(sentinel)
    {
      var s := new Attribute();
      s.next := s;
      s.prev := s;
      s.pos := 0;
      sentinel := s;
      attrs := [];
      new;
      assert Circle() == [sentinel];
    }

    /** A new attribute under a new name goes in front of the sentinel. */
    method Add(addMe: Attribute)
      requires Valid() && addMe !in Circle() && !HasName(attrs, addMe.name)
      modifies this, Circle()`prev, Circle()`next, addMe`prev, addMe`next, addMe`pos
      ensures Valid() && attrs == old(attrs) + [addMe]
    {
      ghost var circle := Circle();
      assert InPlace(circle, 0) && InPlace(circle, |circle| - 1);
      addMe.next := sentinel;
      addMe.prev := sentinel.prev;
      sentinel.prev.next := addMe;
      sentinel.prev := addMe;
      addMe.pos := |circle|;
      attrs := attrs + [addMe];
      assert Circle() == circle + [addMe];
      forall i | 0 <= i < |Circle()|
        ensures InPlace(Circle(), i)
      {
        assert i < |circle| ==> old(InPlace(circle, i));
      }
    }

    /** An attribute of this set is taken out of the circle; any other is left alone. */
    method Remove(removeMe: Attribute)
      requires Valid() && removeMe != sentinel
      modifies this, Circle()`prev, Circle()`next, Circle()`pos
      ensures Valid()
      ensures removeMe in old(attrs) ==>
                var k := old(removeMe.pos) - 1;
                0 <= k < |old(attrs)| && old(attrs)[k] == removeMe && attrs == old(attrs)[..k] + old(attrs)[k + 1..]
                && removeMe.next == null && removeMe.prev == null
      ensures removeMe !in old(attrs) ==> attrs == old(attrs)
    {
      ghost var circle := Circle();
      ghost var i := 1;
      assert InPlace(circle, 0);
      var node := sentinel.next;
      while node != sentinel
        invariant 1 <= i <= |circle| && Circle() == circle && Valid()
        invariant node == circle[if i == |circle| then 0 else i]
        invariant removeMe !in circle[..i]
        decreases |circle| - i
      {
        assert InPlace(circle, i);
        if node == removeMe {
          CutOut(node, i);
          return;
        }
        node := node.next;
        i := i + 1;
      }
      OnlyOnce(circle, 0, if i == |circle| then 0 else i);
      assert circle[..i] == circle;
    }

    /** The pointer assignments of Remove. */
    method CutOut(node: Attribute, ghost i: nat)
      requires Valid() && 1 <= i <= |attrs| && Circle()[i] == node
      modifies this, Circle()`prev, Circle()`next, Circle()`pos
      ensures Valid() && attrs == old(attrs)[..i - 1] + old(attrs)[i..]
      ensures node.next == null && node.prev == null
    {
      hide Closed;
      ghost var circle := Circle();
      Recount(circle, i);
      Bypass(node, circle, i);
      assert attrs[i - 1] == node;
      attrs := attrs[..i - 1] + attrs[i..];
      assert Circle() == Without(circle, i);
      BypassedIsClosed(circle, i);
    }

    method Bypass(node: Attribute, ghost circle: seq<Attribute>, ghost i: nat)
      requires 1 <= i < |circle| && circle[i] == node && Counted(circle, i)
      requires forall k :: 0 <= k < |circle| ==> Between(circle, k)
      modifies circle`prev, circle`next
      ensures node.next == null && node.prev == null
      ensures Bypassed(circle, i)
    {
      assert Between(circle, i) && Between(circle, Succ(i, |circle|)) && Between(circle, i - 1);
      node.prev.next := node.next;
      node.next.prev := node.prev;
      node.next := null;
      node.prev := null;
      forall k | 0 <= k < |circle| && k != i
        ensures BypassedAt(circle, i, k)
      {
        assert old(Between(circle, k));
      }
    }

    // ---------- Looking up ----------

    method Find(name: string) returns (r: Attribute?)
      requires Valid()
      ensures r == null <==> !HasName(attrs, name)
      ensures r != null ==> exists k :: 0 <= k < |attrs| && r == attrs[k] && r.name == name && r.pos == k + 1
                                        && forall m :: 0 <= m < k ==> attrs[m].name != name
    {
      ghost var circle := Circle();
      ghost var i := 1;
      assert InPlace(circle, 0);
      var node := sentinel.next;
      while node != sentinel
        invariant 1 <= i <= |circle| && node == circle[if i == |circle| then 0 else i]
        invariant forall m :: 0 <= m < i - 1 ==> attrs[m].name != name
        decreases |circle| - i
      {
        assert InPlace(circle, i);
        if node.name == name {
          assert attrs[i - 1] == node;
          return node;
        }
        node := node.next;
        i := i + 1;
      }
      OnlyOnce(circle, 0, if i == |circle| then 0 else i);
      return null;
    }

    /** The attribute of that name, which is appended without a value if there is none. */
    method FindOrCreate(name: string) returns (attrib: Attribute)
      requires Valid() && name != "" && ProperNames(attrs)
      modifies this, Circle()
      ensures Valid() && ProperNames(attrs)
      ensures attrib in attrs && attrib.name == name
      ensures if old(HasName(attrs, name)) then attrs == old(attrs)
              else attrs == old(attrs) + [attrib] && fresh(attrib) && attrib.value == ""
      ensures forall a :: a in old(attrs) ==> a.name == old(a.name) && a.value == old(a.value)
    {
      var found := Find(name);
      if found != null {
        return found;
      }
      attrib := new Attribute();
      Add(attrib);
      attrib.name := name;
      assert forall k :: 0 <= k < |old(attrs)| ==> attrs[k].name == old(attrs[k].name);
    }

    /** The attribute of that name leaves the set. */
    method RemoveAttribute(name: string)
      requires Valid() && ProperNames(attrs)
      modifies this, Circle()`prev, Circle()`next, Circle()`pos
      ensures Valid() && ProperNames(attrs) && !HasName(attrs, name)
      ensures old(HasName(attrs, name)) ==>
                exists k :: 0 <= k < |old(attrs)| && old(attrs)[k].name == name
                            && attrs == old(attrs)[..k] + old(attrs)[k + 1..]
      ensures !old(HasName(attrs, name)) ==> attrs == old(attrs)
    {
      var node := Find(name);
      if node != null {
        Remove(node);
      }
    }

    // ---------- Walking ----------

    method First() returns (r: Attribute?)
      requires Valid()
      ensures r == if attrs == [] then null else attrs[0]
    {
      assert InPlace(Circle(), 0);
      OnlyFirstIsSentinel(1);
      return if sentinel.next == sentinel then null else sentinel.next;
    }

    method Last() returns (r: Attribute?)
      requires Valid()
      ensures r == if attrs == [] then null else attrs[|attrs| - 1]
    {
      assert InPlace(Circle(), 0);
      OnlyFirstIsSentinel(|attrs|);
      return if sentinel.prev == sentinel then null else sentinel.prev;
    }

    lemma OnlyFirstIsSentinel(i: nat)
      requires Valid()
      ensures 1 <= i <= |attrs| ==> Circle()[i] != sentinel
    {
      if i <= |attrs| {
        assert InPlace(Circle(), i) && InPlace(Circle(), 0);
      }
    }

    /** The loop over First and Next that copies, prints and compares attributes. */
    method Walk() returns (visited: seq<Attribute>)
      requires Valid()
      ensures visited == attrs[..StopAt(attrs, 1)]
    {
      visited := [];
      var a := First();
      ghost var i := 0;
      while a != null
        invariant 0 <= i <= |attrs| && visited == attrs[..i]
        invariant a != null ==> i < |attrs| && a == attrs[i] && StopAt(attrs, 1) == StopAt(attrs, i + 1)
        invariant a == null ==> i == StopAt(attrs, 1)
        decreases |attrs| - i, a != null
      {
        visited := visited + [a];
        i := i + 1;
        assert InPlace(Circle(), i);
        a := Next(a);
      }
    }
  }

  /** The next attribute, unless its name and its value are both empty. */
  method Next(a: Attribute) returns (r: Attribute?)
    requires a.next != null
    ensures r == if a.next.Blank() then null else a.next
  {
    if a.next.value == "" && a.next.name == "" {
      return null;
    }
    return a.next;
  }

  /** Where a walk that takes the attributes before position i for granted stops. */
  ghost function StopAt(attrs: seq<Attribute>, i: nat): (k: nat)
    requires i >= 1
    reads attrs
    ensures k <= |attrs|
    decreases |attrs| - i
  {
    if i >= |attrs| then |attrs| else if attrs[i].Blank() then i else StopAt(attrs, i + 1)
  }

  /** A walk visits every attribute exactly when none behind the first has an empty name and an empty value. */
  lemma {:induction false} WalkIsComplete(attrs: seq<Attribute>, i: nat)
    requires i >= 1
    ensures StopAt(attrs, i) == |attrs| <==> forall k :: i <= k < |attrs| ==> !attrs[k].Blank()
    decreases |attrs| - i
  {
    if i >= |attrs| || attrs[i].Blank() {
    } else {
      WalkIsComplete(attrs, i + 1);
    }
  }

  /** So with proper names it always does. */
  lemma ProperWalkIsComplete(attrs: seq<Attribute>)
    requires ProperNames(attrs)
    ensures attrs[..StopAt(attrs, 1)] == attrs
  {
    WalkIsComplete(attrs, 1);
  }

  // ---------- Cutting out of a circle ----------

  ghost function Without(circle: seq<Attribute>, i: nat): (r: seq<Attribute>)
    requires i < |circle|
    ensures |r| == |circle| - 1
    ensures forall k :: 0 <= k < |r| ==> r[k] == circle[if k < i then k else k + 1]
  {
    circle[..i] + circle[i + 1..]
  }

  ghost predicate Between(circle: seq<Attribute>, i: nat)
    requires i < |circle|
    reads circle
  {
    circle[i].next == circle[Succ(i, |circle|)] && circle[i].prev == circle[Pred(i, |circle|)]
  }

  /** Positions without the one at i, which keeps its own. */
  ghost predicate Counted(circle: seq<Attribute>, i: nat)
    reads circle
  {
    forall k :: 0 <= k < |circle| ==> circle[k].pos == if k > i then k - 1 else k
  }

  ghost method Recount(circle: seq<Attribute>, i: nat)
    requires Closed(circle) && 1 <= i < |circle|
    modifies circle`pos
    ensures Counted(circle, i)
    ensures forall k :: 0 <= k < |circle| ==> Between(circle, k)
  {
    forall a | a in circle && a.pos > i {
      a.pos := a.pos - 1;
    }
    forall k | 0 <= k < |circle|
      ensures circle[k].pos == (if k > i then k - 1 else k) && Between(circle, k)
    {
      assert old(InPlace(circle, k)) && circle[k] in circle;
    }
  }

  ghost predicate BypassedAt(circle: seq<Attribute>, i: nat, k: nat)
    requires i < |circle| && k < |circle|
    reads circle
  {
    && circle[k].next == (if k == Pred(i, |circle|) then circle[Succ(i, |circle|)] else circle[Succ(k, |circle|)])
    && circle[k].prev == (if k == Succ(i, |circle|) then circle[Pred(i, |circle|)] else circle[Pred(k, |circle|)])
  }

  ghost predicate Bypassed(circle: seq<Attribute>, i: nat)
    requires i < |circle|
    reads circle
  {
    forall k :: 0 <= k < |circle| && k != i ==> BypassedAt(circle, i, k)
  }

  lemma BypassedIsClosed(circle: seq<Attribute>, i: nat)
    requires 1 <= i < |circle| && Counted(circle, i) && Bypassed(circle, i)
    ensures Closed(Without(circle, i))
  {
    var rest := Without(circle, i);
    forall k | 0 <= k < |rest|
      ensures InPlace(rest, k)
    {
      assert BypassedAt(circle, i, if k < i then k else k + 1);
    }
  }
}
