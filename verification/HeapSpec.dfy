/**
  What the operations of the array heap do to its contents, as functions on sequences,
  and what follows from them over whole runs.
 */
module HeapSpec {
  import opened TimeOrder

  const MAXSIZE: nat := 100000

  function Parent(j: nat): nat
    requires j > 0
  {
    (j - 1) / 2
  }

  function Swap(s: seq<Time>, i: nat, j: nat): seq<Time>
    requires i < |s| && j < |s|
  {
    s[i := s[j]][j := s[i]]
  }

  /** Sift up by exchanging with the parent while the parent is greater. */
  function SiftUp(s: seq<Time>, j: nat): (r: seq<Time>)
    requires j < |s|
    ensures |r| == |s|
    decreases j
  {
    if j == 0 || Leq(s[Parent(j)], s[j]) then s else SiftUp(Swap(s, j, Parent(j)), Parent(j))
  }

  function SmallerChild(s: seq<Time>, i: nat): (c: nat)
    requires 2 * i + 1 < |s|
    ensures c < |s| && c > 0 && Parent(c) == i
  {
    if 2 * i + 2 < |s| && Less(s[2 * i + 2], s[2 * i + 1]) then 2 * i + 2 else 2 * i + 1
  }

  /** Sift down by exchanging with the smaller child while that child is smaller. */
  function SiftDown(s: seq<Time>, i: nat): (r: seq<Time>)
    requires i < |s|
    ensures |r| == |s|
    decreases |s| - i
  {
    if 2 * i + 1 >= |s| || Leq(s[i], s[SmallerChild(s, i)]) then s
    else SiftDown(Swap(s, i, SmallerChild(s, i)), SmallerChild(s, i))
  }

  lemma SiftDownStep(s: seq<Time>, i: nat)
    requires 2 * i + 1 < |s| && !Leq(s[i], s[SmallerChild(s, i)])
    ensures SiftDown(s, i) == SiftDown(Swap(s, i, SmallerChild(s, i)), SmallerChild(s, i))
  {
  }

  lemma SiftDownEnds(s: seq<Time>, i: nat)
    requires i < |s| && (2 * i + 1 >= |s| || Leq(s[i], s[SmallerChild(s, i)]))
    ensures SiftDown(s, i) == s
  {
  }

  function Insert(s: seq<Time>, x: Time): seq<Time> {
    SiftUp(s + [x], |s|)
  }

  /** Take out the element at id: the last element fills the hole and is sifted down only. */
  function DeleteAt(s: seq<Time>, id: nat): seq<Time>
    requires id < |s|
  {
    var n := |s| - 1;
    if id == n then s[..n] else SiftDown(s[..n][id := s[n]], id)
  }

  function RemoveMin(s: seq<Time>): seq<Time>
    requires s != []
  {
    DeleteAt(s, 0)
  }

  lemma {:induction false} SiftUpPermutes(s: seq<Time>, j: nat)
    requires j < |s|
    ensures multiset(SiftUp(s, j)) == multiset(s)
    decreases j
  {
    if j == 0 || Leq(s[Parent(j)], s[j]) {
    } else {
      SiftUpPermutes(Swap(s, j, Parent(j)), Parent(j));
    }
  }

  lemma {:induction false} SiftDownPermutes(s: seq<Time>, i: nat)
    requires i < |s|
    ensures multiset(SiftDown(s, i)) == multiset(s)
    decreases |s| - i
  {
    if 2 * i + 1 >= |s| || Leq(s[i], s[SmallerChild(s, i)]) {
    } else {
      SiftDownPermutes(Swap(s, i, SmallerChild(s, i)), SmallerChild(s, i));
    }
  }

  // ---------- Heap order ----------

  /** Every edge except possibly the one from hole to its parent is in order. */
  ghost predicate OrderedBut(s: seq<Time>, hole: nat) {
    forall j :: 0 < j < |s| && j != hole ==> Leq(s[Parent(j)], s[j])
  }

  ghost predicate HeapOrdered(s: seq<Time>) {
    forall j :: 0 < j < |s| ==> Leq(s[Parent(j)], s[j])
  }

  /** The children of j are not smaller than the parent of j. */
  ghost predicate GrandOrdered(s: seq<Time>, j: nat) {
    j > 0 ==> forall c :: 0 < c < |s| && Parent(c) == j ==> Leq(s[Parent(j)], s[c])
  }

  lemma {:induction false} SiftUpRestoresOrder(s: seq<Time>, j: nat)
    requires j < |s| && OrderedBut(s, j) && GrandOrdered(s, j)
    ensures HeapOrdered(SiftUp(s, j))
    decreases j
  {
    if j == 0 || Leq(s[Parent(j)], s[j]) {
    } else {
      SiftUpRestoresOrder(Swap(s, j, Parent(j)), Parent(j));
    }
  }

  /** All edges except those from i to its children and from i to its parent are in order. */
  ghost predicate OrderedAround(s: seq<Time>, i: nat) {
    forall j :: 0 < j < |s| && j != i && Parent(j) != i ==> Leq(s[Parent(j)], s[j])
  }

  lemma SwapDown(s: seq<Time>, i: nat)
    requires 2 * i + 1 < |s| && OrderedAround(s, i) && GrandOrdered(s, i)
    requires !Leq(s[i], s[SmallerChild(s, i)])
    ensures OrderedAround(Swap(s, i, SmallerChild(s, i)), SmallerChild(s, i))
    ensures GrandOrdered(Swap(s, i, SmallerChild(s, i)), SmallerChild(s, i))
  {
    var c := SmallerChild(s, i);
    var t := Swap(s, i, c);
    forall j | 0 < j < |t| && j != c && Parent(j) != c
      ensures Leq(t[Parent(j)], t[j])
    {
      if Parent(j) == i {
        assert j == 2 * i + 1 || j == 2 * i + 2;
      }
    }
    forall k | 0 < k < |t| && Parent(k) == c
      ensures Leq(t[Parent(c)], t[k])
    {
      assert Leq(s[c], s[k]);
    }
  }

  /** What SiftDown leaves at i: the old element, or else its smaller child, which was smaller. */
  ghost predicate SettledAt(s: seq<Time>, i: nat, top: Time)
    requires i < |s|
  {
    if 2 * i + 1 >= |s| || Leq(s[i], s[SmallerChild(s, i)]) then top == s[i] else top == s[SmallerChild(s, i)]
  }

  lemma {:induction false} SiftDownFrame(s: seq<Time>, i: nat)
    requires i < |s|
    ensures forall k :: 0 <= k < i ==> SiftDown(s, i)[k] == s[k]
    ensures SettledAt(s, i, SiftDown(s, i)[i])
    decreases |s| - i
  {
    if 2 * i + 1 >= |s| || Leq(s[i], s[SmallerChild(s, i)]) {
    } else {
      SiftDownFrame(Swap(s, i, SmallerChild(s, i)), SmallerChild(s, i));
    }
  }

  lemma {:induction false} SiftDownOrder(s: seq<Time>, i: nat)
    requires i < |s| && OrderedAround(s, i) && GrandOrdered(s, i)
    ensures OrderedBut(SiftDown(s, i), i)
    decreases |s| - i
  {
    if 2 * i + 1 >= |s| || Leq(s[i], s[SmallerChild(s, i)]) {
      SettledOrder(s, i);
    } else {
      var c := SmallerChild(s, i);
      var t := Swap(s, i, c);
      SwapDown(s, i);
      SiftDownOrder(t, c);
      SiftDownFrame(t, c);
      assert Leq(t[i], SiftDown(t, c)[c]);
    }
  }

  lemma SettledOrder(s: seq<Time>, i: nat)
    requires i < |s| && OrderedAround(s, i)
    requires 2 * i + 1 >= |s| || Leq(s[i], s[SmallerChild(s, i)])
    ensures OrderedBut(s, i)
  {
    forall j | 0 < j < |s| && j != i
      ensures Leq(s[Parent(j)], s[j])
    {
      if Parent(j) == i {
        assert j == 2 * i + 1 || j == 2 * i + 2;
      }
    }
  }

  lemma {:induction false} RootIsMinimal(s: seq<Time>, k: nat)
    requires HeapOrdered(s) && k < |s|
    ensures Leq(s[0], s[k])
    decreases k
  {
    if k == 0 {
    } else {
      RootIsMinimal(s, Parent(k));
    }
  }

  // ---------- The operations ----------

  lemma InsertCorrect(s: seq<Time>, x: Time)
    ensures multiset(Insert(s, x)) == multiset(s) + multiset{x}
    ensures HeapOrdered(s) ==> HeapOrdered(Insert(s, x))
  {
    SiftUpPermutes(s + [x], |s|);
    if HeapOrdered(s) {
      SiftUpRestoresOrder(s + [x], |s|);
    }
  }

  lemma DeleteAtPermutes(s: seq<Time>, id: nat)
    requires id < |s|
    ensures multiset(DeleteAt(s, id)) == multiset(s) - multiset{s[id]}
  {
    var n := |s| - 1;
    assert s == s[..n] + [s[n]];
    if id != n {
      SiftDownPermutes(s[..n][id := s[n]], id);
    }
  }

  /** When taking out index id leaves a complete heap: a test on the array before the call. */
  predicate MoverFits(s: seq<Time>, id: nat)
    requires id < |s|
  {
    var n := |s| - 1;
    id == 0 || id == n || Leq(s[Parent(id)], s[n])
  }

  /**
    Deletion only sifts down. On a heap it can break one edge, the one above the vacated index,
    and it breaks that edge exactly when the moved element is smaller than the parent there.
   */
  lemma DeleteAtOrder(s: seq<Time>, id: nat)
    requires id < |s| && HeapOrdered(s)
    ensures OrderedBut(DeleteAt(s, id), id)
    ensures HeapOrdered(DeleteAt(s, id)) <==> MoverFits(s, id)
  {
    hide SiftDown;
    var n := |s| - 1;
    if id != n {
      HoleAround(s, id);
      SiftDownOrder(s[..n][id := s[n]], id);
      if id > 0 {
        SettledEdge(s, id);
      }
    }
  }

  /** now is was without the x at position id, or was itself if there is no x in it. */
  ghost predicate DeletedFrom(was: seq<Time>, now: seq<Time>, x: Time, id: nat) {
    if x in was then id < |was| && was[id] == x && now == DeleteAt(was, id) else now == was
  }

  /** A heap before is a heap after exactly when there was no x or the last element fits into its place. */
  ghost predicate OrderKept(was: seq<Time>, now: seq<Time>, x: Time, id: nat) {
    HeapOrdered(was) ==> (HeapOrdered(now) <==> (x in was ==> id < |was| && MoverFits(was, id)))
  }

  lemma DeletedOrder(was: seq<Time>, now: seq<Time>, x: Time, id: nat)
    requires DeletedFrom(was, now, x, id)
    ensures OrderKept(was, now, x, id)
  {
    hide HeapOrdered, DeleteAt, MoverFits;
    if x in was && HeapOrdered(was) {
      DeleteAtOrder(was, id);
    }
  }

  lemma HoleAround(s: seq<Time>, id: nat)
    requires id < |s| - 1 && HeapOrdered(s)
    ensures var t := s[..|s| - 1][id := s[|s| - 1]]; OrderedAround(t, id) && GrandOrdered(t, id)
  {
    var t := s[..|s| - 1][id := s[|s| - 1]];
    forall c | id > 0 && 0 < c < |t| && Parent(c) == id
      ensures Leq(t[Parent(id)], t[c])
    {
      assert Leq(s[Parent(id)], s[id]) && Leq(s[id], s[c]);
    }
  }

  lemma SettledEdge(s: seq<Time>, id: nat)
    requires 0 < id < |s| - 1 && HeapOrdered(s)
    ensures var t := s[..|s| - 1][id := s[|s| - 1]];
            SiftDown(t, id)[Parent(id)] == s[Parent(id)] &&
            (Leq(s[Parent(id)], SiftDown(t, id)[id]) <==> Leq(s[Parent(id)], s[|s| - 1]))
  {
    var t := s[..|s| - 1][id := s[|s| - 1]];
    SiftDownFrame(t, id);
    HoleAround(s, id);
    if 2 * id + 1 < |t| {
      assert Leq(t[Parent(id)], t[SmallerChild(t, id)]);
    }
  }

  predicate Descends(j: nat, p: nat)
    decreases j
  {
    j == p || (j > 0 && Descends(Parent(j), p))
  }

  lemma {:induction false} DescendantNotSmaller(s: seq<Time>, j: nat, p: nat)
    requires HeapOrdered(s) && j < |s| && p < |s| && Descends(j, p)
    ensures Leq(s[p], s[j])
    decreases j
  {
    if j == p {
    } else {
      DescendantNotSmaller(s, Parent(j), p);
    }
  }

  /** The case that keeps the heap: the moved element comes from the subtree of the hole's parent. */
  lemma DeleteKeepsOrderWithinSubtree(s: seq<Time>, id: nat)
    requires 0 < id < |s| && HeapOrdered(s) && Descends(|s| - 1, Parent(id))
    ensures HeapOrdered(DeleteAt(s, id))
  {
    DescendantNotSmaller(s, |s| - 1, Parent(id));
    DeleteAtOrder(s, id);
  }

  ghost predicate Least(x: Time, b: multiset<Time>) {
    x in b && forall y :: y in b ==> Leq(x, y)
  }

  /** RemoveMin takes out the first element once; on a heap that is a least one, and a heap is left. */
  lemma RemoveMinCorrect(s: seq<Time>)
    requires s != []
    ensures s[0] in multiset(s) && multiset(RemoveMin(s)) == multiset(s) - multiset{s[0]}
    ensures HeapOrdered(s) ==> Least(s[0], multiset(s)) && HeapOrdered(RemoveMin(s))
  {
    assert s[0] in multiset(s);
    DeleteAtPermutes(s, 0);
    if HeapOrdered(s) {
      DeleteAtOrder(s, 0);
      forall y | y in multiset(s)
        ensures Leq(s[0], y)
      {
        var k :| 0 <= k < |s| && s[k] == y;
        RootIsMinimal(s, k);
      }
    }
  }

  // ---------- Runs ----------

  /** Erase takes one copy of x out; pick is the position that the index happens to give for it. */
  datatype Op = Put(x: Time) | Take | Erase(x: Time, pick: nat) | Reset

  /** Insert with its refusal at the cap. */
  function Offered(s: seq<Time>, x: Time): seq<Time> {
    if |s| >= MAXSIZE then s else Insert(s, x)
  }

  function FirstPlace(s: seq<Time>, x: Time): (k: nat)
    requires x in s
    ensures k < |s| && s[k] == x
  {
    if s[0] == x then 0 else 1 + FirstPlace(s[1..], x)
  }

  /** The position picked if x stands there, else its first one: every choice among the copies of x is possible. */
  function Place(s: seq<Time>, x: Time, pick: nat): (k: nat)
    requires x in s
    ensures k < |s| && s[k] == x
  {
    if pick < |s| && s[pick] == x then pick else FirstPlace(s, x)
  }

  function Erased(s: seq<Time>, x: Time, pick: nat): seq<Time> {
    if x in s then DeleteAt(s, Place(s, x, pick)) else s
  }

  /** The array after a run, and what the Takes returned. A Take of an empty heap ends the run. */
  function Run(s: seq<Time>, ops: seq<Op>): (seq<Time>, seq<Time>)
    decreases |ops|
  {
    if ops == [] then (s, [])
    else
      match ops[0]
      case Put(x) => Run(Offered(s, x), ops[1..])
      case Erase(x, pick) => Run(Erased(s, x, pick), ops[1..])
      case Reset => Run([], ops[1..])
      case Take =>
        if s == [] then (s, []) else
          var (t, outs) := Run(RemoveMin(s), ops[1..]);
          (t, [s[0]] + outs)
  }

  /**
    A queue as a bag: a run is right when each Take removes once what it returns, which is a least element if least
    is asked for, when a Put is refused exactly at the cap, and when an Erase takes out one copy if there is one.
   */
  ghost predicate BagRun(b: multiset<Time>, ops: seq<Op>, outs: seq<Time>, final: multiset<Time>, least: bool)
    decreases |ops|
  {
    if ops == [] then outs == [] && final == b
    else
      match ops[0]
      case Put(x) => BagRun(if |b| >= MAXSIZE then b else b + multiset{x}, ops[1..], outs, final, least)
      case Erase(x, _) => BagRun(b - multiset{x}, ops[1..], outs, final, least)
      case Reset => BagRun(multiset{}, ops[1..], outs, final, least)
      case Take =>
        if b == multiset{} then outs == [] && final == b
        else
          && outs != [] && outs[0] in b
          && (least ==> Least(outs[0], b))
          && BagRun(b - multiset{outs[0]}, ops[1..], outs[1..], final, least)
  }

  /** Whenever the run erases a value, the element that is moved fits under the parent there. */
  predicate AllFit(s: seq<Time>, ops: seq<Op>)
    decreases |ops|
  {
    ops == [] ||
    match ops[0]
    case Put(x) => AllFit(Offered(s, x), ops[1..])
    case Erase(x, pick) => (x in s ==> MoverFits(s, Place(s, x, pick))) && AllFit(Erased(s, x, pick), ops[1..])
    case Reset => AllFit([], ops[1..])
    case Take => s == [] || AllFit(RemoveMin(s), ops[1..])
  }

  lemma OfferedCorrect(s: seq<Time>, x: Time)
    ensures multiset(Offered(s, x)) == if |multiset(s)| >= MAXSIZE then multiset(s) else multiset(s) + multiset{x}
    ensures HeapOrdered(s) ==> HeapOrdered(Offered(s, x))
  {
    InsertCorrect(s, x);
  }

  lemma ErasedCorrect(s: seq<Time>, x: Time, pick: nat)
    ensures multiset(Erased(s, x, pick)) == multiset(s) - multiset{x}
    ensures HeapOrdered(s) && (x in s ==> MoverFits(s, Place(s, x, pick))) ==> HeapOrdered(Erased(s, x, pick))
  {
    if x in s {
      DeleteAtPermutes(s, Place(s, x, pick));
      if HeapOrdered(s) {
        DeleteAtOrder(s, Place(s, x, pick));
      }
    } else {
      assert x !in multiset(s);
    }
  }

  /** Over every run from every array nothing is lost or doubled: each Take removes once what it returns. */
  lemma {:induction false} RunConserves(s: seq<Time>, ops: seq<Op>)
    ensures BagRun(multiset(s), ops, Run(s, ops).1, multiset(Run(s, ops).0), false)
    decreases |ops|
  {
    hide Offered, Erased, RemoveMin;
    if ops == [] {
    } else {
      match ops[0]
      case Put(x) =>
        OfferedCorrect(s, x);
        RunConserves(Offered(s, x), ops[1..]);
      case Erase(x, pick) =>
        ErasedCorrect(s, x, pick);
        RunConserves(Erased(s, x, pick), ops[1..]);
      case Reset =>
        RunConserves([], ops[1..]);
      case Take =>
        if s != [] {
          RemoveMinCorrect(s);
          RunConserves(RemoveMin(s), ops[1..]);
        }
    }
  }

  /** While every erasure fits, the array stays a heap and each Take returns a least element. */
  lemma {:induction false} HeapRefinesBag(s: seq<Time>, ops: seq<Op>)
    requires HeapOrdered(s) && AllFit(s, ops)
    ensures HeapOrdered(Run(s, ops).0)
    ensures BagRun(multiset(s), ops, Run(s, ops).1, multiset(Run(s, ops).0), true)
    decreases |ops|
  {
    hide Offered, Erased, RemoveMin, MoverFits;
    if ops == [] {
    } else {
      match ops[0]
      case Put(x) =>
        OfferedCorrect(s, x);
        HeapRefinesBag(Offered(s, x), ops[1..]);
      case Erase(x, pick) =>
        ErasedCorrect(s, x, pick);
        HeapRefinesBag(Erased(s, x, pick), ops[1..]);
      case Reset =>
        HeapRefinesBag([], ops[1..]);
      case Take =>
        if s != [] {
          RemoveMinCorrect(s);
          HeapRefinesBag(RemoveMin(s), ops[1..]);
        }
    }
  }

  // ---------- A deletion that spoils the heap ----------

  function At(n: nat): Time {
    Time(n, 0)
  }

  /** The heap that inserting 1, 100, 2, 101, 102, 50 and 3 in this order gives. */
  const SPOILABLE: seq<Time> := [At(1), At(100), At(2), At(101), At(102), At(50), At(3)]

  lemma SpoilableIsFilled()
    ensures Filled(SPOILABLE) == SPOILABLE && HeapOrdered(SPOILABLE)
  {
    hide Filled;
    forall j | 0 < j < 7
      ensures Leq(SPOILABLE[Parent(j)], SPOILABLE[j])
    {
      assert j == 1 || j == 2 || j == 3 || j == 4 || j == 5 || j == 6;
    }
    FilledKeeps(SPOILABLE, 7);
    assert SPOILABLE[..7] == SPOILABLE;
  }

  /** Inserting the elements of a heap one by one in array order moves nothing. */
  lemma {:induction false} FilledKeeps(s: seq<Time>, n: nat)
    requires n <= |s| <= MAXSIZE && forall j :: 0 < j < n ==> Leq(s[Parent(j)], s[j])
    ensures Filled(s[..n]) == s[..n]
    decreases n
  {
    if n == 0 {
    } else {
      assert s[..n][..n - 1] == s[..n - 1];
      FilledKeeps(s, n - 1);
      assert s[..n - 1] + [s[n - 1]] == s[..n];
    }
  }

  /** Deleting 101 from it puts 3 under 100. */
  lemma DeleteCanBreakOrder()
    ensures Filled(SPOILABLE) == SPOILABLE && HeapOrdered(SPOILABLE)
    ensures DeleteAt(SPOILABLE, 3) == [At(1), At(100), At(2), At(3), At(102), At(50)]
    ensures !HeapOrdered(DeleteAt(SPOILABLE, 3))
  {
    SpoilableIsFilled();
    DeleteAtOrder(SPOILABLE, 3);
    assert SPOILABLE[..6][3 := SPOILABLE[6]] == [At(1), At(100), At(2), At(3), At(102), At(50)];
  }

  /** From there on removals come out of order: 1, 2 and 50 are returned while 3 is still queued. */
  lemma BrokenHeapDelaysLeast()
    ensures Run(SPOILABLE, [Erase(At(101), 3), Take, Take, Take])
         == ([At(3), At(100), At(102)], [At(1), At(2), At(50)])
  {
    hide SiftDown, RemoveMin, Filled, HeapOrdered;
    DeleteCanBreakOrder();
    var s1 := [At(1), At(100), At(2), At(3), At(102), At(50)];
    var s2 := [At(2), At(100), At(50), At(3), At(102)];
    var s3 := [At(50), At(100), At(102), At(3)];
    var s4 := [At(3), At(100), At(102)];
    SpoiledRemovals();
    assert RemoveMin(s1) == s2 && RemoveMin(s2) == s3 && RemoveMin(s3) == s4;
    var ops := [Erase(At(101), 3), Take, Take, Take];
    assert ops[1..] == [Take, Take, Take] && ops[1..][1..] == [Take, Take] && ops[1..][1..][1..] == [Take];
    RunTake(s1, [Take, Take, Take]);
    RunTake(s2, [Take, Take]);
    RunTake(s3, [Take]);
    assert Run(s4, []) == (s4, []);
    assert At(101) in SPOILABLE && Place(SPOILABLE, At(101), 3) == 3;
    assert Erased(SPOILABLE, At(101), 3) == s1;
    RunErase(SPOILABLE, ops, At(101), 3);
    assert [At(1)] + ([At(2)] + ([At(50)] + [])) == [At(1), At(2), At(50)];
  }

  lemma RunErase(s: seq<Time>, ops: seq<Op>, x: Time, pick: nat)
    requires ops != [] && ops[0] == Erase(x, pick)
    ensures Run(s, ops) == Run(Erased(s, x, pick), ops[1..])
  {
  }

  lemma RunTake(s: seq<Time>, ops: seq<Op>)
    requires s != [] && ops != [] && ops[0] == Take
    ensures Run(s, ops) == (Run(RemoveMin(s), ops[1..]).0, [s[0]] + Run(RemoveMin(s), ops[1..]).1)
  {
  }

  lemma SpoiledRemovals()
    ensures RemoveMin([At(1), At(100), At(2), At(3), At(102), At(50)]) == [At(2), At(100), At(50), At(3), At(102)]
    ensures RemoveMin([At(2), At(100), At(50), At(3), At(102)]) == [At(50), At(100), At(102), At(3)]
    ensures RemoveMin([At(50), At(100), At(102), At(3)]) == [At(3), At(100), At(102)]
  {
    var s1 := [At(1), At(100), At(2), At(3), At(102), At(50)];
    var s2 := [At(2), At(100), At(50), At(3), At(102)];
    var s3 := [At(50), At(100), At(102), At(3)];
    assert s1[..5][0 := s1[5]] == [At(50), At(100), At(2), At(3), At(102)];
    assert Swap([At(50), At(100), At(2), At(3), At(102)], 0, 2) == s2;
    assert s2[..4][0 := s2[4]] == [At(102), At(100), At(50), At(3)];
    assert Swap([At(102), At(100), At(50), At(3)], 0, 2) == s3;
    assert s3[..3][0 := s3[3]] == [At(3), At(100), At(102)];
  }

  // ---------- Heap sort ----------

  ghost predicate Ascending(xs: seq<Time>) {
    forall i, j :: 0 <= i < j < |xs| ==> Leq(xs[i], xs[j])
  }

  function Filled(xs: seq<Time>): seq<Time> {
    if xs == [] then [] else Offered(Filled(xs[..|xs| - 1]), xs[|xs| - 1])
  }

  function Drained(s: seq<Time>): seq<Time>
    decreases |s|
  {
    if s == [] then [] else [s[0]] + Drained(RemoveMin(s))
  }

  /** What the cap lets through. */
  function Admitted(xs: seq<Time>): seq<Time> {
    if |xs| <= MAXSIZE then xs else xs[..MAXSIZE]
  }

  lemma AdmittedNext(xs: seq<Time>)
    requires xs != []
    ensures var n := |xs| - 1;
            var b := multiset(Admitted(xs[..n]));
            multiset(Admitted(xs)) == if |b| >= MAXSIZE then b else b + multiset{xs[n]}
  {
    var n := |xs| - 1;
    assert |multiset(Admitted(xs[..n]))| == |Admitted(xs[..n])|;
    if n >= MAXSIZE {
      assert Admitted(xs[..n]) == Admitted(xs);
    } else {
      assert xs == xs[..n] + [xs[n]];
    }
  }

  lemma {:induction false} FilledIsHeap(xs: seq<Time>)
    ensures HeapOrdered(Filled(xs)) && multiset(Filled(xs)) == multiset(Admitted(xs))
  {
    if xs == [] {
      assert Admitted([]) == [];
    } else {
      hide Offered, Admitted;
      var n := |xs| - 1;
      FilledIsHeap(xs[..n]);
      OfferedCorrect(Filled(xs[..n]), xs[n]);
      AdmittedNext(xs);
    }
  }

  lemma {:induction false} DrainedSorts(s: seq<Time>)
    requires HeapOrdered(s)
    ensures Ascending(Drained(s)) && multiset(Drained(s)) == multiset(s)
    decreases |s|
  {
    if s == [] {
    } else {
      RemoveMinCorrect(s);
      DrainedSorts(RemoveMin(s));
      PrependLeast(s[0], Drained(RemoveMin(s)), multiset(s));
    }
  }

  lemma PrependLeast(x: Time, rest: seq<Time>, all: multiset<Time>)
    requires Ascending(rest) && multiset(rest) <= all
    requires Least(x, all)
    ensures Ascending([x] + rest)
  {
    forall j | 0 <= j < |rest|
      ensures Leq(x, rest[j])
    {
      assert rest[j] in multiset(rest);
    }
  }

  /** n inserts and then n removals return the values that the cap let through, in ascending order. */
  lemma FillThenDrainSorts(xs: seq<Time>)
    ensures Ascending(Drained(Filled(xs))) && multiset(Drained(Filled(xs))) == multiset(Admitted(xs))
  {
    FilledIsHeap(xs);
    DrainedSorts(Filled(xs));
  }
}
