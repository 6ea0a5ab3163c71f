/**
  The timer queue: the heap holds end times, a multimap leads from an end time to the handlers
  that wait for it. The two are kept apart and have to agree.
 */
module MinHeapQueueModel {
  import opened TimeOrder
  import opened Multimap
  import opened MinHeapModel
  import HeapSpec

  class EventHandler {
    var endtime: Time

    constructor (t: Time)
      ensures endtime == t
    {
      endtime := t;
    }
  }

  function KeySeq<V>(es: Entries<V>): (r: seq<Time>)
    ensures |r| == |es| && forall k :: 0 <= k < |es| ==> r[k] == es[k].0
  {
    seq(|es|, k requires 0 <= k < |es| => es[k].0)
  }

  /** The keys of a multimap, with multiplicity. */
  function Keys<V>(es: Entries<V>): multiset<Time> {
    multiset(KeySeq(es))
  }

  lemma KeysConcat<V>(a: Entries<V>, b: Entries<V>)
    ensures Keys(a + b) == Keys(a) + Keys(b)
  {
    assert KeySeq(a + b) == KeySeq(a) + KeySeq(b);
  }

  lemma KeysInsertAt<V>(es: Entries<V>, k: nat, e: (Time, V))
    requires k <= |es|
    ensures Keys(es[..k] + [e] + es[k..]) == Keys(es) + multiset{e.0}
  {
    KeysConcat(es[..k], es[k..]);
    KeysConcat(es[..k] + [e], es[k..]);
    KeysConcat(es[..k], [e]);
    assert KeySeq([e]) == [e.0];
    assert es == es[..k] + es[k..];
  }

  lemma KeysInsert<V>(es: Entries<V>, x: Time, v: V)
    ensures Keys(Insert(es, x, v)) == Keys(es) + multiset{x}
  {
    KeysInsertAt(es, UpperBound(es, x), (x, v));
  }

  lemma KeysErase<V>(es: Entries<V>, k: nat)
    requires k < |es|
    ensures Keys(Erase(es, k)) == Keys(es) - multiset{es[k].0}
  {
    var rest := Erase(es, k);
    KeysInsertAt(rest, k, es[k]);
    assert rest[..k] + [es[k]] + rest[k..] == es;
  }

  lemma KeyPresent<V>(es: Entries<V>, x: Time)
    ensures x in Keys(es) <==> exists k :: 0 <= k < |es| && es[k].0 == x
  {
    if x in Keys(es) {
      assert x in KeySeq(es);
    }
    forall k | 0 <= k < |es| && es[k].0 == x
      ensures x in Keys(es)
    {
      assert KeySeq(es)[k] == x;
    }
  }

  /** Whether keys and bag still agree after t is taken from the bag once, and from the keys if found. */
  ghost predicate AgreeAfter(keys': multiset<Time>, bag': multiset<Time>, bag: multiset<Time>, t: Time, found: bool) {
    keys' == bag' <==> found || t !in bag
  }

  lemma AgreeAfterDel(keys: multiset<Time>, keys': multiset<Time>, bag: multiset<Time>, t: Time, found: bool)
    requires found ==> t in keys
    requires keys' == if found then keys - multiset{t} else keys
    ensures keys == bag ==> AgreeAfter(keys', bag - multiset{t}, bag, t, found)
  {
    assert !found && t in keys ==> keys'[t] != (keys - multiset{t})[t];
  }

  // ---------- Handlers under their own end times ----------

  /** Every queued handler stands under its end time. */
  ghost predicate KeyedByEndtime(es: Entries<EventHandler>)
    reads (set e | e in es :: e.1)`endtime
  {
    forall e :: e in es ==> e.1.endtime == e.0
  }

  /** All end times have their microseconds below a million. */
  ghost predicate Timevals(es: Entries<EventHandler>)
    reads (set e | e in es :: e.1)`endtime
  {
    forall e :: e in es ==> IsTimeval(e.1.endtime)
  }

  lemma MembersOf<V>(es: Entries<V>, es': Entries<V>, e: (Time, V))
    requires multiset(es') <= multiset(es) + multiset{e}
    ensures forall x :: x in es' ==> x in es || x == e
  {
    forall x | x in es'
      ensures x in es || x == e
    {
      assert x in multiset(es');
      assert x in multiset(es) + multiset{e};
    }
  }

  lemma FewerMembers<V>(es: Entries<V>, es': Entries<V>)
    requires multiset(es') <= multiset(es)
    ensures forall x :: x in es' ==> x in es
  {
    forall x | x in es'
      ensures x in es
    {
      assert x in multiset(es');
    }
  }

  /** A key that is least in an agreeing heap is least among the end times of all queued handlers. */
  lemma LeastEndtime(es: Entries<EventHandler>, bag: multiset<Time>, time: Time, handler: EventHandler)
    requires KeyedByEndtime(es) && Keys(es) == bag && HeapSpec.Least(time, bag) && (time, handler) in es
    ensures handler.endtime == time
    ensures forall e :: e in es ==> Leq(handler.endtime, e.1.endtime)
    ensures Timevals(es) ==> forall e :: e in es ==> Micros(handler.endtime) <= Micros(e.1.endtime)
  {
    forall e | e in es
      ensures Leq(handler.endtime, e.1.endtime)
      ensures Timevals(es) ==> Micros(handler.endtime) <= Micros(e.1.endtime)
    {
      KeyPresent(es, e.0);
      assert Timevals(es) ==> IsTimeval(handler.endtime) && IsTimeval(e.1.endtime);
      if Timevals(es) {
        LeqIsEarlier(handler.endtime, e.1.endtime);
      }
    }
  }

  /** What taking a time from the heap and a handler under it from the map keeps. */
  lemma PopKeeps(es: Entries<EventHandler>, es': Entries<EventHandler>, bag: multiset<Time>, time: Time,
                 handler: EventHandler?)
    requires time in bag && Keys(es') == Keys(es) - multiset{time}
    requires handler == null <==> time !in Keys(es)
    requires handler == null ==> es' == es
    requires handler != null ==> (time, handler) in es && multiset(es') == multiset(es) - multiset{(time, handler)}
    ensures bag <= Keys(es) ==> handler != null && bag - multiset{time} <= Keys(es')
    ensures Keys(es) == bag ==> handler != null && Keys(es') == bag - multiset{time}
    ensures KeyedByEndtime(es) ==> KeyedByEndtime(es')
    ensures Keys(es) == bag && HeapSpec.Least(time, bag) && KeyedByEndtime(es) ==>
              handler != null && forall e :: e in es ==> Leq(handler.endtime, e.1.endtime)
    ensures Keys(es) == bag && HeapSpec.Least(time, bag) && KeyedByEndtime(es) && Timevals(es) ==>
              forall e :: e in es ==> Micros(handler.endtime) <= Micros(e.1.endtime)
  {
    FewerMembers(es, es');
    if Keys(es) == bag && HeapSpec.Least(time, bag) && KeyedByEndtime(es) {
      LeastEndtime(es, bag, time, handler);
    }
  }

  lemma DelKeeps(es: Entries<EventHandler>, es': Entries<EventHandler>, bag: multiset<Time>, t: Time, found: bool,
                 handler: EventHandler)
    requires Keys(es') == if found then Keys(es) - multiset{t} else Keys(es)
    requires found ==> t in Keys(es)
    requires multiset(es') == multiset(es) - multiset{(t, handler)}
    ensures Keys(es) == bag ==> (Keys(es') == bag - multiset{t} <==> found || t !in Keys(es))
    ensures bag <= Keys(es) ==> bag - multiset{t} <= Keys(es')
  {
    AgreeAfterDel(Keys(es), Keys(es'), bag, t, found);
  }

  // ---------- The two states where the agreement breaks ----------

  /** A push on a full heap leaves a handler in the map whose time the heap does not have. */
  lemma FullHeapStrandsHandler(es: Entries<EventHandler>, bag: multiset<Time>, handler: EventHandler)
    requires Sorted(es) && Keys(es) == bag && |bag| == MAXSIZE
    ensures bag < Keys(Insert(es, handler.endtime, handler))
    ensures (handler.endtime, handler) in Insert(es, handler.endtime, handler)
  {
    var x := handler.endtime;
    KeysInsert(es, x, handler);
    InsertProperties(es, x, handler);
    assert bag[x] < (bag + multiset{x})[x];
    assert (x, handler) in multiset(Insert(es, x, handler));
  }

  /**
    Deleting a handler whose end time changed while it was queued takes a time from the heap and nothing from the
    map: the heap loses the time of some other handler, which then stays behind.
   */
  lemma ChangedEndtimeStrandsHandler(es: Entries<EventHandler>, bag: multiset<Time>, queued: Time, handler: EventHandler)
    requires Sorted(es) && Keys(es) == bag && (queued, handler) in es
    requires handler.endtime != queued && (handler.endtime, handler) !in es && handler.endtime in bag
    ensures bag - multiset{handler.endtime} < Keys(es)
    ensures exists e :: e in es && e.0 == handler.endtime && e.1 != handler
  {
    var x := handler.endtime;
    KeyPresent(es, x);
    var k :| 0 <= k < |es| && es[k].0 == x;
    assert es[k] in es;
    assert (bag - multiset{x})[x] < bag[x];
  }

  class MinHeapQueue {
    const minheap: MinHeap
    var handlers: Entries<EventHandler>

    ghost predicate Valid()
      reads this, minheap, minheap.heap
    {
      minheap.Valid() && Sorted(handlers)
    }

    /** Heap and handler map list the same end times, each as often. */
    ghost predicate Agree()
      reads this, minheap, minheap.heap
      requires Valid()
    {
      Keys(handlers) == multiset(minheap.Contents())
    }

    /** Every time in the heap has a handler: what even the operations that break the agreement keep. */
    ghost predicate Covered()
      reads this, minheap, minheap.heap
      requires Valid()
    {
      multiset(minheap.Contents()) <= Keys(handlers)
    }

    ghost predicate Ordered()
      reads this, minheap, minheap.heap
      requires Valid()
    {
      HeapSpec.HeapOrdered(minheap.Contents())
    }

    constructor ()
      ensures Valid() && Agree() && Ordered() && fresh(minheap) && fresh(minheap.heap)
      ensures handlers == [] && Covered() && KeyedByEndtime(handlers)
    {
      minheap := new MinHeap();
      handlers := [];
    }

    /** The handler is entered into the map before the heap is asked, so a full heap breaks the agreement. */
    method Push(handler: EventHandler) returns (ok: bool)
      requires Valid()
      modifies this, minheap, minheap.heap
      ensures Valid() && (minheap.heap == old(minheap.heap) || fresh(minheap.heap))
      ensures ok <==> !old(minheap.IsFull())
      ensures handlers == Insert(old(handlers), handler.endtime, handler)
      ensures multiset(handlers) == old(multiset(handlers)) + multiset{(handler.endtime, handler)}
      ensures old(Agree()) ==> (Agree() <==> ok)
      ensures old(Covered()) ==> Covered()
      ensures old(Ordered()) ==> Ordered()
      ensures old(KeyedByEndtime(handlers)) ==> KeyedByEndtime(handlers)
    {
      var time := handler.endtime;
      InsertProperties(handlers, time, handler);
      MembersOf(handlers, Insert(handlers, time, handler), (time, handler));
      KeysInsert(handlers, time, handler);
      HeapSpec.InsertCorrect(minheap.Contents(), time);
      handlers := Insert(handlers, time, handler);
      ok := minheap.Insert(time);
    }

    /** erase: one entry leaves the map, and the heap is not touched. */
    method EraseEntry(it: nat)
      requires Valid() && it < |handlers|
      modifies this`handlers
      ensures Valid() && minheap.Contents() == old(minheap.Contents())
      ensures multiset(handlers) == old(multiset(handlers)) - multiset{old(handlers)[it]}
      ensures Keys(handlers) == old(Keys(handlers)) - multiset{old(handlers)[it].0}
      ensures old(handlers)[it].0 in old(Keys(handlers))
      ensures old(KeyedByEndtime(handlers)) ==> KeyedByEndtime(handlers)
    {
      hide Keys;
      KeyPresent(handlers, handlers[it].0);
      EraseProperties(handlers, it);
      KeysErase(handlers, it);
      FewerMembers(handlers, Erase(handlers, it));
      handlers := Erase(handlers, it);
    }

    /** Find a handler under time and erase its entry; null if there is none. */
    method TakeHandler(time: Time) returns (handler: EventHandler?)
      requires Valid()
      modifies this`handlers
      ensures Valid() && minheap.Contents() == old(minheap.Contents())
      ensures handler == null <==> time !in old(Keys(handlers))
      ensures handler == null ==> handlers == old(handlers)
      ensures handler != null ==> (time, handler) in old(handlers) &&
                                  multiset(handlers) == old(multiset(handlers)) - multiset{(time, handler)}
      ensures Keys(handlers) == old(Keys(handlers)) - multiset{time}
    {
      KeyPresent(handlers, time);
      var it := Find(handlers, time);
      if it != |handlers| {
        handler := handlers[it].1;
        EraseEntry(it);
        return;
      }
      return null;
    }

    /**
      Pop on a non-empty queue. While every time in the heap has a handler it never returns null, and that stays so.
      With full agreement, an ordered heap and handlers under their own end times, the handler it returns has a least
      end time of all that were queued.
     */
    method Pop() returns (handler: EventHandler?)
      requires Valid() && !minheap.IsEmpty()
      modifies this, minheap, minheap.heap
      ensures Valid() && (minheap.heap == old(minheap.heap) || fresh(minheap.heap))
      ensures old(Covered()) ==> handler != null && Covered()
      ensures old(Agree()) ==> handler != null && Agree()
      ensures var time := old(minheap.Contents()[0]);
              && (handler == null <==> time !in old(Keys(handlers)))
              && (handler == null ==> handlers == old(handlers))
              && (handler != null ==> (time, handler) in old(handlers) &&
                                      multiset(handlers) == old(multiset(handlers)) - multiset{(time, handler)})
      ensures old(Ordered()) ==> Ordered()
      ensures old(KeyedByEndtime(handlers)) ==> KeyedByEndtime(handlers)
      ensures old(Agree() && Ordered() && KeyedByEndtime(handlers)) ==>
                handler != null && forall e :: e in old(handlers) ==> Leq(handler.endtime, e.1.endtime)
      ensures old(Agree() && Ordered() && KeyedByEndtime(handlers) && Timevals(handlers)) ==>
                forall e :: e in old(handlers) ==> Micros(handler.endtime) <= Micros(e.1.endtime)
    {
      hide Keys, Sorted, HeapSpec.RemoveMin, HeapSpec.HeapOrdered, HeapSpec.Least;
      ghost var before, bag := handlers, multiset(minheap.Contents());
      HeapSpec.RemoveMinCorrect(minheap.Contents());
      var time := minheap.RemoveMin();
      handler := TakeHandler(time);
      assert forall e :: e in before ==> e.1.endtime == old(e.1.endtime);
      assert old(KeyedByEndtime(handlers)) <==> KeyedByEndtime(before);
      assert old(Timevals(handlers)) <==> Timevals(before);
      PopKeeps(before, handlers, bag, time, handler);
    }

    method Front() returns (handler: EventHandler?)
      requires Valid() && !minheap.IsEmpty()
      ensures Covered() || Agree() ==> handler != null
      ensures Agree() && Ordered() && KeyedByEndtime(handlers) ==>
                handler != null && forall e :: e in handlers ==> Leq(handler.endtime, e.1.endtime)
      ensures Agree() && Ordered() && KeyedByEndtime(handlers) && Timevals(handlers) ==>
                forall e :: e in handlers ==> Micros(handler.endtime) <= Micros(e.1.endtime)
      ensures handler != null ==> (minheap.Contents()[0], handler) in handlers
    {
      var time := minheap.GetMin();
      assert time in multiset(minheap.Contents());
      HeapSpec.RemoveMinCorrect(minheap.Contents());
      KeyPresent(handlers, time);
      var it := Find(handlers, time);
      if it != |handlers| {
        assert handlers[it] in handlers;
        if Agree() && Ordered() && KeyedByEndtime(handlers) {
          LeastEndtime(handlers, multiset(minheap.Contents()), time, handlers[it].1);
        }
        return handlers[it].1;
      }
      return null;
    }

    /** The walk over the handlers queued under time, up to the given one. */
    method EraseHandler(time: Time, handler: EventHandler) returns (found: bool)
      requires Valid()
      modifies this`handlers
      ensures Valid() && minheap.Contents() == old(minheap.Contents())
      ensures old(KeyedByEndtime(handlers)) ==> KeyedByEndtime(handlers)
      ensures found <==> (time, handler) in old(handlers)
      ensures multiset(handlers) == old(multiset(handlers)) - multiset{(time, handler)}
      ensures found ==> time in old(Keys(handlers))
      ensures Keys(handlers) == if found then old(Keys(handlers)) - multiset{time} else old(Keys(handlers))
    {
      var beg, back := LowerBound(handlers, time), UpperBound(handlers, time);
      while beg < back
        invariant LowerBound(handlers, time) <= beg
        invariant forall k :: 0 <= k < beg && k < |handlers| ==> handlers[k] != (time, handler)
      {
        if handlers[beg].1 == handler {
          assert handlers[beg] == (time, handler);
          EraseEntry(beg);
          return true;
        } else {
          beg := beg + 1;
        }
      }
      return false;
    }

    /** One copy of the time leaves the heap, from the position id that the heap's index gives for it. */
    method DelFromHeap(time: Time) returns (ghost id: nat)
      requires minheap.Valid()
      modifies minheap, minheap.heap
      ensures minheap.Valid() && (minheap.heap == old(minheap.heap) || fresh(minheap.heap))
      ensures multiset(minheap.Contents()) == old(multiset(minheap.Contents())) - multiset{time}
      ensures HeapSpec.DeletedFrom(old(minheap.Contents()), minheap.Contents(), time, id)
      ensures HeapSpec.OrderKept(old(minheap.Contents()), minheap.Contents(), time, id)
    {
      hide HeapSpec.DeleteAt, HeapSpec.OrderKept;
      ghost var s := minheap.Contents();
      var gone;
      gone, id := minheap.Del(time);
      if gone {
        HeapSpec.DeleteAtPermutes(s, id);
      } else {
        assert time !in multiset(s);
      }
      HeapSpec.DeletedOrder(s, minheap.Contents(), time, id);
    }

    /**
      Deletes one copy of the handler's time from the heap and the handler's own entry from the map.
      The two still agree exactly when the handler was queued under its current end time, or nothing was. The heap
      stays ordered exactly when the time was not in it or its last element fits into the position id, which the
      heap's index gave for the time.
     */
    method Del(handler: EventHandler) returns (found: bool, ghost id: nat)
      requires Valid()
      modifies this, minheap, minheap.heap
      ensures Valid() && (minheap.heap == old(minheap.heap) || fresh(minheap.heap))
      ensures found <==> (handler.endtime, handler) in old(handlers)
      ensures multiset(handlers) == old(multiset(handlers)) - multiset{(handler.endtime, handler)}
      ensures multiset(minheap.Contents()) == old(multiset(minheap.Contents())) - multiset{handler.endtime}
      ensures HeapSpec.DeletedFrom(old(minheap.Contents()), minheap.Contents(), handler.endtime, id)
      ensures HeapSpec.OrderKept(old(minheap.Contents()), minheap.Contents(), handler.endtime, id)
      ensures old(Agree()) ==> (Agree() <==> found || handler.endtime !in old(Keys(handlers)))
      ensures old(Covered()) ==> Covered()
      ensures old(KeyedByEndtime(handlers)) ==> KeyedByEndtime(handlers)
    {
      var time := handler.endtime;
      hide Keys, Sorted, HeapSpec.DeletedFrom, HeapSpec.OrderKept;
      ghost var before, bag := handlers, multiset(minheap.Contents());
      id := DelFromHeap(time);
      assert forall e :: e in before ==> e.1.endtime == old(e.1.endtime);
      assert old(KeyedByEndtime(handlers)) <==> KeyedByEndtime(before);
      found := EraseHandler(time, handler);
      DelKeeps(before, handlers, bag, time, found, handler);
    }

    /** The heap is asked; the map is empty with it while they agree. */
    method IsEmpty() returns (empty: bool)
      requires Valid()
      ensures empty <==> minheap.Contents() == []
      ensures Covered() && handlers == [] ==> empty
      ensures Agree() ==> (empty <==> handlers == [])
    {
      empty := minheap.IsEmpty();
      assert empty <==> |multiset(minheap.Contents())| == 0;
      assert handlers != [] ==> handlers[0].0 in Keys(handlers) by {
        if handlers != [] {
          KeyPresent(handlers, handlers[0].0);
        }
      }
    }

    method Clear()
      requires Valid()
      modifies this, minheap
      ensures Valid() && Agree() && Covered() && Ordered() && handlers == []
    {
      minheap.Clear();
      handlers := [];
    }
  }
}
