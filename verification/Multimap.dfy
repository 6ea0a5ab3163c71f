/**
  std::multimap with a Time key: the entries in iteration order, which is ascending in the key.
  Equal keys keep their insertion order.
 */
module Multimap {
  import opened TimeOrder

  type Entries<V> = seq<(Time, V)>

  ghost predicate Sorted<V>(es: Entries<V>) {
    forall i, j :: 0 <= i < j < |es| ==> Leq(es[i].0, es[j].0)
  }

  /** First position whose key is not smaller than x. */
  function LowerBound<V>(es: Entries<V>, x: Time): (r: nat)
    ensures r <= |es|
    ensures Sorted(es) ==> forall k :: 0 <= k < |es| ==> (k < r <==> Less(es[k].0, x))
  {
    if es == [] || Leq(x, es[0].0) then 0 else 1 + LowerBound(es[1..], x)
  }

  /** First position whose key is greater than x. */
  function UpperBound<V>(es: Entries<V>, x: Time): (r: nat)
    ensures r <= |es|
    ensures Sorted(es) ==> forall k :: 0 <= k < |es| ==> (k < r <==> Leq(es[k].0, x))
  {
    if es == [] || Less(x, es[0].0) then 0 else 1 + UpperBound(es[1..], x)
  }

  function Insert<V>(es: Entries<V>, x: Time, v: V): Entries<V> {
    var k := UpperBound(es, x);
    es[..k] + [(x, v)] + es[k..]
  }

  function Erase<V>(es: Entries<V>, k: nat): Entries<V>
    requires k < |es|
  {
    es[..k] + es[k + 1..]
  }

  lemma SortedConcat<V>(a: Entries<V>, b: Entries<V>)
    requires Sorted(a) && Sorted(b)
    requires forall i, j :: 0 <= i < |a| && 0 <= j < |b| ==> Leq(a[i].0, b[j].0)
    ensures Sorted(a + b)
  {
  }

  lemma InsertProperties<V>(es: Entries<V>, x: Time, v: V)
    requires Sorted(es)
    ensures Sorted(Insert(es, x, v))
    ensures multiset(Insert(es, x, v)) == multiset(es) + multiset{(x, v)}
  {
    var k := UpperBound(es, x);
    SortedConcat(es[..k], [(x, v)]);
    SortedConcat(es[..k] + [(x, v)], es[k..]);
    assert es == es[..k] + es[k..];
  }

  lemma EraseProperties<V>(es: Entries<V>, k: nat)
    requires Sorted(es) && k < |es|
    ensures Sorted(Erase(es, k))
    ensures multiset(Erase(es, k)) == multiset(es) - multiset{es[k]}
  {
    assert es == es[..k] + [es[k]] + es[k + 1..];
  }

  /** find: some entry under x, or the end. The standard leaves open which one of several. */
  method Find<V>(es: Entries<V>, x: Time) returns (it: nat)
    requires Sorted(es)
    ensures it <= |es|
    ensures it < |es| ==> es[it].0 == x
    ensures it == |es| ==> forall k :: 0 <= k < |es| ==> es[k].0 != x
  {
    var beg, back := LowerBound(es, x), UpperBound(es, x);
    if beg >= back {
      return |es|;
    }
    assert beg <= beg < back;
    it :| beg <= it < back;
    assert es[it].0 == x;
  }
}
