/** Sorting by any total order: nothing is promised but a sorted rearrangement. */
module Sorting {

  ghost predicate TotalOrder<T(!new)>(atMost: (T, T) -> bool) {
    && (forall a, b :: atMost(a, b) || atMost(b, a))
    && (forall a, b, c :: atMost(a, b) && atMost(b, c) ==> atMost(a, c))
  }

  ghost predicate SortedBy<T(!new)>(atMost: (T, T) -> bool, items: seq<T>) {
    forall i, j :: 0 <= i < j < |items| ==> atMost(items[i], items[j])
  }

  method Sort<T(!new)>(items: seq<T>, atMost: (T, T) -> bool) returns (sorted: seq<T>)
    requires TotalOrder(atMost)
    ensures SortedBy(atMost, sorted) && multiset(sorted) == multiset(items)
  {
    sorted := [];
    for n := 0 to |items|
      invariant SortedBy(atMost, sorted) && multiset(sorted) == multiset(items[..n])
    {
      sorted := Insert(sorted, items[n], atMost);
      assert items[..n + 1] == items[..n] + [items[n]];
    }
    assert items[..|items|] == items;
  }

  method Insert<T(!new)>(sorted: seq<T>, item: T, atMost: (T, T) -> bool) returns (r: seq<T>)
    requires TotalOrder(atMost) && SortedBy(atMost, sorted)
    ensures SortedBy(atMost, r) && multiset(r) == multiset(sorted) + multiset{item}
  {
    var k := 0;
    while k < |sorted| && !atMost(item, sorted[k])
      invariant k <= |sorted| && forall i :: 0 <= i < k ==> !atMost(item, sorted[i])
    {
      k := k + 1;
    }
    r := sorted[..k] + [item] + sorted[k..];
    assert sorted == sorted[..k] + sorted[k..];
    forall i, j | 0 <= i < j < |r| ensures atMost(r[i], r[j]) {
      Inserted(sorted, item, atMost, k, i, j);
    }
  }

  lemma Inserted<T(!new)>(sorted: seq<T>, item: T, atMost: (T, T) -> bool, k: nat, i: nat, j: nat)
    requires TotalOrder(atMost) && SortedBy(atMost, sorted) && k <= |sorted| && i < j <= |sorted|
    requires forall i :: 0 <= i < k ==> !atMost(item, sorted[i])
    requires k < |sorted| ==> atMost(item, sorted[k])
    ensures var r := sorted[..k] + [item] + sorted[k..]; atMost(r[i], r[j])
  {
    if j == k {
      assert atMost(item, sorted[i]) || atMost(sorted[i], item);
    } else if i == k && j - 1 > k {
      assert atMost(item, sorted[k]) && atMost(sorted[k], sorted[j - 1]);
    }
  }
}
