/** The bookkeeping both LRU caches share: a recency list beside a map. */
module Recency {

  ghost predicate NoDuplicates(order: seq<nat>) {
    forall i, j | 0 <= i < j < |order| :: order[i] != order[j]
  }

  /** The order lists the keys of the map, once each. */
  ghost predicate Lists<V>(order: seq<nat>, m: map<nat, V>) {
    NoDuplicates(order) && forall k :: k in order <==> k in m
  }

  lemma DropLast<V>(order: seq<nat>, m: map<nat, V>)
    requires Lists(order, m) && order != []
    ensures var rest, victim := order[..|order| - 1], order[|order| - 1];
      victim in m && victim !in rest && Lists(rest, m - {victim})
  {
    var rest, victim := order[..|order| - 1], order[|order| - 1];
    assert order == rest + [victim];
  }

  lemma Push<V>(order: seq<nat>, m: map<nat, V>, k: nat, v: V)
    requires Lists(order, m) && k !in m
    ensures k !in order && Lists([k] + order, m[k := v])
  {
  }

  /** The list with entry p moved to the front. */
  function Promoted(order: seq<nat>, p: nat): seq<nat>
    requires p < |order|
  {
    [order[p]] + order[..p] + order[p + 1..]
  }

  lemma Promote<V>(order: seq<nat>, m: map<nat, V>, p: nat)
    requires Lists(order, m) && p < |order|
    ensures Lists(Promoted(order, p), m)
  {
    assert order == order[..p] + [order[p]] + order[p + 1..];
  }

  /** The position of a listed key. */
  function Position(order: seq<nat>, k: nat): (p: nat)
    requires k in order
    ensures p < |order| && order[p] == k
  {
    if order[0] == k then 0 else 1 + Position(order[1..], k)
  }
}
