/**
  Ring queues over a fixed number of slots with a valid flag in each slot, as
  used by both halves of the store buffer and by the scoreboard.
*/
module Rings {

  datatype Slot<T> = Slot(item: T, valid: bool)

  // Distance of slot i from the read pointer, walking upwards with wrap-around.
  function Offset(i: nat, read: nat, n: nat): nat
    requires i < n && read < n
  {
    if i >= read then i - read else i + n - read
  }

  // The pointer k slots further on.
  function Advance(p: nat, k: nat, n: nat): (r: nat)
    requires p < n && k <= n
    ensures r < n
  {
    if p + k < n then p + k else p + k - n
  }

  // The slots from read onwards hold exactly items, and no other slot is valid.
  ghost predicate Ring<T>(q: seq<Slot<T>>, read: nat, items: seq<T>) {
    && read < |q| && |items| <= |q|
    && (forall i :: 0 <= i < |q| ==> q[i].valid == (Offset(i, read, |q|) < |items|))
    && (forall i :: 0 <= i < |q| && Offset(i, read, |q|) < |items| ==> q[i].item == items[Offset(i, read, |q|)])
  }

  // A place in the queue and a slot determine each other, so two items never
  // share a slot.
  lemma SlotsAreDistinct(read: nat, n: nat, j: nat, k: nat)
    requires read < n && j < n && k < n
    ensures Offset(Advance(read, j, n), read, n) == j
    ensures Advance(read, j, n) == Advance(read, k, n) <==> j == k
  {
  }

  lemma Concatenation<T>(a: seq<T>, b: seq<T>, c: seq<T>)
    ensures a + (b + c) == (a + b) + c
  {
  }

  // What one step conserves, and the steps behind it, is conserved by them all.
  lemma Regroup<T>(q: seq<T>, a: seq<T>, a': seq<T>, d: seq<T>, n: seq<T>, d': seq<T>, r: seq<T>)
    requires q + a == d + n && n + a' == d' + r
    ensures q + (a + a') == (d + d') + r
  {
    assert q + (a + a') == (q + a) + a';
    assert (d + n) + a' == d + (n + a');
    assert d + (d' + r) == (d + d') + r;
  }

  lemma RingHead<T>(q: seq<Slot<T>>, read: nat, items: seq<T>)
    requires Ring(q, read, items)
    ensures q[read].valid <==> items != []
    ensures items != [] ==> q[read] == Slot(items[0], true)
  {
    assert Offset(read, read, |q|) == 0;
  }

  lemma RingPush<T>(q: seq<Slot<T>>, read: nat, items: seq<T>, x: T)
    requires Ring(q, read, items) && |items| < |q|
    ensures Ring(q[Advance(read, |items|, |q|) := Slot(x, true)], read, items + [x])
  {
  }

  // Freeing the head's slot, whatever is left in it.
  lemma RingPop<T>(q: seq<Slot<T>>, read: nat, items: seq<T>, x: T)
    requires Ring(q, read, items) && items != []
    ensures Ring(q[read := Slot(x, false)], Advance(read, 1, |q|), items[1..])
  {
    var n := |q|;
    forall i | 0 <= i < n
      ensures Offset(i, Advance(read, 1, n), n) == if i == read then n - 1 else Offset(i, read, n) - 1
    {
    }
  }

  // Changing an item where it stands.
  lemma RingUpdate<T>(q: seq<Slot<T>>, read: nat, items: seq<T>, i: nat, x: T)
    requires Ring(q, read, items) && i < |q| && q[i].valid
    ensures Ring(q[i := Slot(x, true)], read, items[Offset(i, read, |q|) := x])
  {
  }

  // Every item is in a valid slot.
  lemma RingPlaces<T>(q: seq<Slot<T>>, read: nat, items: seq<T>, k: nat)
    requires Ring(q, read, items) && k < |items|
    ensures q[Advance(read, k, |q|)] == Slot(items[k], true)
  {
    assert Offset(Advance(read, k, |q|), read, |q|) == k;
  }
}
