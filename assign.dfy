/** Delivery assignment: the nearest unpaid order within a distance ceiling. */
module Assignment {
  import opened Orders

  /** The assignment callback: unpaid and no farther than the ceiling. */
  predicate Assignable(ceiling: real, o: Order)
  {
    !o.isPaid && o.deliveryDistance <= ceiling
  }

  /** The orders open for assignment, in store order. The assignment callback is the
      table's row callback with the 'unpaid' status selected. */
  function Available(s: seq<Order>, ceiling: real): (r: seq<Order>)
    ensures forall o :: o in r <==> o in s && Assignable(ceiling, o)
  {
    Filter(s, Unpaid, ceiling)
  }

  /** One step of the reduce: the current order wins only when strictly nearer. */
  function Nearer(nearest: Order, current: Order): Order
  {
    if current.deliveryDistance < nearest.deliveryDistance then current else nearest
  }

  /** The reduce without an initial value over [first] + rest, left to right. */
  function NearestFrom(first: Order, rest: seq<Order>): (r: Order)
    ensures r == first || r in rest
    ensures r.deliveryDistance <= first.deliveryDistance
    ensures forall o :: o in rest ==> r.deliveryDistance <= o.deliveryDistance
    decreases |rest|
  {
    if rest == [] then first else NearestFrom(Nearer(first, rest[0]), rest[1..])
  }

  /** The order the assign button reports, or None for "No order available". */
  function SelectNearest(s: seq<Order>, ceiling: real): (r: Option<Order>)
    ensures r.None? <==> forall o :: o in s ==> !Assignable(ceiling, o)
    ensures r.Some? ==> r.value in s && Assignable(ceiling, r.value)
    ensures r.Some? ==> forall o :: o in s && Assignable(ceiling, o) ==>
                          r.value.deliveryDistance <= o.deliveryDistance
  {
    var available := Available(s, ceiling);
    if |available| == 0 then None
    else
      assert available[0] in available;
      assert forall o :: o in available ==> o == available[0] || o in available[1..];
      Some(NearestFrom(available[0], available[1..]))
  }

  /** Ties go to the earliest: every entry of [first] + rest that is as near as the result
      comes no earlier than the result does. */
  lemma {:induction false} NearestFromFirstWins(first: Order, rest: seq<Order>, i: nat)
    requires i <= |rest|
    requires ([first] + rest)[i].deliveryDistance == NearestFrom(first, rest).deliveryDistance
    ensures NearestFrom(first, rest) in ([first] + rest)[..i + 1]
    decreases |rest|
  {
    if rest != [] {
      var next := Nearer(first, rest[0]);
      assert NearestFrom(first, rest) == NearestFrom(next, rest[1..]);
      if i <= 1 {
        NearestFromFirstWins(next, rest[1..], 0);
        assert ([first] + rest)[..i + 1] == [first] + rest[..i];
      } else {
        assert ([next] + rest[1..])[i - 1] == ([first] + rest)[i];
        NearestFromFirstWins(next, rest[1..], i - 1);
        assert ([next] + rest[1..])[..i] == [next] + rest[1..i];
        assert ([first] + rest)[..i + 1] == [first] + rest[..i];
      }
    }
  }

  /** Ties go to the earliest in store order: any assignable order at position i that is
      exactly as near as the selected one has the selected order at or before i. */
  lemma SelectNearestFirstWins(s: seq<Order>, ceiling: real, i: nat)
    requires i < |s| && Assignable(ceiling, s[i])
    requires SelectNearest(s, ceiling).Some?
    requires s[i].deliveryDistance == SelectNearest(s, ceiling).value.deliveryDistance
    ensures SelectNearest(s, ceiling).value in s[..i + 1]
  {
    var available := Available(s, ceiling);
    var before := Filter(s[..i], Unpaid, ceiling);
    assert s == s[..i] + [s[i]] + s[i + 1..];
    FilterAppend(s[..i] + [s[i]], s[i + 1..], Unpaid, ceiling);
    FilterAppend(s[..i], [s[i]], Unpaid, ceiling);
    FilterSingleton(s[i], Unpaid, ceiling);
    assert s[..i + 1] == s[..i] + [s[i]];
    var k := |before|;
    assert available[k] == s[i];
    assert ([available[0]] + available[1..]) == available;
    NearestFromFirstWins(available[0], available[1..], k);
    assert available[..k + 1] == Filter(s[..i + 1], Unpaid, ceiling);
  }
}
