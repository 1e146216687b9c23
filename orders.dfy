/** The order records of the delivery widget and the pure queries over the order list:
    the status/distance filter of the table and the statistics panel. */
module Orders {

  datatype Option<+T> = None | Some(value: T)

  /** One delivery order. Distances are kilometres; the widget only ever compares them. */
  datatype Order = Order(
    orderId: string,
    restaurantName: string,
    itemCount: int,
    isPaid: bool,
    deliveryDistance: real)

  /** The three status buttons above the table ('all', 'paid', 'unpaid'). */
  datatype StatusFilter = All | Paid | Unpaid

  /** The status half of the visibility policy. */
  predicate StatusMatches(f: StatusFilter, o: Order)
  {
    match f
    case All => true
    case Paid => o.isPaid
    case Unpaid => !o.isPaid
  }

  /** The visibility policy: the status matches and the distance is within the inclusive ceiling. */
  predicate Shown(f: StatusFilter, ceiling: real, o: Order)
  {
    StatusMatches(f, o) && o.deliveryDistance <= ceiling
  }

  /** The row callback of the table filter, written as its three early rejections. */
  predicate RowKept(f: StatusFilter, ceiling: real, o: Order)
  {
    if f == Paid && !o.isPaid then false
    else if f == Unpaid && o.isPaid then false
    else if o.deliveryDistance > ceiling then false
    else true
  }

  /** The rows of the table: the stored orders the row callback keeps, in store order. */
  function Filter(s: seq<Order>, f: StatusFilter, ceiling: real): (r: seq<Order>)
    ensures |r| <= |s|
    ensures forall o :: o in r <==> o in s && Shown(f, ceiling, o)
  {
    if s == [] then []
    else if RowKept(f, ceiling, s[0]) then [s[0]] + Filter(s[1..], f, ceiling)
    else Filter(s[1..], f, ceiling)
  }

  /** r is s with some elements deleted and the rest in their original order. */
  ghost predicate IsSubsequence<T>(r: seq<T>, s: seq<T>)
    decreases |s|
  {
    if r == [] then true
    else if s == [] then false
    else (r[0] == s[0] && IsSubsequence(r[1..], s[1..])) || IsSubsequence(r, s[1..])
  }

  /** The table never reorders: its rows are a subsequence of the store. */
  lemma {:induction false} FilterIsSubsequence(s: seq<Order>, f: StatusFilter, ceiling: real)
    ensures IsSubsequence(Filter(s, f, ceiling), s)
  {
    if s != [] {
      var r := Filter(s, f, ceiling);
      FilterIsSubsequence(s[1..], f, ceiling);
      if RowKept(f, ceiling, s[0]) {
        assert r[0] == s[0] && r[1..] == Filter(s[1..], f, ceiling);
      }
    }
  }

  /** Filtering a concatenation filters each part: together with FilterSingleton this
      fixes every row of the table, duplicates and positions included. */
  lemma {:induction false} FilterAppend(a: seq<Order>, b: seq<Order>, f: StatusFilter, ceiling: real)
    ensures Filter(a + b, f, ceiling) == Filter(a, f, ceiling) + Filter(b, f, ceiling)
  {
    if a == [] {
      assert a + b == b;
    } else {
      assert (a + b)[0] == a[0] && (a + b)[1..] == a[1..] + b;
      FilterAppend(a[1..], b, f, ceiling);
    }
  }

  /** A single order is a row exactly when the visibility policy holds of it. */
  lemma FilterSingleton(o: Order, f: StatusFilter, ceiling: real)
    ensures Filter([o], f, ceiling) == if Shown(f, ceiling, o) then [o] else []
  {
    assert [o][1..] == [];
  }

  /** With 'all' selected and a ceiling above every distance, the table shows the whole store. */
  lemma {:induction false} FilterAllIsIdentity(s: seq<Order>, ceiling: real)
    requires forall o :: o in s ==> o.deliveryDistance <= ceiling
    ensures Filter(s, All, ceiling) == s
  {
    if s != [] {
      assert s[0] in s;
      FilterAllIsIdentity(s[1..], ceiling);
      assert [s[0]] + s[1..] == s;
    }
  }

  /** The 'paid' and 'unpaid' tables split the 'all' table between them. */
  lemma {:induction false} FilterStatusPartition(s: seq<Order>, ceiling: real)
    ensures |Filter(s, Paid, ceiling)| + |Filter(s, Unpaid, ceiling)| == |Filter(s, All, ceiling)|
  {
    if s != [] {
      FilterStatusPartition(s[1..], ceiling);
    }
  }

  /** The number of paid orders (the length of the store filtered on isPaid). */
  function CountPaid(s: seq<Order>): (n: nat)
    ensures n <= |s|
  {
    if s == [] then 0 else (if s[0].isPaid then 1 else 0) + CountPaid(s[1..])
  }

  /** The number of unpaid orders (the length of the store filtered on !isPaid). */
  function CountUnpaid(s: seq<Order>): (n: nat)
    ensures n <= |s|
  {
    if s == [] then 0 else (if s[0].isPaid then 0 else 1) + CountUnpaid(s[1..])
  }

  /** Every order is either paid or unpaid, never both. */
  lemma {:induction false} CountsPartition(s: seq<Order>)
    ensures CountPaid(s) + CountUnpaid(s) == |s|
  {
    if s != [] {
      CountsPartition(s[1..]);
    }
  }

  /** The paid count is the size of the 'paid' table once the ceiling covers every order. */
  lemma {:induction false} CountPaidIsPaidTable(s: seq<Order>, ceiling: real)
    requires forall o :: o in s ==> o.deliveryDistance <= ceiling
    ensures CountPaid(s) == |Filter(s, Paid, ceiling)|
    ensures CountUnpaid(s) == |Filter(s, Unpaid, ceiling)|
  {
    if s != [] {
      assert s[0] in s;
      CountPaidIsPaidTable(s[1..], ceiling);
    }
  }

  /** The three figures of the statistics panel. */
  datatype Stats = Stats(total: nat, unpaid: nat, paid: nat)

  function StatsOf(s: seq<Order>): (st: Stats)
    ensures st.total == |s|
    ensures st.paid == CountPaid(s) && st.unpaid == CountUnpaid(s)
    ensures st.paid + st.unpaid == st.total
    ensures st.paid <= st.total && st.unpaid <= st.total
  {
    CountsPartition(s);
    Stats(|s|, CountUnpaid(s), CountPaid(s))
  }
}
