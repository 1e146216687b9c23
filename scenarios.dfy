/** Worked examples of the widget's behaviour on small stores. */
module Scenarios {
  import opened Orders
  import opened Assignment
  import opened OrderStore

  /** Among two unpaid orders the nearer is assigned; a paid order is never a candidate,
      and a ceiling below every unpaid distance leaves nothing to assign. */
  lemma AssignNearestUnpaid()
    ensures var s := [ Order("A", "R", 1, false, 5.0), Order("B", "R", 1, false, 3.0),
                       Order("C", "R", 1, true, 1.0) ];
            SelectNearest(s, 10.0) == Some(s[1]) && SelectNearest(s, 2.0) == None
  {
    var s := [ Order("A", "R", 1, false, 5.0), Order("B", "R", 1, false, 3.0),
               Order("C", "R", 1, true, 1.0) ];
    assert s[1] in s && Assignable(10.0, s[1]);
  }

  /** Two equally near unpaid orders: the one stored first is assigned. */
  lemma AssignTieGoesToFirst()
    ensures var s := [ Order("X", "R", 1, true, 0.5), Order("A", "R", 1, false, 2.0),
                       Order("B", "R", 1, false, 2.0) ];
            SelectNearest(s, 10.0) == Some(s[1])
  {
    var s := [ Order("X", "R", 1, true, 0.5), Order("A", "R", 1, false, 2.0),
               Order("B", "R", 1, false, 2.0) ];
    assert s[1] in s && Assignable(10.0, s[1]);
    SelectNearestFirstWins(s, 10.0, 1);
    assert s[..2] == [s[0], s[1]];
  }

  /** The statistics panel for the seeded store without ORD001: three orders, two unpaid,
      one paid. */
  lemma StatsWithoutFirstSeed()
    ensures StatsOf(InitialOrders()[1..]) == Stats(3, 2, 1)
  {
    var rest := InitialOrders()[1..];
    assert CountPaid(rest[2..]) == 1 && CountUnpaid(rest[2..]) == 0;
    assert CountPaid(rest[1..]) == 1 && CountUnpaid(rest[1..]) == 1;
    assert CountPaid(rest) == 1 && CountUnpaid(rest) == 2;
  }

  /** Starting from the seeded store, deleting ORD001 removes the first seed order; a repeated
      delete of the same id changes nothing. */
  method DeleteFromSeededStore() returns (stats: Stats)
    ensures stats == Stats(3, 2, 1)
  {
    var store := new Store();
    assert InitialOrders()[0].orderId == "ORD001";
    store.Delete("ORD001");
    var rest := store.orders;
    assert rest == InitialOrders()[1..];
    store.Delete("ORD001");
    assert store.orders == rest;
    StatsWithoutFirstSeed();
    stats := StatsOf(store.orders);
  }
}
