/** The order store: the one list of orders, changed only by adding and deleting. */
module OrderStore {
  import opened Orders

  /** Why an add was refused, one constructor per validation message. */
  datatype AddError = MissingField | DuplicateId | ItemCountTooSmall | NegativeDistance

  /** The result of validating an add. */
  datatype Outcome = Pass | Fail(error: AddError)

  /** Some stored order carries this id (the `some` search of the add handler). */
  predicate HasId(s: seq<Order>, id: string)
  {
    exists i :: 0 <= i < |s| && s[i].orderId == id
  }

  /** No two stored orders share an id. */
  ghost predicate UniqueIds(s: seq<Order>)
  {
    forall i, j :: 0 <= i < j < |s| ==> s[i].orderId != s[j].orderId
  }

  /** The record invariant of the data model: both text fields present, at least one item
      and a distance that is not negative. */
  predicate WellFormed(o: Order)
  {
    o.orderId != [] && o.restaurantName != [] && o.itemCount >= 1 && o.deliveryDistance >= 0.0
  }

  /** The position of each check in the order the add handler runs them. */
  function Rank(e: AddError): nat
  {
    match e
    case MissingField => 0
    case DuplicateId => 1
    case ItemCountTooSmall => 2
    case NegativeDistance => 3
  }

  /** The condition under which each check refuses the new order. */
  predicate Refuses(e: AddError, s: seq<Order>, o: Order)
  {
    match e
    case MissingField => o.orderId == [] || o.restaurantName == []
    case DuplicateId => HasId(s, o.orderId)
    case ItemCountTooSmall => o.itemCount < 1
    case NegativeDistance => o.deliveryDistance < 0.0
  }

  /** The checks of the add handler, in source order: the first one that refuses decides. */
  function Validate(s: seq<Order>, o: Order): (r: Outcome)
    ensures r == Pass <==> forall e :: !Refuses(e, s, o)
    ensures r.Fail? ==> Refuses(r.error, s, o)
    ensures r.Fail? ==> forall e :: Rank(e) < Rank(r.error) ==> !Refuses(e, s, o)
    ensures r == Pass ==> WellFormed(o) && !HasId(s, o.orderId)
  {
    assert Rank(MissingField) == 0 && Rank(DuplicateId) == 1;
    assert Rank(ItemCountTooSmall) == 2 && Rank(NegativeDistance) == 3;
    if o.orderId == [] || o.restaurantName == [] then
      assert Refuses(MissingField, s, o);
      Fail(MissingField)
    else if HasId(s, o.orderId) then
      assert Refuses(DuplicateId, s, o);
      Fail(DuplicateId)
    else if o.itemCount < 1 then
      assert Refuses(ItemCountTooSmall, s, o);
      Fail(ItemCountTooSmall)
    else if o.deliveryDistance < 0.0 then
      assert Refuses(NegativeDistance, s, o);
      Fail(NegativeDistance)
    else
      assert !Refuses(MissingField, s, o) && !Refuses(DuplicateId, s, o);
      assert !Refuses(ItemCountTooSmall, s, o) && !Refuses(NegativeDistance, s, o);
      Pass
  }

  /** An accepted order is new to the store, so appending it keeps the ids distinct. */
  lemma AddKeepsIdsUnique(s: seq<Order>, o: Order)
    requires UniqueIds(s) && Validate(s, o) == Pass
    ensures UniqueIds(s + [o]) && HasId(s + [o], o.orderId)
  {
    assert !Refuses(DuplicateId, s, o);
    assert (s + [o])[|s|] == o;
  }

  /** The first position holding the id, or -1 (`findIndex` on the id). */
  function FindIndex(s: seq<Order>, id: string): (r: int)
    ensures -1 <= r < |s|
    ensures r == -1 <==> !HasId(s, id)
    ensures r >= 0 ==> s[r].orderId == id && forall j :: 0 <= j < r ==> s[j].orderId != id
  {
    if s == [] then -1
    else if s[0].orderId == id then 0
    else
      var k := FindIndex(s[1..], id);
      assert HasId(s, id) ==> HasId(s[1..], id) by {
        if HasId(s, id) {
          var i :| 0 <= i < |s| && s[i].orderId == id;
          assert s[1..][i - 1].orderId == id;
        }
      }
      if k == -1 then -1 else k + 1
  }

  /** The store after deleting by id: the first matching entry spliced out, or no change. */
  function Removed(s: seq<Order>, id: string): (r: seq<Order>)
    ensures !HasId(s, id) ==> r == s
    ensures HasId(s, id) ==> |r| == |s| - 1 && multiset(r) < multiset(s)
    ensures forall o :: o in r ==> o in s
  {
    var i := FindIndex(s, id);
    if i == -1 then s
    else
      assert s == s[..i] + [s[i]] + s[i + 1..];
      s[..i] + s[i + 1..]
  }

  /** Deleting a present id takes out exactly its first occurrence; the others keep their order. */
  lemma RemovedFirstMatch(s: seq<Order>, id: string, i: nat)
    requires i < |s| && s[i].orderId == id
    requires forall j :: 0 <= j < i ==> s[j].orderId != id
    ensures Removed(s, id) == s[..i] + s[i + 1..]
    ensures |Removed(s, id)| == |s| - 1
    ensures multiset(Removed(s, id)) + multiset{s[i]} == multiset(s)
  {
    assert HasId(s, id);
    assert s == s[..i] + [s[i]] + s[i + 1..];
  }

  /** Position k of s with position i spliced out is position k or k + 1 of s. */
  lemma SpliceAt(s: seq<Order>, i: nat, k: nat)
    requires i < |s| && k < |s| - 1
    ensures (s[..i] + s[i + 1..])[k] == s[if k < i then k else k + 1]
  {
  }

  /** With distinct ids, a delete keeps them distinct and leaves the id absent. */
  lemma RemovedUnique(s: seq<Order>, id: string)
    requires UniqueIds(s)
    ensures UniqueIds(Removed(s, id))
    ensures !HasId(Removed(s, id), id)
  {
    var i := FindIndex(s, id);
    if i != -1 {
      var r := s[..i] + s[i + 1..];
      assert Removed(s, id) == r;
      forall k | 0 <= k < |r|
        ensures r[k].orderId != id
      {
        SpliceAt(s, i, k);
      }
      forall k, l | 0 <= k < l < |r|
        ensures r[k].orderId != r[l].orderId
      {
        SpliceAt(s, i, k);
        SpliceAt(s, i, l);
      }
    }
  }

  /** The four orders the widget starts with. */
  function InitialOrders(): (s: seq<Order>)
  {
    [ Order("ORD001", "Pizza Palace", 2, true, 3.5),
      Order("ORD002", "Burger Barn", 1, false, 2.1),
      Order("ORD003", "Sushi Express", 3, false, 5.8),
      Order("ORD004", "Taco Time", 2, true, 1.2) ]
  }

  class Store {
    var orders: seq<Order>

    /** The store invariant of the data model: every stored order is well formed and
        the ids are distinct. */
    ghost predicate Valid()
      reads this
    {
      UniqueIds(orders) && forall o :: o in orders ==> WellFormed(o)
    }

    constructor ()
      ensures orders == InitialOrders() && Valid()
    {
      orders := InitialOrders();
    }

    /** The add handler on already trimmed and parsed form fields. */
    method Add(orderId: string, restaurantName: string, itemCount: int, isPaid: bool,
               deliveryDistance: real) returns (r: Outcome)
      requires Valid()
      modifies this
      ensures Valid()
      ensures r == Validate(old(orders), Order(orderId, restaurantName, itemCount, isPaid, deliveryDistance))
      ensures r == Pass ==>
        orders == old(orders) + [Order(orderId, restaurantName, itemCount, isPaid, deliveryDistance)]
      ensures r.Fail? ==> orders == old(orders)
    {
      var o := Order(orderId, restaurantName, itemCount, isPaid, deliveryDistance);
      r := Validate(orders, o);
      if r == Pass {
        AddKeepsIdsUnique(orders, o);
        orders := orders + [o];
      }
    }

    /** The delete handler: splice out the first order with the id, if there is one. */
    method Delete(id: string)
      requires Valid()
      modifies this
      ensures Valid() && !HasId(orders, id)
      ensures orders == Removed(old(orders), id)
      ensures !HasId(old(orders), id) ==> orders == old(orders)
      ensures HasId(old(orders), id) ==> |orders| == |old(orders)| - 1
    {
      RemovedUnique(orders, id);
      var i := FindIndex(orders, id);
      if i != -1 {
        orders := orders[..i] + orders[i + 1..];
      }
    }
  }
}
