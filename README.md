# Order manager for food delivery: a Dafny model

This project models the order-management logic of a single-page widget for food-delivery
orders. The widget keeps an in-memory list of orders. Each order has an id, a restaurant
name, an item count, a paid flag and a delivery distance in kilometres. The widget lets the
user:

- add an order, after validating the form fields;
- delete an order by id;
- show a table of the stored orders, filtered by payment status ('all', 'paid' or
  'unpaid') and by a maximum distance;
- assign a delivery, which picks the nearest unpaid order within a distance ceiling;
- see statistics (the total, unpaid and paid counts);
- escape order ids and restaurant names before they are put into HTML.

Modules:

- `Orders` (orders.dfy) holds the `Order` record and the table filter `Filter`. The filter
  is written as the source's row callback with three early rejections, and it is proved
  against the policy `Shown`: the status matches and `deliveryDistance <= ceiling`. This
  module also holds the counts and `StatsOf`.
- `Assignment` (assign.dfy) holds the candidate filter `Available` and the left-to-right
  reduce `NearestFrom`, which only replaces the current best on a strictly smaller distance.
  `SelectNearest` returns `None` where the widget reports "No order available".
- `OrderStore` (store.dfy) holds the `Store` class. Its field `orders: seq<Order>` is the
  global list. `Add` and `Delete` are methods that reassign it. They are specified by pure
  functions:
  - `Validate` runs the four checks in source order, and the first failing check names the
    error.
  - `FindIndex` is `findIndex`.
  - `Removed` is the result of the `splice`.

  The class invariant `Valid()` says that every stored order is well formed (non-empty id
  and restaurant name, at least one item, a non-negative distance) and that order ids are
  distinct. The constructor establishes it and both methods preserve it.
- `Html` (escape.dfy) holds `Escape`, the per-character entity substitution. A reference
  decoder, `Unescape`, is used to prove that escaping loses no information.
- `Scenarios` (scenarios.dfy) holds worked examples on small stores and on the four seed
  orders.

Distances are `real`. The source only compares them (`<=`, `<` and `>`), so no
floating-point behaviour matters. Text fields are `string`. They are taken as already
trimmed.

Behaviours worth noting:

- The add checks run in the order empty fields, duplicate id, item count, distance. The
  first failing check decides, so an order with an empty restaurant name and a duplicate id
  is refused for the missing field.
- Delete removes the first order with the id (`findIndex` followed by `splice`). With
  distinct ids this is the only such order.
- Neither the table filter nor the assignment requires the distance ceiling to be
  non-negative.

## Model

| member | source | states |
|---|---|---|
| Orders.Filter | script.js:154-159 | an order is in the table exactly when it is in the store, its status matches the selected filter ('all' matches everything) and its distance is at most the ceiling; the table is never longer than the store |
| Orders.FilterIsSubsequence | script.js:154-159 | the table rows are the store with some orders removed and the rest in store order |
| Orders.FilterAppend | script.js:154-159 | filtering works order by order: the table of a concatenation is the concatenation of the tables |
| Orders.FilterSingleton | script.js:155-158 | a single order is kept exactly when the visibility policy holds of it |
| Orders.FilterAllIsIdentity | script.js:154-159 | with 'all' selected and a ceiling at least every distance, the table is the whole store, in store order |
| Orders.FilterStatusPartition | script.js:155-156 | the 'paid' table and the 'unpaid' table together have as many rows as the 'all' table |
| Orders.CountPaid | script.js:193 | the paid count never exceeds the number of orders |
| Orders.CountUnpaid | script.js:192 | the unpaid count never exceeds the number of orders |
| Orders.CountsPartition | script.js:191-193 | paid count plus unpaid count equals the total |
| Orders.CountPaidIsPaidTable | script.js:192-193 | the paid and unpaid counts equal the sizes of the 'paid' and 'unpaid' tables when the ceiling covers every order |
| Orders.StatsOf | script.js:191-193 | the statistics panel: total is the store size, the paid figure is the paid count and the unpaid figure the unpaid count, paid plus unpaid is the total, and each is at most the total |
| Assignment.Available | script.js:134 | an order is a candidate exactly when it is stored, unpaid and within the ceiling |
| Assignment.NearestFrom | script.js:142-144 | the reduce returns one of its inputs, and that input is no farther than any of them |
| Assignment.SelectNearest | script.js:134-144 | none exactly when no stored order is unpaid and within the ceiling; otherwise a stored, unpaid order within the ceiling that is no farther than every such order |
| Assignment.NearestFromFirstWins | script.js:142-144 | strict `<` in the reduce: any input as near as the result comes at or after the result's position |
| Assignment.SelectNearestFirstWins | script.js:134-144 | ties go to the earliest in store order: a candidate at position i that is as near as the selected order has the selected order at or before position i |
| OrderStore.Validate | script.js:50-68 | an order passes exactly when no check refuses it; on failure the reported check does refuse it and every earlier check (missing field, then duplicate id, then item count, then distance) passes; a passing order is well formed and its id is new |
| OrderStore.AddKeepsIdsUnique | script.js:55-79 | appending an accepted order keeps all ids distinct, and the new id is then present |
| OrderStore.FindIndex | script.js:94 | -1 exactly when no order has the id; otherwise the position of the first order with that id |
| OrderStore.Removed | script.js:94-97 | deleting an absent id changes nothing; deleting a present id removes one order and adds none; every remaining order was stored before |
| OrderStore.RemovedFirstMatch | script.js:94-97 | deleting removes exactly the first order with the id; the others keep their relative order |
| OrderStore.RemovedUnique | script.js:93-102 | with distinct ids, after a delete the ids stay distinct and the deleted id is gone |
| OrderStore.Store.constructor | script.js:2-7 | the store starts with the four seed orders, which are well formed and have distinct ids |
| OrderStore.Store.Add | script.js:50-79 | returns the first failing check and leaves the store unchanged, or appends exactly the given order at the end with the earlier orders unchanged; the invariant (well-formed orders, distinct ids) is preserved |
| OrderStore.Store.Delete | script.js:93-102 | the new store is the old one with the first order holding the id spliced out; an absent id is a no-op; the invariant (well-formed orders, distinct ids) is preserved and the id is then absent |
| Html.Escape | script.js:213-222 | the escaped text contains no `<`, `>`, `"` or `'` and is no shorter than the input |
| Html.EscapeAppend | script.js:221 | escaping is applied character by character: it distributes over concatenation |
| Html.EscapePlainText | script.js:213-222 | text with none of `& < > " '` is returned unchanged |
| Html.UnescapeEscapeChar | script.js:214-220 | each character's replacement (`&amp;`, `&lt;`, `&gt;`, `&quot;`, `&#039;` or the character itself) decodes back to that character |
| Html.UnescapeEscape | script.js:213-222 | escaping is lossless: decoding the five entities gives back the original text |
| Scenarios.AssignNearestUnpaid | script.js:134-144 | of unpaid orders at 5.0 and 3.0 km and a paid one at 1.0 km, ceiling 10 assigns the 3.0 km order and ceiling 2 assigns nothing |
| Scenarios.AssignTieGoesToFirst | script.js:142-144 | of two unpaid orders at the same distance, the first stored is assigned |
| Scenarios.StatsWithoutFirstSeed | script.js:191-193 | the seed orders without ORD001 give total 3, unpaid 2, paid 1 |
| Scenarios.DeleteFromSeededStore | script.js:93-102 | deleting ORD001 from the seeded store, then deleting it again, leaves statistics 3, 2, 1 |

## Left out

- DOM and events are not modelled. This covers element lookups, listener wiring,
  `showOutput`, the row templating into `innerHTML`, the empty-state toggle, the form reset
  and the range-label updates. They are presentation side effects. The messages that
  `showOutput` displays on a refused add become the `AddError` constructors.
- Input coercion is not modelled: `trim`, `parseInt` and `parseFloat`. The model takes the
  fields already trimmed and parsed. A `NaN` from the parsers passes the source's `< 1` and
  `< 0` checks, because every comparison with `NaN` is false. That is floating-point
  behaviour, and the model has no `NaN`.
- The global filter state (`currentFilter`, `maxDistanceFilter`) becomes the explicit
  parameters of `Filter`. The model has three status values. In the source, any other
  `data-filter` string would behave like 'all'.
- IEEE floating-point semantics of distances are not modelled. Distances are `real`, because
  the source only compares them.
- The assignment message text (order id, restaurant, distance, items) is not modelled. The
  model returns the selected order itself.
- `Html.Escape` does not state that every `&` in the output starts an entity. Instead,
  losslessness is stated through `Unescape`.
